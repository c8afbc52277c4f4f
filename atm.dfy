/**
 * The account rules of the ATM program: a table of users, the user who is
 * logged in, and the history of the session's transactions. Amounts are
 * exact reals; an amount that does not parse is the explicit value `NaN`.
 */
module Atm {
  import opened Wrappers

  datatype User = User(accountNumber: string, pin: string, name: string, balance: real)

  /** What `parseFloat` makes of the amount typed in. */
  datatype Amount = NaN | Num(value: real)

  /** The entries `transactionHistory` receives, one per kind of message. */
  datatype Entry = Deposited(amount: real) | Withdrew(amount: real) | Transferred(amount: real, to: string)

  datatype LoginOutcome = AccountNotFound | IncorrectPin | Success(user: nat)

  datatype TransferOutcome = RecipientNotFound | InvalidAmount | Sent

  /** The test that rejects an amount: `isNaN(amount) || amount <= 0`. */
  predicate Invalid(amount: Amount) {
    amount.NaN? || amount.value <= 0.0
  }

  /** `users.find(u => u.accountNumber === accountNumber)`, as the position of
      the first such user, or -1. */
  function FindAccount(users: seq<User>, accountNumber: string): (k: int)
    ensures -1 <= k < |users|
    ensures k == -1 <==> forall j :: 0 <= j < |users| ==> users[j].accountNumber != accountNumber
    ensures k >= 0 ==>
      users[k].accountNumber == accountNumber &&
      forall j :: 0 <= j < k ==> users[j].accountNumber != accountNumber
  {
    if users == [] then -1
    else if users[0].accountNumber == accountNumber then 0
    else
      var k := FindAccount(users[1..], accountNumber);
      assert forall j :: 0 < j < |users| ==> users[j] == users[1..][j - 1];
      if k == -1 then -1 else k + 1
  }

  /** The money held over all accounts. */
  function Total(users: seq<User>): real {
    if users == [] then 0.0 else users[0].balance + Total(users[1..])
  }

  /** Changing one balance by `delta` changes the total by `delta`. */
  lemma {:induction false} AdjustChangesTotal(users: seq<User>, i: nat, delta: real)
    requires i < |users|
    ensures Total(users[i := users[i].(balance := users[i].balance + delta)]) == Total(users) + delta
  {
    var r := users[i := users[i].(balance := users[i].balance + delta)];
    if i > 0 {
      AdjustChangesTotal(users[1..], i - 1, delta);
      assert r[1..] == users[1..][i - 1 := users[1..][i - 1].(balance := users[1..][i - 1].balance + delta)];
    } else {
      assert r[1..] == users[1..];
    }
  }

  /** `users[i].balance += delta`: only that balance moves, and the total
      moves with it. */
  function Adjusted(users: seq<User>, i: nat, delta: real): (r: seq<User>)
    requires i < |users|
    ensures |r| == |users| && r[i].balance == users[i].balance + delta
    ensures r[i].accountNumber == users[i].accountNumber && r[i].pin == users[i].pin && r[i].name == users[i].name
    ensures forall j :: 0 <= j < |users| && j != i ==> r[j] == users[j]
    ensures Total(r) == Total(users) + delta
  {
    AdjustChangesTotal(users, i, delta);
    users[i := users[i].(balance := users[i].balance + delta)]
  }

  /** A transfer takes `amount` from one account and gives it to another
      (possibly the same one): the total is unchanged. */
  lemma TransferPreservesTotal(users: seq<User>, from: nat, to: nat, amount: real)
    requires from < |users| && to < |users|
    ensures Total(Adjusted(Adjusted(users, from, -amount), to, amount)) == Total(users)
  {
  }

  /** A self-transfer debits and credits the same balance: nothing changes. */
  lemma SelfTransferChangesNothing(users: seq<User>, i: nat, amount: real)
    requires i < |users|
    ensures Adjusted(Adjusted(users, i, -amount), i, amount) == users
  {
    var r := Adjusted(Adjusted(users, i, -amount), i, amount);
    assert r[i] == users[i];
  }

  /** `transactionHistory.slice(-5)`: the last five entries, or all of them
      when there are fewer. */
  function LastFive(history: seq<Entry>): (r: seq<Entry>)
    ensures |r| <= 5 && |r| <= |history| && (|history| <= 5 ==> r == history)
    ensures |history| >= 5 ==> |r| == 5
    ensures r == history[|history| - |r|..]
  {
    if |history| <= 5 then history else history[|history| - 5..]
  }

  class Session {
    var users: seq<User>
    var currentUser: Option<nat>
    var transactionHistory: seq<Entry>

    /** `currentUser` is one of the users of the table (the program holds the
        same object, so changing its balance changes the table). */
    ghost predicate Valid()
      reads this
    {
      currentUser.Some? ==> currentUser.value < |users|
    }

    /** The table read at start-up; nobody is logged in. */
    constructor(table: seq<User>)
      ensures Valid()
      ensures users == table && currentUser == None && transactionHistory == []
    {
      users := table;
      currentUser := None;
      transactionHistory := [];
    }

    /** An unknown account or a wrong PIN is refused with nothing changed;
        otherwise the first user with that account number is logged in. */
    method Login(accountNumber: string, pin: string) returns (outcome: LoginOutcome)
      requires Valid()
      modifies this
      ensures Valid()
      ensures users == old(users) && transactionHistory == old(transactionHistory)
      ensures var k := FindAccount(users, accountNumber);
        (k == -1 ==> outcome == AccountNotFound && currentUser == old(currentUser)) &&
        (k >= 0 && users[k].pin != pin ==> outcome == IncorrectPin && currentUser == old(currentUser)) &&
        (k >= 0 && users[k].pin == pin ==> outcome == Success(k) && currentUser == Some(k))
    {
      var k := FindAccount(users, accountNumber);
      if k == -1 {
        return AccountNotFound;
      }
      if users[k].pin == pin {
        currentUser := Some(k);
        return Success(k);
      } else {
        return IncorrectPin;
      }
    }

    /** An amount that is NaN or not positive is refused with nothing changed;
        otherwise the balance grows by exactly the amount and one entry is
        recorded. */
    method Deposit(amount: Amount) returns (ok: bool)
      requires Valid() && currentUser.Some?
      modifies this
      ensures Valid() && currentUser == old(currentUser)
      ensures ok <==> !Invalid(amount)
      ensures !ok ==> users == old(users) && transactionHistory == old(transactionHistory)
      ensures ok ==>
        users == Adjusted(old(users), currentUser.value, amount.value) &&
        transactionHistory == old(transactionHistory) + [Deposited(amount.value)]
    {
      if Invalid(amount) {
        return false;
      }
      users := Adjusted(users, currentUser.value, amount.value);
      transactionHistory := transactionHistory + [Deposited(amount.value)];
      return true;
    }

    /** An amount that is NaN, not positive or above the balance is refused
        with nothing changed; otherwise the balance drops by exactly the
        amount, and cannot drop below zero. */
    method Withdraw(amount: Amount) returns (ok: bool)
      requires Valid() && currentUser.Some?
      modifies this
      ensures Valid() && currentUser == old(currentUser)
      ensures ok <==> !Invalid(amount) && amount.value <= old(users)[currentUser.value].balance
      ensures !ok ==> users == old(users) && transactionHistory == old(transactionHistory)
      ensures ok ==>
        users == Adjusted(old(users), currentUser.value, -amount.value) &&
        users[currentUser.value].balance >= 0.0 &&
        transactionHistory == old(transactionHistory) + [Withdrew(amount.value)]
    {
      if Invalid(amount) {
        return false;
      }
      if amount.value > users[currentUser.value].balance {
        return false;
      }
      users := Adjusted(users, currentUser.value, -amount.value);
      transactionHistory := transactionHistory + [Withdrew(amount.value)];
      return true;
    }

    /** An unknown recipient, or an amount that is NaN, not positive or above
        the balance, is refused with nothing changed; otherwise the amount
        leaves the sender and reaches the recipient, and the money held over
        all accounts is the same. */
    method Transfer(recipientAccount: string, amount: Amount) returns (outcome: TransferOutcome)
      requires Valid() && currentUser.Some?
      modifies this
      ensures Valid() && currentUser == old(currentUser)
      ensures var r := FindAccount(old(users), recipientAccount);
        (r == -1 ==> outcome == RecipientNotFound) &&
        (r >= 0 && (Invalid(amount) || amount.value > old(users)[currentUser.value].balance) ==> outcome == InvalidAmount) &&
        (r >= 0 && !Invalid(amount) && amount.value <= old(users)[currentUser.value].balance ==> outcome == Sent) &&
        (outcome.Sent? ==>
          users == Adjusted(Adjusted(old(users), currentUser.value, -amount.value), r, amount.value) &&
          Total(users) == Total(old(users)) &&
          transactionHistory == old(transactionHistory) + [Transferred(amount.value, recipientAccount)])
      ensures !outcome.Sent? ==> users == old(users) && transactionHistory == old(transactionHistory)
    {
      var r := FindAccount(users, recipientAccount);
      if r == -1 {
        return RecipientNotFound;
      }
      if Invalid(amount) || amount.value > users[currentUser.value].balance {
        return InvalidAmount;
      }
      ghost var before := users;
      users := Adjusted(users, currentUser.value, -amount.value);
      users := Adjusted(users, r, amount.value);
      TransferPreservesTotal(before, currentUser.value, r, amount.value);
      transactionHistory := transactionHistory + [Transferred(amount.value, users[r].accountNumber)];
      return Sent;
    }

    /** The mini statement lists at most the last five entries. */
    function MiniStatement(): (r: seq<Entry>)
      reads this
      ensures |r| <= 5 && |r| <= |transactionHistory| && r == transactionHistory[|transactionHistory| - |r|..]
      ensures |transactionHistory| <= 5 ==> r == transactionHistory
      ensures |transactionHistory| >= 5 ==> |r| == 5
    {
      LastFive(transactionHistory)
    }

    /** Nobody is logged in and the history is empty; the table is kept. */
    method Logout()
      modifies this
      ensures Valid()
      ensures currentUser == None && transactionHistory == [] && users == old(users)
    {
      currentUser := None;
      transactionHistory := [];
    }
  }
}
