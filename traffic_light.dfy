/**
 * The traffic light program: a light cycling RED, GREEN, YELLOW, a
 * pedestrian button that forces RED, and the counters of how often each
 * light came on and how often the button was pressed.
 */
module TrafficLight {

  datatype Color = RED | GREEN | YELLOW

  /** `STATES`, in cycle order. */
  const STATES: seq<Color> := [RED, GREEN, YELLOW]

  /** `STATES.indexOf(color)`; every color is listed, so it is never -1. */
  function IndexOf(color: Color): (i: nat)
    ensures i < |STATES| && STATES[i] == color
  {
    match color
    case RED => 0
    case GREEN => 1
    case YELLOW => 2
  }

  /** `STATES[(currentIndex + 1) % STATES.length]`. */
  function Successor(color: Color): (next: Color)
    ensures next in STATES && next != color
  {
    STATES[(IndexOf(color) + 1) % |STATES|]
  }

  /** The cycle is RED, GREEN, YELLOW and back to RED. */
  lemma SuccessorCycle()
    ensures Successor(RED) == GREEN && Successor(GREEN) == YELLOW && Successor(YELLOW) == RED
  {
  }

  /** `n` changes of the light from `color`. */
  function Advance(color: Color, n: nat): Color {
    if n == 0 then color else Successor(Advance(color, n - 1))
  }

  /** Three changes bring the light back to where it was, so the light after
      `n` changes depends only on `n` modulo 3. */
  lemma {:induction false} AdvancePeriodic(color: Color, n: nat)
    ensures Advance(color, n + 3) == Advance(color, n)
  {
    if n == 0 {
      SuccessorCycle();
      assert Advance(color, 3) == Successor(Successor(Successor(color)));
    } else {
      AdvancePeriodic(color, n - 1);
    }
  }

  /** The shared `statistics` object. */
  class Statistics {
    var red: int
    var green: int
    var yellow: int
    var pedestrianRequests: int

    /** What `loadStatistics` returns when there is no saved file. */
    constructor Default()
      ensures red == 0 && green == 0 && yellow == 0 && pedestrianRequests == 0
    {
      red, green, yellow, pedestrianRequests := 0, 0, 0, 0;
    }

    /** `statistics[color]`. */
    function Count(color: Color): int
      reads this
    {
      match color
      case RED => red
      case GREEN => green
      case YELLOW => yellow
    }

    /** `statistics[color] += 1`. */
    method Increment(color: Color)
      modifies this
      ensures Count(color) == old(Count(color)) + 1
      ensures forall c :: c != color ==> Count(c) == old(Count(c))
      ensures pedestrianRequests == old(pedestrianRequests)
    {
      match color
      case RED => red := red + 1;
      case GREEN => green := green + 1;
      case YELLOW => yellow := yellow + 1;
    }
  }

  class Light {
    var state: Color
    var running: bool

    /** A new light shows RED and is not in automatic mode. */
    constructor()
      ensures state == RED && !running
    {
      state := RED;
      running := false;
    }

    /** The light moves to the next color of the cycle and only that color's
        counter goes up, by one. */
    method NextState(statistics: Statistics)
      modifies this, statistics
      ensures state == Successor(old(state)) && running == old(running)
      ensures forall c :: statistics.Count(c) == old(statistics.Count(c)) + (if c == state then 1 else 0)
      ensures statistics.pedestrianRequests == old(statistics.pedestrianRequests)
    {
      var currentIndex := IndexOf(state);
      state := STATES[(currentIndex + 1) % |STATES|];
      statistics.Increment(state);
    }

    /** Automatic mode is switched off; the light is unchanged. */
    method StopAutoMode()
      modifies this
      ensures !running && state == old(state)
    {
      running := false;
    }

    /** The light goes to RED from any color; only the pedestrian counter goes
        up, not the RED counter. */
    method PedestrianCrossing(statistics: Statistics)
      modifies this, statistics
      ensures state == RED && running == old(running)
      ensures statistics.pedestrianRequests == old(statistics.pedestrianRequests) + 1
      ensures forall c :: statistics.Count(c) == old(statistics.Count(c))
    {
      state := RED;
      statistics.pedestrianRequests := statistics.pedestrianRequests + 1;
    }
  }
}
