/** The observatory's shared view state: the year on display, the active
    layer, playback and the user's selection, with the operations the
    controls call.  The year always stays within [MIN_YEAR, MAX_YEAR]. */
module ClimateStore {
  import opened Types
  import opened Constants

  /** Playback speeds, in years per second. */
  type PlaybackSpeed = s: int | s == 1 || s == 2 || s == 4 witness 1

  /** One year forward or one year back. */
  type Direction = d: int | d == 1 || d == -1 witness 1

  const INITIAL_YEAR: int := 2000

  /** Number of years in the playable range. */
  const YEAR_COUNT: nat := (MAX_YEAR - MIN_YEAR + 1) as nat

  /** Math.max(MIN_YEAR, Math.min(MAX_YEAR, n)): the nearest playable year. */
  function ClampYear(n: int): (y: int)
    ensures MIN_YEAR <= y <= MAX_YEAR
    ensures MIN_YEAR <= n <= MAX_YEAR ==> y == n
    ensures n < MIN_YEAR ==> y == MIN_YEAR
    ensures n > MAX_YEAR ==> y == MAX_YEAR
  {
    var upper := if MAX_YEAR <= n then MAX_YEAR else n;
    if MIN_YEAR >= upper then MIN_YEAR else upper
  }

  /** The year after step(direction): one year on when that stays in range,
      back to the first year when stepping forward past the last, and no
      change when stepping back before the first. */
  function StepYear(year: int, direction: Direction): (y: int)
    ensures MIN_YEAR <= year <= MAX_YEAR ==> MIN_YEAR <= y <= MAX_YEAR
    ensures MIN_YEAR <= year + direction <= MAX_YEAR ==> y == year + direction
    ensures year == MAX_YEAR && direction == 1 ==> y == MIN_YEAR
    ensures year == MIN_YEAR && direction == -1 ==> y == year
  {
    var newYear := year + direction;
    if MIN_YEAR <= newYear <= MAX_YEAR then ClampYear(newYear)
    else if direction > 0 then ClampYear(MIN_YEAR)
    else year
  }

  /** The year after `ticks` forward steps, as auto-play produces them. */
  function Advance(year: int, ticks: nat): int
    decreases ticks
  {
    if ticks == 0 then year else Advance(StepYear(year, 1), ticks - 1)
  }

  /** Auto-play cycles through the range: after k ticks the year is k places
      further round the circle of playable years. */
  lemma {:induction false} AdvanceCycles(year: int, ticks: nat)
    requires MIN_YEAR <= year <= MAX_YEAR
    ensures Advance(year, ticks) == MIN_YEAR + (year - MIN_YEAR + ticks) % YEAR_COUNT
    decreases ticks
  {
    if ticks > 0 {
      var next := StepYear(year, 1);
      AdvanceCycles(next, ticks - 1);
      if year == MAX_YEAR {
        assert next == MIN_YEAR;
        assert year - MIN_YEAR + ticks == (ticks - 1) + YEAR_COUNT;
      } else {
        assert next - MIN_YEAR + ticks - 1 == year - MIN_YEAR + ticks;
      }
    }
  }

  /** A full cycle of auto-play returns to the year it started from. */
  lemma PlaybackIsPeriodic(year: int)
    requires MIN_YEAR <= year <= MAX_YEAR
    ensures Advance(year, YEAR_COUNT) == year
  {
    AdvanceCycles(year, YEAR_COUNT);
  }

  /** Auto-play reaches every playable year, within less than one cycle. */
  lemma PlaybackReachesEveryYear(year: int, target: int)
    requires MIN_YEAR <= year <= MAX_YEAR && MIN_YEAR <= target <= MAX_YEAR
    ensures Advance(year, ((target - year) % YEAR_COUNT) as nat) == target
  {
    var k := (target - year) % YEAR_COUNT;
    if target >= year {
      assert k == target - year;
    } else {
      assert k == target - year + YEAR_COUNT;
    }
    AdvanceCycles(year, k as nat);
  }

  /** ClimateProvider's state. The fetched point list, its loading flag and
      the timers live outside the model. */
  class ClimateProvider {
    var year: int
    var layer: Layer
    var isPlaying: bool
    var speed: PlaybackSpeed
    var selection: Option<Selection>

    ghost predicate Valid()
      reads this
    {
      MIN_YEAR <= year <= MAX_YEAR
    }

    constructor ()
      ensures Valid()
      ensures year == INITIAL_YEAR && layer == Anomaly && !isPlaying && speed == 1 && selection == None
    {
      year := INITIAL_YEAR;
      layer := Anomaly;
      isPlaying := false;
      speed := 1;
      selection := None;
    }

    /** setYear: show the nearest playable year. */
    method SetYear(newYear: int)
      modifies this`year
      ensures Valid()
      ensures year == ClampYear(newYear)
    {
      var clamped := ClampYear(newYear);
      year := clamped;
    }

    method SetLayer(newLayer: Layer)
      modifies this`layer
      ensures layer == newLayer
    {
      layer := newLayer;
    }

    method Play()
      modifies this`isPlaying
      ensures isPlaying
    {
      isPlaying := true;
    }

    method Pause()
      modifies this`isPlaying
      ensures !isPlaying
    {
      isPlaying := false;
    }

    method SetSpeed(newSpeed: PlaybackSpeed)
      modifies this`speed
      ensures speed == newSpeed
    {
      speed := newSpeed;
    }

    method SetSelection(newSelection: Option<Selection>)
      modifies this`selection
      ensures selection == newSelection
    {
      selection := newSelection;
    }

    /** step: move one year, wrapping forward past the last year to the
      first and stopping backward at the first. */
    method Step(direction: Direction)
      requires Valid()
      modifies this`year
      ensures Valid()
      ensures year == StepYear(old(year), direction)
    {
      var newYear := year + direction;
      if MIN_YEAR <= newYear && newYear <= MAX_YEAR {
        SetYear(newYear);
      } else if direction > 0 {
        SetYear(MIN_YEAR);
      }
    }
  }
}
