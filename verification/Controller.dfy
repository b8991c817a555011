/** The frontier controller, in thousandths. */
module Controller {
  // The frontier controller: a thermostat on difficulty that homes in proportionally and jumps away from
  // a bound it is stuck at. Targets are counted in thousandths.

  import opened Arith

  const WINDOW := 8
  const FLOOR := 150
  const CEIL := 850
  const PIN_LIMIT := 3

  datatype State = State(target: int, recent: seq<bool>, jumps: nat, pinned: nat)

  function Proved(recent: seq<bool>): (n: nat)
    ensures n <= |recent|
  {
    if recent == [] then 0 else Proved(recent[1..]) + if recent[0] then 1 else 0
  }

  /** Enough outcomes to act on. */
  predicate Effective(s: State) {
    |s.recent| >= 4
  }

  /** 100 |recent| times the aim of 0.35 minus the success rate. */
  function Error(s: State): int {
    35 * |s.recent| - 100 * Proved(s.recent)
  }

  /** At a bound, with the correction pointing outwards. */
  predicate Saturated(s: State) {
    (s.target <= FLOOR && Error(s) > 0) || (s.target >= CEIL && Error(s) < 0)
  }

  predicate Jumps(s: State) {
    (Proved(s.recent) == 0 && (s.target <= FLOOR || s.target >= CEIL))
    || (if Saturated(s) then s.pinned + 1 else 0) >= PIN_LIMIT
  }

  const JITTER: seq<int> := [0, 80, -80, 40, -40]

  function Clamp(t: int): (r: int)
    ensures FLOOR <= r <= CEIL
  {
    if t < FLOOR then FLOOR else if t > CEIL then CEIL else t
  }

  /** What binary floating point decides by its own error: which way a correction halfway between two
      thousandths is rounded, and whether an error of exactly 0.05 counts as larger. */
  datatype Rounding = Rounding(tieUp: bool, edgeOut: bool)

  /** The nearest integer to a / b; a tie goes up or down as tieUp says. */
  function Nearest(a: int, b: nat, tieUp: bool): int
    requires b > 0
  {
    if tieUp then (2 * a + b) / (2 * b) else -((-2 * a + b) / (2 * b))
  }

  /** The success rate is far enough from the aim to act. */
  predicate OutsideDeadband(s: State, fp: Rounding) {
    Abs(Error(s)) > 5 * |s.recent| || (Abs(Error(s)) == 5 * |s.recent| && fp.edgeOut)
  }

  /** The target after the proportional correction by 0.30 times the error. */
  function Corrected(s: State, fp: Rounding): int
    requires Effective(s)
  {
    Clamp(s.target - Nearest(3 * Error(s), |s.recent|, fp.tieUp))
  }

  function JumpTarget(s: State): int {
    Clamp((if s.target <= FLOOR then 650 else 350) + JITTER[(s.jumps + 1) % 5])
  }

  /** One update. */
  function Updated(s: State, fp: Rounding): State {
    if !Effective(s) then s
    else if Jumps(s) then State(JumpTarget(s), [], s.jumps + 1, 0)
    else
      s.(pinned := if Saturated(s) then s.pinned + 1 else 0,
         target := if OutsideDeadband(s, fp) then Corrected(s, fp) else s.target)
  }

  /** One outcome; the window forgets the oldest. */
  function Recorded(s: State, proved: bool): State {
    var all := s.recent + [proved];
    s.(recent := if |all| > WINDOW then all[|all| - WINDOW..] else all)
  }

  class FrontierController {
    var target: int
    var recent: seq<bool>
    var jumps: nat
    var pinned: nat

    function Now(): State
      reads this
    {
      State(target, recent, jumps, pinned)
    }

    constructor (start: int)
      ensures Now() == State(start, [], 0, 0)
    {
      target, recent, jumps, pinned := start, [], 0, 0;
    }

    method Record(proved: bool)
      modifies this
      ensures Now() == Recorded(old(Now()), proved)
    {
      recent := recent + [proved];
      if |recent| > WINDOW {
        recent := recent[|recent| - WINDOW..];
      }
    }

    method Update(fp: Rounding)
      modifies this
      ensures Now() == Updated(old(Now()), fp)
    {
      if |recent| < 4 {
        return;
      }
      var error := 35 * |recent| - 100 * Proved(recent);
      var atFloor, atCeil := target <= FLOOR, target >= CEIL;
      var saturated := (atFloor && error > 0) || (atCeil && error < 0);
      pinned := if saturated then pinned + 1 else 0;
      if (Proved(recent) == 0 && (atFloor || atCeil)) || pinned >= PIN_LIMIT {
        jumps := jumps + 1;
        var base := if atFloor then 650 else 350;
        target := Clamp(base + JITTER[jumps % 5]);
        recent := [];
        pinned := 0;
        return;
      }
      if Abs(error) > 5 * |recent| || (Abs(error) == 5 * |recent| && fp.edgeOut) {
        target := Clamp(target - Nearest(3 * error, |recent|, fp.tieUp));
      }
    }
  }

  // ----- Every run

  datatype Event = Outcome(proved: bool) | Retune(fp: Rounding)

  function After(s: State, e: Event): State {
    match e
    case Outcome(proved) => Recorded(s, proved)
    case Retune(fp) => Updated(s, fp)
  }

  function Run(s: State, events: seq<Event>): State {
    if events == [] then s else After(Run(s, events[..|events| - 1]), events[|events| - 1])
  }

  ghost predicate Valid(s: State) {
    FLOOR <= s.target <= CEIL && s.pinned < PIN_LIMIT && |s.recent| <= WINDOW
  }

  /** Whatever happens, the target stays within its bounds and no pin outlasts the limit. */
  lemma {:induction false} RunStaysValid(s: State, events: seq<Event>)
    requires Valid(s)
    ensures Valid(Run(s, events))
  {
    if events != [] {
      RunStaysValid(s, events[..|events| - 1]);
    }
  }

  /** A jump lands well inside, on the other side of the middle. */
  lemma JumpLandsInside(s: State, fp: Rounding)
    requires Valid(s) && Effective(s) && Jumps(s)
    ensures var t := Updated(s, fp).target;
      if s.target == FLOOR then 570 <= t <= 730 else s.target == CEIL && 270 <= t <= 430
  {
  }

  /** Jumps to one side land on five different targets in turn: two agree exactly if their counts do
      modulo five. */
  lemma JumpsVary(s: State, t: State)
    requires (s.target <= FLOOR) == (t.target <= FLOOR)
    ensures JumpTarget(s) == JumpTarget(t) <==> s.jumps % 5 == t.jumps % 5
  {
    NextIndex(s.jumps, t.jumps);
    JitterVaries((s.jumps + 1) % 5, (t.jumps + 1) % 5);
    JumpUnclamped(s);
    JumpUnclamped(t);
  }

  lemma NextIndex(a: nat, b: nat)
    ensures (a + 1) % 5 == (b + 1) % 5 <==> a % 5 == b % 5
  {
  }

  lemma JitterVaries(i: nat, j: nat)
    requires i < 5 && j < 5
    ensures JITTER[i] == JITTER[j] <==> i == j
  {
  }

  lemma JumpUnclamped(s: State)
    ensures JumpTarget(s) == (if s.target <= FLOOR then 650 else 350) + JITTER[(s.jumps + 1) % 5]
  {
  }

  /** The same controller, possibly with other outcomes on record. */
  ghost predicate OnlyRecords(s: State, next: State) {
    next.target == s.target && next.jumps == s.jumps && next.pinned == s.pinned
  }

  /** next is s after an effective update and any number of outcomes. */
  ghost predicate UpdatedTo(s: State, fp: Rounding, next: State) {
    Effective(s) && OnlyRecords(Updated(s, fp), next)
  }

  /** Of three consecutive effective updates that find the target saturated, one jumps. */
  lemma SaturationForcesJump(a: State, b: State, c: State, f1: Rounding, f2: Rounding)
    requires Valid(a) && Saturated(a) && Saturated(b) && Saturated(c) && Effective(c)
    requires UpdatedTo(a, f1, b) && UpdatedTo(b, f2, c)
    ensures Jumps(a) || Jumps(b) || Jumps(c)
  {
  }

  ghost predicate OnlyFailures(s: State) {
    Effective(s) && Proved(s.recent) == 0
  }

  lemma FailureStep(s: State, fp: Rounding)
    requires Valid(s) && OnlyFailures(s)
    ensures Updated(s, fp).target ==
      if s.target == FLOOR || s.target == CEIL then JumpTarget(s) else Clamp(s.target - 105)
  {
    var n := |s.recent|;
    assert Error(s) == 35 * n;
    WholeQuotient(105, n, fp.tieUp);
  }

  lemma WholeQuotient(q: int, b: nat, tieUp: bool)
    requires b > 0
    ensures Nearest(q * b, b, tieUp) == q
  {
    assert 2 * (q * b) + b == q * (2 * b) + b;
    HalfUp(q, b);
    assert -2 * (q * b) + b == (-q) * (2 * b) + b;
    HalfUp(-q, b);
  }

  lemma HalfUp(q: int, b: nat)
    requires b > 0
    ensures (q * (2 * b) + b) / (2 * b) == q
  {
    var m, f := 2 * b, q * (2 * b) + b;
    assert m * q == q * m;
    FloorAtLeast(q, m, f);
    Distribute(m, q, 1);
    CancelLt(m, f / m, q + 1);
  }

  lemma FloorNear(a: int, b: nat, q: int)
    requires b > 0 && q == (2 * a + b) / (2 * b)
    ensures Abs(2 * (b * q - a)) <= b
  {
    assert 2 * a + b == (2 * b) * q + (2 * a + b) % (2 * b);
    assert (2 * b) * q == 2 * (b * q);
  }

  /** Nearest is off by at most a half. */
  lemma NearestIsNear(a: int, b: nat, tieUp: bool)
    requires b > 0
    ensures Abs(2 * (b * Nearest(a, b, tieUp) - a)) <= b
  {
    var q := Nearest(a, b, tieUp);
    if tieUp {
      FloorNear(a, b, q);
    } else {
      FloorNear(-a, b, -q);
      assert b * (-q) == -(b * q);
    }
  }

  /** The target moved from t to u is off the exact correction by at most half a thousandth, or stopped at
      the bound on the way. */
  ghost predicate MovedBy(t: int, u: int, error: int, n: nat) {
    && (FLOOR < u < CEIL ==> Abs(2 * (n * (t - u) - 3 * error)) <= n)
    && (u == FLOOR ==> 2 * (n * (t - FLOOR)) <= 6 * error + n)
    && (u == CEIL ==> 2 * (n * (CEIL - t)) <= n - 6 * error)
  }

  lemma ScaleBy(n: nat, a: int, b: int)
    requires a <= b
    ensures n * a <= n * b
  {
    ProductNonNegative(n, b - a);
    Distribute(n, a, b - a);
  }

  lemma ClampedMove(t: int, q: int, n: nat, error: int)
    requires FLOOR <= t <= CEIL && Abs(2 * (n * q - 3 * error)) <= n
    ensures MovedBy(t, Clamp(t - q), error, n)
  {
    var u := Clamp(t - q);
    if u == FLOOR {
      ScaleBy(n, t - FLOOR, q);
    }
    if u == CEIL {
      ScaleBy(n, q, t - CEIL);
      assert n * (t - CEIL) == -(n * (CEIL - t));
    }
    if FLOOR < u < CEIL {
      assert t - u == q;
    }
  }

  lemma SignOfMove(q: int, n: nat, error: int)
    requires n > 0 && Abs(2 * (n * q - 3 * error)) <= n && Abs(error) >= 5 * n
    ensures error > 0 ==> q > 0
    ensures error < 0 ==> q < 0
  {
    if error > 0 {
      CancelLt(n, 0, q);
    } else {
      CancelLt(n, q, 0);
    }
  }

  /** How the target follows the success rate where nothing jumps: it rises while more than 40 in a hundred
      are proved, falls while fewer than 30 are, up to the bounds, and rests in between; and it moves by
      0.30 times the difference to 35 in a hundred, if it moves. */
  lemma CorrectionFollowsRate(s: State, fp: Rounding)
    requires Valid(s) && |s.recent| >= 4 && Updated(s, fp).jumps == s.jumps
    ensures var n, proved, t := |s.recent|, Proved(s.recent), Updated(s, fp).target;
      && (100 * proved > 40 * n ==> t > s.target || s.target == t == CEIL)
      && (100 * proved < 30 * n ==> t < s.target || s.target == t == FLOOR)
      && (30 * n < 100 * proved < 40 * n ==> t == s.target)
      && (t != s.target ==> MovedBy(s.target, t, 35 * n - 100 * proved, n))
  {
    var n := |s.recent|;
    var q := Nearest(3 * Error(s), n, fp.tieUp);
    NearestIsNear(3 * Error(s), n, fp.tieUp);
    if OutsideDeadband(s, fp) {
      ClampedMove(s.target, q, n, Error(s));
      SignOfMove(q, n, Error(s));
    }
  }

  /** Fewer than four outcomes change nothing. With more, it jumps exactly at a bound at which nothing is
      proved, or beyond which the rate points for the third time in a row. */
  lemma JumpsWhen(s: State, fp: Rounding)
    requires Valid(s)
    ensures |s.recent| < 4 ==> Updated(s, fp) == s
    ensures |s.recent| >= 4 ==> (Updated(s, fp).jumps == s.jumps + 1 <==>
      var n, proved := |s.recent|, Proved(s.recent);
      || (s.target == FLOOR && (proved == 0 || (s.pinned == 2 && 100 * proved < 35 * n)))
      || (s.target == CEIL && (proved == 0 || (s.pinned == 2 && 100 * proved > 35 * n))))
  {
  }

  /** The window holds the last eight of all outcomes. */
  lemma {:induction false} WindowKeepsLast(s: State, outcomes: seq<bool>)
    requires |s.recent| <= 8
    ensures var all, r := s.recent + outcomes, Run(s, Outcomes(outcomes));
      r == s.(recent := if |all| <= 8 then all else all[|all| - 8..])
  {
    var events := Outcomes(outcomes);
    if outcomes == [] {
      assert s.recent + outcomes == s.recent;
    } else {
      var front, last := outcomes[..|outcomes| - 1], outcomes[|outcomes| - 1];
      WindowKeepsLast(s, front);
      assert events[..|events| - 1] == Outcomes(front);
      assert s.recent + outcomes == s.recent + front + [last];
    }
  }

  function Outcomes(outcomes: seq<bool>): (r: seq<Event>)
    ensures |r| == |outcomes|
  {
    seq(|outcomes|, i requires 0 <= i < |outcomes| => Outcome(outcomes[i]))
  }

  /** How many updates on failures alone it takes at most to be at 570 or above. */
  function Patience(target: int): nat {
    if target <= FLOOR then 1
    else if target <= 255 then 2
    else if target <= 360 then 3
    else if target <= 465 then 4
    else if target <= 570 then 5
    else if target < 675 then 6
    else if target < CEIL then 1
    else 5
  }

  lemma PatienceShrinks(s: State, fp: Rounding)
    requires Valid(s) && OnlyFailures(s)
    ensures var t := Updated(s, fp).target; t >= 570 || Patience(t) < Patience(s.target)
  {
    FailureStep(s, fp);
  }

  ghost predicate FailingRun(states: seq<State>, fps: seq<Rounding>) {
    && |states| == |fps| + 1 && Valid(states[0])
    && forall i :: 0 <= i < |fps| ==> FailingStep(states[i], fps[i], states[i + 1])
  }

  ghost predicate FailingStep(s: State, fp: Rounding, next: State) {
    OnlyFailures(s) && UpdatedTo(s, fp, next) && |next.recent| <= WINDOW
  }

  lemma StepStaysValid(s: State, fp: Rounding, next: State)
    requires Valid(s) && FailingStep(s, fp, next)
    ensures Valid(next)
  {
  }

  /** While nothing is proved the target is back at 570 or above within every six effective updates. */
  lemma {:induction false} FailuresReturn(states: seq<State>, fps: seq<Rounding>)
    requires FailingRun(states, fps) && |fps| >= Patience(states[0].target)
    ensures exists i :: 1 <= i <= Patience(states[0].target) && states[i].target >= 570
    decreases Patience(states[0].target)
  {
    assert FailingStep(states[0], fps[0], states[1]);
    StepStaysValid(states[0], fps[0], states[1]);
    PatienceShrinks(states[0], fps[0]);
    if states[1].target < 570 {
      forall i | 0 <= i < |fps[1..]| ensures FailingStep(states[1..][i], fps[1..][i], states[1..][i + 1]) {
        assert FailingStep(states[i + 1], fps[i + 1], states[i + 2]);
      }
      FailuresReturn(states[1..], fps[1..]);
      var i :| 1 <= i <= Patience(states[1].target) && states[1..][i].target >= 570;
      assert states[i + 1].target >= 570;
    }
  }

  lemma SixUpdatesSuffice(states: seq<State>, fps: seq<Rounding>)
    requires FailingRun(states, fps) && |fps| == 6
    ensures exists i :: 1 <= i <= 6 && states[i].target >= 570
  {
    FailuresReturn(states, fps);
    var i :| 1 <= i <= Patience(states[0].target) && states[i].target >= 570;
  }
}
