/** Searching words for powers and alternating blocks. */
module WordSearch {
  // Searching words for powers and for alternating blocks, and the same questions as they are put to the
  // automaton prover.

  import opened Collections
  import opened Arith

  type Word = seq<int>

  /** An infinite word. */
  type Stream = nat -> int

  // ----- Powers

  predicate SameSlice(s: Word, i: nat, o: nat, p: nat) {
    i + o + p <= |s| && s[i + o..i + o + p] == s[i..i + p]
  }

  predicate BlockRepeats(s: Word, i: nat, p: nat, j: nat) {
    SameSlice(s, i, j * p, p)
  }

  /** The e blocks of length p from position i on fit the word and are all equal to the first. */
  predicate IsPower(s: Word, e: nat, i: nat, p: nat) {
    p >= 1 && i + e * p <= |s| && forall j :: 1 <= j < e ==> BlockRepeats(s, i, p, j)
  }

  /** Position i agrees with position i + p, and so on, the given number of times. */
  ghost predicate Shifts(f: Stream, i: nat, p: nat, count: int) {
    forall k: nat :: i <= k < i + count ==> Agrees(f, k, p)
  }

  ghost predicate Agrees(f: Stream, i: nat, p: nat) {
    f(i) == f(i + p)
  }

  ghost predicate PrefixOf(s: Word, f: Stream) {
    forall i :: 0 <= i < |s| ==> s[i] == f(i)
  }

  lemma TimesLess(e: nat, j: nat, p: nat)
    requires j < e
    ensures j * p + p <= e * p
  {
    ProductNonNegative(e - 1 - j, p);
    assert e * p == j * p + p + (e - 1 - j) * p;
  }

  lemma {:induction false} ShiftsRepeat(f: Stream, i: nat, p: nat, j: nat, t: nat)
    requires t < p && Shifts(f, i, p, j * p)
    ensures f(i + j * p + t) == f(i + t)
    decreases j
  {
    if j > 0 {
      RepeatStep(f, i, p, (j - 1) * p, j * p, t);
      ShiftsRepeat(f, i, p, j - 1, t);
    }
  }

  lemma RepeatStep(f: Stream, i: nat, p: nat, o: nat, next: nat, t: nat)
    requires t < p && next == o + p && Shifts(f, i, p, next)
    ensures Shifts(f, i, p, o) && f(i + next + t) == f(i + o + t)
  {
    assert Agrees(f, i + (o + t), p);
  }

  lemma SliceAt(s: Word, f: Stream, i: nat, o: nat, p: nat, t: nat)
    requires PrefixOf(s, f) && SameSlice(s, i, o, p) && t < p
    ensures f(i + o + t) == f(i + t)
  {
    assert s[i + o..i + o + p][t] == s[i..i + p][t];
  }

  lemma ShiftBlockAt(s: Word, f: Stream, i: nat, o: nat, p: nat, j: nat)
    requires PrefixOf(s, f) && i + o + p <= |s| && o == j * p && Shifts(f, i, p, o)
    ensures SameSlice(s, i, o, p)
  {
    var a, b := s[i + o..i + o + p], s[i..i + p];
    forall t | 0 <= t < p ensures a[t] == b[t] {
      ShiftsRepeat(f, i, p, j, t);
    }
    assert a == b;
  }

  lemma SplitOffset(t: nat, p: nat, e: nat) returns (j: nat, r: nat)
    requires p >= 1 && e >= 1 && t < (e - 1) * p
    ensures r < p && t == j * p + r && j + 1 < e && (j + 1) * p == j * p + p
  {
    j, r := t / p, t % p;
    assert t == p * j + r;
    CancelLt(p, j, e - 1);
    Distribute(p, j, 1);
  }

  lemma AnyBlock(s: Word, e: nat, i: nat, p: nat, j: nat)
    requires IsPower(s, e, i, p) && j < e
    ensures SameSlice(s, i, j * p, p)
  {
    if j == 0 {
      TimesLess(e, 0, p);
    } else {
      assert BlockRepeats(s, i, p, j);
    }
  }

  lemma BlocksShift(s: Word, f: Stream, e: nat, i: nat, p: nat, t: nat)
    requires PrefixOf(s, f) && IsPower(s, e, i, p) && e >= 1 && t < (e - 1) * p
    ensures Agrees(f, i + t, p)
  {
    var j, r := SplitOffset(t, p, e);
    AnyBlock(s, e, i, p, j);
    AnyBlock(s, e, i, p, j + 1);
    SliceAt(s, f, i, j * p, p, r);
    SliceAt(s, f, i, (j + 1) * p, p, r);
  }

  lemma ShiftBlock(s: Word, f: Stream, e: nat, i: nat, p: nat, j: nat)
    requires PrefixOf(s, f) && i + e * p <= |s| && 1 <= j < e && Shifts(f, i, p, (e - 1) * p)
    ensures BlockRepeats(s, i, p, j)
  {
    TimesLess(e, j, p);
    assert j * p <= (e - 1) * p by {
      assert (e - 1) * p == e * p - p;
    }
    ShorterShift(f, i, p, j * p, (e - 1) * p);
    ShiftBlockAt(s, f, i, j * p, p, j);
  }

  lemma ShorterShift(f: Stream, i: nat, p: nat, o: int, count: int)
    requires Shifts(f, i, p, count) && o <= count
    ensures Shifts(f, i, p, o)
  {
  }

  /** A power is a stretch that agrees with its shift by one period. */
  lemma PowerIsShift(s: Word, f: Stream, e: nat, i: nat, p: nat)
    requires PrefixOf(s, f) && e >= 1 && p >= 1 && i + e * p <= |s|
    ensures IsPower(s, e, i, p) <==> Shifts(f, i, p, (e - 1) * p)
  {
    if IsPower(s, e, i, p) {
      forall k: nat | i <= k < i + (e - 1) * p ensures Agrees(f, k, p) {
        BlocksShift(s, f, e, i, p, k - i);
      }
    }
    if Shifts(f, i, p, (e - 1) * p) {
      forall j | 1 <= j < e ensures BlockRepeats(s, i, p, j) {
        ShiftBlock(s, f, e, i, p, j);
      }
    }
  }

  datatype Power = Power(start: nat, period: nat)

  /** Looked for before (i, p): a smaller period, or the same one and an earlier start. */
  predicate Before(a: Power, b: Power) {
    a.period < b.period || (a.period == b.period && a.start < b.start)
  }

  ghost predicate NoPowerBefore(s: Word, e: nat, b: Power) {
    forall a: Power :: Before(a, b) ==> !IsPower(s, e, a.start, a.period)
  }

  lemma PeriodFits(s: Word, e: nat, i: nat, p: nat)
    requires e > 0 && IsPower(s, e, i, p)
    ensures p <= |s| / e
  {
    assert e * p <= |s|;
    FloorAtLeast(p, e, |s|);
  }

  lemma LongPeriod(length: nat, e: nat, p: nat)
    requires e > 0 && p <= length / e
    ensures e * p <= length
  {
    ProductNonNegative(e, length / e - p);
    Distribute(e, p, length / e - p);
  }

  /** The first start of a power with the given period. */
  method ScanStarts(s: Word, e: nat, p: nat, span: nat) returns (r: Option<nat>)
    requires e >= 1 && p >= 1 && span == e * p <= |s|
    ensures r.None? ==> forall i: nat :: !IsPower(s, e, i, p)
    ensures r.Some? ==> IsPower(s, e, r.value, p) && forall i: nat :: i < r.value ==> !IsPower(s, e, i, p)
  {
    var i := 0;
    while i < |s| - span + 1
      invariant 0 <= i <= |s| - span + 1
      invariant forall k: nat :: k < i ==> !IsPower(s, e, k, p)
    {
      if forall j :: 1 <= j < e ==> BlockRepeats(s, i, p, j) {
        return Some(i);
      }
      assert !IsPower(s, e, i, p);
      i := i + 1;
    }
    return None;
  }

  lemma StartsDone(s: Word, e: nat, p: nat, start: Option<nat>)
    requires NoPowerBefore(s, e, Power(0, p))
    requires start.None? ==> forall i: nat :: !IsPower(s, e, i, p)
    requires start.Some? ==> forall i: nat :: i < start.value ==> !IsPower(s, e, i, p)
    ensures start.None? ==> NoPowerBefore(s, e, Power(0, p + 1))
    ensures start.Some? ==> NoPowerBefore(s, e, Power(start.value, p))
  {
    forall a: Power ensures
      && (start.None? && Before(a, Power(0, p + 1)) ==> !IsPower(s, e, a.start, a.period))
      && (start.Some? && Before(a, Power(start.value, p)) ==> !IsPower(s, e, a.start, a.period))
    {
      assert Before(a, Power(0, p)) ==> !IsPower(s, e, a.start, a.period);
    }
  }

  lemma NoPowerStarts(s: Word, e: nat)
    ensures NoPowerBefore(s, e, Power(0, 1))
  {
  }

  ghost predicate PowerFree(s: Word, e: nat) {
    forall i: nat, p: nat :: !IsPower(s, e, i, p)
  }

  /** The power with the least period, and of those the first, if there is any power at all. */
  method CheckPowerFree(s: Word, e: nat) returns (r: Option<Power>)
    requires e >= 1
    ensures r.None? <==> PowerFree(s, e)
    ensures r.Some? ==> IsPower(s, e, r.value.start, r.value.period) && NoPowerBefore(s, e, r.value)
  {
    var p, limit := 1, |s| / e;
    NoPowerStarts(s, e);
    while p <= limit
      invariant 1 <= p <= limit + 1 && NoPowerBefore(s, e, Power(0, p))
    {
      LongPeriod(|s|, e, p);
      var start := ScanStarts(s, e, p, e * p);
      StartsDone(s, e, p, start);
      if start.Some? {
        return Some(Power(start.value, p));
      }
      p := p + 1;
    }
    forall i: nat, p: nat ensures !IsPower(s, e, i, p) {
      NoneLater(s, e, limit + 1, i, p);
    }
    return None;
  }

  /** Earlier by start, and by period among equal starts. */
  predicate LexBefore(a: Power, b: Power) {
    a.start < b.start || (a.start == b.start && a.period < b.period)
  }

  ghost predicate Occurring(s: Word, e: nat, a: Power) {
    IsPower(s, e, a.start, a.period)
  }

  ghost predicate LexFirst(s: Word, e: nat, r: Power) {
    forall a :: Occurring(s, e, a) ==> !LexBefore(a, r)
  }

  /** Some power starts no later than a and has no longer a period than b. */
  ghost predicate Combined(s: Word, e: nat, a: Power, b: Power) {
    exists c :: Occurring(s, e, c) && c.start <= a.start && c.period <= b.period
  }

  ghost predicate Combines(s: Word, e: nat) {
    forall a, b :: Occurring(s, e, a) && Occurring(s, e, b) ==> Combined(s, e, a, b)
  }

  /** The power of least period is the first by start exactly if of any two powers the earlier start and
      the shorter period are met by one. */
  lemma LexFirstWhen(s: Word, e: nat, r: Power)
    requires Occurring(s, e, r) && NoPowerBefore(s, e, r)
    ensures LexFirst(s, e, r) <==> Combines(s, e)
  {
    if LexFirst(s, e, r) {
      forall a, b | Occurring(s, e, a) && Occurring(s, e, b) ensures Combined(s, e, a, b) {
        assert !LexBefore(a, r) && !Before(b, r);
      }
    }
    if Combines(s, e) {
      forall a | Occurring(s, e, a) ensures !LexBefore(a, r) {
        assert Combined(s, e, a, r);
        var c :| Occurring(s, e, c) && c.start <= a.start && c.period <= r.period;
        assert !Before(c, r) && !Before(a, r);
      }
    }
  }

  lemma NoneLater(s: Word, e: nat, limit: nat, i: nat, p: nat)
    requires e >= 1 && NoPowerBefore(s, e, Power(0, limit)) && limit == |s| / e + 1
    ensures !IsPower(s, e, i, p)
  {
    assert Before(Power(i, p), Power(0, limit)) <==> p < limit;
    if IsPower(s, e, i, p) {
      PeriodFits(s, e, i, p);
    }
  }

  // ----- The same question for an infinite word

  /** For no t < (e-1)p does the word differ at i + t from its shift by p. */
  ghost predicate PowerAt(f: Stream, e: nat, i: nat, p: nat) {
    p >= 1 && Shifts(f, i, p, (e - 1) * p)
  }

  /** For all i and p >= 1 there is such a t. */
  ghost predicate NoPowers(f: Stream, e: nat) {
    forall i: nat, p: nat :: !PowerAt(f, e, i, p)
  }

  function Prefix(f: Stream, n: nat): (s: Word)
    ensures |s| == n && forall i :: 0 <= i < n ==> s[i] == f(i)
  {
    seq(n, i requires 0 <= i < n => f(i))
  }

  ghost predicate PrefixPowerFree(f: Stream, e: nat, n: nat) {
    PowerFree(Prefix(f, n), e)
  }

  /** The statement put to the prover says that the search finds nothing in any prefix. */
  lemma NoPowersMeansEmptySearches(f: Stream, e: nat)
    requires e >= 1
    ensures NoPowers(f, e) <==> forall n: nat :: PrefixPowerFree(f, e, n)
  {
    if NoPowers(f, e) {
      forall n: nat, i: nat, p: nat ensures !IsPower(Prefix(f, n), e, i, p) {
        assert !PowerAt(f, e, i, p);
        if p >= 1 && i + e * p <= n {
          PowerIsShift(Prefix(f, n), f, e, i, p);
        }
      }
    }
    if forall n: nat :: PrefixPowerFree(f, e, n) {
      forall i: nat, p: nat ensures !PowerAt(f, e, i, p) {
        ProductNonNegative(e, p);
        var n := i + e * p;
        assert PrefixPowerFree(f, e, n);
        if p >= 1 {
          PowerIsShift(Prefix(f, n), f, e, i, p);
        }
      }
    }
  }

  // ----- Factors and alternating blocks

  predicate Occurs(s: Word, block: Word, i: int) {
    0 <= i <= |s| - |block| && s[i..i + |block|] == block
  }

  method CheckAvoidsFactor(s: Word, block: Word) returns (r: Option<nat>)
    ensures r.None? <==> block == [] || forall i :: !Occurs(s, block, i)
    ensures r.Some? ==> Occurs(s, block, r.value) && forall i :: 0 <= i < r.value ==> !Occurs(s, block, i)
  {
    if block == [] {
      return None;
    }
    var i := 0;
    while i < |s| - |block| + 1
      invariant 0 <= i && forall j :: 0 <= j < i ==> !Occurs(s, block, j)
    {
      if s[i..i + |block|] == block {
        assert Occurs(s, block, i);
        return Some(i);
      }
      i := i + 1;
    }
    return None;
  }

  /** a b a b ... */
  function Alternating(a: int, b: int, length: nat): (r: Word)
    ensures |r| == length
  {
    seq(length, k => if k % 2 == 0 then a else b)
  }

  ghost predicate FirstOccurrence(s: Word, block: Word, i: int) {
    Occurs(s, block, i) && forall j :: 0 <= j < i ==> !Occurs(s, block, j)
  }

  ghost predicate Absent(s: Word, block: Word) {
    forall i :: !Occurs(s, block, i)
  }

  /** 0101... is looked for first. */
  ghost function BlockFound(s: Word, length: nat): Word {
    if Absent(s, Alternating(0, 1, length)) then Alternating(1, 0, length) else Alternating(0, 1, length)
  }

  datatype Hit = Hit(block: Word, start: nat)

  /** The first 0101..., or if there is none the first 1010... */
  method CheckAvoidsPattern(s: Word, length: nat) returns (r: Option<Hit>)
    ensures r.None? <==> length == 0 || (Absent(s, Alternating(0, 1, length)) && Absent(s, Alternating(1, 0, length)))
    ensures r.Some? ==> FirstOccurrence(s, r.value.block, r.value.start) && r.value.block == BlockFound(s, length)
  {
    var block := Alternating(0, 1, length);
    var at := CheckAvoidsFactor(s, block);
    if at.None? {
      block := Alternating(1, 0, length);
      at := CheckAvoidsFactor(s, block);
    }
    r := if at.None? then None else Some(Hit(block, at.value));
  }
}
