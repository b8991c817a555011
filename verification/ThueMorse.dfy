/** The Thue-Morse word has no overlap. */
module ThueMorse {
  // The Thue-Morse word from bit counts, and what the searches find in its prefixes.

  import opened Arith
  import opened WordSearch
  import M = Morphisms

  /** The binary digits, most significant first. */
  function Binary(k: nat): (r: seq<nat>)
    ensures r != []
  {
    if k < 2 then [k] else Binary(k / 2) + [k % 2]
  }

  function Ones(digits: seq<nat>): nat {
    if digits == [] then 0
    else Ones(digits[..|digits| - 1]) + if digits[|digits| - 1] == 1 then 1 else 0
  }

  function Letter(k: nat): (r: int)
    ensures r == 0 || r == 1
  {
    Ones(Binary(k)) % 2
  }

  function T(): Stream {
    (k: nat) => Letter(k)
  }

  function Word(n: nat): seq<int> {
    Prefix(T(), n)
  }

  lemma OnesAppend(digits: seq<nat>, d: nat)
    ensures Ones(digits + [d]) == Ones(digits) + if d == 1 then 1 else 0
  {
    assert (digits + [d])[..|digits|] == digits;
  }

  lemma BinaryDouble(k: nat, d: nat)
    requires k >= 1 && d <= 1
    ensures Binary(2 * k + d) == Binary(k) + [d]
  {
    assert (2 * k + d) / 2 == k && (2 * k + d) % 2 == d;
  }

  lemma OtherParity(x: nat)
    ensures (x + 1) % 2 == 1 - x % 2
  {
  }

  lemma DigitsAppend(k: nat, d: nat)
    requires k >= 1 && d <= 1
    ensures Ones(Binary(2 * k + d)) == Ones(Binary(k)) + d
  {
    BinaryDouble(k, d);
    OnesAppend(Binary(k), d);
  }

  lemma DoubleLetter(k: nat)
    ensures Letter(2 * k) == Letter(k) && Letter(2 * k + 1) == 1 - Letter(k)
  {
    if k == 0 {
      OnesAppend([], 0);
      OnesAppend([], 1);
    } else {
      DigitsAppend(k, 0);
      DigitsAppend(k, 1);
      OtherParity(Ones(Binary(k)));
    }
  }

  // ----- Words that double

  ghost predicate DoublesAt(f: Stream, k: nat) {
    f(2 * k) == f(k) && f(2 * k + 1) == 1 - f(k) && (f(k) == 0 || f(k) == 1)
  }

  /** Position 2k repeats position k, and position 2k + 1 opposes it. */
  ghost predicate Doubles(f: Stream) {
    forall k :: DoublesAt(f, k)
  }

  lemma ThueMorseDoubles()
    ensures Doubles(T())
  {
    forall k ensures DoublesAt(T(), k) {
      DoubleLetter(k);
    }
  }

  ghost predicate Differs(f: Stream, k: nat) {
    f(k) != f(k + 1)
  }

  lemma PairDiffers(f: Stream, h: nat, k: nat)
    requires Doubles(f) && k == 2 * h
    ensures Differs(f, k)
  {
    assert DoublesAt(f, h);
  }

  lemma NoThreeEqual(f: Stream, k: nat)
    requires Doubles(f)
    ensures Differs(f, k) || Differs(f, k + 1)
  {
    if k % 2 == 0 {
      PairDiffers(f, k / 2, k);
    } else {
      PairDiffers(f, k / 2 + 1, k + 1);
    }
  }

  /** The letters k to k + count alternate. */
  ghost predicate Alternates(f: Stream, k: nat, count: int) {
    forall i: nat :: k <= i < k + count ==> Differs(f, i)
  }

  lemma OddPairEqual(f: Stream, h: nat)
    requires Doubles(f) && Differs(f, 2 * h + 1)
    ensures !Differs(f, h)
  {
    assert DoublesAt(f, h) && DoublesAt(f, h + 1);
    assert 2 * (h + 1) == 2 * h + 2;
  }

  /** No five letters in a row alternate. */
  lemma NoLongAlternation(f: Stream, k: nat, count: int)
    requires Doubles(f) && count >= 4
    ensures !Alternates(f, k, count)
  {
    if Alternates(f, k, count) {
      var h := k / 2;
      assert k <= 2 * h + 1 < k + count && k <= 2 * h + 3 < k + count;
      OddPairEqual(f, h);
      OddPairEqual(f, h + 1);
      NoThreeEqual(f, h);
    }
  }

  lemma HalfAgrees(f: Stream, k: nat, q: nat, b: nat)
    requires Doubles(f) && b <= 1 && Agrees(f, 2 * k + b, 2 * q)
    ensures Agrees(f, k, q)
  {
    assert DoublesAt(f, k) && DoublesAt(f, k + q);
    assert 2 * k + b + 2 * q == 2 * (k + q) + b;
  }

  lemma EvenOverlapHalves(f: Stream, i: nat, q: nat)
    requires Doubles(f) && Shifts(f, i, 2 * q, 2 * q + 1)
    ensures Shifts(f, i / 2, q, q + 1)
  {
    var b := i % 2;
    forall k: nat | i / 2 <= k < i / 2 + q + 1 ensures Agrees(f, k, q) {
      assert i <= 2 * k + b < i + 2 * q + 1;
      HalfAgrees(f, k, q, b);
    }
  }

  lemma ShiftDiffers(f: Stream, k: nat, p: nat)
    requires Agrees(f, k, p) && Agrees(f, k + 1, p)
    ensures Differs(f, k) <==> Differs(f, k + p)
  {
    assert k + 1 + p == k + p + 1;
  }

  lemma OddOverlapAlternates(f: Stream, i: nat, p: nat)
    requires Doubles(f) && p % 2 == 1 && p >= 3 && Shifts(f, i, p, p + 1)
    ensures Alternates(f, i, 4)
  {
    forall k: nat | i <= k < i + 4 ensures Differs(f, k) {
      if k % 2 == 0 {
        PairDiffers(f, k / 2, k);
      } else if k < i + p {
        PairDiffers(f, (k + p) / 2, k + p);
        ShiftDiffers(f, k, p);
      } else {
        PairDiffers(f, (k - p) / 2, k - p);
        ShiftDiffers(f, k - p, p);
      }
    }
  }

  lemma NoUnitOverlap(f: Stream, i: nat)
    requires Doubles(f)
    ensures !Shifts(f, i, 1, 2)
  {
    NoThreeEqual(f, i);
    assert !Agrees(f, i, 1) || !Agrees(f, i + 1, 1);
  }

  /** There is no overlap: no stretch agrees with its shift by p for p + 1 letters. */
  lemma {:induction false} NoOverlap(f: Stream, i: nat, p: nat)
    requires Doubles(f) && p >= 1
    ensures !Shifts(f, i, p, p + 1)
    decreases p
  {
    if p == 1 {
      NoUnitOverlap(f, i);
    } else if Shifts(f, i, p, p + 1) {
      if p % 2 == 0 {
        var q := p / 2;
        EvenOverlapHalves(f, i, q);
        NoOverlap(f, i / 2, q);
      } else {
        OddOverlapAlternates(f, i, p);
        NoLongAlternation(f, i, 4);
      }
    }
  }

  lemma CubeIsOverlap(e: nat, p: nat)
    requires e >= 3 && p >= 1
    ensures (e - 1) * p >= p + 1
  {
    ProductNonNegative(e - 3, p);
    assert (e - 1) * p == (e - 3) * p + p + p;
  }

  lemma NoPowerAt(f: Stream, e: nat, i: nat, p: nat)
    requires Doubles(f) && e >= 3
    ensures !PowerAt(f, e, i, p)
  {
    if p >= 1 {
      CubeIsOverlap(e, p);
      NoOverlap(f, i, p);
      if Shifts(f, i, p, (e - 1) * p) {
        ShorterShift(f, i, p, p + 1, (e - 1) * p);
      }
    }
  }

  /** Thue's theorem: the word has no cubes, and no higher powers. */
  lemma NoCubes(e: nat)
    requires e >= 3
    ensures NoPowers(T(), e)
  {
    ThueMorseDoubles();
    forall i: nat, p: nat ensures !PowerAt(T(), e, i, p) {
      NoPowerAt(T(), e, i, p);
    }
  }

  lemma FirstLetters()
    ensures Letter(0) == 0 && Letter(1) == 1 && Letter(2) == 1 && Letter(3) == 0 && Letter(4) == 1 && Letter(5) == 0
  {
    OnesAppend([], 0);
    OnesAppend([], 1);
    DoubleLetter(1);
    DoubleLetter(2);
  }

  lemma NoShortPowers(n: nat, e: nat)
    requires n == 0 || (e == 2 && n <= 2)
    ensures e >= 1 ==> PowerFree(Word(n), e)
  {
    FirstLetters();
    var s := Word(n);
    if e >= 1 {
      forall i: nat, p: nat ensures !IsPower(s, e, i, p) {
        if IsPower(s, e, i, p) {
          PeriodFits(s, e, i, p);
          assert e == 2 && p == 1 && i == 0 && n == 2;
          assert BlockRepeats(s, i, p, 1);
          SliceAt(s, T(), 0, 1, 1, 0);
        }
      }
    }
  }

  lemma ShortPowers(n: nat, e: nat)
    requires (e == 1 && n >= 1) || (e == 2 && n >= 3)
    ensures !PowerFree(Word(n), e)
  {
    FirstLetters();
    var s := Word(n);
    if e == 1 {
      assert IsPower(s, 1, 0, 1);
    } else {
      assert s[2..3] == [1] && s[1..2] == [1];
      assert BlockRepeats(s, 1, 1, 1);
      assert IsPower(s, 2, 1, 1);
    }
  }

  /** In which prefixes the search for e-th powers comes back empty. */
  lemma WhichPrefixesArePowerFree(n: nat, e: nat)
    requires e >= 1
    ensures PowerFree(Word(n), e) <==> e >= 3 || n == 0 || (e == 2 && n <= 2)
  {
    if e >= 3 {
      NoCubes(e);
      NoPowersMeansEmptySearches(T(), e);
      assert PrefixPowerFree(T(), e, n);
    } else if n == 0 || (e == 2 && n <= 2) {
      NoShortPowers(n, e);
    } else {
      ShortPowers(n, e);
    }
  }

  // ----- Alternating blocks

  ghost predicate HasAlternating(s: seq<int>, length: nat) {
    exists i :: Occurs(s, Alternating(0, 1, length), i) || Occurs(s, Alternating(1, 0, length), i)
  }

  lemma OccurrenceAlternates(f: Stream, n: nat, a: int, b: int, length: nat, i: nat)
    requires a != b && length >= 1 && Occurs(Prefix(f, n), Alternating(a, b, length), i)
    ensures Alternates(f, i, length - 1)
  {
    var s, block := Prefix(f, n), Alternating(a, b, length);
    var here := s[i..i + length];
    forall k: nat | i <= k < i + (length - 1) ensures Differs(f, k) {
      assert f(k) == here[k - i] == block[k - i];
      assert f(k + 1) == here[k + 1 - i] == block[k + 1 - i];
    }
  }

  lemma SomewhereAlternates(f: Stream, n: nat, length: nat) returns (i: nat)
    requires length >= 1 && HasAlternating(Prefix(f, n), length)
    ensures i + length <= n && Alternates(f, i, length - 1)
  {
    var s := Prefix(f, n);
    var at :| Occurs(s, Alternating(0, 1, length), at) || Occurs(s, Alternating(1, 0, length), at);
    i := at;
    if Occurs(Prefix(f, n), Alternating(0, 1, length), i) {
      OccurrenceAlternates(f, n, 0, 1, length, i);
    } else {
      OccurrenceAlternates(f, n, 1, 0, length, i);
    }
  }

  /** How long a prefix must be to show an alternating block. */
  function FirstSeen(length: nat): nat
    requires 1 <= length <= 4
  {
    if length <= 2 then length else length + 2
  }

  lemma ShortBlocks(f: Stream, n: nat, length: nat)
    requires 1 <= length <= 4 && n >= FirstSeen(length)
    requires f(0) == 0 && f(1) == 1 && f(2) == 1 && f(3) == 0 && f(4) == 1 && f(5) == 0
    ensures HasAlternating(Prefix(f, n), length)
  {
    var s := Prefix(f, n);
    if length <= 2 {
      assert s[0..length] == Alternating(0, 1, length);
      assert Occurs(s, Alternating(0, 1, length), 0);
    } else {
      assert s[2..2 + length] == Alternating(1, 0, length);
      assert Occurs(s, Alternating(1, 0, length), 2);
    }
  }

  lemma AlternationIsLate(f: Stream, i: nat, length: nat)
    requires 1 <= length <= 4 && f(1) == f(2) && Alternates(f, i, length - 1)
    ensures i + length >= FirstSeen(length)
  {
    assert !Differs(f, 1);
  }

  /** In which prefixes an alternating block of the given length occurs: never one of five letters. */
  lemma WhichPrefixesAlternate(n: nat, length: nat)
    requires length >= 1
    ensures HasAlternating(Word(n), length) <==> length <= 4 && n >= FirstSeen(length)
  {
    FirstLetters();
    if length <= 4 && n >= FirstSeen(length) {
      ShortBlocks(T(), n, length);
    }
    if HasAlternating(Word(n), length) {
      var i := SomewhereAlternates(T(), n, length);
      if length <= 4 {
        AlternationIsLate(T(), i, length);
      } else {
        ThueMorseDoubles();
        NoLongAlternation(T(), i, length - 1);
      }
    }
  }

  /** The search goes by period first: in this word it meets the square at 3 before the one at 0. */
  lemma PeriodComesFirst(r: Power)
    requires var s: seq<int> := [0, 1, 0, 1, 1]; Occurring(s, 2, r) && NoPowerBefore(s, 2, r)
    ensures var s: seq<int> := [0, 1, 0, 1, 1]; r == Power(3, 1) && !LexFirst(s, 2, r)
  {
    var s: seq<int> := [0, 1, 0, 1, 1];
    assert s[2..4] == s[0..2] && BlockRepeats(s, 0, 2, 1);
    assert s[4..5] == s[3..4] && BlockRepeats(s, 3, 1, 1);
    assert Occurring(s, 2, Power(0, 2)) && IsPower(s, 2, 3, 1);
    assert !Before(Power(3, 1), r);
    assert IsPower(s, 2, r.start, r.period);
    assert BlockRepeats(s, r.start, 1, 1);
    assert s[r.start + 1..r.start + 2] == s[r.start..r.start + 1];
    assert s[r.start + 1..r.start + 2][0] == s[r.start..r.start + 1][0];
  }

  /** The morphism 0 -> 01, 1 -> 10. */
  const MORPHISM: M.Morphism := [[0, 1], [1, 0]]

  /** Its fixed point is the word of bit-count parities. */
  lemma {:induction false} MorphismGrowsBitCounts(i: nat)
    ensures M.FromZero(MORPHISM, 2) && M.LetterAt(MORPHISM, 2, i) == Letter(i)
  {
    if i == 0 {
      FirstLetters();
    } else {
      MorphismGrowsBitCounts(i / 2);
      DoubleLetter(i / 2);
    }
  }
}
