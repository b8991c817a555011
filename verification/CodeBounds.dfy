/** The sphere-packing and Singleton bounds. */
module CodeBounds {
  // The closed-form upper bounds a certificate is compared with: sphere packing and Singleton.

  import opened Collections
  import opened Arith
  import opened Binomial
  import opened Codes

  /** The sum of C(n,i) for i < terms. */
  function Volume(n: nat, terms: nat): nat {
    if terms == 0 then 0 else Volume(n, terms - 1) + Comb(n, terms - 1)
  }

  lemma {:induction false} VolumePositive(n: nat, terms: nat)
    requires terms > 0
    ensures Volume(n, terms) > 0
  {
    if terms > 1 {
      VolumePositive(n, terms - 1);
    }
  }

  function HammingUb(n: nat, d: nat): nat
    requires 1 <= d
  {
    VolumePositive(n, (d - 1) / 2 + 1);
    Pow2(n) / Volume(n, (d - 1) / 2 + 1)
  }

  function SingletonUb(n: nat, d: nat): nat
    requires d <= n + 1
  {
    Pow2(n - d + 1)
  }

  lemma {:induction false} VolumePascal(n: nat, terms: nat)
    ensures Volume(n + 1, terms) == Volume(n, terms) + if terms == 0 then 0 else Volume(n, terms - 1)
  {
    if terms > 0 {
      VolumePascal(n, terms - 1);
    }
  }

  lemma {:induction false} VolumeOfNothing(terms: nat)
    requires terms > 0
    ensures Volume(0, terms) == 1
  {
    if terms > 1 {
      VolumeOfNothing(terms - 1);
    }
  }

  // ----- Sets of words and their sizes

  ghost function Behind(b: bool, s: set<Word>): set<Word> {
    set w | w in s :: [b] + w
  }

  lemma BehindMember(b: bool, s: set<Word>, w: Word)
    ensures w in Behind(b, s) <==> w != [] && w[0] == b && w[1..] in s
  {
    if w != [] {
      assert w == [w[0]] + w[1..];
    }
    forall v | v in s && w == [b] + v ensures w[1..] == v {
    }
  }

  lemma {:induction false} BehindSize(b: bool, s: set<Word>)
    ensures |Behind(b, s)| == |s|
    decreases |s|
  {
    if s == {} {
      assert Behind(b, s) == {};
    } else {
      var x :| x in s;
      BehindSize(b, s - {x});
      assert Behind(b, s) == Behind(b, s - {x}) + {[b] + x};
      BehindMember(b, s - {x}, [b] + x);
      assert ([b] + x)[1..] == x;
    }
  }

  lemma SizeOfBoth(x: bool, s: set<Word>, t: set<Word>, u: set<Word>)
    requires u == Behind(x, s) + Behind(!x, t)
    ensures |u| == |s| + |t|
  {
    BehindSize(x, s);
    BehindSize(!x, t);
    forall w | w in Behind(x, s) && w in Behind(!x, t) ensures false {
      BehindMember(x, s, w);
      BehindMember(!x, t, w);
    }
  }

  ghost function AllWords(n: nat): set<Word> {
    if n == 0 then {[]} else Behind(false, AllWords(n - 1)) + Behind(true, AllWords(n - 1))
  }

  lemma {:induction false} AllWordsMembers(n: nat, w: Word)
    ensures w in AllWords(n) <==> |w| == n
  {
    if n > 0 {
      BehindMember(false, AllWords(n - 1), w);
      BehindMember(true, AllWords(n - 1), w);
      if w != [] {
        AllWordsMembers(n - 1, w[1..]);
      }
    }
  }

  lemma {:induction false} AllWordsSize(n: nat)
    ensures |AllWords(n)| == Pow2(n)
  {
    if n > 0 {
      AllWordsSize(n - 1);
      SizeOfBoth(false, AllWords(n - 1), AllWords(n - 1), AllWords(n));
    }
  }

  /** The words of the length of x that differ from it in fewer than r positions. */
  ghost function Ball(x: Word, r: nat): set<Word> {
    if r == 0 then {}
    else if x == [] then {[]}
    else Behind(x[0], Ball(x[1..], r)) + Behind(!x[0], Ball(x[1..], r - 1))
  }

  lemma {:induction false} BallMembers(x: Word, r: nat, w: Word)
    ensures w in Ball(x, r) <==> |w| == |x| && Dist(x, w) < r
  {
    if r > 0 && x != [] {
      BehindMember(x[0], Ball(x[1..], r), w);
      BehindMember(!x[0], Ball(x[1..], r - 1), w);
      if w == [] {
      } else if w[0] == x[0] {
        BallMembers(x[1..], r, w[1..]);
      } else {
        BallMembers(x[1..], r - 1, w[1..]);
      }
    }
  }

  lemma BallSplit(x: Word, r: nat)
    requires r > 0 && x != []
    ensures |Ball(x, r)| == |Ball(x[1..], r)| + |Ball(x[1..], r - 1)|
  {
    SizeOfBoth(x[0], Ball(x[1..], r), Ball(x[1..], r - 1), Ball(x, r));
  }

  lemma {:induction false} BallSize(x: Word, r: nat)
    ensures |Ball(x, r)| == Volume(|x|, r)
  {
    if r > 0 {
      if x == [] {
        VolumeOfNothing(r);
      } else {
        BallSize(x[1..], r);
        BallSize(x[1..], r - 1);
        BallSplit(x, r);
        VolumePascal(|x| - 1, r);
      }
    }
  }

  // ----- Sphere packing

  ghost function Balls(c: set<Word>, r: nat): set<Word> {
    set x, w | x in c && w in Ball(x, r) :: w
  }

  lemma BallsMembers(c: set<Word>, r: nat, w: Word)
    ensures w in Balls(c, r) <==> exists x :: x in c && |x| == |w| && Dist(x, w) < r
  {
    forall x | x in c ensures w in Ball(x, r) <==> |w| == |x| && Dist(x, w) < r {
      BallMembers(x, r, w);
    }
  }

  lemma BallsApart(n: nat, d: nat, r: nat, c: set<Word>, x: Word)
    requires IsCode(c, n, d) && 2 * r <= d + 1 && x in c
    ensures Balls(c - {x}, r) !! Ball(x, r)
  {
    forall w | w in Balls(c - {x}, r) && w in Ball(x, r) ensures false {
      BallsMembers(c - {x}, r, w);
      BallMembers(x, r, w);
      var y :| y in c - {x} && |y| == |w| && Dist(y, w) < r;
      DistTriangle(x, w, y);
      DistSymmetric(y, w);
    }
  }

  lemma BallsGrow(n: nat, d: nat, r: nat, c: set<Word>, x: Word)
    requires IsCode(c, n, d) && 2 * r <= d + 1 && x in c
    ensures |Balls(c, r)| == |Balls(c - {x}, r)| + Volume(n, r)
  {
    BallsApart(n, d, r, c, x);
    BallSize(x, r);
    assert Balls(c, r) == Balls(c - {x}, r) + Ball(x, r);
  }

  lemma {:induction false} BallsSize(n: nat, d: nat, r: nat, c: set<Word>)
    requires IsCode(c, n, d) && 2 * r <= d + 1
    ensures |Balls(c, r)| == Volume(n, r) * |c|
    decreases |c|
  {
    if c == {} {
      assert Balls(c, r) == {};
    } else {
      var x :| x in c;
      BallsSize(n, d, r, c - {x});
      BallsGrow(n, d, r, c, x);
      assert |c| == |c - {x}| + 1;
      Distribute(Volume(n, r), |c - {x}|, 1);
    }
  }

  /** Sphere packing: no binary code of minimum distance d beats hamming_ub. */
  lemma HammingBoundsCodes(n: nat, d: nat, c: set<Word>)
    requires 1 <= d && IsCode(c, n, d)
    ensures |c| <= HammingUb(n, d)
  {
    var r := (d - 1) / 2 + 1;
    VolumePositive(n, r);
    BallsSize(n, d, r, c);
    forall w | w in Balls(c, r) ensures w in AllWords(n) {
      BallsMembers(c, r, w);
      AllWordsMembers(n, w);
    }
    SubsetSize(Balls(c, r), AllWords(n));
    AllWordsSize(n);
    FloorAtLeast(|c|, Volume(n, r), Pow2(n));
  }

  lemma FloorIsLargest(m: int, q: int, f: int)
    requires q > 0
    ensures m <= f / q <==> q * m <= f
  {
    if q * m <= f {
      FloorAtLeast(m, q, f);
    } else if m <= f / q {
      ProductNonNegative(q, f / q - m);
      Distribute(q, m, f / q - m);
    }
  }

  /** hamming_ub is how many balls the size of the one around x fit into all words by their number. */
  lemma HammingIsLargest(n: nat, d: nat, x: Word, r: nat, m: int)
    requires 1 <= d && |x| == n && r == (d - 1) / 2
    ensures m <= HammingUb(n, d) <==> |Ball(x, r + 1)| * m <= |AllWords(n)|
  {
    VolumePositive(n, r + 1);
    BallSize(x, r + 1);
    AllWordsSize(n);
    FloorIsLargest(m, Volume(n, r + 1), Pow2(n));
  }

  // ----- Singleton

  lemma {:induction false} PrefixDist(x: Word, y: Word, m: nat)
    requires |x| == |y| && m <= |x| && x[..m] == y[..m]
    ensures Dist(x, y) <= |x| - m
  {
    if m > 0 {
      assert x[0] == x[..m][0] == y[..m][0] == y[0];
      assert x[1..][..m - 1] == x[..m][1..] == y[..m][1..] == y[1..][..m - 1];
      PrefixDist(x[1..], y[1..], m - 1);
    }
  }

  ghost function Punctured(n: nat, c: set<Word>, m: nat): set<Word>
    requires m <= n && forall x :: x in c ==> |x| == n
  {
    set x | x in c :: x[..m]
  }

  lemma PuncturedWithout(n: nat, c: set<Word>, m: nat, x: Word)
    requires m <= n && x in c && forall y :: y in c ==> |y| == n
    ensures Punctured(n, c, m) == Punctured(n, c - {x}, m) + {x[..m]}
  {
    forall w ensures w in Punctured(n, c, m) <==> w in Punctured(n, c - {x}, m) + {x[..m]} {
      if y :| y in c && y[..m] == w {
        assert y == x || y in c - {x};
      }
    }
  }

  lemma {:induction false} PuncturedSize(n: nat, d: nat, c: set<Word>, m: nat)
    requires m <= n && IsCode(c, n, d) && n - m < d
    ensures |Punctured(n, c, m)| == |c|
    decreases |c|
  {
    if c == {} {
      assert Punctured(n, c, m) == {};
    } else {
      var x :| x in c;
      var rest := c - {x};
      PuncturedSize(n, d, rest, m);
      PuncturedWithout(n, c, m, x);
      forall y | y in rest ensures y[..m] != x[..m] {
        if y[..m] == x[..m] {
          PrefixDist(x, y, m);
        }
      }
    }
  }

  /** Singleton: no binary code of minimum distance d beats singleton_ub. */
  lemma SingletonBoundsCodes(n: nat, d: nat, c: set<Word>)
    requires 1 <= d <= n + 1 && IsCode(c, n, d)
    ensures |c| <= SingletonUb(n, d)
  {
    var m := n - d + 1;
    PuncturedSize(n, d, c, m);
    forall w | w in Punctured(n, c, m) ensures w in AllWords(m) {
      AllWordsMembers(m, w);
    }
    SubsetSize(Punctured(n, c, m), AllWords(m));
    AllWordsSize(m);
  }

  /** singleton_ub is how many words there are of the punctured length. */
  lemma SingletonCountsWords(n: nat, d: nat)
    requires d <= n + 1
    ensures SingletonUb(n, d) == |AllWords(n - d + 1)|
  {
    AllWordsSize(n - d + 1);
  }
}
