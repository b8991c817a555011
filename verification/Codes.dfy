/** Binary words, Hamming distance and codes: the vocabulary shared by the linear-programming
    certificates and the elementary bounds. */
module Codes {

  type Word = seq<bool>

  function Weight(x: Word): (w: nat)
    ensures w <= |x|
  {
    if x == [] then 0 else (if x[0] then 1 else 0) + Weight(x[1..])
  }

  function Xor(x: Word, y: Word): (z: Word)
    requires |x| == |y|
    ensures |z| == |x|
  {
    seq(|x|, i requires 0 <= i < |x| => x[i] != y[i])
  }

  function Dist(x: Word, y: Word): (d: nat)
    requires |x| == |y|
    ensures d <= |x|
  {
    if x == [] then 0 else (if x[0] != y[0] then 1 else 0) + Dist(x[1..], y[1..])
  }

  /** A code of length n whose distinct words are at least d apart. */
  ghost predicate IsCode(c: set<Word>, n: nat, d: nat) {
    && (forall x :: x in c ==> |x| == n)
    && (forall x, y :: x in c && y in c && x != y ==> |x| == |y| && Dist(x, y) >= d)
  }

  lemma {:induction false} DistIsXorWeight(x: Word, y: Word)
    requires |x| == |y|
    ensures Dist(x, y) == Weight(Xor(x, y))
  {
    if x != [] {
      DistIsXorWeight(x[1..], y[1..]);
      assert Xor(x, y)[1..] == Xor(x[1..], y[1..]);
    }
  }

  lemma {:induction false} DistZero(x: Word, y: Word)
    requires |x| == |y|
    ensures Dist(x, y) == 0 <==> x == y
  {
    if x != [] {
      DistZero(x[1..], y[1..]);
      assert x == [x[0]] + x[1..] && y == [y[0]] + y[1..];
    }
  }

  lemma {:induction false} DistSymmetric(x: Word, y: Word)
    requires |x| == |y|
    ensures Dist(x, y) == Dist(y, x)
  {
    if x != [] {
      DistSymmetric(x[1..], y[1..]);
    }
  }

  lemma {:induction false} DistTriangle(x: Word, y: Word, z: Word)
    requires |x| == |y| == |z|
    ensures Dist(x, z) <= Dist(x, y) + Dist(y, z)
  {
    if x != [] {
      DistTriangle(x[1..], y[1..], z[1..]);
    }
  }
}
