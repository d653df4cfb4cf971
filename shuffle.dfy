/**
  * Python's `random.shuffle`: a Fisher–Yates pass that, for i = n-1 down to 1, swaps
  * position i with a position j drawn uniformly from [0, i]. The draws are an input here.
  */
module Shuffle {

  /** The draws of one shuffle of n items: the k-th draw serves position n-1-k and lies in [0, n-1-k]. */
  predicate ValidDraws(n: nat, js: seq<nat>) {
    |js| == (if n == 0 then 0 else n - 1) && forall k :: 0 <= k < |js| ==> js[k] <= n - 1 - k
  }

  /** Draws for n items taken from an unbounded source, each brought into its range. */
  function Draws(n: nat, source: nat -> nat): (js: seq<nat>)
    ensures ValidDraws(n, js)
  {
    seq(if n == 0 then 0 else n - 1, k requires 0 <= k < n - 1 => source(k) % (n - k))
  }

  /** Exchanges the items at positions i and j. */
  function Swap<T>(s: seq<T>, i: nat, j: nat): (r: seq<T>)
    requires i < |s| && j < |s|
    ensures |r| == |s| && r[i] == s[j] && r[j] == s[i]
    ensures forall k :: 0 <= k < |s| && k != i && k != j ==> r[k] == s[k]
    ensures multiset(r) == multiset(s)
  {
    var r := s[i := s[j]][j := s[i]];
    assert i == j ==> r == s;
    r
  }

  /** The swaps from step k of the pass onwards. */
  function ShuffleSteps<T>(s: seq<T>, js: seq<nat>, k: nat): (r: seq<T>)
    requires ValidDraws(|s|, js) && k <= |js|
    ensures |r| == |s| && multiset(r) == multiset(s)
    decreases |js| - k
  {
    if k == |js| then s else ShuffleSteps(Swap(s, |s| - 1 - k, js[k]), js, k + 1)
  }

  /** The list that `random.shuffle` leaves behind: a rearrangement of the same items. */
  function Shuffled<T>(s: seq<T>, js: seq<nat>): (r: seq<T>)
    requires ValidDraws(|s|, js)
    ensures |r| == |s| && multiset(r) == multiset(s)
  {
    ShuffleSteps(s, js, 0)
  }

  /** One step of the pass: exchange position |s|-1-k with the k-th draw, then carry on from k+1. */
  lemma ShuffleStep<T>(s: seq<T>, js: seq<nat>, k: nat)
    requires ValidDraws(|s|, js) && k < |js|
    ensures ShuffleSteps(s, js, k)
            == ShuffleSteps(s[|s| - 1 - k := s[js[k]]][js[k] := s[|s| - 1 - k]], js, k + 1)
  {
  }

  /** The in-place pass, proved to leave the array holding `Shuffled` of its old contents. */
  method ShuffleInPlace<T>(a: array<T>, js: seq<nat>)
    requires ValidDraws(a.Length, js)
    modifies a
    ensures a[..] == Shuffled(old(a[..]), js)
    ensures multiset(a[..]) == multiset(old(a[..]))
  {
    var k := 0;
    while k < |js|
      invariant 0 <= k <= |js|
      invariant ShuffleSteps(a[..], js, k) == Shuffled(old(a[..]), js)
    {
      var i, j := a.Length - 1 - k, js[k];
      ghost var before := a[..];
      ShuffleStep(before, js, k);
      a[i], a[j] := a[j], a[i];
      assert a[..] == before[i := before[j]][j := before[i]];
      k := k + 1;
    }
  }

  /** Applies f to every item, order kept. */
  function MapSeq<A, B>(f: A -> B, s: seq<A>): (r: seq<B>)
    ensures |r| == |s| && forall i :: 0 <= i < |s| ==> r[i] == f(s[i])
  {
    seq(|s|, i requires 0 <= i < |s| => f(s[i]))
  }

  /** Transforming a concatenation transforms each part. */
  lemma MapSeqAppend<A, B>(f: A -> B, a: seq<A>, b: seq<A>)
    ensures MapSeq(f, a + b) == MapSeq(f, a) + MapSeq(f, b)
  {
    assert forall i :: 0 <= i < |a + b| ==> MapSeq(f, a + b)[i] == (MapSeq(f, a) + MapSeq(f, b))[i];
  }

  /** Transforming the items and then running the remaining swaps is the same as the other way round. */
  lemma {:induction false} MapShuffleSteps<A, B>(f: A -> B, s: seq<A>, js: seq<nat>, k: nat)
    requires ValidDraws(|s|, js) && k <= |js|
    ensures MapSeq(f, ShuffleSteps(s, js, k)) == ShuffleSteps(MapSeq(f, s), js, k)
    decreases |js| - k
  {
    if k < |js| {
      var t := Swap(s, |s| - 1 - k, js[k]);
      ShuffleSwap(s, js, k);
      ShuffleSwap(MapSeq(f, s), js, k);
      MapSwapFromEnd(f, s, k, js[k]);
      MapShuffleSteps(f, t, js, k + 1);
    }
  }

  /** Step k of the pass exchanges position |s|-1-k with the k-th draw. */
  lemma ShuffleSwap<T>(s: seq<T>, js: seq<nat>, k: nat)
    requires ValidDraws(|s|, js) && k < |js|
    ensures ShuffleSteps(s, js, k) == ShuffleSteps(Swap(s, |s| - 1 - k, js[k]), js, k + 1)
  {
    ShuffleStep(s, js, k);
  }

  /** `MapSwap` at position |s|-1-k, counted from the end of either list. */
  lemma MapSwapFromEnd<A, B>(f: A -> B, s: seq<A>, k: nat, j: nat)
    requires k < |s| && j < |s|
    ensures MapSeq(f, Swap(s, |s| - 1 - k, j)) == Swap(MapSeq(f, s), |MapSeq(f, s)| - 1 - k, j)
  {
    MapSwap(f, s, |s| - 1 - k, j);
  }

  /** Transforming the items commutes with one exchange. */
  lemma MapSwap<A, B>(f: A -> B, s: seq<A>, i: nat, j: nat)
    requires i < |s| && j < |s|
    ensures MapSeq(f, Swap(s, i, j)) == Swap(MapSeq(f, s), i, j)
  {
    var a, b := MapSeq(f, Swap(s, i, j)), Swap(MapSeq(f, s), i, j);
    forall k | 0 <= k < |s| ensures a[k] == b[k] {
    }
  }

  /**
    * Shuffling commutes with transforming every item, so the transformed shuffled list holds the
    * transformed items of the original, each as often.
    */
  lemma MapShuffled<A, B>(f: A -> B, s: seq<A>, js: seq<nat>)
    requires ValidDraws(|s|, js)
    ensures MapSeq(f, Shuffled(s, js)) == Shuffled(MapSeq(f, s), js)
    ensures multiset(MapSeq(f, Shuffled(s, js))) == multiset(MapSeq(f, s))
  {
    MapShuffleSteps(f, s, js, 0);
  }
}
