/** An exact (brute-force) nearest-neighbour index under squared Euclidean
    distance, the role `faiss.IndexFlatL2` plays in graph.py. Vectors are
    sequences of reals; the float32 arithmetic of the library is not part
    of this model. Search ranks the stored vectors by distance to the
    query, ties going to the vector added first, and returns the first `k`
    labels, padded with `-1` when fewer than `k` vectors are stored. */
module FlatL2 {
  import opened Common

  type Vector = seq<real>

  /** The squared Euclidean distance between two vectors of one dimension. */
  function SqDist(a: Vector, b: Vector): (d: real)
    requires |a| == |b|
    ensures d >= 0.0
    decreases |a|
  {
    if |a| == 0 then 0.0
    else (a[0] - b[0]) * (a[0] - b[0]) + SqDist(a[1..], b[1..])
  }

  /** Every vector of `vs` has `dim` components. */
  predicate SameDim(vs: seq<Vector>, dim: nat)
  {
    forall i :: 0 <= i < |vs| ==> |vs[i]| == dim
  }

  /** The distance of every stored vector to the query `q`. */
  function Dists(vs: seq<Vector>, q: Vector): seq<real>
    requires SameDim(vs, |q|)
  {
    seq(|vs|, i requires 0 <= i < |vs| => SqDist(vs[i], q))
  }

  /** The ranking order on labels: nearer first, and among vectors at the
      same distance the one added first. A strict total order on labels. */
  predicate Before(ds: seq<real>, i: nat, j: nat)
    requires i < |ds| && j < |ds|
  {
    ds[i] < ds[j] || (ds[i] == ds[j] && i < j)
  }

  /** Every element of `s` is a label of `ds`. */
  predicate Indices(ds: seq<real>, s: seq<nat>)
  {
    forall r :: 0 <= r < |s| ==> s[r] < |ds|
  }

  /** `s` lists its labels in ranking order (so, in particular, no label twice). */
  predicate Ranked(ds: seq<real>, s: seq<nat>)
    requires Indices(ds, s)
  {
    forall r, t :: 0 <= r < t < |s| ==> Before(ds, s[r], s[t])
  }

  /** What an exact top-`k` search promises: `min(k, n)` labels, in
      nondecreasing distance, none farther than any label left out. */
  predicate IsTopK(ds: seq<real>, k: nat, found: seq<nat>)
  {
    && |found| == Min(k, |ds|)
    && Indices(ds, found)
    && Ranked(ds, found)
    && (forall r, e :: 0 <= r < |found| && 0 <= e < |ds| && e !in found ==> Before(ds, found[r], e))
  }

  /** Inserts label `j` into the ranked list `s`, behind every label that is
      not strictly farther. */
  function InsertRanked(ds: seq<real>, s: seq<nat>, j: nat): (r: seq<nat>)
    requires Indices(ds, s) && j < |ds|
    ensures |r| == |s| + 1
    ensures Indices(ds, r)
    decreases |s|
  {
    if s == [] then [j]
    else if ds[j] < ds[s[0]] then [j] + s
    else [s[0]] + InsertRanked(ds, s[1..], j)
  }

  /** Labels `0 .. j-1` in ranking order. */
  function RankAll(ds: seq<real>, j: nat): (r: seq<nat>)
    requires j <= |ds|
    ensures |r| == j
    ensures Indices(ds, r)
  {
    if j == 0 then [] else InsertRanked(ds, RankAll(ds, j - 1), j - 1)
  }

  /** The first `min(k, n)` labels of the ranking. */
  function TopK(ds: seq<real>, k: nat): (r: seq<nat>)
    ensures |r| == Min(k, |ds|)
    ensures Indices(ds, r)
  {
    RankAll(ds, |ds|)[..Min(k, |ds|)]
  }

  /** The label list a search returns: the hits, then `-1` for every one of
      the `k` places no stored vector fills. */
  function Padded(found: seq<nat>, k: nat): seq<int>
    requires |found| <= k
  {
    seq(k, r requires 0 <= r < k => if r < |found| then found[r] as int else -1)
  }

  /** Insertion keeps the list ranked and adds exactly the new label, when
      the new label is larger than every label already there. */
  lemma {:induction false} InsertRankedFacts(ds: seq<real>, s: seq<nat>, j: nat)
    requires Indices(ds, s) && j < |ds|
    requires forall r :: 0 <= r < |s| ==> s[r] < j
    requires Ranked(ds, s)
    ensures forall e :: e in InsertRanked(ds, s, j) <==> e in s || e == j
    ensures Ranked(ds, InsertRanked(ds, s, j))
    decreases |s|
  {
    if s != [] && ds[s[0]] <= ds[j] {
      var tail := s[1..];
      InsertRankedFacts(ds, tail, j);
      var ins := InsertRanked(ds, tail, j);
      var r := [s[0]] + ins;
      assert s == [s[0]] + tail;
      forall t | 0 < t < |r|
        ensures Before(ds, s[0], r[t])
      {
        assert r[t] == ins[t - 1];
        assert r[t] in tail || r[t] == j;
        if r[t] in tail {
          var p :| 0 <= p < |tail| && tail[p] == r[t];
          assert s[p + 1] == r[t];
        }
      }
      forall t1, t2 | 0 <= t1 < t2 < |r|
        ensures Before(ds, r[t1], r[t2])
      {
        if t1 > 0 {
          assert r[t1] == ins[t1 - 1] && r[t2] == ins[t2 - 1];
        }
      }
    } else if s != [] {
      var r := [j] + s;
      forall t | 0 < t < |r|
        ensures Before(ds, j, r[t])
      {
        assert r[t] == s[t - 1];
        assert ds[s[0]] <= ds[s[t - 1]] by {
          if t > 1 {
            assert Before(ds, s[0], s[t - 1]);
          }
        }
      }
    }
  }

  /** The full ranking lists every label below `j` exactly once, in order. */
  lemma {:induction false} RankAllFacts(ds: seq<real>, j: nat)
    requires j <= |ds|
    ensures |RankAll(ds, j)| == j
    ensures forall e: nat :: e in RankAll(ds, j) <==> e < j
    ensures Ranked(ds, RankAll(ds, j))
  {
    if j > 0 {
      var s := RankAll(ds, j - 1);
      RankAllFacts(ds, j - 1);
      assert forall r :: 0 <= r < |s| ==> s[r] < j - 1 by {
        forall r | 0 <= r < |s|
          ensures s[r] < j - 1
        {
          assert s[r] in s;
        }
      }
      InsertRankedFacts(ds, s, j - 1);
    }
  }

  /** The result of `TopK` is what an exact top-`k` search must return. */
  lemma TopKIsTopK(ds: seq<real>, k: nat)
    ensures IsTopK(ds, k, TopK(ds, k))
  {
    var n := |ds|;
    var all := RankAll(ds, n);
    RankAllFacts(ds, n);
    var m := Min(k, n);
    var found := TopK(ds, k);
    assert found == all[..m];
    forall r, e | 0 <= r < |found| && 0 <= e < n && e !in found
      ensures Before(ds, found[r], e)
    {
      assert e in all;
      var p :| 0 <= p < |all| && all[p] == e;
    }
  }

  /** Ranked lists hold no label twice. */
  lemma RankedDistinct(ds: seq<real>, s: seq<nat>, r: nat, t: nat)
    requires Indices(ds, s) && Ranked(ds, s)
    requires r < t < |s|
    ensures s[r] != s[t]
  {
    assert Before(ds, s[r], s[t]);
  }

  /** The first hit is a nearest vector; when some stored vector is at
      distance zero from the query, so is the first hit. */
  lemma NearestFirst(vs: seq<Vector>, q: Vector, k: nat, i: nat)
    requires SameDim(vs, |q|)
    requires k > 0 && i < |vs|
    ensures |TopK(Dists(vs, q), k)| > 0
    ensures SqDist(vs[TopK(Dists(vs, q), k)[0]], q) <= SqDist(vs[i], q)
    ensures SqDist(vs[i], q) == 0.0 ==> SqDist(vs[TopK(Dists(vs, q), k)[0]], q) == 0.0
  {
    var ds := Dists(vs, q);
    var found := TopK(ds, k);
    TopKIsTopK(ds, k);
    var f := found[0];
    if i !in found {
      assert Before(ds, f, i);
    } else {
      var p :| 0 <= p < |found| && found[p] == i;
      if p > 0 {
        assert Before(ds, f, found[p]);
      }
    }
  }

  /** A vector is at distance zero from itself. */
  lemma {:induction false} SqDistSelf(a: Vector)
    ensures SqDist(a, a) == 0.0
    decreases |a|
  {
    if |a| > 0 {
      SqDistSelf(a[1..]);
    }
  }

  /** Searching with a stored vector as the query returns first a vector
      at distance zero from it, never one added after it. */
  lemma SearchFindsStored(vs: seq<Vector>, k: nat, i: nat)
    requires i < |vs| && SameDim(vs, |vs[i]|) && k > 0
    ensures |TopK(Dists(vs, vs[i]), k)| > 0
    ensures SqDist(vs[TopK(Dists(vs, vs[i]), k)[0]], vs[i]) == 0.0
    ensures TopK(Dists(vs, vs[i]), k)[0] <= i
  {
    var q := vs[i];
    var ds := Dists(vs, q);
    SqDistSelf(q);
    NearestFirst(vs, q, k, i);
    var f := TopK(ds, k)[0];
    TopKIsTopK(ds, k);
    if f != i {
      if i !in TopK(ds, k) {
        assert Before(ds, f, i);
      } else {
        var p :| 0 <= p < |TopK(ds, k)| && TopK(ds, k)[p] == i;
        assert Before(ds, f, i);
      }
    }
  }

  /** Inserting into the first `t` labels and keeping `t` labels gives the
      same as inserting into all of them and keeping `t`. */
  lemma {:induction false} TruncateInsert(ds: seq<real>, s: seq<nat>, j: nat, t: nat)
    requires Indices(ds, s) && j < |ds| && t <= |s|
    ensures InsertRanked(ds, s, j)[..t] == InsertRanked(ds, s[..t], j)[..t]
    decreases |s|
  {
    if t > 0 {
      var u := s[..t];
      assert u[0] == s[0];
      if ds[s[0]] <= ds[j] {
        assert u[1..] == s[1..][..t - 1];
        TruncateInsert(ds, s[1..], j, t - 1);
      }
    }
  }

  /** One scan step: the top `k` of the first `j + 1` labels comes from the
      top `k` of the first `j` by one insertion. */
  lemma ScanStep(ds: seq<real>, j: nat, k: nat)
    requires j < |ds|
    ensures RankAll(ds, j + 1)[..Min(k, j + 1)]
         == InsertRanked(ds, RankAll(ds, j)[..Min(k, j)], j)[..Min(k, j + 1)]
  {
    var s := RankAll(ds, j);
    RankAllFacts(ds, j);
    if k > j {
      assert s[..j] == s;
    } else {
      TruncateInsert(ds, s, j, k);
    }
  }

  /** The index: a dimension fixed at construction and the vectors added so
      far, label `i` being the `i`-th vector added. */
  class FlatIndex {
    const dim: nat
    var vectors: seq<Vector>

    predicate Valid()
      reads this
    {
      SameDim(vectors, dim)
    }

    /** `IndexFlatL2(dim)`: an empty index. */
    constructor(dim: nat)
      ensures this.dim == dim && vectors == []
      ensures Valid()
    {
      this.dim := dim;
      vectors := [];
    }

    /** `index.add(batch)`: appends the batch, whose rows must have the
        index's dimension; the new rows get the next labels. */
    method Add(batch: seq<Vector>)
      requires Valid() && SameDim(batch, dim)
      modifies this
      ensures vectors == old(vectors) + batch
      ensures Valid()
    {
      vectors := vectors + batch;
    }

    /** `index.search(q, k)` for one query: the `k` labels of the ranking,
        padded with `-1`, and the distances of the real hits. */
    method Search(q: Vector, k: nat) returns (labels: seq<int>, distances: seq<real>)
      requires Valid() && |q| == dim && k > 0
      ensures labels == Padded(TopK(Dists(vectors, q), k), k)
      ensures |distances| == |TopK(Dists(vectors, q), k)|
      ensures forall r :: 0 <= r < |distances| ==>
        distances[r] == SqDist(vectors[TopK(Dists(vectors, q), k)[r]], q)
    {
      var ds := Dists(vectors, q);
      var best: seq<nat> := [];
      var j := 0;
      while j < |vectors|
        invariant 0 <= j <= |vectors|
        invariant best == RankAll(ds, j)[..Min(k, j)]
        invariant |best| == Min(k, j) && Indices(ds, best)
      {
        ScanStep(ds, j, k);
        best := InsertRanked(ds, best, j)[..Min(k, j + 1)];
        j := j + 1;
      }
      labels := Padded(best, k);
      distances := seq(|best|, r requires 0 <= r < |best| => ds[best[r]]);
    }
  }
}
