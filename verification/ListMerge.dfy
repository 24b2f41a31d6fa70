/** The specification of list_sort in list.c: merging and runs, on sequences of list elements. */
module ListMerge {

  /** A list element. The order that the caller of list_sort provides is a strict weak one, given
      here by a rank. */
  class ListElem {
    var prev: ListElem?
    var next: ListElem?
    const rank: int

    constructor (rank: int)
      ensures this.rank == rank && prev == null && next == null
    {
      this.rank := rank;
      prev, next := null, null;
    }
  }

  /** list_less_func */
  predicate Less(a: ListElem, b: ListElem) {
    a.rank < b.rank
  }

  predicate Nondecreasing(xs: seq<ListElem>) {
    forall i, j :: 0 <= i < j < |xs| ==> xs[i].rank <= xs[j].rank
  }

  /** The elements of one rank, in their order. */
  function OfRank(xs: seq<ListElem>, v: int): seq<ListElem> {
    if xs == [] then [] else (if xs[0].rank == v then [xs[0]] else []) + OfRank(xs[1..], v)
  }

  /** ys is xs in another order, in which elements of equal rank keep their order. */
  ghost predicate Rearranged(xs: seq<ListElem>, ys: seq<ListElem>) {
    multiset(xs) == multiset(ys) && forall v :: OfRank(xs, v) == OfRank(ys, v)
  }

  lemma {:induction false} OfRankAppend(xs: seq<ListElem>, ys: seq<ListElem>, v: int)
    ensures OfRank(xs + ys, v) == OfRank(xs, v) + OfRank(ys, v)
    decreases |xs|
  {
    if xs == [] {
      assert xs + ys == ys;
    } else {
      assert (xs + ys)[1..] == xs[1..] + ys;
      OfRankAppend(xs[1..], ys, v);
    }
  }

  lemma RearrangedAppend(xs: seq<ListElem>, xs': seq<ListElem>, ys: seq<ListElem>, ys': seq<ListElem>)
    requires Rearranged(xs, xs') && Rearranged(ys, ys')
    ensures Rearranged(xs + ys, xs' + ys')
  {
    forall v ensures OfRank(xs + ys, v) == OfRank(xs' + ys', v) {
      OfRankAppend(xs, ys, v);
      OfRankAppend(xs', ys', v);
    }
  }

  /** Taking from the second list only what is less than the first one's front. */
  function Merge(xs: seq<ListElem>, ys: seq<ListElem>): (r: seq<ListElem>)
    ensures |r| == |xs| + |ys|
    decreases |xs| + |ys|
  {
    if xs == [] then ys
    else if ys == [] then xs
    else if !Less(ys[0], xs[0]) then [xs[0]] + Merge(xs[1..], ys)
    else [ys[0]] + Merge(xs, ys[1..])
  }

  lemma MergeFront(xs: seq<ListElem>, ys: seq<ListElem>)
    requires xs != [] && ys != []
    ensures Merge(xs, ys) == if !Less(ys[0], xs[0]) then [xs[0]] + Merge(xs[1..], ys) else [ys[0]] + Merge(xs, ys[1..])
  {
  }

  lemma {:induction false} MergeElements(xs: seq<ListElem>, ys: seq<ListElem>)
    ensures multiset(Merge(xs, ys)) == multiset(xs) + multiset(ys)
    decreases |xs| + |ys|
  {
    if xs != [] && ys != [] {
      hide Merge;
      MergeFront(xs, ys);
      assert xs == [xs[0]] + xs[1..] && ys == [ys[0]] + ys[1..];
      if !Less(ys[0], xs[0]) {
        MergeElements(xs[1..], ys);
      } else {
        MergeElements(xs, ys[1..]);
      }
    }
  }

  /** Merging two sorted lists gives a sorted one. */
  lemma {:induction false} MergeSorted(xs: seq<ListElem>, ys: seq<ListElem>)
    requires Nondecreasing(xs) && Nondecreasing(ys)
    ensures Nondecreasing(Merge(xs, ys))
    decreases |xs| + |ys|
  {
    if xs == [] || ys == [] {
    } else if !Less(ys[0], xs[0]) {
      MergeSorted(xs[1..], ys);
      FrontFirst(xs[0], xs[1..], ys);
    } else {
      MergeSorted(xs, ys[1..]);
      FrontFirst(ys[0], xs, ys[1..]);
    }
  }

  lemma FrontFirst(x: ListElem, xs: seq<ListElem>, ys: seq<ListElem>)
    requires Nondecreasing(Merge(xs, ys))
    requires forall k :: 0 <= k < |xs| ==> !Less(xs[k], x)
    requires forall k :: 0 <= k < |ys| ==> !Less(ys[k], x)
    ensures Nondecreasing([x] + Merge(xs, ys))
  {
    var m := Merge(xs, ys);
    MergeElements(xs, ys);
    forall k | 0 <= k < |m| ensures !Less(m[k], x) {
      assert m[k] in multiset(m);
      assert m[k] in multiset(xs) || m[k] in multiset(ys);
    }
  }

  lemma {:induction false} NoneOfRank(xs: seq<ListElem>, v: int)
    requires forall k :: 0 <= k < |xs| ==> xs[k].rank != v
    ensures OfRank(xs, v) == []
    decreases |xs|
  {
    if xs != [] {
      NoneOfRank(xs[1..], v);
    }
  }

  /** Merging is stable: of two elements of the same rank, the one from the first list comes
      first. */
  lemma {:induction false} MergeStable(xs: seq<ListElem>, ys: seq<ListElem>, v: int)
    requires Nondecreasing(xs)
    ensures OfRank(Merge(xs, ys), v) == OfRank(xs, v) + OfRank(ys, v)
    decreases |xs| + |ys|
  {
    if xs == [] || ys == [] {
      return;
    }
    hide Merge;
    MergeFront(xs, ys);
    if !Less(ys[0], xs[0]) {
      MergeStable(xs[1..], ys, v);
      OfRankAppend([xs[0]], Merge(xs[1..], ys), v);
    } else {
      MergeStable(xs, ys[1..], v);
      OfRankAppend([ys[0]], Merge(xs, ys[1..]), v);
      if ys[0].rank == v {
        assert forall k :: 0 < k < |xs| ==> !Less(xs[k], xs[0]);
        NoneOfRank(xs, v);
      }
    }
  }

  lemma MergeRearranged(xs: seq<ListElem>, ys: seq<ListElem>)
    requires Nondecreasing(xs)
    ensures Rearranged(xs + ys, Merge(xs, ys))
  {
    MergeElements(xs, ys);
    forall v ensures OfRank(xs + ys, v) == OfRank(Merge(xs, ys), v) {
      MergeStable(xs, ys, v);
      OfRankAppend(xs, ys, v);
    }
  }

  /** The number of places up to n where a run ends. */
  function Descents(xs: seq<ListElem>, n: nat): (d: nat)
    requires n <= |xs|
    ensures d <= n
  {
    if n <= 1 then 0 else Descents(xs, n - 1) + if Less(xs[n - 1], xs[n - 2]) then 1 else 0
  }

  /** Without a descent, the elements are in order. */
  lemma {:induction false} NoDescents(xs: seq<ListElem>, n: nat)
    requires n <= |xs| && Descents(xs, n) == 0
    ensures Nondecreasing(xs[..n])
    decreases n
  {
    if n > 1 {
      NoDescents(xs, n - 1);
      forall i, j | 0 <= i < j < n ensures !Less(xs[..n][j], xs[..n][i]) {
        if i < n - 2 {
          assert !Less(xs[..n - 1][n - 2], xs[..n - 1][i]);
        }
        if j < n - 1 {
          assert !Less(xs[..n - 1][j], xs[..n - 1][i]);
        }
      }
    }
  }

  /** Descents depend on the elements up to n only. */
  lemma {:induction false} DescentsSame(xs: seq<ListElem>, ys: seq<ListElem>, n: nat)
    requires n <= |xs| && n <= |ys| && xs[..n] == ys[..n]
    ensures Descents(xs, n) == Descents(ys, n)
    decreases n
  {
    if n > 1 {
      assert xs[..n][n - 1] == ys[..n][n - 1] && xs[..n][n - 2] == ys[..n][n - 2];
      assert xs[..n - 1] == xs[..n][..n - 1] && ys[..n - 1] == ys[..n][..n - 1];
      DescentsSame(xs, ys, n - 1);
    }
  }

  /** A run adds no descent but the one it starts with. */
  lemma {:induction false} DescentsRun(xs: seq<ListElem>, a: nat, b: nat)
    requires a < b <= |xs| && Nondecreasing(xs[a..b])
    ensures Descents(xs, b) == Descents(xs, a + 1)
    decreases b
  {
    if a + 1 < b {
      assert xs[a..b - 1] == xs[a..b][..b - 1 - a];
      assert !Less(xs[a..b][b - 1 - a], xs[a..b][b - 2 - a]);
      DescentsRun(xs, a, b - 1);
    }
  }

  lemma {:induction false} DescentsGrow(xs: seq<ListElem>, a: nat, b: nat)
    requires a <= b <= |xs|
    ensures Descents(xs, a) <= Descents(xs, b)
    decreases b
  {
    if a < b {
      DescentsGrow(xs, a, b - 1);
    }
  }

  /** A pass over the list has come to place p and has put out cnt runs: what comes after p is
      untouched, what comes before p has no more than cnt runs, and had at least twice as many. */
  ghost predicate PassState(es0: seq<ListElem>, es: seq<ListElem>, p: nat, cnt: nat) {
    && |es| == |es0| && p <= |es| && Rearranged(es0, es) && es[p..] == es0[p..]
    && (if cnt == 0 then p == 0 else p > 0 && Descents(es, p) < cnt)
    && (if p < |es| then Descents(es0, p + 1) >= 2 * cnt else cnt > 0 ==> Descents(es0, |es0|) >= 2 * cnt - 1)
  }

  /** The pass is over. */
  ghost predicate PassEnd(es0: seq<ListElem>, es: seq<ListElem>, cnt: nat) {
    && |es| == |es0| && Rearranged(es0, es)
    && (if cnt == 0 then es == [] else Descents(es, |es|) < cnt && Descents(es0, |es0|) >= 2 * (cnt - 1))
  }

  lemma PassStart(es: seq<ListElem>)
    ensures PassState(es, es, 0, 0)
  {
  }

  lemma PassDone(es0: seq<ListElem>, es: seq<ListElem>, cnt: nat)
    requires PassState(es0, es, |es|, cnt)
    ensures PassEnd(es0, es, cnt)
  {
  }

  /** One run is left. */
  lemma PassLast(es0: seq<ListElem>, es: seq<ListElem>, p: nat, cnt: nat)
    requires PassState(es0, es, p, cnt) && p < |es| && Nondecreasing(es[p..])
    ensures PassEnd(es0, es, cnt + 1)
  {
    assert es[p..|es|] == es[p..];
    DescentsRun(es, p, |es|);
    DescentsGrow(es0, p + 1, |es0|);
  }

  lemma MergedRearranged(es: seq<ListElem>, p: nat, j: nat, k: nat)
    requires p < j < k <= |es| && Nondecreasing(es[p..j])
    ensures Rearranged(es, es[..p] + Merge(es[p..j], es[j..k]) + es[k..])
  {
    hide OfRank, Merge;
    assert es == es[..p] + (es[p..j] + es[j..k]) + es[k..];
    MergeRearranged(es[p..j], es[j..k]);
    RearrangedAppend(es[..p], es[..p], es[p..j] + es[j..k], Merge(es[p..j], es[j..k]));
    RearrangedAppend(es[..p] + (es[p..j] + es[j..k]), es[..p] + Merge(es[p..j], es[j..k]), es[k..], es[k..]);
  }

  /** The merged runs count for one. */
  lemma MergedDescents(es: seq<ListElem>, es': seq<ListElem>, p: nat, j: nat, k: nat)
    requires p < j < k <= |es| && Nondecreasing(es[p..j]) && Nondecreasing(es[j..k])
    requires es' == es[..p] + Merge(es[p..j], es[j..k]) + es[k..]
    ensures |es'| == |es| && Descents(es', k) <= Descents(es, p) + if p == 0 then 0 else 1
  {
    MergeSorted(es[p..j], es[j..k]);
    assert es'[p..k] == Merge(es[p..j], es[j..k]);
    DescentsRun(es', p, k);
    DescentsSame(es, es', p);
  }

  /** Two runs end in a descent each, but for the last one. */
  lemma RunsDescend(es: seq<ListElem>, p: nat, j: nat, k: nat)
    requires p < j < k <= |es| && Less(es[j], es[j - 1]) && (k < |es| ==> Less(es[k], es[k - 1]))
    ensures Descents(es, if k < |es| then k + 1 else k) >= Descents(es, p + 1) + if k < |es| then 2 else 1
  {
    DescentsGrow(es, p + 1, j);
    DescentsGrow(es, j + 1, k);
  }

  lemma PassMerge(es0: seq<ListElem>, es: seq<ListElem>, es': seq<ListElem>, p: nat, j: nat, k: nat, cnt: nat)
    requires PassState(es0, es, p, cnt) && p < j < k <= |es|
    requires Nondecreasing(es[p..j]) && Nondecreasing(es[j..k])
    requires Less(es[j], es[j - 1]) && (k < |es| ==> Less(es[k], es[k - 1]))
    requires es' == es[..p] + Merge(es[p..j], es[j..k]) + es[k..]
    ensures PassState(es0, es', k, cnt + 1)
  {
    hide Nondecreasing, Descents, Merge;
    MergedRearranged(es, p, j, k);
    MergedDescents(es, es', p, j, k);
    assert forall x :: p <= x < |es| ==> es[x] == es[p..][x - p] == es0[p..][x - p] == es0[x];
    RunsDescend(es0, p, j, k);
    DescentsZero(es);
    assert es'[k..] == es[k..] == es0[k..];
  }

  lemma DescentsZero(es: seq<ListElem>)
    ensures Descents(es, 0) == 0
  {
  }
}
