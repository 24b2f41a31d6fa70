/** Doubly linked lists with a head and a tail element, and their sorting in place (list.c). */
module ListImpl {
  import opened ListMerge

  ghost predicate SameElems(c: seq<ListElem>, s: seq<ListElem>) {
    forall x :: x in c ==> x in s
  }

  ghost predicate Distinct(s: seq<ListElem>) {
    forall i, j :: 0 <= i < j < |s| ==> s[i] != s[j]
  }

  /** The elements of s, head and tail included, are linked in this order. */
  ghost predicate Linked(s: seq<ListElem>)
    reads s
  {
    && |s| >= 2 && Distinct(s)
    && (forall i :: 0 <= i < |s| - 1 ==> s[i].next == s[i + 1])
    && (forall i :: 0 < i < |s| ==> s[i].prev == s[i - 1])
    && s[0].prev == null && s[|s| - 1].next == null
  }

  /** s with elements f up to l moved to the place before element b. */
  function Moved(s: seq<ListElem>, b: nat, f: nat, l: nat): seq<ListElem>
    requires b <= |s| && f <= l <= |s|
  {
    if b <= f then s[..b] + s[f..l] + s[b..f] + s[l..]
    else if l <= b then s[..f] + s[l..b] + s[f..l] + s[b..]
    else s
  }

  /** Where the k-th element of Moved comes from. */
  function Source(b: nat, f: nat, l: nat, k: nat): nat
    requires f <= l && (b <= f || l <= b)
  {
    if b <= f then
      if k < b || k >= l then k else if k < b + (l - f) then k - b + f else k - (l - f)
    else
    if k < f || k >= b then k else if k < b - (l - f) then k + (l - f) else k - (b - l)
  }

  lemma MovedIndex(s: seq<ListElem>, b: nat, f: nat, l: nat, k: nat)
    requires b <= |s| && f <= l <= |s| && (b <= f || l <= b) && k < |s|
    ensures |Moved(s, b, f, l)| == |s| && Source(b, f, l, k) < |s|
    ensures Moved(s, b, f, l)[k] == s[Source(b, f, l, k)]
  {
    hide Moved;
    MovedLength(s, b, f, l);
    if b <= f {
      MovedLeft(s, b, f, l);
      Blocks(s[..b], s[f..l], s[b..f], s[l..], k);
    } else {
      MovedRight(s, b, f, l);
      Blocks(s[..f], s[l..b], s[f..l], s[b..], k);
    }
  }

  lemma MovedLength(s: seq<ListElem>, b: nat, f: nat, l: nat)
    requires b <= |s| && f <= l <= |s|
    ensures |Moved(s, b, f, l)| == |s|
  {
  }

  lemma MovedLeft(s: seq<ListElem>, b: nat, f: nat, l: nat)
    requires b <= f <= l <= |s|
    ensures Moved(s, b, f, l) == s[..b] + s[f..l] + s[b..f] + s[l..]
  {
  }

  lemma MovedRight(s: seq<ListElem>, b: nat, f: nat, l: nat)
    requires f <= l <= b <= |s| && f < b
    ensures Moved(s, b, f, l) == s[..f] + s[l..b] + s[f..l] + s[b..]
  {
  }

  lemma Blocks(p: seq<ListElem>, q: seq<ListElem>, r: seq<ListElem>, t: seq<ListElem>, k: nat)
    requires k < |p| + |q| + |r| + |t|
    ensures (p + q + r + t)[k] == if k < |p| then p[k] else if k < |p| + |q| then q[k - |p|]
                                  else if k < |p| + |q| + |r| then r[k - |p| - |q|] else t[k - |p| - |q| - |r|]
  {
  }

  /** The element that comes after element i once f up to l are moved. */
  function NextIndex(b: nat, f: nat, l: nat, i: nat): nat {
    if i + 1 == f then l else if i + 1 == l then b else if i + 1 == b then f else i + 1
  }

  /** The element that comes before element i. */
  function PrevIndex(b: nat, f: nat, l: nat, i: nat): int {
    if i == l then f - 1 else if i == f then b - 1 else if i == b then l - 1 else i - 1
  }

  ghost predicate Places(n: nat, nx: seq<int>, pv: seq<int>) {
    && |nx| == n && |pv| == n
    && (forall i :: 0 <= i < n - 1 ==> 0 <= nx[i] < n)
    && (forall i :: 0 < i < n ==> 0 <= pv[i] < n)
  }

  /** The next and previous elements, given by their places in s. */
  ghost predicate LinkedBy(s: seq<ListElem>, nx: seq<int>, pv: seq<int>)
    reads s
  {
    && |s| >= 2 && Distinct(s) && Places(|s|, nx, pv)
    && (forall i {:trigger s[i].next} :: 0 <= i < |s| - 1 ==> s[i].next == s[nx[i]])
    && (forall i {:trigger s[i].prev} :: 0 < i < |s| ==> s[i].prev == s[pv[i]])
    && s[0].prev == null && s[|s| - 1].next == null
  }

  lemma LinksOf(s: seq<ListElem>, nx: seq<int>, pv: seq<int>, i: nat)
    requires LinkedBy(s, nx, pv) && i < |s|
    ensures |nx| == |pv| == |s|
    ensures i < |s| - 1 ==> 0 <= nx[i] < |s| && s[i].next == s[nx[i]]
    ensures i > 0 ==> 0 <= pv[i] < |s| && s[i].prev == s[pv[i]]
  {
  }

  /** One link is set. */
  method SetNext(e: ListElem, to: ListElem, ghost s: seq<ListElem>, ghost nx: seq<int>, ghost pv: seq<int>, ghost i: nat, ghost j: nat)
    requires LinkedBy(s, nx, pv) && i < |s| - 1 && j < |s| && e == s[i] && to == s[j]
    modifies e
    ensures LinkedBy(s, nx[i := j], pv)
  {
    e.next := to;
  }

  method SetPrev(e: ListElem, to: ListElem, ghost s: seq<ListElem>, ghost nx: seq<int>, ghost pv: seq<int>, ghost i: nat, ghost j: nat)
    requires LinkedBy(s, nx, pv) && 0 < i < |s| && j < |s| && e == s[i] && to == s[j]
    modifies e
    ensures LinkedBy(s, nx, pv[i := j])
  {
    e.prev := to;
  }

  function Nexts(n: nat): (nx: seq<int>)
    ensures |nx| == n && forall i :: 0 <= i < n ==> nx[i] == i + 1
  {
    seq(n, i => i + 1)
  }

  function Prevs(n: nat): (pv: seq<int>)
    ensures |pv| == n && forall i :: 0 <= i < n ==> pv[i] == i - 1
  {
    seq(n, i => i - 1)
  }

  lemma LinkedInOrder(s: seq<ListElem>)
    requires |s| >= 2
    ensures Linked(s) <==> LinkedBy(s, Nexts(|s|), Prevs(|s|))
  {
    var nx, pv := Nexts(|s|), Prevs(|s|);
    if LinkedBy(s, nx, pv) {
      forall i | 0 <= i < |s| - 1 ensures s[i].next == s[i + 1] { assert nx[i] == i + 1; }
      forall i | 0 < i < |s| ensures s[i].prev == s[i - 1] { assert pv[i] == i - 1; }
    }
    if Linked(s) {
      forall i | 0 <= i < |s| - 1 ensures s[i].next == s[nx[i]] { assert s[i].next == s[i + 1]; }
      forall i | 0 < i < |s| ensures s[i].prev == s[pv[i]] { assert s[i].prev == s[i - 1]; }
    }
  }

  lemma NextOfSource(b: nat, f: nat, l: nat, k: nat, n: nat)
    requires 0 < b < n && 0 < f < l < n && (b < f || l < b) && k + 1 < n
    ensures Source(b, f, l, k) + 1 < n
    ensures NextIndex(b, f, l, Source(b, f, l, k)) == Source(b, f, l, k + 1)
    ensures 0 < Source(b, f, l, k + 1) < n && PrevIndex(b, f, l, Source(b, f, l, k + 1)) == Source(b, f, l, k)
  {
  }

  /** The links of the list with f up to l moved before b. */
  lemma RelinkedMoved(s: seq<ListElem>, nx: seq<int>, pv: seq<int>, b: nat, f: nat, l: nat)
    requires LinkedBy(s, nx, pv) && 0 < b < |s| && 0 < f < l < |s| && (b < f || l < b)
    requires forall i :: 0 <= i < |s| - 1 ==> nx[i] == NextIndex(b, f, l, i)
    requires forall i :: 0 < i < |s| ==> pv[i] == PrevIndex(b, f, l, i)
    ensures Linked(Moved(s, b, f, l))
  {
    var m, n := Moved(s, b, f, l), |s|;
    forall k | 0 <= k < n
      ensures |m| == n && Source(b, f, l, k) < n && m[k] == s[Source(b, f, l, k)]
    {
      MovedIndex(s, b, f, l, k);
    }
    forall k | 0 <= k < n - 1
      ensures m[k].next == m[k + 1] && m[k + 1].prev == m[k]
    {
      NextOfSource(b, f, l, k, n);
    }
    forall i, j | 0 <= i < j < n
      ensures m[i] != m[j]
    {
      assert Source(b, f, l, i) != Source(b, f, l, j);
    }
    assert m[0] == s[0] && m[n - 1] == s[n - 1];
  }

  /** Elements f up to l are taken out of the list. */
  method Unlink(first: ListElem, last: ListElem, ghost s: seq<ListElem>, ghost nx: seq<int>, ghost pv: seq<int>, ghost f: nat, ghost l: nat)
    requires LinkedBy(s, nx, pv) && 0 < f < l < |s| && first == s[f] && last == s[l - 1] && pv[f] == f - 1 && nx[l - 1] == l
    modifies s
    ensures LinkedBy(s, nx[f - 1 := l], pv[l := f - 1])
  {
    hide LinkedBy;
    LinksOf(s, nx, pv, f);
    LinksOf(s, nx, pv, l - 1);
    SetNext(first.prev, last.next, s, nx, pv, f - 1, l);
    ghost var nx1 := nx[f - 1 := l];
    LinksOf(s, nx1, pv, f);
    LinksOf(s, nx1, pv, l - 1);
    SetPrev(last.next, first.prev, s, nx1, pv, l, f - 1);
  }

  /** Elements f up to l, which have been taken out, are put in before element b. */
  method SpliceIn(before: ListElem, first: ListElem, last: ListElem,
                  ghost s: seq<ListElem>, ghost nx: seq<int>, ghost pv: seq<int>, ghost b: nat, ghost f: nat, ghost l: nat)
    requires LinkedBy(s, nx, pv) && 0 < f < l < |s| && 0 < b < |s| && b != f
    requires before == s[b] && first == s[f] && last == s[l - 1] && pv[b] < |s| - 1
    modifies s
    ensures 0 <= pv[b]
    ensures LinkedBy(s, nx[l - 1 := b][pv[b] := f], pv[f := pv[b]][b := l - 1])
  {
    hide LinkedBy;
    LinksOf(s, nx, pv, b);
    SetPrev(first, before.prev, s, nx, pv, f, pv[b]);
    ghost var pv1 := pv[f := pv[b]];
    SetNext(last, before, s, nx, pv1, l - 1, b);
    ghost var nx1 := nx[l - 1 := b];
    LinksOf(s, nx1, pv1, b);
    SetNext(before.prev, first, s, nx1, pv1, pv[b], f);
    SetPrev(before, last, s, nx1[pv[b] := f], pv1, b, l - 1);
  }

  lemma SplicePlaces(n: nat, b: nat, f: nat, l: nat, nx: seq<int>, pv: seq<int>)
    requires 0 < b < n && 0 < f < l < n && (b < f || l <= b) && |nx| == |pv| == n
    requires forall i :: 0 <= i < n ==> nx[i] == if i == f - 1 then l else i + 1
    requires forall i :: 0 <= i < n ==> pv[i] == if i == l then f - 1 else i - 1
    ensures 0 <= pv[b] < n - 1
    ensures var nx', pv' := nx[l - 1 := b][pv[b] := f], pv[f := pv[b]][b := l - 1];
            if b == l then nx' == Nexts(n) && pv' == Prevs(n)
            else
              && (forall i :: 0 <= i < n - 1 ==> nx'[i] == NextIndex(b, f, l, i))
              && (forall i :: 0 < i < n ==> pv'[i] == PrevIndex(b, f, l, i))
  {
  }

  lemma MovedNothing(s: seq<ListElem>, b: nat, f: nat, l: nat)
    requires Linked(s) && b < |s| && f <= l < |s|
    ensures s[f] == s[l] <==> f == l
    ensures f == l ==> Moved(s, b, f, l) == s
  {
    LinkAt(s, f);
    hide Linked, Distinct;
  }

  /** list_splice */
  method ListSplice(before: ListElem, first: ListElem, last: ListElem, ghost s: seq<ListElem>, ghost b: nat, ghost f: nat, ghost l: nat)
    requires Linked(s) && 0 < b < |s| && 0 < f <= l < |s| && (f == l || b < f || l <= b)
    requires before == s[b] && first == s[f] && last == s[l]
    modifies s
    ensures Linked(Moved(s, b, f, l))
  {
    hide Linked, LinkedBy, Moved, NextIndex, PrevIndex, Distinct;
    MovedNothing(s, b, f, l);
    if first == last {
      return;
    }
    ghost var nx, pv := Nexts(|s|), Prevs(|s|);
    LinkedInOrder(s);
    LinksOf(s, nx, pv, l);
    var back := last.prev;
    Unlink(first, back, s, nx, pv, f, l);
    nx, pv := nx[f - 1 := l], pv[l := f - 1];
    SplicePlaces(|s|, b, f, l, nx, pv);
    SpliceIn(before, first, back, s, nx, pv, b, f, l);
    Spliced(s, nx[l - 1 := b][pv[b] := f], pv[f := pv[b]][b := l - 1], b, f, l);
  }

  lemma Spliced(s: seq<ListElem>, nx: seq<int>, pv: seq<int>, b: nat, f: nat, l: nat)
    requires LinkedBy(s, nx, pv) && 0 < b < |s| && 0 < f < l < |s| && (b < f || l <= b)
    requires if b == l then nx == Nexts(|s|) && pv == Prevs(|s|)
             else
               && |nx| == |pv| == |s|
               && (forall i :: 0 <= i < |s| - 1 ==> nx[i] == NextIndex(b, f, l, i))
               && (forall i :: 0 < i < |s| ==> pv[i] == PrevIndex(b, f, l, i))
    ensures Linked(Moved(s, b, f, l))
  {
    hide LinkedBy, Linked;
    if b == l {
      LinkedInOrder(s);
      assert Moved(s, b, f, l) == s;
    } else {
      RelinkedMoved(s, nx, pv, b, f, l);
    }
  }

  lemma LinkAt(s: seq<ListElem>, i: nat)
    requires Linked(s) && i < |s|
    ensures i + 1 < |s| ==> s[i].next == s[i + 1]
    ensures i > 0 ==> s[i].prev == s[i - 1]
    ensures forall j :: 0 <= j < |s| && s[j] == s[i] ==> j == i
  {
  }

  /** find_end_of_run */
  method FindEndOfRun(from: ListElem, b: ListElem, ghost s: seq<ListElem>, ghost i: nat, ghost e: nat) returns (a: ListElem, ghost j: nat)
    requires Linked(s) && 0 < i < e < |s| && from == s[i] && b == s[e]
    ensures i < j <= e && a == s[j] && Nondecreasing(s[i..j])
    ensures j < e ==> Less(s[j], s[j - 1])
  {
    hide Linked;
    LinkAt(s, i);
    a, j := from.next, i + 1;
    LinkAt(s, j);
    LinkAt(s, e);
    while a != b && !Less(a, a.prev)
      invariant i < j <= e && a == s[j] && a.prev == s[j - 1] && Nondecreasing(s[i..j])
      invariant a == b <==> j == e
      decreases e - j
    {
      RunGrows(s, i, j);
      LinkAt(s, j);
      a, j := a.next, j + 1;
      LinkAt(s, j);
    }
  }

  lemma RunGrows(s: seq<ListElem>, i: nat, j: nat)
    requires i < j < |s| && Nondecreasing(s[i..j]) && !Less(s[j], s[j - 1])
    ensures Nondecreasing(s[i..j + 1])
  {
    var r, r' := s[i..j], s[i..j + 1];
    forall x, y | 0 <= x < y < |r'| ensures !Less(r'[y], r'[x]) {
      assert r'[x] == r[x];
      if y == |r| {
        assert r[|r| - 1] == s[j - 1];
      } else {
        assert r'[y] == r[y];
      }
    }
  }

  /** What inplace_merge has done when it compares elements i and j of the list c: the merged
      elements come first, what is left of the two runs after them. */
  ghost predicate Merging(s: seq<ListElem>, c: seq<ListElem>, i0: nat, j0: nat, k: nat, i: nat, j: nat) {
    && 0 < i0 < j0 < k < |s| == |c| && i0 <= i <= j <= k
    && c[..i0] == s[..i0] && c[k..] == s[k..]
    && Merge(s[i0..j0], s[j0..k]) == c[i0..i] + Merge(c[i..j], c[j..k])
    && (forall x :: x in c ==> x in s)
  }

  lemma MergeKeeps(s: seq<ListElem>, c: seq<ListElem>, i0: nat, j0: nat, k: nat, i: nat, j: nat)
    requires Merging(s, c, i0, j0, k, i, j) && i < j < k && !Less(c[j], c[i])
    ensures Merging(s, c, i0, j0, k, i + 1, j)
  {
    hide Merge;
    MergeFront(c[i..j], c[j..k]);
    assert c[i..j][0] == c[i] && c[j..k][0] == c[j] && c[i..j][1..] == c[i + 1..j];
    assert Merge(c[i..j], c[j..k]) == [c[i]] + Merge(c[i + 1..j], c[j..k]);
    assert c[i0..i] + [c[i]] == c[i0..i + 1];
  }

  lemma MergeMoves(s: seq<ListElem>, c: seq<ListElem>, i0: nat, j0: nat, k: nat, i: nat, j: nat)
    requires Merging(s, c, i0, j0, k, i, j) && i < j < k && Less(c[j], c[i])
    ensures Merging(s, Moved(c, i, j, j + 1), i0, j0, k, i + 1, j + 1)
  {
    hide Moved, Merge;
    MoveSlices(c, i0, i, j, k);
    MergeFront(c[i..j], c[j..k]);
    assert c[i..j][0] == c[i] && c[j..k][0] == c[j] && c[j..k][1..] == c[j + 1..k];
    assert Merge(c[i..j], c[j..k]) == [c[j]] + Merge(c[i..j], c[j + 1..k]);
    MovedIn(c, i, j, s);
  }

  lemma MoveSlices(c: seq<ListElem>, i0: nat, i: nat, j: nat, k: nat)
    requires i0 <= i < j < k <= |c|
    ensures var m := Moved(c, i, j, j + 1);
            && |m| == |c| && m[..i0] == c[..i0] && m[k..] == c[k..]
            && m[i0..i + 1] == c[i0..i] + [c[j]] && m[i + 1..j + 1] == c[i..j] && m[j + 1..k] == c[j + 1..k]
  {
    hide Moved;
    var m := Moved(c, i, j, j + 1);
    MovedLength(c, i, j, j + 1);
    forall x | 0 <= x < |c|
      ensures m[x] == c[if x < i || x > j then x else if x == i then j else x - 1]
    {
      MovedIndex(c, i, j, j + 1, x);
    }
  }

  lemma MovedIn(c: seq<ListElem>, i: nat, j: nat, s: seq<ListElem>)
    requires i < j < |c| && forall x :: x in c ==> x in s
    ensures forall x :: x in Moved(c, i, j, j + 1) ==> x in s
  {
    hide Moved;
    var m := Moved(c, i, j, j + 1);
    MovedLength(c, i, j, j + 1);
    forall x | 0 <= x < |c|
      ensures m[x] in s
    {
      MovedIndex(c, i, j, j + 1, x);
    }
  }

  lemma MergeDone(s: seq<ListElem>, c: seq<ListElem>, i0: nat, j0: nat, k: nat, i: nat, j: nat)
    requires Merging(s, c, i0, j0, k, i, j) && (i == j || j == k)
    ensures c == s[..i0] + Merge(s[i0..j0], s[j0..k]) + s[k..]
  {
    assert i == j ==> c[i..j] == [];
    assert j == k ==> c[j..k] == [];
    assert c[i0..i] + Merge(c[i..j], c[j..k]) == c[i0..k];
    assert c == c[..i0] + c[i0..k] + c[k..];
  }

  /** inplace_merge */
  method InplaceMerge(first: ListElem, second: ListElem, b1: ListElem, ghost s: seq<ListElem>, ghost i0: nat, ghost j0: nat, ghost k: nat)
    returns (ghost c: seq<ListElem>)
    requires Linked(s) && 0 < i0 < j0 < k < |s| && first == s[i0] && second == s[j0] && b1 == s[k]
    modifies s
    ensures Linked(c) && c == s[..i0] + Merge(s[i0..j0], s[j0..k]) + s[k..]
    ensures SameElems(c, s)
  {
    hide Linked, Merge, Moved, Merging;
    var a0, a1b0 := first, second;
    ghost var i, j := i0, j0;
    c := s;
    MergeStart(s, i0, j0, k);
    MergeElems(s, c, i0, j0, k, i, j);
    while a0 != a1b0 && a1b0 != b1
      invariant Linked(c) && Merging(s, c, i0, j0, k, i, j)
      invariant |c| == |s| && 0 < i <= j <= k < |c| && a0 == c[i] && a1b0 == c[j] && b1 == c[k]
      invariant forall x :: x in c ==> x in s
      decreases k - j, j - i
    {
      LinkAt(c, i);
      LinkAt(c, j);
      if !Less(a1b0, a0) {
        MergeKeeps(s, c, i0, j0, k, i, j);
        a0, i := a0.next, i + 1;
      } else {
        MergeMoves(s, c, i0, j0, k, i, j);
        LinkAt(c, j + 1);
        LinkAt(c, k);
        a1b0 := a1b0.next;
        assert forall x :: 0 <= x < |c| ==> c[x] in s;
        ListSplice(a0, a1b0.prev, a1b0, c, i, j, j + 1);
        MovedPlaces(c, i, j, k);
        c, i, j := Moved(c, i, j, j + 1), i + 1, j + 1;
      }
      MergeElems(s, c, i0, j0, k, i, j);
    }
    LinkAt(c, i);
    LinkAt(c, j);
    LinkAt(c, k);
    MergeDone(s, c, i0, j0, k, i, j);
  }

  lemma MergeStart(s: seq<ListElem>, i0: nat, j0: nat, k: nat)
    requires 0 < i0 < j0 < k < |s|
    ensures Merging(s, s, i0, j0, k, i0, j0)
  {
    assert s[i0..i0] == [];
  }

  lemma MergeElems(s: seq<ListElem>, c: seq<ListElem>, i0: nat, j0: nat, k: nat, i: nat, j: nat)
    requires Merging(s, c, i0, j0, k, i, j)
    ensures |c| == |s| && forall x :: x in c ==> x in s
  {
  }

  lemma MovedPlaces(c: seq<ListElem>, i: nat, j: nat, k: nat)
    requires i < j < k < |c|
    ensures |Moved(c, i, j, j + 1)| == |c|
    ensures Moved(c, i, j, j + 1)[i + 1] == c[i] && Moved(c, i, j, j + 1)[j + 1] == c[j + 1] && Moved(c, i, j, j + 1)[k] == c[k]
  {
    hide Moved;
    MovedLength(c, i, j, j + 1);
    MovedIndex(c, i, j, j + 1, i + 1);
    MovedIndex(c, i, j, j + 1, j + 1);
    MovedIndex(c, i, j, j + 1, k);
  }

  /** struct list */
  class List {
    const head: ListElem
    const tail: ListElem
    ghost var elems: seq<ListElem>

    ghost function All(): (s: seq<ListElem>)
      reads this
      ensures |s| == |elems| + 2
    {
      [head] + elems + [tail]
    }

    ghost predicate Valid()
      reads this, All()
    {
      Linked(All())
    }

    /** list_init */
    constructor ()
      ensures Valid() && elems == [] && fresh(head) && fresh(tail)
    {
      head := new ListElem(0);
      tail := new ListElem(0);
      elems := [];
      new;
      head.next := tail;
      tail.prev := head;
    }

    lemma AllAt(k: nat)
      requires k <= |elems|
      ensures All()[0] == head && All()[|elems| + 1] == tail
      ensures k < |elems| ==> All()[k + 1] == elems[k]
    {
    }

    /** list_size */
    method Size() returns (cnt: nat)
      requires Valid()
      ensures cnt == |elems|
    {
      hide Linked;
      ghost var s := All();
      AllAt(0);
      LinkAt(s, 0);
      cnt := 0;
      var e := head.next;
      LinkAt(s, |elems| + 1);
      while e != tail
        invariant cnt <= |elems| && e == s[cnt + 1]
        decreases |elems| - cnt
      {
        LinkAt(s, cnt + 1);
        cnt := cnt + 1;
        e := e.next;
      }
    }

    /** list_empty */
    method Empty() returns (b: bool)
      requires Valid()
      ensures b <==> elems == []
    {
      AllAt(0);
      LinkAt(All(), 0);
      LinkAt(All(), |elems| + 1);
      b := head.next == tail;
    }

    /** list_insert: elem comes just before `before`, which is element k or the tail. */
    method Insert(before: ListElem, elem: ListElem, ghost k: nat)
      requires Valid() && k <= |elems| && before == All()[k + 1] && elem !in All()
      modifies this`elems, All(), elem
      ensures Valid() && elems == old(elems)[..k] + [elem] + old(elems)[k..]
    {
      hide Linked;
      ghost var s := All();
      LinkAt(s, k + 1);
      InsertElem(before, elem, s, k + 1);
      elems := elems[..k] + [elem] + elems[k..];
      assert All() == s[..k + 1] + [elem] + s[k + 1..];
    }

    /** list_push_front */
    method PushFront(elem: ListElem)
      requires Valid() && elem !in All()
      modifies this`elems, All(), elem
      ensures Valid() && elems == [elem] + old(elems)
    {
      LinkAt(All(), 0);
      Insert(head.next, elem, 0);
    }

    /** list_push_back */
    method PushBack(elem: ListElem)
      requires Valid() && elem !in All()
      modifies this`elems, All(), elem
      ensures Valid() && elems == old(elems) + [elem]
    {
      AllAt(0);
      Insert(tail, elem, |elems|);
    }

    /** list_remove */
    method Remove(elem: ListElem, ghost k: nat) returns (following: ListElem)
      requires Valid() && k < |elems| && elem == elems[k]
      modifies this`elems, All()
      ensures Valid() && elems == old(elems)[..k] + old(elems)[k + 1..]
      ensures following == All()[k + 1]
    {
      hide Linked;
      ghost var s := All();
      AllAt(k);
      LinkAt(s, k + 1);
      RemoveElem(elem, s, k + 1);
      elems := elems[..k] + elems[k + 1..];
      assert All() == s[..k + 1] + s[k + 2..];
      following := elem.next;
    }

    /** list_pop_back */
    method PopBack() returns (back: ListElem)
      requires Valid() && elems != []
      modifies this`elems, All()
      ensures Valid() && old(elems) == elems + [back]
    {
      AllAt(|elems| - 1);
      LinkAt(All(), |elems| + 1);
      back := tail.prev;
      var following := Remove(back, |elems| - 1);
    }

    /** list_sort: a natural merge sort. */
    method Sort()
      requires Valid()
      modifies this`elems, All()
      ensures Valid() && Nondecreasing(elems) && Rearranged(old(elems), elems)
    {
      hide Linked, Nondecreasing, Rearranged;
      ghost var s0 := All();
      RearrangedSame(elems);
      var outputRunCnt := 2;
      while outputRunCnt > 1
        invariant Valid() && Rearranged(old(elems), elems) && SameElems(All(), s0)
        invariant outputRunCnt <= 1 ==> Nondecreasing(elems)
        decreases outputRunCnt > 1, Descents(elems, |elems|)
      {
        ghost var before := elems;
        assert forall i :: 0 <= i < |All()| ==> All()[i] in s0;
        outputRunCnt := Pass();
        PassSorted(before, elems, outputRunCnt);
        RearrangedTrans(old(elems), before, elems);
      }
    }

    /** One pass: each two runs that follow each other are merged. */
    method Pass() returns (outputRunCnt: nat)
      requires Valid()
      modifies this`elems, All()
      ensures Valid() && PassEnd(old(elems), elems, outputRunCnt)
      ensures SameElems(All(), old(All()))
    {
      hide Linked, Nondecreasing, Rearranged, PassState, PassEnd, Merge;
      ghost var s0, es0 := All(), elems;
      ghost var p: nat := 0;
      outputRunCnt := 0;
      AllAt(0);
      LinkAt(All(), 0);
      LinkAt(All(), |elems| + 1);
      PassStart(elems);
      var a0: ListElem, over := head.next, false;
      while !over && a0 != tail
        invariant Valid() && SameElems(All(), s0)
        invariant !over ==> p <= |elems| && a0 == All()[p + 1] && (a0 == tail <==> p == |elems|)
        invariant if over then PassEnd(es0, elems, outputRunCnt) else PassState(es0, elems, p, outputRunCnt)
        decreases !over, |elems| - p
      {
        assert forall i :: 0 <= i < |All()| ==> All()[i] in s0;
        a0, over, p := MergePair(a0, p, es0, outputRunCnt);
        outputRunCnt := outputRunCnt + 1;
      }
      if !over {
        PassDone(es0, elems, outputRunCnt);
      }
    }

    /** One iteration of a pass: two runs are merged, or the last one is passed over. */
    method MergePair(a0: ListElem, ghost p: nat, ghost es0: seq<ListElem>, ghost cnt: nat) returns (b1: ListElem, over: bool, ghost q: nat)
      requires Valid() && p < |elems| && a0 == All()[p + 1] && PassState(es0, elems, p, cnt)
      modifies this`elems, All()
      ensures Valid() && SameElems(All(), old(All())) && |elems| == |old(elems)|
      ensures if over then PassEnd(es0, elems, cnt + 1)
              else
                && p < q <= |elems| && PassState(es0, elems, q, cnt + 1)
                && b1 == All()[q + 1] && (b1 == tail <==> q == |elems|)
    {
      hide Linked, Nondecreasing, Rearranged, PassState, PassEnd, Merge;
      ghost var es := elems;
      ghost var j, k;
      b1, over, q := tail, false, |elems|;
      var a1b0: ListElem;
      a1b0, j := RunFrom(a0, p);
      if a1b0 == tail {
        assert elems[p..|elems|] == elems[p..];
        PassLast(es0, elems, p, cnt);
        over := true;
        return;
      }
      b1, k := RunFrom(a1b0, j);
      MergeRuns(a0, a1b0, b1, p, j, k);
      PassMerge(es0, es, elems, p, j, k, cnt);
      q := k;
    }

    /** The end of the run that starts with element p. */
    method RunFrom(a: ListElem, ghost p: nat) returns (e: ListElem, ghost j: nat)
      requires Valid() && p < |elems| && a == All()[p + 1]
      ensures p < j <= |elems| && e == All()[j + 1] && (e == tail <==> j == |elems|)
      ensures Nondecreasing(elems[p..j]) && (j < |elems| ==> Less(elems[j], elems[j - 1]))
    {
      hide Linked, Nondecreasing;
      AllAt(0);
      LinkAt(All(), |elems| + 1);
      ghost var k;
      e, k := FindEndOfRun(a, tail, All(), p + 1, |elems| + 1);
      j := k - 1;
      RunOf(p, j);
      DescentAt(j);
    }

    lemma DescentAt(i: nat)
      requires 0 < i <= |elems|
      ensures i < |elems| && Less(All()[i + 1], All()[i]) ==> Less(elems[i], elems[i - 1])
    {
    }

    /** Two runs of the list are merged. */
    method MergeRuns(a0: ListElem, a1b0: ListElem, b1: ListElem, ghost p: nat, ghost j: nat, ghost k: nat)
      requires Valid() && p < j < k <= |elems| && a0 == All()[p + 1] && a1b0 == All()[j + 1] && b1 == All()[k + 1]
      modifies this`elems, All()
      ensures Valid() && SameElems(All(), old(All())) && |elems| == |old(elems)|
      ensures elems == old(elems)[..p] + Merge(old(elems)[p..j], old(elems)[j..k]) + old(elems)[k..]
      ensures b1 == All()[k + 1] && (b1 == tail <==> k == |elems|)
    {
      hide Linked, Merge;
      ghost var c := InplaceMerge(a0, a1b0, b1, All(), p + 1, j + 1, k + 1);
      LinkAt(c, |elems| + 1);
      MergedElems(c, p, j, k);
      elems := elems[..p] + Merge(elems[p..j], elems[j..k]) + elems[k..];
    }

    lemma RunOf(a: nat, b: nat)
      requires a <= b <= |elems|
      ensures All()[a + 1..b + 1] == elems[a..b]
      ensures b == |elems| ==> elems[a..b] == elems[a..]
    {
    }

    lemma MergedElems(c: seq<ListElem>, p: nat, j: nat, k: nat)
      requires p < j < k <= |elems|
      requires c == All()[..p + 1] + Merge(All()[p + 1..j + 1], All()[j + 1..k + 1]) + All()[k + 1..]
      ensures c == [head] + (elems[..p] + Merge(elems[p..j], elems[j..k]) + elems[k..]) + [tail]
      ensures |c| == |elems| + 2 && c[k + 1] == All()[k + 1] && c[|elems| + 1] == tail
    {
      hide Merge;
      RunOf(p, j);
      RunOf(j, k);
      assert All()[..p + 1] == [head] + elems[..p] && All()[k + 1..] == elems[k..] + [tail];
    }
  }

  lemma RearrangedSame(xs: seq<ListElem>)
    ensures Rearranged(xs, xs)
  {
  }

  lemma RearrangedTrans(xs: seq<ListElem>, ys: seq<ListElem>, zs: seq<ListElem>)
    requires Rearranged(xs, ys) && Rearranged(ys, zs)
    ensures Rearranged(xs, zs)
  {
  }

  /** After a pass with one output run the list is sorted; after any other there are fewer runs
      than before. */
  lemma PassSorted(es0: seq<ListElem>, es: seq<ListElem>, cnt: nat)
    requires PassEnd(es0, es, cnt)
    ensures Rearranged(es0, es) && |es| == |es0|
    ensures if cnt <= 1 then Nondecreasing(es) else Descents(es, |es|) < Descents(es0, |es0|)
  {
    if cnt <= 1 {
      if cnt == 1 {
        NoDescents(es, |es|);
      }
      assert es[..|es|] == es;
    }
  }

  /** elem is linked in before element b. */
  method InsertElem(before: ListElem, elem: ListElem, ghost s: seq<ListElem>, ghost b: nat)
    requires Linked(s) && 0 < b < |s| && before == s[b] && elem !in s
    modifies s, elem
    ensures Linked(s[..b] + [elem] + s[b..])
  {
    LinkAt(s, b);
    elem.prev := before.prev;
    elem.next := before;
    before.prev.next := elem;
    before.prev := elem;
    InsertLinked(s, elem, b);
  }

  lemma InsertLinked(s: seq<ListElem>, elem: ListElem, b: nat)
    requires |s| >= 2 && Distinct(s) && 0 < b < |s| && elem !in s
    requires elem.prev == s[b - 1] && elem.next == s[b]
    requires forall i {:trigger s[i].next} :: 0 <= i < |s| - 1 ==> s[i].next == if i == b - 1 then elem else s[i + 1]
    requires forall i {:trigger s[i].prev} :: 0 < i < |s| ==> s[i].prev == if i == b then elem else s[i - 1]
    requires s[0].prev == null && s[|s| - 1].next == null
    ensures Linked(s[..b] + [elem] + s[b..])
  {
  }

  /** elem is taken out. */
  method RemoveElem(elem: ListElem, ghost s: seq<ListElem>, ghost k: nat)
    requires Linked(s) && 0 < k < |s| - 1 && elem == s[k]
    modifies s
    ensures Linked(s[..k] + s[k + 1..]) && elem.next == s[k + 1]
  {
    LinkAt(s, k);
    elem.prev.next := elem.next;
    elem.next.prev := elem.prev;
  }
}
