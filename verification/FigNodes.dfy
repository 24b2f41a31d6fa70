/** The operations on single nodes (figtreenode.c, subtree_clear of utils.c), in place. */
module FigNodes {
  import opened Intervals
  import opened FigTrees
  import opened FigPrune
  import opened FigInsert
  import opened FigAbsorb
  import opened FigMemory

  /** No node has been written to a checkpoint since it was last changed. */
  ghost predicate AllDirty(m: Memory) {
    forall p :: p in m ==> m[p].dirty
  }

  /** n' is n, but for entries that were cut off at their ends; or it has been cleared. */
  predicate OnlyCut(n: FtNode, n': FtNode) {
    && n'.height == n.height
    && (n'.entries == [] || (
          && |n'.entries| == |n.entries| && n'.subtrees == n.subtrees
          && forall i :: 0 <= i < |n.entries| ==>
                           n'.entries[i].value == n.entries[i].value && ContainsInt(n.entries[i].range, n'.entries[i].range)))
  }

  /** Every node that is new, or has changed in another way than by pruning, is dirty; and no node has
      been cleaned. */
  ghost predicate Tracked(m: Memory, m': Memory) {
    forall p :: p in m' && !m'[p].dirty ==> p in m && !m[p].dirty && OnlyCut(m[p], m'[p])
  }

  lemma TrackedTransitive(m0: Memory, m1: Memory, m2: Memory)
    requires Tracked(m0, m1) && Tracked(m1, m2)
    ensures Tracked(m0, m2)
  {
    forall p | p in m2 && !m2[p].dirty
      ensures p in m0 && !m0[p].dirty && OnlyCut(m0[p], m2[p])
    {
      assert OnlyCut(m1[p], m2[p]) && OnlyCut(m0[p], m1[p]);
    }
  }

  lemma TrackedSame(m: Memory)
    ensures Tracked(m, m)
  {
  }

  lemma TrackedNode(m: Memory, p: Ptr, n: FtNode)
    requires p in m && (n.dirty || (!m[p].dirty && OnlyCut(m[p], n)))
    ensures Tracked(m, m[p := n])
  {
  }

  /** As long as nothing is cleaned, a tree is dirty all over. */
  lemma AllDirtyKept(m: Memory, m': Memory)
    requires AllDirty(m) && Tracked(m, m')
    ensures AllDirty(m')
  {
  }

  /** Between m and m', the tree at p went from t to t', nothing but its nodes and new ones was
      touched, and what has changed is dirty. */
  ghost predicate Tracks(m: Memory, m': Memory, p: Ptr, t: Tree, t': Tree) {
    Changed(m, m', p, t, t') && Tracked(m, m')
  }

  lemma TracksSame(m: Memory, p: Ptr, t: Tree)
    requires Own(m, p, t)
    ensures Tracks(m, m, p, t, t)
  {
  }

  lemma TracksTransitive(m0: Memory, m1: Memory, m2: Memory, p: Ptr, t0: Tree, t1: Tree, t2: Tree)
    requires Tracks(m0, m1, p, t0, t1) && Tracks(m1, m2, p, t1, t2)
    ensures Tracks(m0, m2, p, t0, t2)
  {
    hide Changed, Tracked;
    ChangedTransitive(m0, m1, m2, p, t0, t1, t2);
    TrackedTransitive(m0, m1, m2);
  }

  /** A dirty node stays so. */
  lemma StaysDirty(m: Memory, m': Memory, p: Ptr, t: Tree, t': Tree, q: Ptr)
    requires Tracks(m, m', p, t, t') && q in m && m[q].dirty
    ensures q in m' && m'[q].dirty
  {
    assert q in m.Keys && q in m'.Keys;
  }

  /** The memory the nodes of a tree live in. Memory that is given back is not reused. */
  class NodeStore {
    var mem: Memory
    var next: Ptr

    ghost predicate Heap()
      reads this
    {
      NULL < next && forall p :: p in mem ==> p < next
    }

    constructor ()
      ensures Heap() && mem == map[]
    {
      mem := map[];
      next := 1;
    }

    /** mem_alloc: a pointer that was not in use. */
    method MemAlloc(n: FtNode) returns (p: Ptr)
      requires Heap()
      modifies this
      ensures Heap() && p != NULL && p !in old(mem) && mem == old(mem)[p := n]
    {
      p := next;
      next := next + 1;
      mem := mem[p := n];
    }

    /** ftn_new */
    method FtnNew(height: int, makeHeight: bool) returns (p: Ptr)
      requires Heap() && height >= 0
      modifies this
      ensures Heap() && p !in old(mem) && SameOn(old(mem), mem, old(mem).Keys)
      ensures makeHeight ==> Own(mem, p, EmptyChain(height)) && Foot(mem, p, EmptyChain(height)) !! old(mem).Keys
      ensures !makeHeight ==> p != NULL && mem.Keys == old(mem).Keys + {p}
                              && mem[p] == FtNode([], [SubtreePtr(NULL, true, 0, 0)], height, true)
      ensures Tracked(old(mem), mem)
      decreases height, 1
    {
      p := MemAlloc(FtNode([], [SubtreePtr(NULL, true, 0, 0)], height, true));
      ghost var m1 := mem;
      FtnClear(p, makeHeight);
    }

    /** ftn_clear */
    method FtnClear(p: Ptr, makeHeight: bool)
      requires Heap() && p in mem && p != NULL && mem[p].height >= 0 && mem[p].subtrees != []
      modifies this
      ensures Heap() && p in mem && old(mem).Keys <= mem.Keys
      ensures SameOn(old(mem), mem, old(mem).Keys - {p})
      ensures makeHeight ==> var h := old(mem)[p].height;
                             Own(mem, p, EmptyChain(h)) && Foot(mem, p, EmptyChain(h)) * old(mem).Keys <= {p}
      ensures !makeHeight ==> mem == old(mem)[p := old(mem)[p].(entries := [], subtrees := [old(mem)[p].subtrees[0].(st := NULL, inmemory := true)])]
      ensures mem[p].dirty == old(mem)[p].dirty
      ensures Tracked(old(mem), mem)
      decreases mem[p].height, 0
    {
      hide Rep, NoAlias, Foot, Tracked;
      var firstchild := NULL;
      TrackedSame(mem);
      if !(mem[p].height == 0 || !makeHeight) {
        firstchild := FtnNew(mem[p].height - 1, true);
      }
      ghost var m1 := mem;
      assert p in m1 && m1[p] == old(mem)[p];
      mem := mem[p := mem[p].(entries := [], subtrees := [mem[p].subtrees[0].(st := firstchild, inmemory := true)])];
      ghost var h := old(mem)[p].height;
      TrackedNode(m1, p, mem[p]);
      TrackedTransitive(old(mem), m1, mem);
      if makeHeight {
        if h == 0 {
          NilOwn(m1);
        }
        ClearedOwn(m1, mem, p, firstchild, h);
      }
    }

    /** subtree_clear, for a node whose subtrees are in memory. */
    method SubtreeClear(p: Ptr, i: nat, height: int, ghost t: Tree)
      requires Heap() && Own(mem, p, t) && t.Node? && Shape(t, t.height) && i < |t.subs| && height == t.height - 1
      modifies this
      ensures Heap() && Changed(old(mem), mem, p, t, t.(subs := t.subs[i := Cleared(t.subs[i])]))
      ensures p in mem && mem[p] == old(mem)[p]
      ensures Tracked(old(mem), mem)
    {
      ghost var c := mem[p].subtrees[i].st;
      ghost var s := t.subs[i];
      ChildOwn(mem, p, t, i);
      FootInMemory(mem, p, t);
      if height >= 0 && mem[p].subtrees[i].st != NULL {
        assert height == mem[mem[p].subtrees[i].st].height;
        FtnClear(mem[p].subtrees[i].st, true);
      }
      ChangedSub(old(mem), mem, p, t, i, Cleared(s));
    }

    /** i_restrict_int on the range of an entry. */
    method RestrictEntry(p: Ptr, i: nat, valid: Interval, ghost t: Tree)
      requires Heap() && Own(mem, p, t) && t.Node? && i < |t.entries| && Proper(valid)
      requires Proper(t.entries[i].range) && Overlaps(t.entries[i].range, valid)
      modifies this
      ensures Heap() && Changed(old(mem), mem, p, t, t.(entries := t.entries[i := Clip(t.entries[i], valid)]))
      ensures p in old(mem) && p in mem && mem[p].dirty == old(mem)[p].dirty
      ensures Tracked(old(mem), mem)
    {
      var n := mem[p];
      var e := n.entries[i];
      n := n.(entries := n.entries[i := e.(range := RestrictNonempty(e.range, valid.left, valid.right))]);
      NodeRewritten(mem, mem[p := n], p, t, n, t.(entries := n.entries), Identity(|t.subs|));
      TrackedNode(mem, p, n);
      mem := mem[p := n];
    }

    /** An entry that reaches over a bound of `valid`: it is cut off there, and the subtree
        beyond the bound is cleared. */
    method CutEntry(p: Ptr, i: nat, sub: nat, valid: Interval, ghost t: Tree)
      requires Heap() && Own(mem, p, t) && t.Node? && Shape(t, t.height) && Proper(valid)
      requires i < |t.entries| && sub <= |t.entries| && Overlaps(t.entries[i].range, valid)
      modifies this
      ensures Heap() && Changed(old(mem), mem, p, t, t.(entries := t.entries[i := Clip(t.entries[i], valid)],
                                subs := t.subs[sub := Cleared(t.subs[sub])]))
      ensures p in old(mem) && p in mem && mem[p].dirty == old(mem)[p].dirty
      ensures Tracked(old(mem), mem)
    {
      hide Tracked;
      ghost var t1 := t.(subs := t.subs[sub := Cleared(t.subs[sub])]);
      ghost var t2 := t1.(entries := t.entries[i := Clip(t.entries[i], valid)]);
      SubtreeClear(p, sub, mem[p].height - 1, t);
      ghost var m1 := mem;
      RestrictEntry(p, i, valid, t1);
      TrackedTransitive(old(mem), m1, mem);
      ChangedTransitive(old(mem), m1, mem, p, t, t1, t2);
    }

    /** The first phase of ftn_pruneTo: entries that end before `valid` go, each with the
        subtree on its left. */
    method DropLeft(p: Ptr, valid: Interval, entrydel: array<bool>, subtreedel: array<bool>) returns (i: nat)
      requires p in mem && Sorted(mem[p].entries) && entrydel.Length == |mem[p].entries| && subtreedel.Length == entrydel.Length + 1
      requires entrydel != subtreedel && Clear(entrydel[..], 0) && Clear(subtreedel[..], 0)
      modifies entrydel, subtreedel
      ensures i == Below(mem[p].entries, valid.left)
      ensures Clear(entrydel[..], i) && Clear(subtreedel[..], i)
      ensures Set(entrydel[..], 0, i) && Set(subtreedel[..], 0, i)
    {
      i := 0;
      while i < |mem[p].entries| && LeftOf(mem[p].entries[i].range, valid)
        invariant i <= |mem[p].entries|
        invariant i > 0 ==> mem[p].entries[i - 1].range.right < valid.left
        invariant Clear(entrydel[..], i) && Clear(subtreedel[..], i)
        invariant Set(entrydel[..], 0, i) && Set(subtreedel[..], 0, i)
      {
        entrydel[i] := true;
        subtreedel[i] := true;
        i := i + 1;
      }
      BelowIs(mem[p].entries, valid.left, i);
    }

    /** The last phase: entries that start after `valid` go, each with the subtree on its
        right. */
    method DropRight(p: Ptr, valid: Interval, entrydel: array<bool>, subtreedel: array<bool>, from: nat, ghost lo: nat)
      requires p in mem && Sorted(mem[p].entries) && entrydel.Length == |mem[p].entries| && subtreedel.Length == entrydel.Length + 1
      requires entrydel != subtreedel && lo <= from <= entrydel.Length
      requires Clear(entrydel[..], lo) && Clear(subtreedel[..], lo) && Set(entrydel[..], 0, lo) && Set(subtreedel[..], 0, lo)
      requires forall k :: from <= k < |mem[p].entries| ==> RightOf(mem[p].entries[k].range, valid)
      modifies entrydel, subtreedel
      ensures Outside(entrydel[..], lo, from) && Outside(subtreedel[..], lo, from + 1)
    {
      var i := from;
      while i < |mem[p].entries| && RightOf(mem[p].entries[i].range, valid)
        invariant from <= i <= |mem[p].entries|
        invariant Set(entrydel[..], 0, lo) && Set(subtreedel[..], 0, lo)
        invariant Set(entrydel[..], from, i) && Set(subtreedel[..], from + 1, i + 1)
        invariant Clear(entrydel[..], i)  && Clear(subtreedel[..], i + 1)
        invariant Unset(entrydel[..], lo, from) && Unset(subtreedel[..], lo, from + 1)
      {
        entrydel[i] := true;
        subtreedel[i + 1] := true;
        i := i + 1;
      }
    }

    /** The phases of ftn_pruneTo between the deletions: the entry that reaches over the left
        bound of `valid` is cut off there and what is left of it is cleared; entries inside
        are skipped; likewise on the right. */
    method TrimLeft(p: Ptr, valid: Interval, from: nat, ghost t: Tree) returns (i: nat)
      requires Heap() && Own(mem, p, t) && t.Node? && Shape(t, t.height) && Proper(valid)
      requires from == Below(t.entries, valid.left)
      modifies this
      ensures Heap() && Changed(old(mem), mem, p, t, LeftTrimmed(t, valid))
      ensures i == if ClearsLeft(t.entries, valid) then from + 1 else from
      ensures p in old(mem) && p in mem && mem[p].dirty == old(mem)[p].dirty
      ensures Tracked(old(mem), mem)
    {
      hide Rep, NoAlias, Foot, Tracked;
      RepNode(mem, p, t);
      TrackedSame(mem);
      i := from;
      if i < |mem[p].entries| && LeftOverlaps(valid, mem[p].entries[i].range) {
        CutEntry(p, i, i, valid, t);
        i := i + 1;
      }
    }

    /** The scan over entries inside `valid`. */
    method SkipInside(p: Ptr, valid: Interval, from: nat) returns (i: nat)
      requires p in mem && from <= |mem[p].entries|
      ensures from <= i <= |mem[p].entries|
      ensures i > from ==> ContainsInt(valid, mem[p].entries[i - 1].range)
      ensures i < |mem[p].entries| ==> !ContainsInt(valid, mem[p].entries[i].range)
    {
      i := from;
      while i < |mem[p].entries| && ContainsInt(valid, mem[p].entries[i].range)
        invariant from <= i <= |mem[p].entries|
        invariant i > from ==> ContainsInt(valid, mem[p].entries[i - 1].range)
      {
        i := i + 1;
      }
    }

    method TrimRight(p: Ptr, valid: Interval, from: nat, ghost t: Tree, ghost t0: Tree) returns (i: nat)
      requires Heap() && Own(mem, p, t) && t0.Node? && Shape(t0, t0.height) && Proper(valid)
      requires t == LeftTrimmed(t0, valid)
      requires from == Below(t0.entries, valid.left) + if ClearsLeft(t0.entries, valid) then 1 else 0
      modifies this
      ensures Heap() && Changed(old(mem), mem, p, t, Trimmed(t0, valid))
      ensures i == Upto(t0.entries, valid.right)
      ensures p in old(mem) && p in mem && mem[p].dirty == old(mem)[p].dirty
      ensures Tracked(old(mem), mem)
    {
      hide Rep, NoAlias, Foot, Tracked;
      TrackedSame(mem);
      RepNode(mem, p, t);
      LeftTrimmedShape(t0, valid);
      i := SkipInside(p, valid, from);
      ScanStops(t0.entries, valid, from, i);
      if i < |mem[p].entries| && RightOverlaps(valid, mem[p].entries[i].range) {
        CutEntry(p, i, i + 1, valid, t);
        i := i + 1;
      }
    }

    /** The deletions at the end of ftn_pruneTo. */
    method PerformDeletes(p: Ptr, entrydel: seq<bool>, subtreedel: seq<bool>, ghost t: Tree, ghost from: nat, ghost to: nat)
      requires Heap() && Own(mem, p, t) && t.Node? && |t.subs| == |t.entries| + 1
      requires |entrydel| == |t.entries| && |subtreedel| == |t.subs| && from <= to <= |t.entries|
      requires Outside(entrydel, from, to) && Outside(subtreedel, from, to + 1)
      modifies this
      ensures Heap() && Changed(old(mem), mem, p, t, t.(entries := t.entries[from..to], subs := t.subs[from..to + 1]))
      ensures p in old(mem) && p in mem && mem[p].dirty == (old(mem)[p].dirty || |mem[p].entries| < |old(mem)[p].entries|)
      ensures Tracked(old(mem), mem)
    {
      hide NoAlias, Foot, Tracked;
      var n := mem[p];
      var entries := Compact(n.entries, entrydel, from, to);
      var subtrees := Compact(n.subtrees, subtreedel, from, to + 1);
      n := n.(entries := entries, subtrees := subtrees, dirty := n.dirty || |entries| < |n.entries|);
      ghost var t' := t.(entries := t.entries[from..to], subs := t.subs[from..to + 1]);
      ghost var f := seq(to + 1 - from, k requires 0 <= k < to + 1 - from => from + k);
      NodeRewritten(mem, mem[p := n], p, t, n, t', f);
      TrackedNode(mem, p, n);
      mem := mem[p := n];
    }

    /** ftn_pruneTo */
    method FtnPruneTo(p: Ptr, valid: Interval, ghost t: Tree)
      requires Heap() && Own(mem, p, t) && t.Node? && Shape(t, t.height) && ProperOrEmpty(valid)
      modifies this
      ensures Heap() && Changed(old(mem), mem, p, t, Pruned(t, t.height, valid))
      ensures p in old(mem) && p in mem
      ensures mem[p].dirty == (old(mem)[p].dirty || (valid.nonempty && |mem[p].entries| < |old(mem)[p].entries|))
      ensures Tracked(old(mem), mem)
    {
      FootInMemory(mem, p, t);
      if !valid.nonempty {
        FtnClear(p, true);
        return;
      }
      PrunedIsTrimmed(t, valid);
      if mem[p].entries == [] {
        return;
      }
      PruneScan(p, valid, t);
    }

    method Trim(p: Ptr, valid: Interval, from: nat, ghost t: Tree) returns (i: nat)
      requires Heap() && Own(mem, p, t) && t.Node? && Shape(t, t.height) && Proper(valid)
      requires from == Below(t.entries, valid.left)
      modifies this
      ensures Heap() && Changed(old(mem), mem, p, t, Trimmed(t, valid)) && i == Upto(t.entries, valid.right)
      ensures p in old(mem) && p in mem && mem[p].dirty == old(mem)[p].dirty
      ensures Tracked(old(mem), mem)
    {
      hide Tracked, Own, SameOn, LeftTrimmed, Trimmed, Shape, ClearsLeft;
      ShapeNode(t, t.height);
      i := TrimLeft(p, valid, from, t);
      ghost var m1 := mem;
      i := TrimRight(p, valid, i, LeftTrimmed(t, valid), t);
      TrackedTransitive(old(mem), m1, mem);
      ChangedTransitive(old(mem), m1, mem, p, t, LeftTrimmed(t, valid), Trimmed(t, valid));
    }

    method PruneScan(p: Ptr, valid: Interval, ghost t: Tree)
      requires Heap() && Own(mem, p, t) && t.Node? && Shape(t, t.height) && Proper(valid)
      modifies this
      ensures Heap() && Changed(old(mem), mem, p, t, Pruned(t, t.height, valid))
      ensures p in old(mem) && p in mem && mem[p].dirty == (old(mem)[p].dirty || |mem[p].entries| < |old(mem)[p].entries|)
      ensures Tracked(old(mem), mem)
    {
      hide Tracked, Rep, NoAlias, SameOn, Shape, Trimmed, Pruned, Outside, Clear, Set, Unset, Below, Upto;
      RepNode(mem, p, t);
      ShapeNode(t, t.height);
      TrimmedRest(t, valid);
      var n := |mem[p].entries|;
      var entrydel, subtreedel := new bool[n](_ => false), new bool[n + 1](_ => false);
      AllClear(entrydel[..]);
      AllClear(subtreedel[..]);
      var from := DropLeft(p, valid, entrydel, subtreedel);
      var i := Trim(p, valid, from, t);
      ghost var m2 := mem;
      RepNode(mem, p, Trimmed(t, valid));
      DropRight(p, valid, entrydel, subtreedel, i, from);
      PerformDeletes(p, entrydel[..], subtreedel[..], Trimmed(t, valid), from, i);
      PrunedIsTrimmed(t, valid);
      TrackedTransitive(old(mem), m2, mem);
      ChangedTransitive(old(mem), m2, mem, p, t, Trimmed(t, valid), Pruned(t, t.height, valid));
    }

    /** ftn_replaceEntries: the entries from start up to end give way to one, and the subtrees
        between them go. */
    method FtnReplaceEntries(p: Ptr, start: nat, end: nat, range: Interval, value: int, ghost t: Tree)
      requires Heap() && Own(mem, p, t) && t.Node? && |t.subs| == |t.entries| + 1
      requires start < |t.entries| && end <= |t.entries| && end > start
      modifies this
      ensures Heap() && Changed(old(mem), mem, p, t, Replaced(t, start, end, Entry(range, value)))
      ensures p in mem && p in old(mem) && |old(mem)[p].subtrees| == |t.subs|
              && mem[p].subtrees == old(mem)[p].subtrees[..start + 1] + old(mem)[p].subtrees[end..]
      ensures p in mem && mem[p].dirty
      ensures Tracked(old(mem), mem)
    {
      hide Foot, NoAlias, Rep, Tracked;
      RepNode(mem, p, t);
      var n := mem[p];
      assert |n.entries| + 1 == |n.subtrees|;
      n := n.(entries := n.entries[start := Entry(range, value)]);
      n := n.(entries := n.entries[..start + 1] + n.entries[end..], subtrees := n.subtrees[..start + 1] + n.subtrees[end..],
      dirty := true);
      ghost var t' := Replaced(t, start, end, Entry(range, value));
      ghost var f := seq(|t'.subs|, k requires 0 <= k < |t'.subs| => if k <= start then k else k + (end - start) - 1);
      assert n.entries == t'.entries;
      NodeRewritten(mem, mem[p := n], p, t, n, t', f);
      TrackedNode(mem, p, n);
      mem := mem[p := n];
    }

    /** _ftn_entries_add */
    method FtnEntriesAdd(p: Ptr, index: nat, e: Entry)
      requires Heap() && p in mem && index <= |mem[p].entries| && |mem[p].entries| < FT_SPLITLIMIT
      modifies this
      ensures Heap() && mem == old(mem)[p := old(mem)[p].(entries := InsertAt(old(mem)[p].entries, index, e))]
    {
      var n := mem[p];
      n := n.(entries := n.entries[..index] + [e] + n.entries[index..]);
      mem := mem[p := n];
    }

    /** _ftn_subtrees_add */
    method FtnSubtreesAdd(p: Ptr, index: nat, st: Ptr)
      requires Heap() && p in mem && index <= |mem[p].subtrees| && |mem[p].subtrees| <= FT_SPLITLIMIT
      modifies this
      ensures Heap() && mem == old(mem)[p := old(mem)[p].(subtrees := InsertAt(old(mem)[p].subtrees, index, SubtreePtr(st, true, 0, 0)))]
    {
      var n := mem[p];
      n := n.(subtrees := n.subtrees[..index] + [SubtreePtr(st, true, 0, 0)] + n.subtrees[index..]);
      mem := mem[p := n];
    }

    /** The first half of ftn_insert: the entry goes in at index, with the two given subtrees
        in place of the one that was there. */
    method FtnWiden(p: Ptr, e: Entry, index: nat, left: Ptr, right: Ptr, ghost t: Tree, ghost lt: Tree, ghost rt: Tree)
      requires Heap() && Own(mem, p, t) && t.Node? && |t.subs| == |t.entries| + 1 && |t.entries| < FT_SPLITLIMIT
      requires index <= |t.entries| && FitsGap(t.entries, index, e.range)
      requires Halves(mem, p, t, index, left, right, lt, rt)
      modifies this
      ensures Heap() && Changed(old(mem), mem, p, t, Widened(t, index, e, lt, rt))
      ensures p in old(mem) && p in mem && |old(mem)[p].subtrees| == |t.subs| && |mem[p].subtrees| == |t.subs| + 1
      ensures SameOn(old(mem), mem, old(mem).Keys - {p})
      ensures forall x :: 0 <= x <= |t.subs| ==> mem[p].subtrees[x].st == WidePtr(old(mem)[p].subtrees, index, left, right, x)
      ensures p in mem && mem[p].dirty
      ensures Tracked(old(mem), mem)
    {
      hide Rep, NoAlias, Foot;
      RepNode(mem, p, t);
      FtnEntriesAdd(p, index, e);
      var n := mem[p];
      mem := mem[p := n.(subtrees := n.subtrees[index := n.subtrees[index].(st := left, inmemory := true)])];
      FtnSubtreesAdd(p, index + 1, right);
      mem := mem[p := mem[p].(dirty := true)];
      WidenedOwn(old(mem), mem, p, t, index, e, left, right, lt, rt);
      forall x | 0 <= x <= |t.subs|
        ensures mem[p].subtrees[x].st == WidePtr(old(mem)[p].subtrees, index, left, right, x)
      {
        InsertAtIndex(n.subtrees[index := n.subtrees[index].(st := left, inmemory := true)], index + 1, SubtreePtr(right, true, 0, 0), x);
      }
    }

    /** The second half of ftn_insert: a node that is too full is split, and its own memory
        is reused for the node that moves up. */
    method FtnSplit(p: Ptr, ghost t: Tree)
      requires Heap() && Own(mem, p, t) && t.Node? && t.height >= 0
      requires |t.entries| == FT_SPLITLIMIT && |t.subs| == FT_SPLITLIMIT + 1
      requires p in mem && mem[p].dirty
      modifies this
      ensures Heap() && Changed(old(mem), mem, p, t, SplitNode(t))
      ensures p in old(mem) && |old(mem)[p].subtrees| == |t.subs| && SameOn(old(mem), mem, old(mem).Keys - {p})
      ensures SplitPtrs(mem, p, old(mem)[p].subtrees)
      ensures p in mem && mem[p].dirty
      ensures forall i :: 0 <= i < 2 ==> mem[mem[p].subtrees[i].st].dirty
      ensures Tracked(old(mem), mem)
    {
      hide Rep, NoAlias, Foot;
      RepNode(mem, p, t);
      FootInMemory(mem, p, t);
      var n := mem[p];
      var left := FtnNew(n.height, false);
      var right := FtnNew(n.height, false);
      mem := mem[left := mem[left].(entries := n.entries[..FT_ORDER], subtrees := n.subtrees[..FT_ORDER + 1])];
      mem := mem[right := mem[right].(entries := n.entries[FT_ORDER + 1..], subtrees := n.subtrees[FT_ORDER + 1..])];
      mem := mem[p := n.(entries := [n.entries[FT_ORDER]],
      subtrees := [n.subtrees[0].(st := left, inmemory := true), n.subtrees[1].(st := right, inmemory := true)],
      height := n.height + 1)];
      SplitOwn(old(mem), mem, p, t, left, right);
    }

    /** ftn_insert: the result is the node itself if it was split, and NULL otherwise. */
    method FtnInsert(p: Ptr, e: Entry, index: nat, left: Ptr, right: Ptr, ghost t: Tree, ghost lt: Tree, ghost rt: Tree)
      returns (r: Ptr)
      requires Heap() && Own(mem, p, t) && t.Node? && |t.subs| == |t.entries| + 1 && |t.entries| < FT_SPLITLIMIT
      requires t.height >= 0 && index <= |t.entries| && FitsGap(t.entries, index, e.range)
      requires Halves(mem, p, t, index, left, right, lt, rt)
      modifies this
      ensures Heap() && Changed(old(mem), mem, p, t, SplitIfFull(Widened(t, index, e, lt, rt)))
      ensures r == if |t.entries| + 1 == FT_SPLITLIMIT then p else NULL
      ensures p in old(mem) && |old(mem)[p].subtrees| == |t.subs| && SameOn(old(mem), mem, old(mem).Keys - {p})
      ensures InsertedPtrs(mem, p, |t.entries| + 1 == FT_SPLITLIMIT, old(mem)[p].subtrees, index, left, right)
      ensures p in mem && mem[p].dirty
      ensures r != NULL ==> forall i :: 0 <= i < 2 ==> mem[mem[p].subtrees[i].st].dirty
      ensures Tracked(old(mem), mem)
    {
      hide Rep, NoAlias, Foot, SplitNode;
      ghost var w := Widened(t, index, e, lt, rt);
      FtnWiden(p, e, index, left, right, t, lt, rt);
      ghost var m1 := mem;
      RepNode(mem, p, w);
      if |mem[p].entries| == FT_SPLITLIMIT {
        FtnSplit(p, w);
        ChangedTransitive(old(mem), m1, mem, p, t, w, SplitNode(w));
        return p;
      }
      return NULL;
    }
  }

  /** Both halves of a split node, and the node above them. */
  lemma SplitOwn(m: Memory, m': Memory, p: Ptr, t: Tree, l: Ptr, r: Ptr)
    requires Own(m, p, t) && t.Node? && |t.entries| == FT_SPLITLIMIT && |t.subs| == FT_SPLITLIMIT + 1
    requires p in m && |m[p].subtrees| == |t.subs|
    requires l !in m && r !in m && l != r && l != NULL && r != NULL
    requires m'.Keys == m.Keys + {l, r} && SameOn(m, m', m.Keys - {p})
    requires m'[l].entries == t.entries[..FT_ORDER] && m'[l].subtrees == m[p].subtrees[..FT_ORDER + 1] && m'[l].height == t.height
    requires m'[r].entries == t.entries[FT_ORDER + 1..] && m'[r].subtrees == m[p].subtrees[FT_ORDER + 1..] && m'[r].height == t.height
    requires m'[p].entries == [t.entries[FT_ORDER]] && m'[p].height == t.height + 1
    requires |m'[p].subtrees| == 2 && m'[p].subtrees[0].st == l && m'[p].subtrees[1].st == r
    requires m'[p].subtrees[0].inmemory && m'[p].subtrees[1].inmemory
    ensures Changed(m, m', p, t, SplitNode(t))
  {
    hide NoAlias, Foot, PickedFoot;
    var s, f, g := SplitNode(t), [0, 1, 2], [3, 4, 5];
    FootInMemory(m, p, t);
    NodeTakes(m, m', p, t, l, s.subs[0], f);
    NodeTakes(m, m', p, t, r, s.subs[1], g);
    PickedFootBelow(m, p, t, f);
    PickedFootBelow(m, p, t, g);
    PickedApart(m, p, t, f, g);
    SplitTop(m', p, s, l, r);
  }

  lemma SplitTop(m: Memory, p: Ptr, s: Tree, l: Ptr, r: Ptr)
    requires s.Node? && |s.subs| == 2 && p != NULL && p in m
    requires m[p].entries == s.entries && m[p].height == s.height
    requires |m[p].subtrees| == 2 && m[p].subtrees[0].st == l && m[p].subtrees[1].st == r
    requires m[p].subtrees[0].inmemory && m[p].subtrees[1].inmemory
    requires Own(m, l, s.subs[0]) && Own(m, r, s.subs[1])
    requires p !in Foot(m, l, s.subs[0]) && p !in Foot(m, r, s.subs[1]) && Foot(m, l, s.subs[0]) !! Foot(m, r, s.subs[1])
    ensures Own(m, p, s) && Foot(m, p, s) <= {p} + Foot(m, l, s.subs[0]) + Foot(m, r, s.subs[1])
  {
    OwnNode(m, p, s);
    FootBound(m, p, s, Foot(m, l, s.subs[0]) + Foot(m, r, s.subs[1]));
  }

  /** The subtree pointers of a node after an insertion at index, before it is split. */
  function WidePtr(subs: seq<SubtreePtr>, index: nat, left: Ptr, right: Ptr, x: nat): Ptr
    requires index < |subs| && x <= |subs|
  {
    if x == index then left else if x == index + 1 then right else if x < index then subs[x].st else subs[x - 1].st
  }

  /** The two halves of a split node took over its subtree pointers. */
  ghost predicate SplitPtrs(m: Memory, p: Ptr, subs: seq<SubtreePtr>) {
    && p in m && |subs| == FT_SPLITLIMIT + 1 && |m[p].subtrees| == 2
    && var l, r := m[p].subtrees[0].st, m[p].subtrees[1].st;
    && l in m && r in m && l != r && m[l].subtrees == subs[..FT_ORDER + 1] && m[r].subtrees == subs[FT_ORDER + 1..]
  }

  /** Where the subtree pointers are after ftn_insert. */
  ghost predicate InsertedPtrs(m: Memory, p: Ptr, split: bool, subs: seq<SubtreePtr>, index: nat, left: Ptr, right: Ptr) {
    && p in m && index < |subs|
    && if split then
         && |subs| == FT_SPLITLIMIT && |m[p].subtrees| == 2
         && var l, r := m[p].subtrees[0].st, m[p].subtrees[1].st;
         && l in m && r in m && l != r && |m[l].subtrees| == FT_ORDER + 1 && |m[r].subtrees| == FT_ORDER + 1
         && (forall x :: 0 <= x <= FT_ORDER ==> m[l].subtrees[x].st == WidePtr(subs, index, left, right, x))
         && (forall x :: 0 <= x <= FT_ORDER ==> m[r].subtrees[x].st == WidePtr(subs, index, left, right, x + (FT_ORDER + 1)))
       else
         && |m[p].subtrees| == |subs| + 1
         && (forall x :: 0 <= x <= |subs| ==> m[p].subtrees[x].st == WidePtr(subs, index, left, right, x))
  }

  /** left and right are two separate trees below subtree i of the node at p. */
  ghost predicate Halves(m: Memory, p: Ptr, t: Tree, i: nat, left: Ptr, right: Ptr, lt: Tree, rt: Tree)
    requires Own(m, p, t) && t.Node? && i < |t.subs|
  {
    && Own(m, left, lt) && Own(m, right, rt)
    && Foot(m, left, lt) !! Foot(m, right, rt)
    && Foot(m, left, lt) <= Foot(m, m[p].subtrees[i].st, t.subs[i])
    && Foot(m, right, rt) <= Foot(m, m[p].subtrees[i].st, t.subs[i])
  }

  /** The footprint a subtree of the widened node lies in. */
  ghost function WidenedFoot(m: Memory, p: Ptr, t: Tree, i: nat, left: Ptr, right: Ptr, lt: Tree, rt: Tree, k: nat): set<Ptr>
    requires Own(m, p, t) && t.Node? && i < |t.subs| && k <= |t.subs| && Halves(m, p, t, i, left, right, lt, rt)
  {
    if k == i then Foot(m, left, lt) else if k == i + 1 then Foot(m, right, rt)
    else
      var j := if k < i then k else k - 1;
      Foot(m, m[p].subtrees[j].st, t.subs[j])
  }

  lemma WidenedFeetApart(m: Memory, p: Ptr, t: Tree, i: nat, left: Ptr, right: Ptr, lt: Tree, rt: Tree, k: nat, l: nat)
    requires Own(m, p, t) && t.Node? && i < |t.subs| && k < l <= |t.subs| && Halves(m, p, t, i, left, right, lt, rt)
    ensures WidenedFoot(m, p, t, i, left, right, lt, rt, k) !! WidenedFoot(m, p, t, i, left, right, lt, rt, l)
  {
    hide Foot, NoAlias;
    var k', l' := if k <= i then k else k - 1, if l <= i then l else l - 1;
    if k' != l' {
      SubsApart(m, p, t, k', l');
    }
  }

  lemma WidenedSubOwn(m: Memory, m': Memory, p: Ptr, t: Tree, i: nat, e: Entry, left: Ptr, right: Ptr, lt: Tree, rt: Tree, k: nat)
    requires Own(m, p, t) && t.Node? && |t.subs| == |t.entries| + 1 && i < |t.subs| && Halves(m, p, t, i, left, right, lt, rt)
    requires SameOn(m, m', m.Keys - {p}) && k <= |t.subs|
    requires p in m' && |m'[p].subtrees| == |t.subs| + 1
             && m'[p].subtrees == InsertAt(m[p].subtrees[i := m[p].subtrees[i].(st := left, inmemory := true)], i + 1, SubtreePtr(right, true, 0, 0))
    ensures var c, s := m'[p].subtrees[k], Widened(t, i, e, lt, rt).subs[k];
            && c.inmemory && Own(m', c.st, s) && p !in Foot(m', c.st, s)
            && Foot(m', c.st, s) == WidenedFoot(m, p, t, i, left, right, lt, rt, k)
            && Foot(m', c.st, s) <= Foot(m, p, t)
  {
    hide NoAlias, Foot;
    FootInMemory(m, p, t);
    var j := if k <= i then k else k - 1;
    PickedSub(m, m', p, t, j);
    InsertAtIndex(t.subs[i := lt], i + 1, rt, k);
    InsertAtIndex(m[p].subtrees[i := m[p].subtrees[i].(st := left, inmemory := true)], i + 1, SubtreePtr(right, true, 0, 0), k);
    if k == i {
      Frame(m, m', left, lt);
    } else if k == i + 1 {
      Frame(m, m', right, rt);
    }
  }

  lemma WidenedOwn(m: Memory, m': Memory, p: Ptr, t: Tree, i: nat, e: Entry, left: Ptr, right: Ptr, lt: Tree, rt: Tree)
    requires Own(m, p, t) && t.Node? && |t.subs| == |t.entries| + 1 && i < |t.subs| && Halves(m, p, t, i, left, right, lt, rt)
    requires SameOn(m, m', m.Keys - {p}) && p in m' && m'.Keys == m.Keys
    requires m'[p].entries == InsertAt(m[p].entries, i, e) && m'[p].height == m[p].height
    requires |m'[p].subtrees| == |t.subs| + 1
             && m'[p].subtrees == InsertAt(m[p].subtrees[i := m[p].subtrees[i].(st := left, inmemory := true)], i + 1, SubtreePtr(right, true, 0, 0))
    ensures Changed(m, m', p, t, Widened(t, i, e, lt, rt))
  {
    hide NoAlias, Foot, WidenedFoot;
    var w := Widened(t, i, e, lt, rt);
    RepNode(m, p, t);
    FootInMemory(m, p, t);
    forall k | 0 <= k <= |t.subs|
      ensures var c, s := m'[p].subtrees[k], w.subs[k];
              && c.inmemory && Own(m', c.st, s) && p !in Foot(m', c.st, s)
              && Foot(m', c.st, s) == WidenedFoot(m, p, t, i, left, right, lt, rt, k)
              && Foot(m', c.st, s) <= Foot(m, p, t)
    {
      WidenedSubOwn(m, m', p, t, i, e, left, right, lt, rt, k);
    }
    forall k, l | 0 <= k < l <= |t.subs|
      ensures Rep(m', m'[p].subtrees[k].st, w.subs[k]) && Rep(m', m'[p].subtrees[l].st, w.subs[l])
      ensures Foot(m', m'[p].subtrees[k].st, w.subs[k]) !! Foot(m', m'[p].subtrees[l].st, w.subs[l])
    {
      WidenedFeetApart(m, p, t, i, left, right, lt, rt, k, l);
    }
    OwnNode(m', p, w);
    FootBound(m', p, w, Foot(m, p, t));
  }

  lemma RepNode(m: Memory, p: Ptr, t: Tree)
    requires Rep(m, p, t) && t.Node?
    ensures p != NULL && p in m && m[p].entries == t.entries && m[p].height == t.height && |m[p].subtrees| == |t.subs|
  {
  }

  lemma ShapeNode(t: Tree, h: int)
    requires t.Node? && Shape(t, h)
    ensures t.height == h >= 0 && Sorted(t.entries) && |t.subs| == |t.entries| + 1 && |t.entries| < FT_SPLITLIMIT
  {
  }

  lemma AllClear(del: seq<bool>)
    requires forall k :: 0 <= k < |del| ==> !del[k]
    ensures Clear(del, 0) && Set(del, 0, 0)
  {
  }

  ghost function LeftTrimmed(t: Tree, valid: Interval): Tree
    requires t.Node? && |t.subs| == |t.entries| + 1
  {
    var i := Below(t.entries, valid.left);
    if ClearsLeft(t.entries, valid) then
      t.(entries := t.entries[i := Clip(t.entries[i], valid)], subs := t.subs[i := Cleared(t.subs[i])])
    else t
  }

  ghost function Trimmed(t: Tree, valid: Interval): Tree
    requires t.Node? && |t.subs| == |t.entries| + 1
  {
    var l, i := LeftTrimmed(t, valid), Upto(t.entries, valid.right) - 1;
    if ClearsRight(t.entries, valid) then
      t.(entries := l.entries[i := Clip(l.entries[i], valid)], subs := l.subs[i + 1 := Cleared(l.subs[i + 1])])
    else l
  }

  lemma LeftTrimmedShape(t: Tree, valid: Interval)
    requires t.Node? && Shape(t, t.height) && Proper(valid)
    ensures Shape(LeftTrimmed(t, valid), t.height)
  {
    var i := Below(t.entries, valid.left);
    if ClearsLeft(t.entries, valid) {
      ClearedShape(t.subs[i], t.height - 1);
    }
  }

  lemma TrimmedEntry(es: seq<Entry>, valid: Interval, k: nat)
    requires Sorted(es) && Proper(valid) && Below(es, valid.left) <= k < Upto(es, valid.right)
    requires !(k == Below(es, valid.left) && ClearsLeft(es, valid)) && !(k == Upto(es, valid.right) - 1 && ClearsRight(es, valid))
    ensures Clip(es[k], valid) == es[k]
  {
    var lo, hi := Below(es, valid.left), Upto(es, valid.right);
    assert k < hi - 1 ==> es[k].range.right < es[k + 1].range.left <= valid.right;
    assert k > lo ==> valid.left <= es[lo].range.right < es[k].range.left;
  }

  lemma TrimmedKept(t: Tree, valid: Interval)
    requires t.Node? && Shape(t, t.height) && Proper(valid)
    ensures var lo, hi := Below(t.entries, valid.left), Upto(t.entries, valid.right);
            && lo <= hi && |Trimmed(t, valid).entries| == |t.entries|
            && Trimmed(t, valid).entries[lo..hi] == ClipAll(Kept(t.entries, valid), valid)
  {
    var es, lo, hi, m := t.entries, Below(t.entries, valid.left), Upto(t.entries, valid.right), Trimmed(t, valid);
    BelowLeqUpto(es, valid.left, valid.right);
    forall k | lo <= k < hi
      ensures m.entries[k] == Clip(es[k], valid)
    {
      if !(k == lo && ClearsLeft(es, valid)) && !(k == hi - 1 && ClearsRight(es, valid)) {
        TrimmedEntry(es, valid, k);
      }
    }
  }

  lemma TrimmedSubs(t: Tree, valid: Interval)
    requires t.Node? && |t.subs| == |t.entries| + 1 && Below(t.entries, valid.left) <= Upto(t.entries, valid.right)
    ensures |Trimmed(t, valid).subs| == |t.subs|
    ensures Trimmed(t, valid).subs[Below(t.entries, valid.left)..Upto(t.entries, valid.right) + 1]
         == PrunedSubs(t.entries, t.subs, valid)
  {
  }

  /** Trimming first and deleting then is pruning. */
  lemma PrunedIsTrimmed(t: Tree, valid: Interval)
    requires t.Node? && Shape(t, t.height) && Proper(valid)
    ensures var m, lo, hi := Trimmed(t, valid), Below(t.entries, valid.left), Upto(t.entries, valid.right);
            && lo <= hi <= |m.entries| == |t.entries| && |m.subs| == |t.subs|
            && Pruned(t, t.height, valid) == m.(entries := m.entries[lo..hi], subs := m.subs[lo..hi + 1])
    ensures t.entries == [] ==> Pruned(t, t.height, valid) == t
  {
    hide ClipAll, ClearsLeft, ClearsRight;
    BelowLeqUpto(t.entries, valid.left, valid.right);
    TrimmedKept(t, valid);
    TrimmedSubs(t, valid);
    if t.entries == [] {
      PrunedEmpty(t, valid);
    }
  }

  lemma PrunedEmpty(t: Tree, valid: Interval)
    requires t.Node? && Shape(t, t.height) && Proper(valid) && t.entries == []
    ensures Pruned(t, t.height, valid) == t
  {
  }

  /** The entries behind the trimmed ones are the ones that start after `valid`. */
  lemma TrimmedRest(t: Tree, valid: Interval)
    requires t.Node? && Shape(t, t.height) && Proper(valid)
    ensures Trimmed(t, valid).Node? && Sorted(Trimmed(t, valid).entries)
    ensures |Trimmed(t, valid).subs| == |t.subs| && |Trimmed(t, valid).entries| == |t.entries|
    ensures Below(t.entries, valid.left) <= Upto(t.entries, valid.right) <= |t.entries|
    ensures forall k :: Upto(t.entries, valid.right) <= k < |t.entries| ==> RightOf(Trimmed(t, valid).entries[k].range, valid)
  {
    BelowLeqUpto(t.entries, valid.left, valid.right);
    TrimmedSorted(t, valid);
    forall k | Upto(t.entries, valid.right) <= k < |t.entries|
      ensures RightOf(t.entries[k].range, valid)
    {
      assert t.entries[Upto(t.entries, valid.right)].range.left <= t.entries[k].range.left;
    }
  }

  lemma TrimmedSorted(t: Tree, valid: Interval)
    requires t.Node? && Shape(t, t.height) && Proper(valid)
    ensures Sorted(Trimmed(t, valid).entries)
  {
    hide Sorted, LeftTrimmed;
    LeftTrimmedSorted(t, valid);
    if ClearsRight(t.entries, valid) {
      ClipOneSorted(LeftTrimmed(t, valid).entries, Upto(t.entries, valid.right) - 1, valid);
    }
  }

  lemma LeftTrimmedSorted(t: Tree, valid: Interval)
    requires t.Node? && Shape(t, t.height) && Proper(valid)
    ensures |t.subs| == |t.entries| + 1 && LeftTrimmed(t, valid).Node?
    ensures var es, i := LeftTrimmed(t, valid).entries, Upto(t.entries, valid.right) - 1;
            && Sorted(es) && |es| == |t.entries| && (ClearsRight(t.entries, valid) ==> 0 <= i < |es| && Overlaps(es[i].range, valid))
  {
    if ClearsLeft(t.entries, valid) {
      ClipOneSorted(t.entries, Below(t.entries, valid.left), valid);
    }
  }

  lemma ClipOneSorted(es: seq<Entry>, i: nat, valid: Interval)
    requires Sorted(es) && i < |es| && Proper(valid) && Overlaps(es[i].range, valid)
    ensures Sorted(es[i := Clip(es[i], valid)])
  {
  }

  /** Where the scan over entries inside `valid` stops. */
  lemma ScanStops(es: seq<Entry>, valid: Interval, from: nat, i: nat)
    requires Sorted(es) && Proper(valid) && from <= i <= |es|
    requires from == Below(es, valid.left) + if ClearsLeft(es, valid) then 1 else 0
    requires i > from ==> ContainsInt(valid, es[i - 1].range)
    requires i < |es| ==> !ContainsInt(valid, es[i].range)
    ensures i == if ClearsRight(es, valid) then Upto(es, valid.right) - 1 else Upto(es, valid.right)
    ensures i < |es| ==> (RightOverlaps(valid, es[i].range) <==> ClearsRight(es, valid))
  {
    UptoIs(es, valid.right, if ClearsRight(es, valid) then i + 1 else i);
  }

  /** No flag from `from` on is set. */
  ghost predicate Clear(del: seq<bool>, from: int) {
    forall k :: 0 <= k < |del| && from <= k ==> !del[k]
  }

  ghost predicate Set(del: seq<bool>, from: int, to: int) {
    forall k :: 0 <= k < |del| && from <= k < to ==> del[k]
  }

  ghost predicate Unset(del: seq<bool>, from: int, to: int) {
    forall k :: 0 <= k < |del| && from <= k < to ==> !del[k]
  }

  /** Exactly the flags outside [from, to) are set. */
  ghost predicate Outside(del: seq<bool>, from: int, to: int) {
    forall k :: 0 <= k < |del| ==> (del[k] <==> k < from || k >= to)
  }

  /** The compaction at the end of ftn_pruneTo: elements that are not deleted move down, in
      place. */
  method Compact<T>(s: seq<T>, del: seq<bool>, ghost from: nat, ghost to: nat) returns (r: seq<T>)
    requires |s| == |del| && from <= to <= |s| && Outside(del, from, to)
    ensures r == s[from..to]
  {
    r := s;
    var i, j := 0, 0;
    while i < |s|
      invariant 0 <= j <= i <= |s| == |r|
      invariant j == if i <= from then 0 else if i <= to then i - from else to - from
      invariant forall k :: 0 <= k < j ==> r[k] == s[from + k]
      invariant forall k :: i <= k < |s| ==> r[k] == s[k]
    {
      if !del[i] {
        r := r[j := r[i]];
        j := j + 1;
      }
      i := i + 1;
    }
    r := r[..j];
  }

  function Identity(n: nat): (f: seq<nat>)
    ensures |f| == n && forall k :: 0 <= k < n ==> f[k] == k
  {
    seq(n, k => k)
  }

  lemma ChildOwn(m: Memory, p: Ptr, t: Tree, i: nat)
    requires Own(m, p, t) && t.Node? && i < |t.subs|
    ensures p in m && |m[p].subtrees| == |t.subs| && m[p].subtrees[i].inmemory && Own(m, m[p].subtrees[i].st, t.subs[i])
    ensures m[p].subtrees[i].st != NULL <==> t.subs[i].Node?
    ensures t.subs[i].Node? ==> m[p].subtrees[i].st in m && m[m[p].subtrees[i].st].height == t.subs[i].height
                                && |m[m[p].subtrees[i].st].subtrees| == |t.subs[i].subs|
  {
  }

  lemma NilOwn(m: Memory)
    ensures EmptyChain(-1) == Nil && Own(m, NULL, Nil) && Foot(m, NULL, Nil) == {}
  {
  }

  lemma ClearedOwn(m: Memory, m': Memory, p: Ptr, c: Ptr, h: int)
    requires h >= 0 && p != NULL
    requires Own(m, c, EmptyChain(h - 1)) && p !in Foot(m, c, EmptyChain(h - 1))
    requires SameOn(m, m', m.Keys - {p}) && p in m' && m'[p].entries == [] && m'[p].height == h
    requires |m'[p].subtrees| == 1 && m'[p].subtrees[0].st == c && m'[p].subtrees[0].inmemory
    ensures Own(m', p, EmptyChain(h))
    ensures Foot(m', p, EmptyChain(h)) == {p} + Foot(m, c, EmptyChain(h - 1))
  {
    FootInMemory(m, c, EmptyChain(h - 1));
    Frame(m, m', c, EmptyChain(h - 1));
    var t := EmptyChain(h);
    assert t.subs == [EmptyChain(h - 1)];
    OwnNode(m', p, t);
    assert forall q :: q in Foot(m', p, t) && q != p ==> q in Foot(m', c, EmptyChain(h - 1));
    assert forall q :: q in Foot(m', c, t.subs[0]) ==> q in Foot(m', p, t);
  }
}
