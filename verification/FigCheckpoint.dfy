/** Checkpoints: writing a tree to the log (get_dirty in utils.c) and following it there
    (subtree_get, and the opening of a file in gdpfs_file.c). */
module FigCheckpoint {
  import opened Intervals
  import opened FigTrees
  import opened FigMemory
  import opened FigNodes
  import opened FigOutcome
  import opened FigTreeImpl

  /** The number of nodes of a tree. */
  function Count(t: Tree): (n: nat)
    ensures t.Node? <==> n > 0
    decreases t, 1
  {
    if t.Nil? then 0 else CountAll(t, |t.subs|) + 1
  }

  /** The number of nodes of the first n subtrees. */
  function CountAll(t: Tree, n: nat): nat
    requires t.Node? && n <= |t.subs|
    decreases t, 0, n
  {
    if n == 0 then 0 else CountAll(t, n - 1) + Count(t.subs[n - 1])
  }

  /** The records of a checkpoint, by record number; offsets count nodes. */
  type ChkptLog = map<int, seq<FtNode>>

  /** A pointer in a written node: NULL, or the place of the subtree in the log. */
  predicate Points(s: SubtreePtr, sub: Tree, recno: int, offset: int) {
    && s.st == NULL
    && if sub.Nil? then s.inmemory else !s.inmemory && s.recno == recno && s.offset == offset
  }

  /** From `base` on, the record has the nodes of t, subtrees before their parents, so t itself
      last. */
  ghost predicate Emitted(record: seq<FtNode>, base: nat, t: Tree, recno: int)
    decreases t
  {
    t.Node? ==>
      && base + Count(t) <= |record|
      && var n := record[base + Count(t) - 1];
      && n.entries == t.entries && n.height == t.height && |n.subtrees| == |t.subs| && !n.dirty
      && forall i :: 0 <= i < |t.subs| ==>
                       && Points(n.subtrees[i], t.subs[i], recno, base + CountAll(t, i + 1) - 1)
                       && Emitted(record, base + CountAll(t, i), t.subs[i], recno)
  }

  lemma {:induction false} EmittedPrefix(record: seq<FtNode>, more: seq<FtNode>, base: nat, t: Tree, recno: int)
    requires Emitted(record, base, t, recno) && record <= more
    ensures Emitted(more, base, t, recno)
    decreases t
  {
    hide Count, CountAll, Points;
    if t.Node? {
      forall i | 0 <= i < |t.subs|
        ensures Emitted(more, base + CountAll(t, i), t.subs[i], recno)
      {
        EmittedPrefix(record, more, base + CountAll(t, i), t.subs[i], recno);
      }
    }
  }

  /** The tree that is found by following the pointers of a node in the log (subtree_get). A
      subtree lies in an earlier record, or earlier in the same one. */
  function Loaded(log: ChkptLog, recno: int, offset: int): Tree
    decreases if recno < 0 then 0 else recno, if offset < 0 then 0 else offset
  {
    if recno < 0 || recno !in log || offset < 0 || offset >= |log[recno]| then Nil
    else
      var n := log[recno][offset];
      Node(n.entries, seq(|n.subtrees|, i requires 0 <= i < |n.subtrees| =>
             var s := n.subtrees[i];
             if s.inmemory || !(0 <= s.recno < recno || (s.recno == recno && 0 <= s.offset < offset)) then Nil
             else Loaded(log, s.recno, s.offset)),
           n.height)
  }

  lemma {:induction false} CountUpto(t: Tree, i: nat, n: nat)
    requires t.Node? && i < n <= |t.subs|
    ensures CountAll(t, i) + Count(t.subs[i]) <= CountAll(t, n)
    decreases n
  {
    if i + 1 < n {
      CountUpto(t, i, n - 1);
    }
  }

  /** Round trip: the pointers in the log lead to the very tree that was written. */
  lemma {:induction false} LoadedIsTree(log: ChkptLog, recno: int, base: nat, t: Tree)
    requires recno in log && recno >= 0 && t.Node? && Emitted(log[recno], base, t, recno)
    ensures Loaded(log, recno, base + Count(t) - 1) == t
    decreases t
  {
    hide Count, CountAll, Loaded, Emitted;
    var k := base + Count(t) - 1;
    EmittedNode(log[recno], base, t, recno);
    LoadedNode(log, recno, k);
    forall i | 0 <= i < |t.subs|
      ensures LoadedAt(log, recno, k, i) == t.subs[i]
    {
      EmittedSub(log[recno], base, t, recno, i);
      if t.subs[i].Node? {
        LoadedIsTree(log, recno, base + CountAll(t, i), t.subs[i]);
      }
    }
    assert Loaded(log, recno, k).subs == t.subs;
  }

  lemma EmittedNode(record: seq<FtNode>, base: nat, t: Tree, recno: int)
    requires t.Node? && Emitted(record, base, t, recno)
    ensures base + Count(t) <= |record|
    ensures var n := record[base + Count(t) - 1];
            n.entries == t.entries && n.height == t.height && |n.subtrees| == |t.subs|
  {
    hide Count, CountAll, Points;
  }

  /** Subtree i of an emitted node lies before it. */
  lemma EmittedSub(record: seq<FtNode>, base: nat, t: Tree, recno: int, i: nat)
    requires t.Node? && Emitted(record, base, t, recno) && i < |t.subs|
    ensures base + CountAll(t, i) + Count(t.subs[i]) < base + Count(t) <= |record|
    ensures i < |record[base + Count(t) - 1].subtrees|
    ensures Points(record[base + Count(t) - 1].subtrees[i], t.subs[i], recno, base + CountAll(t, i) + Count(t.subs[i]) - 1)
    ensures Emitted(record, base + CountAll(t, i), t.subs[i], recno)
  {
    hide Count, CountAll, Points;
    CountBefore(t, i);
  }

  lemma CountBefore(t: Tree, i: nat)
    requires t.Node? && i < |t.subs|
    ensures CountAll(t, i + 1) == CountAll(t, i) + Count(t.subs[i]) && CountAll(t, i) + Count(t.subs[i]) < Count(t)
  {
    hide Count;
    CountUpto(t, i, |t.subs|);
    CountNode(t);
  }

  lemma CountNode(t: Tree)
    requires t.Node?
    ensures Count(t) == CountAll(t, |t.subs|) + 1
  {
  }

  /** Subtree i of a node in the log. */
  function LoadedAt(log: ChkptLog, recno: int, offset: int, i: nat): Tree
    requires recno in log && 0 <= offset < |log[recno]| && i < |log[recno][offset].subtrees|
  {
    var s := log[recno][offset].subtrees[i];
    if s.inmemory || !(0 <= s.recno < recno || (s.recno == recno && 0 <= s.offset < offset)) then Nil
    else Loaded(log, s.recno, s.offset)
  }

  lemma LoadedNode(log: ChkptLog, recno: int, offset: int)
    requires recno >= 0 && recno in log && 0 <= offset < |log[recno]|
    ensures var n, r := log[recno][offset], Loaded(log, recno, offset);
            && r.Node? && r.entries == n.entries && r.height == n.height && |r.subs| == |n.subtrees|
            && forall i :: 0 <= i < |r.subs| ==> r.subs[i] == LoadedAt(log, recno, offset, i)
  {
  }

  ghost predicate DirtyOn(m: Memory, ps: set<Ptr>) {
    forall p :: p in ps ==> p in m && m[p].dirty
  }

  ghost predicate CleanOn(m: Memory, ps: set<Ptr>) {
    forall p :: p in ps ==> p in m && !m[p].dirty
  }

  /** The subtree at p is written to the record, from `base` on, and is otherwise as before. */
  ghost predicate Done(m: Memory, p: Ptr, t: Tree, foot: set<Ptr>, record: seq<FtNode>, base: nat, recno: int) {
    && Own(m, p, t) && Foot(m, p, t) == foot && CleanOn(m, foot)
    && Emitted(record, base, t, recno)
  }

  lemma DoneKept(m: Memory, m': Memory, p: Ptr, t: Tree, foot: set<Ptr>, record: seq<FtNode>, more: seq<FtNode>, base: nat, recno: int)
    requires Done(m, p, t, foot, record, base, recno) && SameOn(m, m', foot) && record <= more
    ensures Done(m', p, t, foot, more, base, recno)
  {
    Frame(m, m', p, t);
    EmittedPrefix(record, more, base, t, recno);
  }

  /** Subtree i of the node at p, as it was in m. */
  ghost predicate Pending(m0: Memory, m: Memory, p: Ptr, t: Tree, j: nat)
    requires Own(m0, p, t) && t.Node? && j < |t.subs|
  {
    SameOn(m0, m, Foot(m0, m0[p].subtrees[j].st, t.subs[j]))
  }

  /** Subtree j of the node at p has been written, and its pointer says where. */
  ghost predicate Written(m0: Memory, m: Memory, p: Ptr, t: Tree, record: seq<FtNode>, base: nat, recno: int, j: nat)
    requires Own(m0, p, t) && t.Node? && j < |t.subs|
  {
    && Done(m, m0[p].subtrees[j].st, t.subs[j], Foot(m0, m0[p].subtrees[j].st, t.subs[j]), record, base + CountAll(t, j), recno)
    && p in m && j < |m[p].subtrees|
    && (t.subs[j].Node? ==> m[p].subtrees[j].recno == recno && m[p].subtrees[j].offset == base + CountAll(t, j + 1) - 1)
  }

  /** The node at p is as it was in m0, but for what its pointers say about the log. */
  ghost predicate Marked(m0: Memory, m: Memory, p: Ptr, t: Tree)
    requires Own(m0, p, t) && t.Node?
  {
    && m.Keys == m0.Keys && p in m
    && m[p].entries == t.entries && m[p].height == t.height && m[p].dirty && |m[p].subtrees| == |t.subs|
    && (forall j :: 0 <= j < |t.subs| ==> m[p].subtrees[j].st == m0[p].subtrees[j].st && m[p].subtrees[j].inmemory)
    && SameOn(m0, m, m0.Keys - Foot(m0, p, t))
  }

  /** The first i subtrees have been written. */
  ghost predicate Progress(m0: Memory, m: Memory, p: Ptr, t: Tree, record: seq<FtNode>, base: nat, recno: int, i: nat) {
    && Own(m0, p, t) && t.Node? && i <= |t.subs|
    && Marked(m0, m, p, t)
    && |record| == base + CountAll(t, i)
    && (forall j :: 0 <= j < i ==> Written(m0, m, p, t, record, base, recno, j))
    && (forall j :: i <= j < |t.subs| ==> Pending(m0, m, p, t, j))
  }

  lemma ProgressStart(m0: Memory, p: Ptr, t: Tree, record: seq<FtNode>, recno: int)
    requires Own(m0, p, t) && t.Node? && DirtyOn(m0, Foot(m0, p, t))
    ensures Progress(m0, m0, p, t, record, |record|, recno, 0)
  {
    hide Count;
    FootInMemory(m0, p, t);
    forall j | 0 <= j < |t.subs|
      ensures Pending(m0, m0, p, t, j)
    {
      FootSub(m0, p, t, j);
    }
  }

  /** What writing subtree i leaves alone. */
  ghost predicate OneChild(m0: Memory, m: Memory, m': Memory, p: Ptr, t: Tree, i: nat, c: SubtreePtr)
    requires Own(m0, p, t) && t.Node? && i < |t.subs|
  {
    && m'.Keys == m0.Keys && m.Keys == m0.Keys && p in m && p in m'
    && SameOn(m, m', m0.Keys - Foot(m0, m0[p].subtrees[i].st, t.subs[i]) - {p})
    && i < |m[p].subtrees| && m'[p] == m[p].(subtrees := m[p].subtrees[i := c])
  }

  lemma StepMarked(m0: Memory, m: Memory, m': Memory, p: Ptr, t: Tree, i: nat, c: SubtreePtr)
    requires Own(m0, p, t) && t.Node? && i < |t.subs| && Marked(m0, m, p, t) && OneChild(m0, m, m', p, t, i, c)
    requires c.inmemory && c.st == m0[p].subtrees[i].st
    ensures Marked(m0, m', p, t)
  {
    hide Rep, NoAlias, Foot;
    FootSub(m0, p, t, i);
    FootInMemory(m0, p, t);
  }

  lemma StepOther(m0: Memory, m: Memory, m': Memory, p: Ptr, t: Tree, i: nat, c: SubtreePtr, j: nat)
    requires Own(m0, p, t) && t.Node? && i < |t.subs| && j < |t.subs| && i != j && OneChild(m0, m, m', p, t, i, c)
    ensures SameOn(m, m', Foot(m0, m0[p].subtrees[j].st, t.subs[j]))
  {
    hide Rep, Foot;
    SubsApart(m0, p, t, i, j);
    FootSub(m0, p, t, j);
    FootInMemory(m0, p, t);
    NotBelow(m0, p, t, j);
  }

  lemma SameTrans(m0: Memory, m: Memory, m': Memory, ps: set<Ptr>)
    requires SameOn(m0, m, ps) && SameOn(m, m', ps)
    ensures SameOn(m0, m', ps)
  {
  }

  lemma WrittenKept(m0: Memory, m: Memory, m': Memory, p: Ptr, t: Tree, record: seq<FtNode>, more: seq<FtNode>,
                    base: nat, recno: int, i: nat, c: SubtreePtr, j: nat)
    requires Own(m0, p, t) && t.Node? && i < |t.subs| && j < |t.subs| && i != j && OneChild(m0, m, m', p, t, i, c)
    requires Written(m0, m, p, t, record, base, recno, j) && record <= more
    ensures Written(m0, m', p, t, more, base, recno, j)
  {
    hide NoAlias, Foot, Emitted, CountAll;
    StepOther(m0, m, m', p, t, i, c, j);
    DoneKept(m, m', m0[p].subtrees[j].st, t.subs[j], Foot(m0, m0[p].subtrees[j].st, t.subs[j]), record, more, base + CountAll(t, j), recno);
  }

  lemma ProgressStep(m0: Memory, m: Memory, m': Memory, p: Ptr, t: Tree, record: seq<FtNode>, more: seq<FtNode>,
                     base: nat, recno: int, i: nat, c: SubtreePtr)
    requires Progress(m0, m, p, t, record, base, recno, i) && i < |t.subs| && OneChild(m0, m, m', p, t, i, c)
    requires record <= more && |more| == |record| + Count(t.subs[i])
    requires c.inmemory && c.st == m0[p].subtrees[i].st
    requires Written(m0, m', p, t, more, base, recno, i)
    ensures Progress(m0, m', p, t, more, base, recno, i + 1)
  {
    hide Rep, NoAlias, Foot, Written, Pending, Marked, OneChild, Count;
    StepMarked(m0, m, m', p, t, i, c);
    forall j | 0 <= j < i + 1
      ensures Written(m0, m', p, t, more, base, recno, j)
    {
      if j < i {
        WrittenKept(m0, m, m', p, t, record, more, base, recno, i, c, j);
      }
    }
    forall j | i + 1 <= j < |t.subs|
      ensures Pending(m0, m', p, t, j)
    {
      PendingKept(m0, m, m', p, t, i, c, j);
    }
  }

  lemma PendingKept(m0: Memory, m: Memory, m': Memory, p: Ptr, t: Tree, i: nat, c: SubtreePtr, j: nat)
    requires Own(m0, p, t) && t.Node? && i < |t.subs| && j < |t.subs| && i != j && OneChild(m0, m, m', p, t, i, c)
    requires Pending(m0, m, p, t, j)
    ensures Pending(m0, m', p, t, j)
  {
    hide NoAlias, Foot;
    StepOther(m0, m, m', p, t, i, c, j);
    SameTrans(m0, m, m', Foot(m0, m0[p].subtrees[j].st, t.subs[j]));
  }

  /** What the record says of a written node. */
  ghost predicate Copied(n: FtNode, m: Memory, p: Ptr, t: Tree)
    requires p in m && t.Node?
  {
    && n.entries == m[p].entries && n.height == m[p].height && |n.subtrees| == |m[p].subtrees| == |t.subs| && !n.dirty
    && forall j :: 0 <= j < |t.subs| ==>
                     n.subtrees[j] == if m[p].subtrees[j].st != NULL then m[p].subtrees[j].(inmemory := false, st := NULL)
                     else m[p].subtrees[j]
  }

  /** The copy of a written node points to the copies of its subtrees. */
  lemma CopyPoints(m0: Memory, m: Memory, p: Ptr, t: Tree, record: seq<FtNode>, base: nat, recno: int, n: FtNode, j: nat)
    requires t.Node? && Progress(m0, m, p, t, record, base, recno, |t.subs|) && j < |t.subs| && Copied(n, m, p, t)
    ensures Points(n.subtrees[j], t.subs[j], recno, base + CountAll(t, j + 1) - 1)
  {
    hide NoAlias, Foot, Emitted, Count, CountAll;
    assert Written(m0, m, p, t, record, base, recno, j);
    PtrNull(m, m0[p].subtrees[j].st, t.subs[j]);
  }

  lemma CopyPointsAll(m0: Memory, m: Memory, p: Ptr, t: Tree, record: seq<FtNode>, base: nat, recno: int, n: FtNode)
    requires t.Node? && Progress(m0, m, p, t, record, base, recno, |t.subs|) && Copied(n, m, p, t)
    ensures CopyOf(n, t, base, recno)
  {
    hide Rep, NoAlias, Foot, Emitted, Count, CountAll, Points, Written, Pending;
    forall j | 0 <= j < |t.subs|
      ensures Points(n.subtrees[j], t.subs[j], recno, base + CountAll(t, j + 1) - 1)
    {
      CopyPoints(m0, m, p, t, record, base, recno, n, j);
    }
  }

  lemma PtrNull(m: Memory, p: Ptr, t: Tree)
    requires Own(m, p, t)
    ensures p == NULL <==> t.Nil?
  {
  }

  lemma SubtreeWritten(m0: Memory, m: Memory, m': Memory, p: Ptr, t: Tree, record: seq<FtNode>, base: nat, recno: int, n: FtNode, j: nat)
    requires t.Node? && Progress(m0, m, p, t, record, base, recno, |t.subs|) && j < |t.subs|
    requires m' == m[p := m[p].(dirty := false)]
    ensures Done(m', m0[p].subtrees[j].st, t.subs[j], Foot(m0, m0[p].subtrees[j].st, t.subs[j]), record + [n], base + CountAll(t, j), recno)
    ensures p !in Foot(m0, m0[p].subtrees[j].st, t.subs[j])
  {
    hide NoAlias, Foot, Emitted, Count, CountAll;
    assert Written(m0, m, p, t, record, base, recno, j);
    NotBelow(m0, p, t, j);
    DoneKept(m, m', m0[p].subtrees[j].st, t.subs[j], Foot(m0, m0[p].subtrees[j].st, t.subs[j]), record, record + [n], base + CountAll(t, j), recno);
  }

  /** The copy of a node that follows its subtrees in the record. */
  ghost predicate CopyOf(n: FtNode, t: Tree, base: nat, recno: int)
    requires t.Node?
  {
    && n.entries == t.entries && n.height == t.height && |n.subtrees| == |t.subs| && !n.dirty
    && forall i :: 0 <= i < |t.subs| ==> Points(n.subtrees[i], t.subs[i], recno, base + CountAll(t, i + 1) - 1)
  }

  lemma EmitNode(record: seq<FtNode>, base: nat, t: Tree, recno: int)
    requires t.Node? && |record| == base + Count(t) && CopyOf(record[|record| - 1], t, base, recno)
    requires forall i :: 0 <= i < |t.subs| ==> Emitted(record, base + CountAll(t, i), t.subs[i], recno)
    ensures Emitted(record, base, t, recno)
  {
    hide Count, CountAll, Points;
  }

  /** The node itself comes after its subtrees. */
  lemma NodeDone(m0: Memory, m: Memory, m': Memory, p: Ptr, t: Tree, record: seq<FtNode>, base: nat, recno: int, n: FtNode)
    requires t.Node? && Progress(m0, m, p, t, record, base, recno, |t.subs|) && Copied(n, m, p, t)
    requires m' == m[p := m[p].(dirty := false)]
    ensures Done(m', p, t, Foot(m0, p, t), record + [n], base, recno) && |record + [n]| == base + Count(t)
    ensures m'.Keys == m0.Keys && SameOn(m0, m', m0.Keys - Foot(m0, p, t))
  {
    hide Rep, NoAlias, Emitted, Count, CountAll, Points, Foot, Written, Pending, Done, SameOn;
    NodeRep(m0, p, t);
    FootInMemory(m0, p, t);
    CountNode(t);
    var more := record + [n];
    assert AllWritten(m0, m', p, t, more, base, recno) by {
      forall j | 0 <= j < |t.subs|
        ensures Done(m', m0[p].subtrees[j].st, t.subs[j], Foot(m0, m0[p].subtrees[j].st, t.subs[j]), more, base + CountAll(t, j), recno)
      {
        SubtreeWritten(m0, m, m', p, t, record, base, recno, n, j);
      }
    }
    CopyPointsAll(m0, m, p, t, record, base, recno, n);
    hide AllWritten, CopyOf;
    EmittedAll(m0, m', p, t, more, base, recno);
    CleanAll(m0, m', p, t, more, base, recno);
    PartsDone(m', p, t, Foot(m0, p, t), more, base, recno);
    BesideNode(m, m', p, m0.Keys - Foot(m0, p, t));
    SameTrans(m0, m, m', m0.Keys - Foot(m0, p, t));
  }

  /** All subtrees of the node at p are written. */
  ghost predicate AllWritten(m0: Memory, m: Memory, p: Ptr, t: Tree, record: seq<FtNode>, base: nat, recno: int)
    requires Own(m0, p, t) && t.Node?
  {
    forall j :: 0 <= j < |t.subs| ==>
                  Done(m, m0[p].subtrees[j].st, t.subs[j], Foot(m0, m0[p].subtrees[j].st, t.subs[j]), record, base + CountAll(t, j), recno)
  }

  lemma EmittedAll(m0: Memory, m: Memory, p: Ptr, t: Tree, record: seq<FtNode>, base: nat, recno: int)
    requires Own(m0, p, t) && t.Node? && AllWritten(m0, m, p, t, record, base, recno)
    requires |record| == base + Count(t) && CopyOf(record[|record| - 1], t, base, recno)
    ensures Emitted(record, base, t, recno)
  {
    hide Rep, NoAlias, Emitted, Count, CountAll, CopyOf, Foot, Done, CleanOn, AllWritten;
    SubsEmitted(m0, m, p, t, record, base, recno);
    EmitNode(record, base, t, recno);
  }

  lemma SubsEmitted(m0: Memory, m: Memory, p: Ptr, t: Tree, record: seq<FtNode>, base: nat, recno: int)
    requires Own(m0, p, t) && t.Node? && AllWritten(m0, m, p, t, record, base, recno)
    ensures forall j :: 0 <= j < |t.subs| ==> Emitted(record, base + CountAll(t, j), t.subs[j], recno)
  {
    hide Rep, NoAlias, Emitted, Count, CountAll, Foot, Done, CleanOn;
    NodeRep(m0, p, t);
    forall j | 0 <= j < |t.subs|
      ensures Emitted(record, base + CountAll(t, j), t.subs[j], recno)
    {
      DoneParts(m, m0[p].subtrees[j].st, t.subs[j], Foot(m0, m0[p].subtrees[j].st, t.subs[j]), record, base + CountAll(t, j), recno);
    }
  }

  lemma CleanAll(m0: Memory, m: Memory, p: Ptr, t: Tree, record: seq<FtNode>, base: nat, recno: int)
    requires Own(m0, p, t) && t.Node? && p in m && !m[p].dirty && AllWritten(m0, m, p, t, record, base, recno)
    requires m[p].entries == t.entries && m[p].height == t.height && |m[p].subtrees| == |t.subs|
    requires forall j :: 0 <= j < |t.subs| ==> m[p].subtrees[j].inmemory && m[p].subtrees[j].st == m0[p].subtrees[j].st
    ensures Own(m, p, t) && Foot(m, p, t) == Foot(m0, p, t) && CleanOn(m, Foot(m0, p, t))
  {
    hide NoAlias, Emitted, Count, CountAll, Foot, CleanOn, Done;
    forall j | 0 <= j < |t.subs|
      ensures Own(m, m0[p].subtrees[j].st, t.subs[j])
      ensures Foot(m, m0[p].subtrees[j].st, t.subs[j]) == Foot(m0, m0[p].subtrees[j].st, t.subs[j])
      ensures CleanOn(m, Foot(m0, m0[p].subtrees[j].st, t.subs[j]))
    {
      DoneParts(m, m0[p].subtrees[j].st, t.subs[j], Foot(m0, m0[p].subtrees[j].st, t.subs[j]), record, base + CountAll(t, j), recno);
    }
    CleanNode(m0, m, p, t);
  }

  lemma DoneParts(m: Memory, p: Ptr, t: Tree, foot: set<Ptr>, record: seq<FtNode>, base: nat, recno: int)
    requires Done(m, p, t, foot, record, base, recno)
    ensures Own(m, p, t) && Foot(m, p, t) == foot && CleanOn(m, foot) && Emitted(record, base, t, recno)
  {
  }

  lemma PartsDone(m: Memory, p: Ptr, t: Tree, foot: set<Ptr>, record: seq<FtNode>, base: nat, recno: int)
    requires Own(m, p, t) && Foot(m, p, t) == foot && CleanOn(m, foot) && Emitted(record, base, t, recno)
    ensures Done(m, p, t, foot, record, base, recno)
  {
  }

  lemma CleanNode(m0: Memory, m: Memory, p: Ptr, t: Tree)
    requires Own(m0, p, t) && t.Node? && p in m && !m[p].dirty
    requires m[p].entries == t.entries && m[p].height == t.height && |m[p].subtrees| == |t.subs|
    requires forall j :: 0 <= j < |t.subs| ==> m[p].subtrees[j].inmemory && m[p].subtrees[j].st == m0[p].subtrees[j].st
    requires forall j :: 0 <= j < |t.subs| ==>
                           && Own(m, m0[p].subtrees[j].st, t.subs[j])
                           && Foot(m, m0[p].subtrees[j].st, t.subs[j]) == Foot(m0, m0[p].subtrees[j].st, t.subs[j])
                           && CleanOn(m, Foot(m0, m0[p].subtrees[j].st, t.subs[j]))
    ensures Own(m, p, t) && Foot(m, p, t) == Foot(m0, p, t) && CleanOn(m, Foot(m0, p, t))
  {
    hide Foot, NoAlias;
    forall i | 0 <= i < |t.subs|
      ensures p !in Foot(m, m[p].subtrees[i].st, t.subs[i])
    {
      NotBelow(m0, p, t, i);
    }
    forall i, j | 0 <= i < j < |t.subs|
      ensures Foot(m, m[p].subtrees[i].st, t.subs[i]) !! Foot(m, m[p].subtrees[j].st, t.subs[j])
    {
      SubsApart(m0, p, t, i, j);
    }
    OwnNode(m, p, t);
    SameFeet(m0, m, p, t);
  }

  lemma SameFeet(m0: Memory, m: Memory, p: Ptr, t: Tree)
    requires Rep(m0, p, t) && Rep(m, p, t) && t.Node? && !m[p].dirty
    requires forall j :: 0 <= j < |t.subs| ==>
                           && m[p].subtrees[j].st == m0[p].subtrees[j].st
                           && Foot(m, m[p].subtrees[j].st, t.subs[j]) == Foot(m0, m0[p].subtrees[j].st, t.subs[j])
                           && CleanOn(m, Foot(m, m[p].subtrees[j].st, t.subs[j]))
    ensures Foot(m, p, t) == Foot(m0, p, t) && CleanOn(m, Foot(m, p, t))
  {
  }

  /** The copy of a node that goes to the log: its pointers lead to the log only. */
  method Detached(n: FtNode) returns (written: FtNode)
    ensures written.entries == n.entries && written.height == n.height && |written.subtrees| == |n.subtrees| && written.dirty == n.dirty
    ensures forall j :: 0 <= j < |n.subtrees| ==>
                          written.subtrees[j] == if n.subtrees[j].st != NULL then n.subtrees[j].(inmemory := false, st := NULL)
                          else n.subtrees[j]
  {
    written := n;
    var i := 0;
    while i < |n.subtrees|
      invariant i <= |n.subtrees| && written == n.(subtrees := written.subtrees) && |written.subtrees| == |n.subtrees|
      invariant forall j :: 0 <= j < i ==>
                              written.subtrees[j] == if n.subtrees[j].st != NULL then n.subtrees[j].(inmemory := false, st := NULL)
                              else n.subtrees[j]
      invariant forall j :: i <= j < |n.subtrees| ==> written.subtrees[j] == n.subtrees[j]
    {
      if written.subtrees[i].st != NULL {
        written := written.(subtrees := written.subtrees[i := written.subtrees[i].(inmemory := false, st := NULL)]);
      }
      i := i + 1;
    }
  }

  /** get_dirty_helper */
  method GetDirtyHelper(nodes: NodeStore, sptr: SubtreePtr, recno: int, dirty: seq<FtNode>, ghost t: Tree)
    returns (s: SubtreePtr, record: seq<FtNode>)
    requires nodes.Heap() && sptr.inmemory && Own(nodes.mem, sptr.st, t)
    requires t.Node? && nodes.mem[sptr.st].dirty ==> DirtyOn(nodes.mem, Foot(nodes.mem, sptr.st, t))
    modifies nodes
    ensures nodes.Heap()
    ensures t.Node? && old(nodes.mem[sptr.st].dirty) ==>
              && s == sptr.(recno := recno, offset := |dirty| + Count(t) - 1)
              && dirty <= record && |record| == |dirty| + Count(t)
              && Done(nodes.mem, sptr.st, t, old(Foot(nodes.mem, sptr.st, t)), record, |dirty|, recno)
              && nodes.mem.Keys == old(nodes.mem).Keys
              && SameOn(old(nodes.mem), nodes.mem, old(nodes.mem).Keys - old(Foot(nodes.mem, sptr.st, t)))
    ensures t.Nil? || !old(nodes.mem[sptr.st].dirty) ==> s == sptr && record == dirty && nodes.mem == old(nodes.mem)
    decreases t, 1
  {
    hide NoAlias, Foot, Count, CountAll, Done, Written, Pending, Copied;
    s, record := sptr, dirty;
    if !sptr.inmemory || sptr.st == NULL || !nodes.mem[sptr.st].dirty {
      return;
    }
    var p := sptr.st;
    ghost var m0 := nodes.mem;
    ProgressStart(m0, p, t, record, recno);
    var i := 0;
    while i < |nodes.mem[p].subtrees|
      invariant nodes.Heap() && p in nodes.mem
      invariant i <= |t.subs| && Progress(m0, nodes.mem, p, t, record, |dirty|, recno, i)
      invariant dirty <= record
    {
      record := WriteSubtree(nodes, p, i, recno, record, t, m0, |dirty|);
      i := i + 1;
    }
    record := WriteNode(nodes, p, recno, record, t, m0, |dirty|);
    s := sptr.(recno := recno, offset := |record| - 1);
  }

  /** One subtree of a node. */
  method WriteSubtree(nodes: NodeStore, p: Ptr, i: nat, recno: int, dirty: seq<FtNode>, ghost t: Tree, ghost m0: Memory, ghost base: nat)
    returns (record: seq<FtNode>)
    requires nodes.Heap() && Progress(m0, nodes.mem, p, t, dirty, base, recno, i) && i < |t.subs|
    requires DirtyOn(m0, Foot(m0, p, t))
    modifies nodes
    ensures nodes.Heap() && Progress(m0, nodes.mem, p, t, record, base, recno, i + 1) && dirty <= record
    decreases t, 0
  {
    hide Rep, NoAlias, Foot, Count, CountAll, Done, Written, Pending, SameOn, DirtyOn;
    ghost var m := nodes.mem;
    ChildReady(m0, m, p, t, dirty, base, recno, i);
    var c: SubtreePtr;
    c, record := GetDirtyHelper(nodes, nodes.mem[p].subtrees[i], recno, dirty, t.subs[i]);
    ghost var m1 := nodes.mem;
    ChildDone(m0, m, m1, p, t, dirty, record, base, recno, i, c);
    nodes.mem := nodes.mem[p := nodes.mem[p].(subtrees := nodes.mem[p].subtrees[i := c])];
    ProgressStep(m0, m, nodes.mem, p, t, dirty, record, base, recno, i, c);
  }

  lemma ChildReady(m0: Memory, m: Memory, p: Ptr, t: Tree, record: seq<FtNode>, base: nat, recno: int, i: nat)
    requires Progress(m0, m, p, t, record, base, recno, i) && i < |t.subs| && DirtyOn(m0, Foot(m0, p, t))
    ensures p in m && i < |m[p].subtrees| && m[p].subtrees[i].inmemory
    ensures var c, sub := m[p].subtrees[i].st, t.subs[i];
            && c == m0[p].subtrees[i].st && Own(m, c, sub) && Foot(m, c, sub) == Foot(m0, c, sub)
            && DirtyOn(m, Foot(m, c, sub)) && (sub.Node? ==> c in m && m[c].dirty)
  {
    hide NoAlias, Foot, Emitted, Count, CountAll, Written;
    assert Pending(m0, m, p, t, i);
    NodeRep(m0, p, t);
    FootSub(m0, p, t, i);
    Frame(m0, m, m0[p].subtrees[i].st, t.subs[i]);
    FootInMemory(m0, m0[p].subtrees[i].st, t.subs[i]);
  }

  /** Subtree i of the node at p has been written between m and m1; only the pointer to it is left
      to be set. */
  lemma ChildDone(m0: Memory, m: Memory, m1: Memory, p: Ptr, t: Tree, record: seq<FtNode>, more: seq<FtNode>,
                  base: nat, recno: int, i: nat, c: SubtreePtr)
    requires Progress(m0, m, p, t, record, base, recno, i) && i < |t.subs|
    requires p in m && i < |m[p].subtrees|
    requires Own(m, m[p].subtrees[i].st, t.subs[i])
    requires Foot(m, m[p].subtrees[i].st, t.subs[i]) == Foot(m0, m0[p].subtrees[i].st, t.subs[i])
    requires if t.subs[i].Nil? then c == m[p].subtrees[i] && more == record && m1 == m
             else
               && c == m[p].subtrees[i].(recno := recno, offset := |record| + Count(t.subs[i]) - 1)
               && record <= more && |more| == |record| + Count(t.subs[i])
               && Done(m1, m[p].subtrees[i].st, t.subs[i], Foot(m, m[p].subtrees[i].st, t.subs[i]), more, |record|, recno)
               && m1.Keys == m.Keys && SameOn(m, m1, m.Keys - Foot(m, m[p].subtrees[i].st, t.subs[i]))
    ensures p in m1 && m1[p] == m[p] && record <= more && |more| == |record| + Count(t.subs[i])
    ensures c.inmemory && c.st == m0[p].subtrees[i].st
    ensures var m2 := m1[p := m1[p].(subtrees := m1[p].subtrees[i := c])];
            OneChild(m0, m, m2, p, t, i, c) && Written(m0, m2, p, t, more, base, recno, i)
  {
    hide Rep, NoAlias, Emitted, Count, CountAll, Written, Pending, Done, Foot;
    NodeRep(m0, p, t);
    NotBelow(m0, p, t, i);
    assert p in m1 && m1[p] == m[p];
    var m2 := m1[p := m1[p].(subtrees := m1[p].subtrees[i := c])];
    var foot := Foot(m0, m0[p].subtrees[i].st, t.subs[i]);
    FootInMemory(m0, m0[p].subtrees[i].st, t.subs[i]);
    CountBefore(t, i);
    if t.subs[i].Nil? {
      NilDone(m1, c.st, t.subs[i], more, base + CountAll(t, i), recno);
    }
    BesideNode(m1, m2, p, foot);
    DoneKept(m1, m2, c.st, t.subs[i], foot, more, more, base + CountAll(t, i), recno);
    WrittenIs(m0, m2, p, t, more, base, recno, i);
  }

  lemma NodeRep(m: Memory, p: Ptr, t: Tree)
    requires Own(m, p, t) && t.Node?
    ensures p in m && |m[p].subtrees| == |t.subs| && forall i :: 0 <= i < |t.subs| ==> Own(m, m[p].subtrees[i].st, t.subs[i])
  {
  }

  lemma BesideNode(m: Memory, m': Memory, p: Ptr, ps: set<Ptr>)
    requires p in m && p in m' && p !in ps && ps <= m.Keys && m' == m[p := m'[p]]
    ensures SameOn(m, m', ps)
  {
  }

  lemma NilDone(m: Memory, p: Ptr, t: Tree, record: seq<FtNode>, base: nat, recno: int)
    requires t.Nil? && Own(m, p, t)
    ensures Done(m, p, t, Foot(m, p, t), record, base, recno) && Count(t) == 0
  {
  }

  lemma WrittenIs(m0: Memory, m: Memory, p: Ptr, t: Tree, record: seq<FtNode>, base: nat, recno: int, j: nat)
    requires Own(m0, p, t) && t.Node? && j < |t.subs|
    requires Done(m, m0[p].subtrees[j].st, t.subs[j], Foot(m0, m0[p].subtrees[j].st, t.subs[j]), record, base + CountAll(t, j), recno)
    requires p in m && j < |m[p].subtrees|
    requires t.subs[j].Node? ==> m[p].subtrees[j].recno == recno && m[p].subtrees[j].offset == base + CountAll(t, j + 1) - 1
    ensures Written(m0, m, p, t, record, base, recno, j)
  {
  }

  method WriteNode(nodes: NodeStore, p: Ptr, recno: int, dirty: seq<FtNode>, ghost t: Tree, ghost m0: Memory, ghost base: nat)
    returns (record: seq<FtNode>)
    requires nodes.Heap() && t.Node? && Progress(m0, nodes.mem, p, t, dirty, base, recno, |t.subs|)
    modifies nodes
    ensures nodes.Heap() && Done(nodes.mem, p, t, Foot(m0, p, t), record, base, recno) && |record| == base + Count(t)
    ensures nodes.mem.Keys == m0.Keys && SameOn(m0, nodes.mem, m0.Keys - Foot(m0, p, t)) && dirty <= record
  {
    hide NoAlias, Foot, Count, CountAll, Done, Written, Pending, Rep, SameOn;
    ghost var m := nodes.mem;
    nodes.mem := nodes.mem[p := nodes.mem[p].(dirty := false)];
    var written := Detached(nodes.mem[p]);
    NodeDone(m0, m, nodes.mem, p, t, dirty, base, recno, written);
    record := dirty + [written];
  }

  /** A tree that was never checkpointed is dirty all over: its nodes are made dirty, and no write
      cleans one. */
  lemma NeverCheckpointed(m: Memory, p: Ptr, t: Tree)
    requires Own(m, p, t) && AllDirty(m)
    ensures DirtyOn(m, Foot(m, p, t))
  {
    FootInMemory(m, p, t);
  }

  /** get_dirty: the nodes for a checkpoint. A tree that was never written comes out whole, one that
      is clean not at all. Nothing that is found in the tree changes. */
  method GetDirty(ft: FigTree, recno: int) returns (dirty: seq<FtNode>)
    requires ft.Valid() && ft.root in ft.nodes.mem
    requires ft.nodes.mem[ft.root].dirty ==> DirtyOn(ft.nodes.mem, Foot(ft.nodes.mem, ft.root, ft.tree))
    modifies ft.nodes
    ensures ft.Valid() && ft.root in ft.nodes.mem && !ft.nodes.mem[ft.root].dirty
    ensures old(ft.nodes.mem[ft.root].dirty) ==>
              && |dirty| == Count(ft.tree) && Emitted(dirty, 0, ft.tree, recno)
              && CleanOn(ft.nodes.mem, Foot(ft.nodes.mem, ft.root, ft.tree))
              && Foot(ft.nodes.mem, ft.root, ft.tree) == old(Foot(ft.nodes.mem, ft.root, ft.tree))
    ensures !old(ft.nodes.mem[ft.root].dirty) ==> dirty == [] && ft.nodes.mem == old(ft.nodes.mem)
  {
    hide Rep, NoAlias, Count, CountAll, Emitted, Shape;
    var root := SubtreePtr(ft.root, true, 0, 0);
    root, dirty := GetDirtyHelper(ft.nodes, root, recno, [], ft.tree);
    FootInMemory(ft.nodes.mem, ft.root, ft.tree);
  }

  /** Where a lookup finds its value. */
  lemma {:induction false} FoundAt(m: Memory, p: Ptr, t: Tree, h: int, b: int, v: int) returns (q: Ptr, k: nat)
    requires Own(m, p, t) && Shape(t, h) && Lookup(t, b) == Some(v)
    ensures q in Foot(m, p, t) && q in m && k < |m[q].entries| && ContainsVal(m[q].entries[k].range, b) && m[q].entries[k].value == v
    decreases t
  {
    k := Below(t.entries, b);
    NodeRep(m, p, t);
    RepNode(m, p, t);
    if k < |t.entries| && ContainsVal(t.entries[k].range, b) {
      q := p;
      FootHas(m, p, t);
    } else {
      FootSub(m, p, t, k);
      q, k := FoundAt(m, m[p].subtrees[k].st, t.subs[k], h - 1, b, v);
    }
  }

  lemma FootHas(m: Memory, p: Ptr, t: Tree)
    requires Rep(m, p, t) && t.Node?
    ensures p in Foot(m, p, t)
  {
  }

  /** A value that no node had before, like the number of a new record, is found in a dirty node. */
  lemma NewValueDirty(m: Memory, m': Memory, p: Ptr, t: Tree, h: int, b: int, v: int) returns (q: Ptr)
    requires Tracked(m, m') && Own(m', p, t) && Shape(t, h) && Lookup(t, b) == Some(v)
    requires forall r, k :: r in m && 0 <= k < |m[r].entries| ==> m[r].entries[k].value != v
    ensures q in Foot(m', p, t) && q in m' && m'[q].dirty
    ensures exists k :: 0 <= k < |m'[q].entries| && ContainsVal(m'[q].entries[k].range, b) && m'[q].entries[k].value == v
  {
    hide Rep, NoAlias, Foot, Lookup, Shape;
    var k;
    q, k := FoundAt(m', p, t, h, b, v);
  }

  /** A tree of one node whose root was dirtied is dirty all over, also if it was split. */
  lemma OneNodeDirty(m: Memory, m': Memory, p: Ptr, t: Tree, t': Tree)
    requires Tracks(m, m', p, t, t') && t.Node? && Shape(t, 0) && p in m' && m'[p].dirty
    ensures Foot(m, p, t) == {p} && DirtyOn(m', Foot(m', p, t'))
  {
    hide NoAlias;
    assert forall i :: 0 <= i < |t.subs| ==> t.subs[i] == Nil;
    assert Foot(m, p, t) == {p};
    FootInMemory(m', p, t');
    forall q | q in Foot(m', p, t')
      ensures m'[q].dirty
    {
      assert q in m <==> q in m.Keys;
      assert q in m.Keys ==> q in Foot(m', p, t') * m.Keys;
    }
  }

  /** A write between two checkpoints, to a tree of one node: the second one has the whole new tree,
      so that nothing of the write is missing. */
  method WriteBetween(ft: FigTree, recno: int, start: int, end: int, value: int, recno': int) returns (first: seq<FtNode>, second: seq<FtNode>)
    requires ft.Valid() && ft.root in ft.nodes.mem && ft.tree.height == 0 && CanEnd(ft.width, ft.tree, Entry(Span(start, end), value))
    modifies ft, ft.nodes
    ensures ft.Valid() && Ends(ft.width, old(ft.tree), 0, Entry(Span(start, end), value), ft.tree)
    ensures first == [] || (|first| == 1 && Emitted(first, 0, old(ft.tree), recno))
    ensures |second| == Count(ft.tree) && Emitted(second, 0, ft.tree, recno')
  {
    hide Rep, NoAlias, Foot, Count, CountAll, Emitted, Shape, Tracks, CanEnd, Ends;
    OneNode(ft.nodes.mem, ft.root, ft.tree);
    first := GetDirty(ft, recno);
    ghost var m, t := ft.nodes.mem, ft.tree;
    ft.FtWrite(start, end, value);
    OneNodeDirty(m, ft.nodes.mem, ft.root, t, ft.tree);
    second := GetDirty(ft, recno');
  }

  lemma OneNode(m: Memory, p: Ptr, t: Tree)
    requires Own(m, p, t) && t.Node? && Shape(t, 0)
    ensures Foot(m, p, t) == {p} && p in m && Count(t) == 1
  {
    assert forall i :: 0 <= i < |t.subs| ==> t.subs[i] == Nil;
    NilsCount(t, |t.subs|);
  }

  lemma {:induction false} NilsCount(t: Tree, n: nat)
    requires t.Node? && n <= |t.subs| && forall i :: 0 <= i < |t.subs| ==> t.subs[i] == Nil
    ensures CountAll(t, n) == 0
    decreases n
  {
    if n > 0 {
      NilsCount(t, n - 1);
    }
  }

  /** No node is written twice: there are as many records as nodes. */
  lemma {:induction false} FootCount(m: Memory, p: Ptr, t: Tree)
    requires Own(m, p, t)
    ensures |Foot(m, p, t)| == Count(t)
    decreases t, 1
  {
    hide Count;
    if t.Node? {
      CountNode(t);
      FootCountAll(m, p, t, |t.subs|);
      FootInMemory(m, p, t);
      var below := SubsFoot(m, p, t, |t.subs|);
      assert Foot(m, p, t) == {p} + below;
      assert p !in below;
    } else {
      assert Count(t) == 0;
    }
  }

  /** The nodes of the first n subtrees. */
  ghost function SubsFoot(m: Memory, p: Ptr, t: Tree, n: nat): set<Ptr>
    requires Rep(m, p, t) && t.Node? && n <= |t.subs|
  {
    set i, q | 0 <= i < n && q in Foot(m, m[p].subtrees[i].st, t.subs[i]) :: q
  }

  lemma {:induction false} FootCountAll(m: Memory, p: Ptr, t: Tree, n: nat)
    requires Own(m, p, t) && t.Node? && n <= |t.subs|
    ensures |SubsFoot(m, p, t, n)| == CountAll(t, n)
    decreases t, 0, n
  {
    hide Count;
    if n == 0 {
      assert SubsFoot(m, p, t, 0) == {};
    } else {
      FootCountAll(m, p, t, n - 1);
      NodeRep(m, p, t);
      FootCount(m, m[p].subtrees[n - 1].st, t.subs[n - 1]);
      SubsFootStep(m, p, t, n);
    }
  }

  lemma SubsFootStep(m: Memory, p: Ptr, t: Tree, n: nat)
    requires Own(m, p, t) && t.Node? && 0 < n <= |t.subs|
    ensures |SubsFoot(m, p, t, n)| == |SubsFoot(m, p, t, n - 1)| + |Foot(m, m[p].subtrees[n - 1].st, t.subs[n - 1])|
  {
    var a, b := SubsFoot(m, p, t, n - 1), Foot(m, m[p].subtrees[n - 1].st, t.subs[n - 1]);
    hide Foot;
    assert SubsFoot(m, p, t, n) == a + b;
    forall q | q in a
      ensures q !in b
    {
      var i :| 0 <= i < n - 1 && q in Foot(m, m[p].subtrees[i].st, t.subs[i]);
      SubsApart(m, p, t, i, n - 1);
    }
    assert a !! b;
  }

  /** ft_lookup on a tree that has just been opened: the root is the last node of the checkpoint,
      every other node is fetched from the log (subtree_get). */
  method StoredLookup(log: ChkptLog, recno: int, location: int, ghost t: Tree) returns (r: Option<int>)
    requires recno in log && recno >= 0 && log[recno] != []
    requires t.Node? && Shape(t, t.height) && |log[recno]| == Count(t) && Emitted(log[recno], 0, t, recno)
    ensures r == Lookup(t, location)
  {
    hide Count, CountAll, Emitted;
    var n := log[recno][|log[recno]| - 1];
    ghost var s, base: nat := t, 0;
    EmittedNode(log[recno], base, s, recno);
    while true
      invariant s.Node? && Shape(s, s.height) && Emitted(log[recno], base, s, recno) && base + Count(s) <= |log[recno]|
      invariant n == log[recno][base + Count(s) - 1]
      invariant Lookup(s, location) == Lookup(t, location)
      decreases s
    {
      EmittedNode(log[recno], base, s, recno);
      var i := ScanNode(n, location);
      if i < |n.entries| && ContainsVal(n.entries[i].range, location) {
        return Some(n.entries[i].value);
      }
      EmittedSub(log[recno], base, s, recno, i);
      var sptr := n.subtrees[i];
      if sptr.inmemory {
        return None;
      }
      n := log[sptr.recno][sptr.offset];
      base := base + CountAll(s, i);
      s := s.subs[i];
      EmittedNode(log[recno], base, s, recno);
    }
  }

  method ScanNode(n: FtNode, b: int) returns (i: nat)
    requires Sorted(n.entries)
    ensures i == Below(n.entries, b)
  {
    i := 0;
    while i < |n.entries| && !ContainsVal(n.entries[i].range, b) && n.entries[i].range.left <= b
      invariant i <= |n.entries|
      invariant i > 0 ==> n.entries[i - 1].range.right < b
    {
      i := i + 1;
    }
    BelowIs(n.entries, b, i);
  }
}
