/** The one place where 32-bit byte indices fail: an overwritten entry that ends at the last
    byte index. Runs that get over it, and the two ways not to. */
module FigEdge {
  import opened Intervals
  import opened FigTrees
  import opened FigPrune
  import opened FigInsert
  import opened FigPaths
  import opened FigWrite
  import opened FigCorrect
  import opened FigRuns
  import opened FigSpine
  import opened FigOutcome
  import opened FigAgree

  /** The trees of a run with 32-bit indices, all writes of which end well. */
  ghost predicate Arrives(writes: seq<Entry>, t: Tree)
    decreases |writes|
  {
    if writes == [] then t == EMPTY_TREE
    else
      var n := |writes| - 1;
      exists t0 :: Arrives(writes[..n], t0) && t0.Node? && Shape(t0, t0.height) && Proper(writes[n].range)
                   && Ends(Bits32, t0, t0.height, writes[n], t)
  }

  /** Over every such run, also one that cuts entries at the last byte index, the tree maps each
      byte to its last writer. */
  lemma {:induction false} ArrivesCorrect(writes: seq<Entry>, t: Tree, b: int)
    requires Arrives(writes, t) && IsByte(b)
    ensures t.Node? && Shape(t, t.height)
    ensures Lookup(t, b) == LastWriter(writes, b)
    decreases |writes|
  {
    hide Ends, Lookup, Shape;
    if writes == [] {
      EmptyTreeShape();
    } else {
      var n := |writes| - 1;
      var t0 :| Arrives(writes[..n], t0) && t0.Node? && Shape(t0, t0.height) && Proper(writes[n].range)
                && Ends(Bits32, t0, t0.height, writes[n], t);
      ArrivesCorrect(writes[..n], t0, b);
      EndsCorrect(t0, t0.height, writes[n], t, b);
    }
  }

  /** A run goes on if and only if its next write is safe at the edge. */
  lemma ArrivesOn(writes: seq<Entry>, t: Tree, e: Entry)
    requires Arrives(writes, t) && Proper(e.range)
    ensures t.Node? && Shape(t, t.height)
    ensures SafeAtEdge(t, t.height, e) ==> exists t' :: Arrives(writes + [e], t') && Ends(Bits32, t, t.height, e, t')
    ensures !SafeAtEdge(t, t.height, e) ==> forall t' :: !Ends(Bits32, t, t.height, e, t')
  {
    hide Ends, Lookup, Shape, SafeAtEdge;
    ArrivesCorrect(writes, t, BYTE_INDEX_MIN);
    EndsIfSafe(t, t.height, e);
    if SafeAtEdge(t, t.height, e) {
      var t' :| Ends(Bits32, t, t.height, e, t');
      var all := writes + [e];
      assert all[..|all| - 1] == writes && all[|all| - 1] == e;
      assert Arrives(all, t');
    }
  }

  /** The runs that leave no piece at the last byte index are among them. */
  lemma {:induction false} ReachesArrives(writes: seq<Entry>, t: Tree)
    requires Reaches(Bits32, writes, t)
    ensures Arrives(writes, t)
    decreases |writes|
  {
    hide Ends, CanWrite, Written, Shape;
    if writes != [] {
      var n := |writes| - 1;
      var t0 :| Reaches(Bits32, writes[..n], t0) && t0.Node? && CanWrite(Bits32, t0, t0.height, writes[n])
                && t == Written(Bits32, t0, t0.height, writes[n]);
      ReachesArrives(writes[..n], t0);
      WrittenEnds(t0, t0.height, writes[n]);
    }
  }

  function E(left: int, right: int): Entry {
    Entry(Span(left, right), left)
  }

  function Nils(n: nat): (r: seq<Tree>)
    ensures |r| == n && forall i :: 0 <= i < n ==> r[i] == Nil
  {
    seq(n, _ => Nil)
  }

  function Leaf(es: seq<Entry>): Tree {
    Node(es, Nils(|es| + 1), 0)
  }

  lemma LeafShape(es: seq<Entry>)
    requires Sorted(es) && |es| < FT_SPLITLIMIT
    ensures Shape(Leaf(es), 0)
  {
  }

  /** Pruning does nothing if all entries are inside, and none starts at the first byte. */
  lemma PruneKeeps(t: Tree, h: int, valid: Interval)
    requires t.Node? && Shape(t, h) && Proper(valid)
    requires t.entries != [] ==> t.entries[0].range.left > valid.left && Last(t.entries).right <= valid.right
    ensures Pruned(t, h, valid) == t
  {
    var es := t.entries;
    BelowIs(es, valid.left, 0);
    UptoIs(es, valid.right, |es|);
    assert es[0..|es|] == es && t.subs[0..|es| + 1] == t.subs;
    assert ClipAll(es, valid) == es;
  }

  /** A write behind all entries of a leaf. */
  lemma AppendIns(w: Width, es: seq<Entry>, valid: Interval, e: Entry)
    requires Sorted(es + [e]) && |es| < FT_SPLITLIMIT && Proper(valid)
    requires (es + [e])[0].range.left > valid.left && e.range.right <= valid.right
    ensures Shape(Leaf(es), 0) && Proper(e.range)
    ensures Ins(w, Leaf(es), 0, valid, e) == Insertion(Absorb(Leaf(es), |es|, Fresh(e)), [|es|], NO_CONTS)
  {
    hide Pruned, Absorb;
    var t, k := Leaf(es), |es|;
    assert (es + [e])[k] == e && forall i :: 0 <= i < k ==> (es + [e])[i] == es[i];
    LeafShape(es);
    PruneKeeps(t, 0, valid);
    BelowIs(es, e.range.left, k);
    UptoIs(es, e.range.right, k);
    assert t.subs[k] == Nil;
  }

  lemma AppendAbsorb(es: seq<Entry>, e: Entry)
    requires |es| < FT_SPLITLIMIT
    ensures Absorb(Leaf(es), |es|, Fresh(e)) == SplitIfFull(Leaf(es + [e]))
  {
    hide SplitNode;
    assert Widened(Leaf(es), |es|, e, Nil, Nil) == Leaf(es + [e]);
  }

  lemma AppendLeaf(w: Width, es: seq<Entry>, e: Entry)
    requires Sorted(es + [e]) && |es| < FT_SPLITLIMIT && (es + [e])[0].range.left > BYTE_INDEX_MIN
    ensures Shape(Leaf(es), 0) && CanWrite(w, Leaf(es), 0, e)
    ensures Written(w, Leaf(es), 0, e) == SplitIfFull(Leaf(es + [e]))
  {
    hide Ins, Absorb, SplitNode, Shape;
    assert (es + [e])[|es|] == e;
    AppendIns(w, es, FULL, e);
    AppendAbsorb(es, e);
  }

  lemma RunStart(w: Width)
    ensures Reaches(w, [], EMPTY_TREE)
  {
  }

  const ROW := [E(10, 11), E(20, 21), E(30, 31), E(40, 41), E(50, 60)]

  lemma RowSorted(n: nat)
    requires n <= FT_SPLITLIMIT
    ensures |ROW| == FT_SPLITLIMIT && Sorted(ROW[..n])
    ensures n > 0 ==> ROW[..n] == ROW[..n - 1] + [ROW[n - 1]] && ROW[..n][0].range.left > BYTE_INDEX_MIN
  {
    assert forall i :: 0 <= i < n ==> ROW[..n][i] == ROW[i];
  }

  /** Writes behind each other, as many as fit into one node. */
  lemma {:induction false} RowRun(w: Width, n: nat)
    requires n < FT_SPLITLIMIT
    ensures |ROW| == FT_SPLITLIMIT && Reaches(w, ROW[..n], Leaf(ROW[..n]))
    decreases n
  {
    hide Written, CanWrite, Reaches, Sorted;
    RowSorted(n);
    if n == 0 {
      RunStart(w);
      assert ROW[..0] == [] && Leaf([]) == EMPTY_TREE;
    } else {
      RowRun(w, n - 1);
      AppendLeaf(w, ROW[..n - 1], ROW[n - 1]);
      RunOn(w, ROW[..n - 1], Leaf(ROW[..n - 1]), ROW[n - 1]);
    }
  }

  const LEFT := Leaf([E(10, 11), E(20, 21)])
  const RIGHT := Leaf([E(40, 41), E(50, 60)])

  lemma RootSplit(w: Width)
    ensures Reaches(w, ROW, Node([E(30, 31)], [LEFT, RIGHT], 1))
  {
    hide Written, CanWrite, Reaches, Sorted;
    RowRun(w, 4);
    RowSorted(5);
    assert ROW[..5] == ROW;
    AppendLeaf(w, ROW[..4], ROW[4]);
    RunOn(w, ROW[..4], Leaf(ROW[..4]), ROW[4]);
    var s := SplitNode(Leaf(ROW));
    assert s.subs[0] == LEFT && s.subs[1] == RIGHT;
  }

  /** One entry in the root, up to the last byte index, with old entries below it. */
  const EDGE_TREE := Node([E(25, BYTE_INDEX_MAX)], [LEFT, RIGHT], 1)

  lemma RootShape(e: Entry, l: Tree)
    requires Proper(e.range) && Shape(l, 0)
    ensures Shape(Node([e], [l, RIGHT], 1), 1)
  {
    LeafShape([E(40, 41), E(50, 60)]);
  }

  /** A write over the only entry of the root. */
  lemma OverRoot(w: Width, l: Tree, was: Entry, e: Entry)
    requires Shape(l, 0) && Proper(was.range) && Proper(e.range) && was.range.left > BYTE_INDEX_MIN && Overlaps(was.range, e.range)
    ensures var t := Node([was], [l, RIGHT], 1);
            && Shape(t, 1)
            && Ins(w, t, 1, FULL, e).tree == Node([e], [l, RIGHT], 1)
            && Ins(w, t, 1, FULL, e).conts == Conts(LeftCont(w, [was], 0, FULL, e.range), RightCont(w, [was], 1, FULL, e.range))
            && Ins(w, t, 1, FULL, e).path == [if RightCont(w, [was], 1, FULL, e.range).Some? then 1 else 0]
  {
    hide Pruned, LeftCont, RightCont;
    var t := Node([was], [l, RIGHT], 1);
    RootShape(was, l);
    PruneKeeps(t, 1, FULL);
    BelowIs(t.entries, e.range.left, 0);
    UptoIs(t.entries, e.range.right, 1);
    assert Replaced(t, 0, 1, e) == Node([e], [l, RIGHT], 1);
  }

  lemma EdgeRun(w: Width)
    ensures Reaches(w, ROW + [E(25, BYTE_INDEX_MAX)], EDGE_TREE)
  {
    hide Ins, Reaches;
    RootSplit(w);
    LeafShape([E(10, 11), E(20, 21)]);
    OverRoot(w, LEFT, E(30, 31), E(25, BYTE_INDEX_MAX));
    RunOn(w, ROW, Node([E(30, 31)], [LEFT, RIGHT], 1), E(25, BYTE_INDEX_MAX));
  }

  /** After six writes the seventh goes wrong. It cuts the entry that ends at the last byte index,
      so a right continuation has to put the rest back. With unbounded indices its `valid`
      is empty, and it meets nothing. With 32-bit indices the bound wraps around, `valid` is
      everything, an old entry is taken for a live one, and the continuation wants a
      continuation of its own, which ft_write rules out by an assertion. */
  lemma EdgeFails()
    ensures Reaches(Bits32, ROW + [E(25, BYTE_INDEX_MAX)], EDGE_TREE) && Shape(EDGE_TREE, 1)
    ensures RightMeetsNothing(Unbounded, EDGE_TREE, 1, E(5, 55))
    ensures !RightMeetsNothing(Bits32, EDGE_TREE, 1, E(5, 55))
  {
    hide Reaches, RightMeetsNothing;
    EdgeRun(Bits32);
    EdgeCut(Unbounded);
    EdgeCut(Bits32);
  }

  lemma EdgeCut(w: Width)
    ensures Shape(EDGE_TREE, 1)
    ensures RightMeetsNothing(w, EDGE_TREE, 1, E(5, 55)) <==> w == Unbounded
  {
    hide Ins, Pruned;
    var e := E(5, 55);
    LeafShape([E(10, 11), E(20, 21)]);
    RootShape(E(25, BYTE_INDEX_MAX), LEFT);
    OverRoot(w, LEFT, E(25, BYTE_INDEX_MAX), e);
    var m := Ins(w, EDGE_TREE, 1, FULL, e);
    assert SubAt(m.tree, m.path) == RIGHT by { assert [1][1..] == []; }
    var c := Cont(Span(56, BYTE_INDEX_MAX), 25, if w.Unbounded? then EMPTY else FULL);
    assert m.conts.right == Some(c);
    LeafShape([E(40, 41), E(50, 60)]);
    if w.Unbounded? {
      ContShape(w, RIGHT, 0, EMPTY, PieceOf(c), BYTE_INDEX_MIN, BYTE_INDEX_MAX);
    } else {
      OldEntryCut(w, c);
    }
  }

  lemma OldEntryCut(w: Width, c: Cont)
    requires c == Cont(Span(56, BYTE_INDEX_MAX), 25, FULL)
    ensures Shape(RIGHT, 0) && Ins(w, RIGHT, 0, c.valid, PieceOf(c)).conts.left.Some?
  {
    hide Pruned;
    LeafShape([E(40, 41), E(50, 60)]);
    PruneKeeps(RIGHT, 0, FULL);
    BelowIs(RIGHT.entries, 56, 1);
    UptoIs(RIGHT.entries, BYTE_INDEX_MAX, 2);
  }

  const PACKED_LEAF := Leaf([E(10, 11), E(20, 21), E(22, 23), E(24, 24)])

  /** A write into the left leaf of a tree with one entry in the root. */
  lemma LeftAppend(w: Width, es: seq<Entry>, e: Entry)
    requires Sorted(es + [e]) && |es| < FT_SPLITLIMIT - 1 && (es + [e])[0].range.left > BYTE_INDEX_MIN && e.range.right < 30
    ensures var t := Node([E(30, 31)], [Leaf(es), RIGHT], 1);
            CanWrite(w, t, 1, e) && Written(w, t, 1, e) == Node([E(30, 31)], [Leaf(es + [e]), RIGHT], 1)
  {
    hide Pruned, Absorb, Sorted, Shape, Ins;
    var t := Node([E(30, 31)], [Leaf(es), RIGHT], 1);
    LeftIns(w, es, e);
  }

  lemma LeftIns(w: Width, es: seq<Entry>, e: Entry)
    requires Sorted(es + [e]) && |es| < FT_SPLITLIMIT - 1 && (es + [e])[0].range.left > BYTE_INDEX_MIN && e.range.right < 30
    ensures var t := Node([E(30, 31)], [Leaf(es), RIGHT], 1);
            && Shape(t, 1) && Proper(e.range)
            && Ins(w, t, 1, FULL, e) == Insertion(Node([E(30, 31)], [Leaf(es + [e]), RIGHT], 1), [0, |es|], NO_CONTS)
  {
    hide Pruned, Ins;
    var t := Node([E(30, 31)], [Leaf(es), RIGHT], 1);
    AppendIns(w, es, Span(BYTE_INDEX_MIN, 29), e);
    AppendAbsorb(es, e);
    RootShape(E(30, 31), Leaf(es));
    PruneKeeps(t, 1, FULL);
    BelowIs(t.entries, e.range.left, 0);
    UptoIs(t.entries, e.range.right, 0);
    InsStep(w, t, 1, FULL, e);
    assert t.subs[0 := Leaf(es + [e])] == [Leaf(es + [e]), RIGHT];
    assert [0] + [|es|] == [0, |es|];
  }

  const MORE := ROW + [E(22, 23), E(24, 24), E(25, BYTE_INDEX_MAX)]

  lemma MoreRun(w: Width)
    ensures Reaches(w, MORE, Node([E(25, BYTE_INDEX_MAX)], [PACKED_LEAF, RIGHT], 1))
  {
    hide Ins, Reaches;
    var r2, r3 := [E(10, 11), E(20, 21)], [E(10, 11), E(20, 21), E(22, 23)];
    RootSplit(w);
    assert r2 + [E(22, 23)] == r3 && Leaf(r3 + [E(24, 24)]) == PACKED_LEAF;
    LeftAppend(w, r2, E(22, 23));
    RunOn(w, ROW, Node([E(30, 31)], [Leaf(r2), RIGHT], 1), E(22, 23));
    LeftAppend(w, r3, E(24, 24));
    RunOn(w, ROW + [E(22, 23)], Node([E(30, 31)], [Leaf(r3), RIGHT], 1), E(24, 24));
    LeafShape(r3 + [E(24, 24)]);
    OverRoot(w, PACKED_LEAF, E(30, 31), E(25, BYTE_INDEX_MAX));
    RunOn(w, ROW + [E(22, 23)] + [E(24, 24)], Node([E(30, 31)], [PACKED_LEAF, RIGHT], 1), E(25, BYTE_INDEX_MAX));
    assert MORE == ROW + [E(22, 23)] + [E(24, 24)] + [E(25, BYTE_INDEX_MAX)];
  }

  /** After eight writes the ninth goes wrong in another way, which no assertion notices. The right
      continuation meets nothing it would leave something of, but it takes the place of an old
      entry; so the index for the left continuation is not moved to the left, and when that one
      splits its leaf, the entry pushed up goes behind the new one. */
  lemma EdgeMisplaces()
    ensures var t := Node([E(25, BYTE_INDEX_MAX)], [PACKED_LEAF, RIGHT], 1);
            && Reaches(Bits32, MORE, t) && Shape(t, 1)
            && RightMeetsNothing(Bits32, t, 1, E(28, 45)) && forall t' :: !Ends(Bits32, t, 1, E(28, 45), t')
  {
    hide Reaches, Ins, Pruned, RightMeetsNothing, Ends, SafeAtEdge;
    MoreRun(Bits32);
    MisplacedCut();
    var t := Node([E(25, BYTE_INDEX_MAX)], [PACKED_LEAF, RIGHT], 1);
    EdgeMeetsNothing(t, 1, E(28, 45));
    EndsIfSafe(t, 1, E(28, 45));
  }

  lemma MisplacedCut()
    ensures var t, e := Node([E(25, BYTE_INDEX_MAX)], [PACKED_LEAF, RIGHT], 1), E(28, 45);
            && Shape(t, 1) && !SafeAtEdge(t, 1, e)
            && var m := Ins(Bits32, t, 1, FULL, e);
            m.conts.right.Some? && ValidPath(m.tree, m.path) && SubAt(m.tree, m.path) == RIGHT && !Straddled(RIGHT, 46)
  {
    hide Ins, Pruned;
    var e := E(28, 45);
    LeafShape(PACKED_LEAF.entries);
    OverRoot(Bits32, PACKED_LEAF, E(25, BYTE_INDEX_MAX), e);
    var m := Ins(Bits32, Node([E(25, BYTE_INDEX_MAX)], [PACKED_LEAF, RIGHT], 1), 1, FULL, e);
    assert SubAt(m.tree, [1]) == RIGHT by { assert [1][1..] == []; }
    assert LeftSibling([1]) == [0];
    assert SubAt(m.tree, [0]) == PACKED_LEAF by { assert [0][1..] == []; }
    var left := Span(BYTE_INDEX_MIN, 24);
    assert m.conts.left == Some(Cont(Span(25, 27), 25, left));
    assert m.conts.right == Some(Cont(Span(46, BYTE_INDEX_MAX), 25, FULL));
    PruneKeeps(PACKED_LEAF, 0, left);
    BelowIs(PACKED_LEAF.entries, 25, 4);
    UptoIs(PACKED_LEAF.entries, 27, 4);
    assert AllFull(PACKED_LEAF, 0, left, Entry(Span(25, 27), 25));
    assert Covered(RIGHT, 46);
  }
}
