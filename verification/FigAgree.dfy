/** When a write with 32-bit byte indices is, node for node, the write it is meant to be. */
module FigAgree {
  import opened Intervals
  import opened FigTrees
  import opened FigPrune
  import opened FigInsert
  import opened FigPaths
  import opened FigMemory
  import opened FigPathOps
  import opened FigWrite
  import opened FigCorrect
  import opened FigRepair
  import opened FigWidth
  import opened FigSpine
  import opened FigOutcome

  /** On the right spine there are entries that end at or behind byte `from` only in the leaf, and
      these reach `left`: putting back the bytes from `left` on leaves nothing of them. */
  predicate Clean(s: Tree, from: int, left: int) {
    s.Node? ==>
      if s.height == 0 then
        forall k :: 0 <= k < |s.entries| ==> s.entries[k].range.right >= from ==> s.entries[k].range.right >= left
      else
        (s.entries != [] ==> Last(s.entries).right < from) && s.subs != [] && Clean(s.subs[|s.subs| - 1], from, left)
  }

  /** Empty nodes with one entry in the leaf. */
  function Lone(h: int, e: Entry): Tree
    decreases h
  {
    if h <= 0 then Fresh(e) else Node([], [Lone(h - 1, e)], h)
  }

  /** A continuation that keeps nothing. */
  lemma {:induction false} InsLone(w: Width, s: Tree, h: int, e: Entry)
    requires Shape(s, h) && Proper(e.range)
    ensures Ins(w, s, h, EMPTY, e).tree == Lone(h, e)
    decreases h + 1
  {
    hide Absorb, Ins, Pruned;
    if s.Node? {
      InsStep(w, s, h, EMPTY, e);
      PrunedEmpty(s, h);
      InsLone(w, EmptyChain(h - 1), h - 1, e);
      AbsorbLone(h, e);
    } else {
      InsNil(w, s, h, EMPTY, e);
    }
  }

  lemma AbsorbLone(h: int, e: Entry)
    requires h >= 0
    ensures Absorb(EmptyChain(h), 0, Lone(h - 1, e)) == Lone(h, e)
  {
  }

  lemma PrunedEmpty(s: Tree, h: int)
    requires s.Node? && Shape(s, h)
    ensures h >= 0 && Pruned(s, h, EMPTY) == EmptyChain(h) && EmptyChain(h).subs[0] == EmptyChain(h - 1)
    ensures Shape(EmptyChain(h - 1), h - 1)
  {
    EmptyChainShape(h - 1);
  }

  /** The edge continuation leaves its place like one that keeps nothing if and only if the spine is
      clean. */
  lemma {:induction false} EdgeLone(w: Width, s: Tree, h: int, valid: Interval, e: Entry)
    requires Shape(s, h) && AtEdge(valid, e) && valid.left < e.range.left
    ensures Ins(w, s, h, valid, e).tree == Lone(h, e) <==> Clean(s, valid.left, e.range.left)
    decreases h + 1
  {
    hide Pruned, Absorb, Ins, Shape, Sorted, Replaced;
    if s.Node? {
      InsStep(w, s, h, valid, e);
      EdgeNode(s, h, valid, e);
      PrunedHeight(s, h, valid);
      SpineLined(s, h);
      var p := Pruned(s, h, valid);
      var i, n := Below(p.entries, e.range.left), |p.entries|;
      if i < n {
        OverLone(s, h, valid, e);
      } else if h == 0 {
        LeafLone(s, valid, e);
        InsLeaf(w, p.subs[n], GapValid(p.entries, n, valid), e);
      } else {
        var v := GapValid(p.entries, n, valid);
        SpineSub(p, h);
        if n == 0 {
          EdgeLone(w, p.subs[n], h - 1, v, e);
        }
        AbsorbIsLone(p, h, Ins(w, p.subs[n], h - 1, v, e).tree, e);
        NodeClean(s, h, valid.left, e.range.left, n);
      }
    } else {
      InsNil(w, s, h, valid, e);
    }
  }

  lemma InsLeaf(w: Width, t: Tree, valid: Interval, e: Entry)
    requires Shape(t, -1) && ProperOrEmpty(valid) && Proper(e.range)
    ensures Ins(w, t, -1, valid, e).tree == Fresh(e)
  {
  }

  /** The first entry that is left reaches the piece. */
  lemma FirstReaches(pe: seq<Entry>, es: seq<Entry>, valid: Interval, e: Entry)
    requires EndOf(pe, es, valid) && Sorted(pe) && Sorted(es) && AtEdge(valid, e) && valid.left < e.range.left
    requires Below(pe, e.range.left) < |pe|
    ensures Below(pe, e.range.left) == 0 <==>
            forall k :: 0 <= k < |es| ==> es[k].range.right >= valid.left ==> es[k].range.right >= e.range.left
  {
    var d := |es| - |pe|;
    assert pe[0] == Clip(es[d], valid);
    assert forall k :: d <= k < |es| ==> es[k].range.right >= es[d].range.right;
  }

  lemma ReplacedIsLone(p: Tree, h: int, i: nat, e: Entry)
    requires p.Node? && Shape(p, h) && |p.subs| == |p.entries| + 1 && i < |p.entries|
    ensures Replaced(p, i, |p.entries|, e) == Lone(h, e) <==> i == 0 && h == 0
  {
    var n, r := |p.entries|, Replaced(p, i, |p.entries|, e);
    assert r.entries[i] == e;
    if i == 0 && h == 0 {
      assert r.entries == [e] && r.subs == [Nil, Nil];
    }
  }

  /** An overwritten node. */
  lemma OverLone(s: Tree, h: int, valid: Interval, e: Entry)
    requires s.Node? && Shape(s, h) && AtEdge(valid, e) && valid.left < e.range.left
    requires Below(Pruned(s, h, valid).entries, e.range.left) < |Pruned(s, h, valid).entries|
    ensures var p := Pruned(s, h, valid);
            && p.Node? && |p.subs| == |p.entries| + 1
            && (Replaced(p, Below(p.entries, e.range.left), |p.entries|, e) == Lone(h, e) <==> Clean(s, valid.left, e.range.left))
  {
    hide Pruned, Sorted, Replaced, Shape, EndOf, AtEdge;
    EdgeProper(valid, e);
    PrunedEnd(s, h, valid);
    PrunedHeight(s, h, valid);
    EdgeNode(s, h, valid, e);
    var p := Pruned(s, h, valid);
    FirstReaches(p.entries, s.entries, valid, e);
    ReplacedIsLone(p, h, Below(p.entries, e.range.left), e);
  }

  /** A leaf that takes the piece behind what is left of it. */
  lemma LeafLone(s: Tree, valid: Interval, e: Entry)
    requires s.Node? && Shape(s, 0) && AtEdge(valid, e) && valid.left < e.range.left
    requires Below(Pruned(s, 0, valid).entries, e.range.left) == |Pruned(s, 0, valid).entries|
    ensures var p := Pruned(s, 0, valid);
            && p.Node? && |p.subs| == |p.entries| + 1 && |p.entries| < FT_SPLITLIMIT
            && (Absorb(p, |p.entries|, Fresh(e)) == Fresh(e) <==> Clean(s, valid.left, e.range.left))
  {
    hide Pruned;
    PrunedEnd(s, 0, valid);
    PrunedHeight(s, 0, valid);
    EdgeNode(s, 0, valid, e);
    var p, es := Pruned(s, 0, valid), s.entries;
    var n, d := |p.entries|, |es| - |p.entries|;
    if n > 0 {
      assert p.entries[0] == Clip(es[d], valid);
      AbsorbMore(p, 0, Fresh(e));
    } else {
      assert InsertAt(p.entries, 0, e) == [e];
      assert InsertAt(p.subs[0 := Nil], 1, Nil) == [Nil, Nil];
    }
  }

  /** A node with entries is not left without. */
  lemma AbsorbMore(p: Tree, h: int, c: Tree)
    requires p.Node? && p.height == h && |p.subs| == |p.entries| + 1 && 0 < |p.entries| < FT_SPLITLIMIT
    ensures var a := Absorb(p, |p.entries|, c);
            a.Node? && a.entries != [] && (Pushed(c, h - 1) ==> |a.entries| > 1 || a.height > h)
  {
  }

  lemma AbsorbIsLone(p: Tree, h: int, c: Tree, e: Entry)
    requires p.Node? && p.height == h > 0 && |p.subs| == |p.entries| + 1 && |p.entries| < FT_SPLITLIMIT
    ensures Absorb(p, |p.entries|, c) == Lone(h, e) <==> p.entries == [] && c == Lone(h - 1, e)
  {
    if p.entries != [] {
      AbsorbMore(p, h, c);
    } else if Pushed(c, h - 1) {
      assert InsertAt(p.entries, 0, c.entries[0]) != [];
    } else {
      assert p.subs[0 := c] == [c];
      assert [c][0] == c && [Lone(h - 1, e)][0] == Lone(h - 1, e);
    }
  }

  lemma NodeClean(s: Tree, h: int, from: int, left: int, n: nat)
    requires s.Node? && Shape(s, h) && h > 0
    requires n > 0 ==> s.entries != [] && Last(s.entries).right >= from
    requires n == 0 ==> s.entries != [] ==> Last(s.entries).right < from
    ensures |s.subs| > 0 && (Clean(s, from, left) <==> n == 0 && Clean(s.subs[|s.subs| - 1], from, left))
  {
  }

  /** A node tells what is beside a subtree it has absorbed. */
  lemma AbsorbBeside(t: Tree, i: nat, j: nat, x: Tree, y: Tree, c: Tree)
    requires t.Node? && |t.entries| < FT_SPLITLIMIT && |t.subs| == |t.entries| + 1 && i < |t.subs| && j < |t.subs| && i != j
    requires Absorb(t.(subs := t.subs[j := x]), i, c) == Absorb(t.(subs := t.subs[j := y]), i, c)
    ensures x == y
  {
    hide SplitNode;
    var tx, ty := t.(subs := t.subs[j := x]), t.(subs := t.subs[j := y]);
    if Pushed(c, t.height - 1) {
      var wx := Widened(tx, i, c.entries[0], c.subs[0], c.subs[1]);
      var wy := Widened(ty, i, c.entries[0], c.subs[0], c.subs[1]);
      if |t.entries| + 1 == FT_SPLITLIMIT {
        SplitInjective(wx, wy);
      }
      InsertInjective(tx.subs[i := c.subs[0]], i + 1, c.subs[1], ty.subs[i := c.subs[0]], c.subs[1]);
      assert tx.subs[i := c.subs[0]][j] == ty.subs[i := c.subs[0]][j];
    } else {
      assert tx.subs[i := c][j] == ty.subs[i := c][j];
    }
  }

  lemma {:induction false} PutSiblingValid(t: Tree, p: seq<nat>, x: Tree)
    requires ValidPath(t, p) && p != [] && p[|p| - 1] > 0
    ensures ValidPath(PutAt(t, p, x), LeftSibling(p))
    decreases |p|
  {
    if |p| > 1 {
      assert LeftSibling(p)[1..] == LeftSibling(p[1..]);
      PutSiblingValid(t.subs[p[0]], p[1..], x);
    } else {
      assert LeftSibling(p)[1..] == [];
    }
  }

  lemma SiblingOne(t: Tree, p: seq<nat>, x: Tree, c: Tree)
    requires ValidPath(t, p) && |p| == 1 && p[0] > 0
    ensures ValidPath(PutAt(t, p, x), LeftSibling(p))
    ensures Up(PutAt(t, p, x), LeftSibling(p), c) == Absorb(t.(subs := t.subs[p[0] := x]), p[0] - 1, c)
  {
    hide Absorb;
    assert LeftSibling(p) == [p[0] - 1] && [p[0] - 1][1..] == [] && p[1..] == [];
  }

  /** The tree after the left continuation tells what was put to the right of it. */
  lemma {:induction false} SiblingInjective(t: Tree, h: int, p: seq<nat>, x: Tree, y: Tree, c: Tree)
    requires Shape(t, h) && ValidPath(t, p) && p != [] && p[|p| - 1] > 0
    requires Shape(x, h - |p|) && Shape(y, h - |p|) && Level(c, h - |p|)
    ensures ValidPath(PutAt(t, p, x), LeftSibling(p)) && ValidPath(PutAt(t, p, y), LeftSibling(p))
    ensures Up(PutAt(t, p, x), LeftSibling(p), c) == Up(PutAt(t, p, y), LeftSibling(p), c) ==> x == y
    decreases |p|
  {
    hide Absorb, Pushed;
    PutSiblingValid(t, p, x);
    PutSiblingValid(t, p, y);
    var tx, ty, q, i := PutAt(t, p, x), PutAt(t, p, y), LeftSibling(p), p[0];
    if Up(tx, q, c) == Up(ty, q, c) {
      if |p| == 1 {
        SiblingOne(t, p, x, c);
        SiblingOne(t, p, y, c);
        AbsorbBeside(t, i - 1, i, x, y, c);
      } else {
        var s, p', q' := t.subs[i], p[1..], LeftSibling(p[1..]);
        assert q[1..] == q';
        SiblingInjective(s, h - 1, p', x, y, c);
        PutShape(s, h - 1, p', x);
        PutShape(s, h - 1, p', y);
        var gx, gy := Up(PutAt(s, p', x), q', c), Up(PutAt(s, p', y), q', c);
        UpLevelHeight(PutAt(s, p', x), h - 1, q', c);
        UpLevelHeight(PutAt(s, p', y), h - 1, q', c);
        AbsorbIgnores(t, i, PutAt(s, p', x), gx);
        AbsorbIgnores(t, i, PutAt(s, p', y), gy);
        AbsorbInjective(t, i, gx, gy);
      }
    }
  }

  /** The intended write, seen as the left continuation on what the right one left. */
  lemma IntendedAlone(t: Tree, h: int, e: Entry)
    requires Shape(t, h) && Proper(e.range) && Ins(Unbounded, t, h, FULL, e).conts.right.None?
    ensures var m := Ins(Unbounded, t, h, FULL, e);
            && CanWrite(Unbounded, t, h, e) && m.tree.Node?
            && (m.conts.left.Some? ==> Ready(m.tree, m.tree.height, m.path, m.conts.left.value))
            && Written(Unbounded, t, h, e) == LeftTree(Unbounded, m.tree, m.path, m.conts.left)
  {
    hide Ins, Shape, Owes, Continued, Lookup, ValidPath, SubAt;
    var m := Ins(Unbounded, t, h, FULL, e);
    NoRight(Unbounded, t, h, e);
    LeftReadyAt(m.tree, m.path, m.conts.left);
  }

  lemma IntendedAfterRight(t: Tree, h: int, e: Entry)
    requires Shape(t, h) && Proper(e.range) && Ins(Unbounded, t, h, FULL, e).conts.right.Some?
    ensures var m := Ins(Unbounded, t, h, FULL, e);
            var c := m.conts.right.value;
            && CanWrite(Unbounded, t, h, e)
            && m.path != [] && m.path[|m.path| - 1] > 0 && Ready(m.tree, h, m.path, c)
            && Owes(m.tree, FULL.left, FULL.right, m.path, c)
            && var t1, q := Continued(Unbounded, m.tree, h, m.path, c), LeftPath(m.tree, m.path, Piece(Unbounded, m.tree, h, m.path, c));
            && RightIsDone(t, e, m.conts.left, t1, q)
            && t1.Node? && (m.conts.left.Some? ==> Ready(t1, t1.height, q, m.conts.left.value))
            && Written(Unbounded, t, h, e) == LeftTree(Unbounded, t1, q, m.conts.left)
  {
    hide Ins, Shape, Owes, Continued, Lookup, LeftPath, Piece, ValidPath, SubAt;
    var m := Ins(Unbounded, t, h, FULL, e);
    MainShape(Unbounded, t, h, FULL, e);
    OwedRight(Unbounded, t, h, e);
    var c := m.conts.right.value;
    LeftReadyAt(Continued(Unbounded, m.tree, h, m.path, c), LeftPath(m.tree, m.path, Piece(Unbounded, m.tree, h, m.path, c)), m.conts.left);
  }

  /** The intended write always ends well. */
  lemma IntendedEnds(t: Tree, h: int, e: Entry, t': Tree)
    requires Shape(t, h) && Proper(e.range)
    ensures CanWrite(Unbounded, t, h, e) && (Ends(Unbounded, t, h, e, t') <==> t' == Written(Unbounded, t, h, e))
  {
    hide Ins, Shape, Owes, Continued, Lookup, LeftPath, Piece, ValidPath, SubAt, Ends, LeftTree, Written, RightIsDone;
    if Ins(Unbounded, t, h, FULL, e).conts.right.Some? {
      IntendedAfterRight(t, h, e);
      OwedEnds(Unbounded, t, h, e, t');
    } else {
      IntendedAlone(t, h, e);
      NoRightEnds(Unbounded, t, h, e);
    }
  }

  /** The left continuation does the same in both arithmetics. */
  lemma LeftTreeWidth(t: Tree, place: seq<nat>, lc: Option<Cont>, ld: Option<Cont>)
    requires t.Node? && Shape(t, t.height) && SamePiece(lc, ld)
    requires lc.Some? ==> Owes(t, FULL.left, FULL.right, place, lc.value) && Ready(t, t.height, place, ld.value)
    ensures lc.Some? ==> Ready(t, t.height, place, lc.value)
    ensures LeftTree(Bits32, t, place, lc) == LeftTree(Unbounded, t, place, ld)
  {
    hide Shape, Owes, Continued, Ready;
    if lc.Some? {
      ContinuedWidth(t, t.height, FULL.left, FULL.right, place, lc.value, ld.value);
    }
  }

  /** A right continuation that has its place does what it is meant to do. */
  lemma OwedAgrees(t: Tree, h: int, e: Entry)
    requires Shape(t, h) && Proper(e.range)
    requires var m := Ins(Bits32, t, h, FULL, e);
             m.conts.right.Some? ==> Owes(m.tree, FULL.left, FULL.right, m.path, m.conts.right.value)
    ensures CanWrite(Unbounded, t, h, e) && Ends(Bits32, t, h, e, Written(Unbounded, t, h, e))
  {
    hide Ins, Shape, Owes, Continued, Lookup, LeftPath, Piece, ValidPath, SubAt, Ends, LeftTree, Written, Beside, Opens;
    var m, n := Ins(Bits32, t, h, FULL, e), Ins(Unbounded, t, h, FULL, e);
    MainWidth(t, h, FULL, e);
    if m.conts.right.Some? {
      IntendedAfterRight(t, h, e);
      OwedRight(Bits32, t, h, e);
      MainPlace(Bits32, t, h, e);
      var c, d := m.conts.right.value, n.conts.right.value;
      PieceWidth(m.tree, h, FULL.left, FULL.right, m.path, c, d);
      SameContinued(m.tree, h, m.path, c, d);
      LeftTreeWidth(Continued(Bits32, m.tree, h, m.path, c), LeftPath(m.tree, m.path, Piece(Bits32, m.tree, h, m.path, c)),
                    m.conts.left, n.conts.left);
      OwedEnds(Bits32, t, h, e, Written(Unbounded, t, h, e));
    } else {
      IntendedAlone(t, h, e);
      NoRight(Bits32, t, h, e);
      LeftTreeWidth(m.tree, m.path, m.conts.left, n.conts.left);
      NoRightEnds(Bits32, t, h, e);
    }
  }

  lemma SameContinued(t: Tree, h: int, p: seq<nat>, c: Cont, d: Cont)
    requires Ready(t, h, p, c) && Ready(t, h, p, d) && Piece(Bits32, t, h, p, c) == Piece(Unbounded, t, h, p, d)
    ensures Continued(Bits32, t, h, p, c) == Continued(Unbounded, t, h, p, d)
  {
  }

  lemma {:induction false} LoneShape(h: int, e: Entry)
    requires h >= 0 && Proper(e.range)
    ensures Shape(Lone(h, e), h)
    decreases h
  {
    if h > 0 {
      LoneShape(h - 1, e);
    }
  }

  /** Old contents that lie beside all bytes that reach their place are none. */
  lemma NothingKept(w: Width, s: Tree, h: int, c: Cont)
    requires Shape(s, h) && Opens(s, c, c.range.left, c.range.right)
    ensures Ins(w, s, h, c.valid, PieceOf(c)).tree == Lone(h, PieceOf(c))
  {
    hide Ins, Shape;
    if Bare(s) {
      BareIns(w, s, h, c.valid, PieceOf(c));
    } else {
      assert c.valid == EMPTY;
    }
    InsLone(w, s, h, PieceOf(c));
  }

  /** The intended right continuation clears its place. */
  lemma IntendedPiece(t: Tree, h: int, e: Entry)
    requires Shape(t, h) && Proper(e.range) && ToTheEdge(Ins(Bits32, t, h, FULL, e))
    requires var m := Ins(Bits32, t, h, FULL, e);
             ValidPath(m.tree, m.path) && SubAt(m.tree, m.path).Node?
    ensures var m, n := Ins(Bits32, t, h, FULL, e), Ins(Unbounded, t, h, FULL, e);
            && n.tree == m.tree && n.path == m.path && n.conts.right.Some? && n.path != [] && n.path[|n.path| - 1] > 0
            && CanWrite(Unbounded, t, h, e) && ValidPath(n.tree, n.path)
            && LeftOn(Unbounded, PutAt(n.tree, n.path, Lone(h - |n.path|, PieceOf(m.conts.right.value))),
                      LeftSibling(n.path), n.conts.left, Written(Unbounded, t, h, e))
  {
    hide Ins, Shape, Owes, Lookup, LeftPath, LeftTree, Written, Beside, Opens, ValidPath, SubAt, PutAt, Up, Leads, HasBefore, Pushed;
    var m, n := Ins(Bits32, t, h, FULL, e), Ins(Unbounded, t, h, FULL, e);
    MainWidth(t, h, FULL, e);
    MainPlace(Bits32, t, h, e);
    IntendedAfterRight(t, h, e);
    EdgePlace(t, h, e);
    var d, s := n.conts.right.value, SubAt(m.tree, m.path);
    PlaceOwed(n.tree, h, n.path, s, e.range.right + 1, BYTE_INDEX_MAX, d);
    NothingKept(Unbounded, s, h - |n.path|, d);
    var lone := Lone(h - |n.path|, PieceOf(d));
    SpineHeight(s, h - |n.path|);
    LoneShape(h - |n.path|, PieceOf(d));
    NotPushed(lone, h - |n.path|);
    UpIsPut(n.tree, h, n.path, lone);
    LeftPathUnpushed(n.tree, h, n.path, lone);
  }

  lemma SpineHeight(s: Tree, h: int)
    requires s.Node? && Shape(s, h)
    ensures h >= 0
  {
  }

  /** A path leads to one place only. */
  lemma {:induction false} LeadsOnce(t: Tree, lo: int, hi: int, p: seq<nat>, s: Tree, a: int, b: int, s': Tree, a': int, b': int)
    requires Leads(t, lo, hi, p, s, a, b) && Leads(t, lo, hi, p, s', a', b')
    ensures s == s' && a == a' && b == b'
    decreases |p|
  {
    if p != [] {
      LeadsOnce(t.subs[p[0]], GapLo(t.entries, p[0], lo), GapHi(t.entries, p[0], hi), p[1..], s, a, b, s', a', b');
    }
  }

  lemma PlaceOwed(t: Tree, h: int, p: seq<nat>, s: Tree, a: int, b: int, c: Cont)
    requires Shape(t, h) && Leads(t, FULL.left, FULL.right, p, s, a, b) && Owes(t, FULL.left, FULL.right, p, c)
    ensures Opens(s, c, a, b)
  {
    hide Leads, Opens;
    var s', a', b' :| Leads(t, FULL.left, FULL.right, p, s', a', b') && Opens(s', c, a', b');
    LeadsOnce(t, FULL.left, FULL.right, p, s, a, b, s', a', b');
  }

  /** Two places that differ stay different through the left continuation. */
  lemma PutsAgree(w: Width, t: Tree, h: int, p: seq<nat>, x: Tree, y: Tree, lc: Option<Cont>)
    requires t.Node? && t.height == h && Shape(t, h) && ValidPath(t, p) && p != [] && p[|p| - 1] > 0
    requires Shape(x, h - |p|) && Shape(y, h - |p|)
    requires lc.Some? ==> Owes(t, FULL.left, FULL.right, LeftSibling(p), lc.value)
    ensures PutAt(t, p, x).Node? && PutAt(t, p, y).Node?
    ensures lc.Some? ==> Ready(PutAt(t, p, x), PutAt(t, p, x).height, LeftSibling(p), lc.value)
    ensures lc.Some? ==> Ready(PutAt(t, p, y), PutAt(t, p, y).height, LeftSibling(p), lc.value)
    ensures LeftTree(w, PutAt(t, p, x), LeftSibling(p), lc) == LeftTree(w, PutAt(t, p, y), LeftSibling(p), lc) <==> x == y
  {
    hide Ins, Shape, Leads, Opens, ValidPath, SubAt, PutAt, Up, Pushed;
    PutHeight(t, h, p, x);
    PutHeight(t, h, p, y);
    PutValid(t, p, x);
    PutValid(t, p, y);
    if lc.Some? {
      PieceBeside(w, t, h, p, x, lc.value);
      PieceBeside(w, t, h, p, y, lc.value);
      SiblingInjective(t, h, p, x, y, Piece(w, t, h, LeftSibling(p), lc.value));
    }
  }

  lemma FitsLevel(c: Tree, h: int, lo: int, hi: int)
    requires Fits(c, h, lo, hi)
    ensures Level(c, h)
  {
  }

  /** The left continuation does not see what is to the right of its place. */
  lemma PieceBeside(w: Width, t: Tree, h: int, p: seq<nat>, x: Tree, c: Cont)
    requires Shape(t, h) && ValidPath(t, p) && p != [] && p[|p| - 1] > 0 && Shape(x, h - |p|)
    requires Owes(t, FULL.left, FULL.right, LeftSibling(p), c)
    ensures Ready(t, h, LeftSibling(p), c) && Ready(PutAt(t, p, x), h, LeftSibling(p), c)
    ensures Piece(w, PutAt(t, p, x), h, LeftSibling(p), c) == Piece(w, t, h, LeftSibling(p), c)
    ensures Level(Piece(w, t, h, LeftSibling(p), c), h - |p|)
  {
    hide Ins, Shape, Leads, Opens, ValidPath, SubAt, PutAt, Pushed;
    var q := LeftSibling(p);
    var s, a, b :| Leads(t, FULL.left, FULL.right, q, s, a, b) && Opens(s, c, a, b);
    PieceFits(w, t, h, FULL.left, FULL.right, q, s, a, b, c);
    FitsLevel(Piece(w, t, h, q, c), h - |p|, a, b);
    PutSibling(t, FULL.left, FULL.right, p, x, s, a, b);
    PutShape(t, h, p, x);
    PieceFits(w, PutAt(t, p, x), h, FULL.left, FULL.right, q, s, a, b, c);
  }

  /** A piece at the last byte index clears the old contents of its place, as it is meant to. */
  ghost predicate ClearsAtEdge(t: Tree, h: int, e: Entry)
    requires Shape(t, h) && Proper(e.range)
  {
    hide Ins, Shape, ValidPath, Clean, SubAt;
    var m := Ins(Bits32, t, h, FULL, e);
    ToTheEdge(m) ==>
      (EdgePlace(t, h, e);
       Clean(SubAt(m.tree, m.path), m.conts.right.value.valid.left, e.range.right + 1))
  }

  /** An edge continuation that goes through old contents. */
  lemma EdgeAgrees(t: Tree, h: int, e: Entry)
    requires Shape(t, h) && Proper(e.range) && ToTheEdge(Ins(Bits32, t, h, FULL, e)) && SafeAtEdge(t, h, e)
    requires var m := Ins(Bits32, t, h, FULL, e);
             ValidPath(m.tree, m.path) && SubAt(m.tree, m.path).Node?
    ensures CanWrite(Unbounded, t, h, e)
    ensures Ends(Bits32, t, h, e, Written(Unbounded, t, h, e)) <==> ClearsAtEdge(t, h, e)
  {
    hide Ins, Shape, Owes, Lookup, LeftTree, Written, Beside, Opens, ValidPath, SubAt, PutAt, Up, Leads, HasBefore, Pushed, Ready,
      AtEdge, Ends, SafeAtEdge, Clean, Straddled, Packed, Covered;
    var m, n := Ins(Bits32, t, h, FULL, e), Ins(Unbounded, t, h, FULL, e);
    var t' := if CanWrite(Unbounded, t, h, e) then Written(Unbounded, t, h, e) else t;
    MainWidth(t, h, FULL, e);
    EdgePlace(t, h, e);
    IntendedPiece(t, h, e);
    SiblingReady(Unbounded, t, h, e);
    SiblingReady(Bits32, t, h, e);
    EdgeEnds(t, h, e, t');
    var c, s, h', q := m.conts.right.value, SubAt(m.tree, m.path), h - |m.path|, LeftSibling(m.path);
    var r, lone := RightPiece(Bits32, m, h).tree, Lone(h', PieceOf(c));
    EdgeLone(Bits32, s, h', c.valid, PieceOf(c));
    SpineHeight(s, h');
    EdgeProper(c.valid, PieceOf(c));
    LoneShape(h', PieceOf(c));
    EdgePieceShape(t, h, e);
    PutsAgree(Unbounded, m.tree, h, m.path, r, lone, n.conts.left);
    LeftTreeWidth(PutAt(m.tree, m.path, r), q, m.conts.left, n.conts.left);
  }

  lemma EdgePieceShape(t: Tree, h: int, e: Entry)
    requires Shape(t, h) && Proper(e.range) && ToTheEdge(Ins(Bits32, t, h, FULL, e)) && SafeAtEdge(t, h, e)
    requires var m := Ins(Bits32, t, h, FULL, e);
             ValidPath(m.tree, m.path) && SubAt(m.tree, m.path).Node?
    ensures var m := Ins(Bits32, t, h, FULL, e);
            && Ready(m.tree, h, m.path, m.conts.right.value)
            && Shape(RightPiece(Bits32, m, h).tree, h - |m.path|)
  {
    hide Ins, Shape, ValidPath, SubAt, Leads, HasBefore, Pushed, Straddled, Packed, Covered, Orderly;
    var m := Ins(Bits32, t, h, FULL, e);
    var c := m.conts.right.value;
    EdgePlace(t, h, e);
    OutOfOrder(Bits32, t, h, e);
    MainShape(Bits32, SubAt(m.tree, m.path), h - |m.path|, c.valid, PieceOf(c));
  }

  /** A write with 32-bit indices ends with the tree of the intended write if and only if it is safe
      at the edge and clears its place there. */
  lemma EndsAsIntended(t: Tree, h: int, e: Entry)
    requires Shape(t, h) && Proper(e.range)
    ensures CanWrite(Unbounded, t, h, e)
    ensures Ends(Bits32, t, h, e, Written(Unbounded, t, h, e)) <==> SafeAtEdge(t, h, e) && ClearsAtEdge(t, h, e)
  {
    hide Ins, Shape, Owes, Written, ValidPath, SubAt, Ends, SafeAtEdge, Straddled, Packed, Covered, Fits;
    var m := Ins(Bits32, t, h, FULL, e);
    MainShape(Bits32, t, h, FULL, e);
    OffEdgeSafe(t, h, e);
    EdgeCont(t, h, FULL, e);
    if !ToTheEdge(m) {
      OwedAgrees(t, h, e);
    } else if SubAt(m.tree, m.path).Nil? {
      NilOwes(t, h, e);
      OwedAgrees(t, h, e);
    } else if SafeAtEdge(t, h, e) {
      EdgeAgrees(t, h, e);
    } else {
      SafeToDo(t, h, e);
    }
  }

  /** A write that leaves no piece at the last byte index ends well, and in one way. */
  lemma WrittenEnds(t: Tree, h: int, e: Entry)
    requires CanWrite(Bits32, t, h, e)
    ensures Shape(t, h) && Proper(e.range) && Ends(Bits32, t, h, e, Written(Bits32, t, h, e))
  {
    hide Ins, Ends, Written, Shape, SafeAtEdge, Beside;
    MainWidth(t, h, FULL, e);
    OffEdgeSafe(t, h, e);
    EndsAsIntended(t, h, e);
    WrittenWidth(t, h, e);
  }
}
