/** What becomes of any write with 32-bit byte indices, also of one that leaves a piece at the last
    byte index. There the bound of the old contents wraps around to 0, so that the right
    continuation runs through old contents instead of clearing them. */
module FigOutcome {
  import opened Intervals
  import opened FigTrees
  import opened FigPrune
  import opened FigInsert
  import opened FigAbsorb
  import opened FigPaths
  import opened FigMemory
  import opened FigPathOps
  import opened FigWrite
  import opened FigCorrect
  import opened FigRepair
  import opened FigWidth
  import opened FigSpine

  /** The right continuation runs down without meeting an overlap that leaves something over. */
  ghost predicate RightMeetsNothing(w: Width, t: Tree, h: int, e: Entry)
    requires Shape(t, h) && Proper(e.range)
  {
    hide Ins, Shape, ValidPath, SubAt;
    var m := Ins(w, t, h, FULL, e);
    && m.conts.right.Some? && Ready(m.tree, h, m.path, m.conts.right.value)
    && RightPiece(w, m, h).conts == NO_CONTS
  }

  /** What the right continuation makes of its place. */
  ghost function RightPiece(w: Width, m: Insertion, h: int): Insertion
    requires m.conts.right.Some? && Ready(m.tree, h, m.path, m.conts.right.value)
  {
    var c := m.conts.right.value;
    Ins(w, SubAt(m.tree, m.path), h - |m.path|, c.valid, PieceOf(c))
  }

  /** The left continuation ends with the tree t'. It starts at `place`; the path arrays hold
      `arrays`. As long as no split gets up to that place, the arrays do not matter. */
  ghost predicate LeftEnds(w: Width, t: Tree, arrays: seq<nat>, place: seq<nat>, lc: Option<Cont>, t': Tree) {
    hide Ins, Shape, Up;
    if lc.None? then t' == t
    else
      && t.Node? && Ready(t, t.height, place, lc.value)
      && var h := t.height - |place|;
      var l := Ins(w, SubAt(t, place), h, lc.value.valid, PieceOf(lc.value));
      && l.conts == NO_CONTS
      && var put := PutAt(t, place, l.tree);
      if !Pushed(l.tree, h) then t' == put
      else ValidPath(put, arrays) && Orderly(put, arrays, l.tree) && t' == Up(put, arrays, l.tree)
  }

  /** ft_write ends with the tree t': no continuation wants a continuation, and every entry goes in
      in order. If the right continuation overwrites entries instead of getting below a leaf,
      _ft_insert leaves the path arrays alone, which then still hold the place of the right
      continuation. */
  ghost predicate Ends(w: Width, t: Tree, h: int, e: Entry, t': Tree)
    requires Shape(t, h) && Proper(e.range)
  {
    hide Ins, Shape, Up, Stops, LeftPath;
    var m := Ins(w, t, h, FULL, e);
    if m.conts.right.None? then LeftEnds(w, m.tree, m.path, m.path, m.conts.left, t')
    else
      && Ready(m.tree, h, m.path, m.conts.right.value) && m.path != [] && m.path[|m.path| - 1] > 0
      && var r, c := RightPiece(w, m, h), m.conts.right.value;
      && r.conts == NO_CONTS && Orderly(m.tree, m.path, r.tree)
      && var t1 := Up(m.tree, m.path, r.tree);
      if Stops(SubAt(m.tree, m.path), h - |m.path|, c.valid, PieceOf(c)) then
        LeftEnds(w, t1, m.path, LeftSibling(m.path), m.conts.left, t')
      else
        var q := LeftPath(m.tree, m.path, r.tree);
        LeftEnds(w, t1, q, q, m.conts.left, t')
  }

  /** What is not pushed up is in order. */
  lemma {:induction false} OrderlyPut(t: Tree, h: int, p: seq<nat>, c: Tree)
    requires Shape(t, h) && ValidPath(t, p) && Shape(c, h - |p|)
    ensures Orderly(t, p, c) && Up(t, p, c) == PutAt(t, p, c) && Shape(Up(t, p, c), h) && !Pushed(c, h - |p|)
    decreases |p|
  {
    hide Absorb;
    NotPushed(c, h - |p|);
    UpIsPut(t, h, p, c);
    PutShape(t, h, p, c);
    if p != [] {
      OrderlyPut(t.subs[p[0]], h - 1, p[1..], c);
      NotPushed(Up(t.subs[p[0]], p[1..], c), h - 1);
    }
  }

  lemma NotPushed(c: Tree, h: int)
    requires Shape(c, h)
    ensures !Pushed(c, h)
  {
  }

  /** A change at the end of a path is seen by the bytes that reach it, and by no other. */
  lemma {:induction false} PutLookup(t: Tree, h: int, lo: int, hi: int, p: seq<nat>, s: Tree, a: int, b: int, c: Tree, x: int)
    requires Shape(t, h) && Leads(t, lo, hi, p, s, a, b) && Shape(c, h - |p|) && lo <= x <= hi
    ensures ValidPath(t, p) && Lookup(PutAt(t, p, c), x) == if a <= x <= b then Lookup(c, x) else Lookup(t, x)
    decreases |p|
  {
    if p != [] {
      var glo, ghi := GapLo(t.entries, p[0], lo), GapHi(t.entries, p[0], hi);
      LeadsValid(t, lo, hi, p, s, a, b);
      LeadsShape(t.subs[p[0]], h - 1, glo, ghi, p[1..], s, a, b);
      var g := PutAt(t.subs[p[0]], p[1..], c);
      PutShape(t.subs[p[0]], h - 1, p[1..], c);
      hide Lookup, PutAt;
      PutNode(t, h, p, c, x);
      if glo <= x <= ghi {
        PutLookup(t.subs[p[0]], h - 1, glo, ghi, p[1..], s, a, b, c, x);
      }
    }
  }

  lemma PutNode(t: Tree, h: int, p: seq<nat>, c: Tree, x: int)
    requires Shape(t, h) && p != [] && ValidPath(t, p) && Shape(PutAt(t.subs[p[0]], p[1..], c), h - 1)
    ensures Lookup(PutAt(t, p, c), x) ==
            if InGap(t.entries, p[0], x) then Lookup(PutAt(t.subs[p[0]], p[1..], c), x) else Lookup(t, x)
    ensures InGap(t.entries, p[0], x) ==> Lookup(t, x) == Lookup(t.subs[p[0]], x)
  {
    hide Lookup;
    NotPushed(PutAt(t.subs[p[0]], p[1..], c), h - 1);
    AbsorbLookup(t, h, p[0], PutAt(t.subs[p[0]], p[1..], c), x);
    if InGap(t.entries, p[0], x) {
      LookupGap(t, p[0], x);
    }
  }

  /** Nor does it touch the place to the left. */
  lemma {:induction false} PutSibling(t: Tree, lo: int, hi: int, p: seq<nat>, c: Tree, sl: Tree, a: int, b: int)
    requires ValidPath(t, p) && p != [] && p[|p| - 1] > 0 && Leads(t, lo, hi, LeftSibling(p), sl, a, b)
    ensures Leads(PutAt(t, p, c), lo, hi, LeftSibling(p), sl, a, b)
    decreases |p|
  {
    if |p| > 1 {
      assert LeftSibling(p)[1..] == LeftSibling(p[1..]);
      PutSibling(t.subs[p[0]], GapLo(t.entries, p[0], lo), GapHi(t.entries, p[0], hi), p[1..], c, sl, a, b);
    } else {
      assert LeftSibling(p)[1..] == [];
    }
  }

  /** An entry that comes up on the left of another one does not fit on the right of it. */
  lemma {:induction false} Misplaced(t: Tree, h: int, lo: int, hi: int, p: seq<nat>, sl: Tree, a: int, b: int, c: Tree)
    requires Shape(t, h) && p != [] && p[|p| - 1] > 0 && Leads(t, lo, hi, LeftSibling(p), sl, a, b)
    requires Fits(c, h - |p|, a, b) && Pushed(c, h - |p|) && ValidPath(t, p)
    ensures ValidPath(t, LeftSibling(p))
    ensures ValidPath(PutAt(t, LeftSibling(p), c), p) ==> !Orderly(PutAt(t, LeftSibling(p), c), p, c)
    decreases |p|
  {
    LeadsValid(t, lo, hi, LeftSibling(p), sl, a, b);
    if |p| == 1 {
      assert LeftSibling(p) == [p[0] - 1] && [p[0] - 1][1..] == [];
      assert Proper(t.entries[p[0] - 1].range);
    } else {
      assert LeftSibling(p)[1..] == LeftSibling(p[1..]) && LeftSibling(p)[0] == p[0];
      Misplaced(t.subs[p[0]], h - 1, GapLo(t.entries, p[0], lo), GapHi(t.entries, p[0], hi), p[1..], sl, a, b, c);
    }
  }

  /** The tree after the left continuation, if all goes well. */
  ghost function LeftTree(w: Width, t: Tree, place: seq<nat>, lc: Option<Cont>): Tree
    requires lc.Some? ==> t.Node? && Ready(t, t.height, place, lc.value)
  {
    if lc.None? then t else Continued(w, t, t.height, place, lc.value)
  }

  /** From t1, only the left continuation is missing to get t'. */
  ghost predicate LeftOn(w: Width, t1: Tree, place: seq<nat>, lc: Option<Cont>, t': Tree) {
    && t1.Node? && (lc.Some? ==> Ready(t1, t1.height, place, lc.value))
    && t' == LeftTree(w, t1, place, lc)
  }

  /** Every node on the way down from t is full, once it is pruned. */
  ghost predicate AllFull(t: Tree, h: int, valid: Interval, e: Entry)
    requires Shape(t, h) && ProperOrEmpty(valid) && Proper(e.range)
    decreases h + 1
  {
    t.Node? ==>
      var p := Pruned(t, h, valid);
      var i := Below(p.entries, e.range.left);
      && i >= Upto(p.entries, e.range.right) && |p.entries| == FT_SPLITLIMIT - 1
      && (PrunedShape(t, h, valid); AllFull(p.subs[i], h - 1, GapValid(p.entries, i, valid), e))
  }

  lemma AbsorbPushes(t: Tree, i: nat, c: Tree)
    requires t.Node? && |t.subs| == |t.entries| + 1 && |t.entries| < FT_SPLITLIMIT && i < |t.subs|
    ensures Pushed(Absorb(t, i, c), t.height) <==> Pushed(c, t.height - 1) && |t.entries| == FT_SPLITLIMIT - 1
  {
  }

  /** Splits get up to t if and only if all nodes on the way are full. */
  lemma {:induction false} SplitsFull(w: Width, t: Tree, h: int, valid: Interval, e: Entry)
    requires Shape(t, h) && ProperOrEmpty(valid) && Proper(e.range)
    ensures Pushed(Ins(w, t, h, valid, e).tree, h) <==> AllFull(t, h, valid, e)
    decreases h + 1
  {
    hide Pruned, Absorb, Ins;
    if t.Node? {
      InsStep(w, t, h, valid, e);
      PrunedHeight(t, h, valid);
      var p := Pruned(t, h, valid);
      var i := Below(p.entries, e.range.left);
      if i >= Upto(p.entries, e.range.right) {
        var v := GapValid(p.entries, i, valid);
        SplitsFull(w, p.subs[i], h - 1, v, e);
        AbsorbPushes(p, i, Ins(w, p.subs[i], h - 1, v, e).tree);
      }
    } else {
      InsNil(w, t, h, valid, e);
    }
  }

  /** The left continuation splits all nodes from a leaf up to its place. */
  ghost predicate LeftSplits(t: Tree, place: seq<nat>, lc: Option<Cont>)
    requires lc.Some? ==> t.Node? && Ready(t, t.height, place, lc.value)
  {
    lc.Some? && AllFull(SubAt(t, place), t.height - |place|, lc.value.valid, PieceOf(lc.value))
  }

  lemma LeftReadyAt(t: Tree, place: seq<nat>, lc: Option<Cont>)
    requires t.Node? && Shape(t, t.height) && (lc.Some? ==> Owes(t, FULL.left, FULL.right, place, lc.value))
    ensures lc.Some? ==> Ready(t, t.height, place, lc.value)
  {
    if lc.Some? {
      OwesPlace(t, t.height, FULL.left, FULL.right, place, lc.value);
    }
  }

  /** With the right path arrays the left continuation always ends well; with those of the right
      continuation it does so if and only if no split gets up to its place. */
  lemma LeftPhase(w: Width, t: Tree, arrays: seq<nat>, place: seq<nat>, lc: Option<Cont>, t': Tree)
    requires t.Node? && Shape(t, t.height) && (lc.Some? ==> Owes(t, FULL.left, FULL.right, place, lc.value))
    requires arrays == place || (arrays != [] && arrays[|arrays| - 1] > 0 && ValidPath(t, arrays) && place == LeftSibling(arrays))
    ensures lc.Some? ==> Ready(t, t.height, place, lc.value)
    ensures LeftEnds(w, t, arrays, place, lc, t') <==>
            t' == LeftTree(w, t, place, lc) && (arrays == place || !LeftSplits(t, place, lc))
  {
    LeftReadyAt(t, place, lc);
    if lc.Some? {
      LeftOne(w, t, arrays, place, lc.value, t');
    }
  }

  lemma LeftOne(w: Width, t: Tree, arrays: seq<nat>, place: seq<nat>, c: Cont, t': Tree)
    requires t.Node? && Shape(t, t.height) && Owes(t, FULL.left, FULL.right, place, c)
    requires arrays == place || (arrays != [] && arrays[|arrays| - 1] > 0 && ValidPath(t, arrays) && place == LeftSibling(arrays))
    ensures Ready(t, t.height, place, c)
    ensures LeftEnds(w, t, arrays, place, Some(c), t') <==>
            && t' == Continued(w, t, t.height, place, c)
            && (arrays == place || !LeftSplits(t, place, Some(c)))
  {
    hide Ins, Shape, Leads, Up, Orderly, ValidPath, SubAt, PutAt, Fits, AllFull, Opens, Pushed;
    var h := t.height;
    OwesPlace(t, h, FULL.left, FULL.right, place, c);
    var s, a, b :| Leads(t, FULL.left, FULL.right, place, s, a, b) && Opens(s, c, a, b);
    PieceFits(w, t, h, FULL.left, FULL.right, place, s, a, b, c);
    var l := Piece(w, t, h, place, c);
    SplitsFull(w, SubAt(t, place), h - |place|, c.valid, PieceOf(c));
    if !Pushed(l, h - |place|) {
      UpIsPut(t, h, place, l);
    } else if arrays == place {
      OrderlyFits(t, h, FULL.left, FULL.right, place, s, a, b, l);
      OrderlyIgnores(t, place, l, l);
      UpPut(t, place, l, l);
    } else {
      Misplaced(t, h, FULL.left, FULL.right, arrays, s, a, b, l);
    }
  }

  lemma RightContEdge(es: seq<Entry>, valid: Interval, r: Interval, j: nat)
    requires Sorted(es) && Proper(valid) && Proper(r) && ContainsInt(valid, r) && 0 < j <= |es| && Within(es, valid.left, valid.right)
    requires j < |es| ==> r.right < es[j].range.left
    requires es[j - 1].range.left <= r.right
    ensures var c := RightCont(Bits32, es, j, valid, r);
            c.Some? ==>
              && Proper(c.value.range) && ProperOrEmpty(c.value.valid) && c.value.range.left == r.right + 1
              && (c.value.range.right == BYTE_INDEX_MAX ==> c.value.valid == valid && valid.right == BYTE_INDEX_MAX)
  {
    hide Succ;
    WrapsAround(es[j - 1].range.right);
    assert j < |es| ==> Proper(es[j].range) && es[j - 1].range.right < es[j].range.left;
  }

  /** The right continuation of a piece at the last byte index: it goes through all bytes that reach
      the overwritten node. */
  lemma {:induction false} EdgeCont(t: Tree, h: int, valid: Interval, e: Entry)
    requires Shape(t, h) && Proper(valid) && Proper(e.range) && ContainsInt(valid, e.range)
    ensures var c := Ins(Bits32, t, h, valid, e).conts.right;
            c.Some? ==>
              && Proper(c.value.range) && ProperOrEmpty(c.value.valid) && c.value.range.left == e.range.right + 1
              && (c.value.range.right == BYTE_INDEX_MAX ==>
                    AtEdge(c.value.valid, PieceOf(c.value)) && c.value.valid.left <= e.range.left)
    decreases h + 1
  {
    hide Absorb, Pruned, Replaced, LeftCont, RightCont, Run, Ins;
    if t.Node? {
      var p := Pruned(t, h, valid);
      PrunedShape(t, h, valid);
      InsStep(Bits32, t, h, valid, e);
      var i, j := Below(p.entries, e.range.left), Upto(p.entries, e.range.right);
      if i < j {
        RightContEdge(p.entries, valid, e.range, j);
      } else {
        MainGap(p.entries, valid, e.range);
        EdgeCont(p.subs[i], h - 1, GapValid(p.entries, i, valid), e);
      }
    } else {
      InsNil(Bits32, t, h, valid, e);
    }
  }

  /** Left of the place of the right continuation is the new entry. */
  lemma {:induction false} EntryBefore(w: Width, t: Tree, h: int, valid: Interval, e: Entry)
    requires Shape(t, h) && Proper(valid) && Proper(e.range) && ContainsInt(valid, e.range)
    ensures var m := Ins(w, t, h, valid, e);
            m.conts.right.Some? ==> HasBefore(m.tree, m.path, e)
    decreases h + 1
  {
    hide Absorb, Pruned, Replaced, LeftCont, RightCont, Run, Ins;
    if t.Node? {
      var p := Pruned(t, h, valid);
      PrunedShape(t, h, valid);
      InsStep(w, t, h, valid, e);
      var i, j := Below(p.entries, e.range.left), Upto(p.entries, e.range.right);
      if i < j {
        RunOf(p.entries, e.range);
        ReplacedHas(p, h, i, j, e);
      } else {
        MainGap(p.entries, valid, e.range);
        var v := GapValid(p.entries, i, valid);
        EntryBefore(w, p.subs[i], h - 1, v, e);
        MainShape(w, p.subs[i], h - 1, v, e);
        if Ins(w, t, h, valid, e).conts.right.Some? {
          HasBeforeUp(p, h, i, Ins(w, p.subs[i], h - 1, v, e).tree, Ins(w, p.subs[i], h - 1, v, e).path, e);
        }
      }
    } else {
      InsNil(w, t, h, valid, e);
    }
  }

  /** p leads to a slot that comes after the entry e. */
  ghost predicate HasBefore(t: Tree, p: seq<nat>, e: Entry)
    decreases |p|
  {
    && p != [] && ValidPath(t, p)
    && if |p| == 1 then p[0] > 0 && t.entries[p[0] - 1] == e else HasBefore(t.subs[p[0]], p[1..], e)
  }

  lemma ReplacedHas(t: Tree, h: int, i: nat, j: nat, e: Entry)
    requires t.Node? && Shape(t, h) && i < j <= |t.entries| && Run(t.entries, i, j, e.range) && Proper(e.range)
    ensures |t.subs| == |t.entries| + 1 && HasBefore(Replaced(t, i, j, e), [i + 1], e)
  {
    ReplacedShape(t, h, i, j, e);
    assert [i + 1][1..] == [];
  }

  lemma HasBeforeUp(t: Tree, h: int, i: nat, c: Tree, p: seq<nat>, e: Entry)
    requires t.Node? && Shape(t, h) && i <= |t.entries| && Shape(c, h - 1) && HasBefore(c, p, e)
    ensures HasBefore(Absorb(t, i, c), [i] + p, e)
  {
    NotPushed(c, h - 1);
    assert ([i] + p)[1..] == p;
  }

  /** An old entry from before the piece does not fit behind the new entry. */
  lemma {:induction false} OldEntryMisfits(t: Tree, h: int, p: seq<nat>, e: Entry, c: Tree)
    requires Shape(t, h) && HasBefore(t, p, e) && Pushed(c, h - |p|) && Proper(e.range)
    requires Proper(c.entries[0].range) && c.entries[0].range.right <= e.range.right
    ensures !Orderly(t, p, c)
    decreases |p|
  {
    if |p| > 1 {
      OldEntryMisfits(t.subs[p[0]], h - 1, p[1..], e, c);
    }
  }

  /** The place of the right continuation, wherever its piece ends. */
  lemma MainPlace(w: Width, t: Tree, h: int, e: Entry)
    requires Shape(t, h) && Proper(e.range)
    ensures var m := Ins(w, t, h, FULL, e);
            && m.tree.Node?
            && (m.conts.right.Some? ==>
                  && m.path != [] && m.path[|m.path| - 1] > 0 && Shape(m.tree, h)
                  && Ready(m.tree, h, m.path, m.conts.right.value))
  {
    hide Ins, Shape, Owes, ValidPath, SubAt, Beside;
    var m := Ins(Unbounded, t, h, FULL, e);
    MainShape(Unbounded, t, h, FULL, e);
    MainWidth(t, h, FULL, e);
    EdgeCont(t, h, FULL, e);
    if m.conts.right.Some? {
      OwesPlace(m.tree, h, FULL.left, FULL.right, m.path, m.conts.right.value);
    }
  }

  /** The main insertion settles every byte, whatever the arithmetic. */
  lemma MainSettled(w: Width, t: Tree, h: int, e: Entry, b: int)
    requires Shape(t, h) && Proper(e.range) && IsByte(b)
    ensures Settled(t, Ins(w, t, h, FULL, e), e, b)
  {
    hide Ins, Shape, Beside;
    MainWidth(t, h, FULL, e);
    MainLookup(Unbounded, t, h, FULL, e, b);
  }

  /** Behind the entry e begin the bytes that reach the end of the path. */
  lemma {:induction false} LeadsBehind(t: Tree, lo: int, hi: int, p: seq<nat>, e: Entry, s: Tree, a: int, b: int)
    requires HasBefore(t, p, e) && Leads(t, lo, hi, p, s, a, b)
    ensures a == e.range.right + 1
    decreases |p|
  {
    if |p| > 1 {
      LeadsBehind(t.subs[p[0]], GapLo(t.entries, p[0], lo), GapHi(t.entries, p[0], hi), p[1..], e, s, a, b);
    } else {
      assert p[1..] == [];
    }
  }

  /** The write leaves a piece that ends at the last byte index. */
  ghost predicate ToTheEdge(m: Insertion) {
    m.conts.right.Some? && m.conts.right.value.range.right == BYTE_INDEX_MAX
  }

  lemma EdgePlace(t: Tree, h: int, e: Entry)
    requires Shape(t, h) && Proper(e.range) && ToTheEdge(Ins(Bits32, t, h, FULL, e))
    ensures var m := Ins(Bits32, t, h, FULL, e);
            var c := m.conts.right.value;
            && ValidPath(m.tree, m.path) && Shape(SubAt(m.tree, m.path), h - |m.path|) && HasBefore(m.tree, m.path, e)
            && c.range == Span(e.range.right + 1, BYTE_INDEX_MAX)
            && AtEdge(c.valid, PieceOf(c)) && c.valid.left <= e.range.left
            && Leads(m.tree, FULL.left, FULL.right, m.path, SubAt(m.tree, m.path), e.range.right + 1, BYTE_INDEX_MAX)
  {
    hide Ins, Shape, ValidPath, SubAt, HasBefore, Leads, Beside;
    var m, n := Ins(Bits32, t, h, FULL, e), Ins(Unbounded, t, h, FULL, e);
    MainShape(Unbounded, t, h, FULL, e);
    MainWidth(t, h, FULL, e);
    EdgeCont(t, h, FULL, e);
    EntryBefore(Bits32, t, h, FULL, e);
    var s, a, b :| Leads(n.tree, FULL.left, FULL.right, n.path, s, a, b) && Opens(s, n.conts.right.value, a, b);
    LeadsValid(n.tree, FULL.left, FULL.right, n.path, s, a, b);
    LeadsShape(n.tree, h, FULL.left, FULL.right, n.path, s, a, b);
    LeadsBehind(n.tree, FULL.left, FULL.right, n.path, e, s, a, b);
  }

  /** A continuation that meets no overlap gets below a leaf. */
  lemma {:induction false} ContGetsDown(t: Tree, h: int, valid: Interval, e: Entry, lo: int, hi: int)
    requires Shape(t, h) && ProperOrEmpty(valid) && Proper(e.range) && Beside(valid, e.range)
    requires Inside(valid, lo, hi) && Inside(e.range, lo, hi)
    ensures !Stops(t, h, valid, e)
    decreases h + 1
  {
    hide Pruned;
    if t.Node? {
      var p := Pruned(t, h, valid);
      PrunedShape(t, h, valid);
      ContGap(p.entries, valid, e.range, lo, hi);
      var i := Below(p.entries, e.range.left);
      ContGetsDown(p.subs[i], h - 1, GapValid(p.entries, i, valid), e, GapLo(p.entries, i, lo), GapHi(p.entries, i, hi));
    }
  }

  lemma {:induction false} BareGetsDown(t: Tree, h: int, valid: Interval, e: Entry)
    requires Shape(t, h) && Bare(t) && ProperOrEmpty(valid) && Proper(e.range)
    ensures !Stops(t, h, valid, e)
    decreases h + 1
  {
    hide Pruned;
    if t.Node? {
      BarePruned(t, h, valid);
      BareGetsDown(t.subs[0], h - 1, GapValid([], 0, valid), e);
    }
  }

  lemma OpensGetsDown(s: Tree, h: int, c: Cont, a: int, b: int)
    requires Shape(s, h) && Opens(s, c, a, b)
    ensures !Stops(s, h, c.valid, PieceOf(c))
  {
    if Bare(s) {
      BareGetsDown(s, h, c.valid, PieceOf(c));
    } else {
      ContGetsDown(s, h, c.valid, PieceOf(c), a, b);
    }
  }

  /** The right continuation is done: t1 is well formed, owes the left piece at `place`, and every
      other byte finds what it should. */
  ghost predicate RightIsDone(t: Tree, e: Entry, lc: Option<Cont>, t1: Tree, place: seq<nat>) {
    && t1.Node? && Shape(t1, t1.height)
    && (lc.Some? ==> Owes(t1, FULL.left, FULL.right, place, lc.value))
    && forall b :: IsByte(b) ==>
                     if InCont(lc, b) then !Has(e.range, b) && Lookup(t, b) == Some(lc.value.value)
                     else Lookup(t1, b) == After(t, e, b)
  }

  lemma LeftSettles(w: Width, t: Tree, e: Entry, lc: Option<Cont>, t1: Tree, place: seq<nat>, b: int)
    requires RightIsDone(t, e, lc, t1, place) && IsByte(b)
    ensures lc.Some? ==> Ready(t1, t1.height, place, lc.value)
    ensures LeftTree(w, t1, place, lc).Node? && Shape(LeftTree(w, t1, place, lc), LeftTree(w, t1, place, lc).height)
    ensures Lookup(LeftTree(w, t1, place, lc), b) == After(t, e, b)
  {
    hide Shape, Owes, Ready, Lookup, Continued, Fits;
    LeftReadyAt(t1, place, lc);
    if lc.Some? {
      ContinueCorrect(w, t1, t1.height, FULL.left, FULL.right, place, lc.value, b);
      FitsHeight(Continued(w, t1, t1.height, place, lc.value), t1.height, FULL.left, FULL.right);
    }
  }

  /** Once the right continuation has put its piece back, nothing is missing but the left one. */
  lemma RightSettles(w: Width, t: Tree, h: int, e: Entry, t1: Tree, b: int)
    requires Shape(t, h) && Proper(e.range) && IsByte(b) && Ins(w, t, h, FULL, e).conts.right.Some?
    requires var m := Ins(w, t, h, FULL, e);
             var c := m.conts.right.value;
             Lookup(t1, b) == if Has(c.range, b) then Some(c.value) else Lookup(m.tree, b)
    ensures var lc := Ins(w, t, h, FULL, e).conts.left;
            if InCont(lc, b) then !Has(e.range, b) && Lookup(t, b) == Some(lc.value.value)
            else Lookup(t1, b) == After(t, e, b)
  {
    hide Ins, Shape, Lookup;
    MainSettled(w, t, h, e, b);
  }

  lemma NoRight(w: Width, t: Tree, h: int, e: Entry)
    requires Shape(t, h) && Proper(e.range) && Ins(w, t, h, FULL, e).conts.right.None?
    ensures var m := Ins(w, t, h, FULL, e);
            RightIsDone(t, e, m.conts.left, m.tree, m.path)
  {
    hide Ins, Shape, Lookup, Owes, Fits;
    var m := Ins(w, t, h, FULL, e);
    MainShape(w, t, h, FULL, e);
    FitsHeight(m.tree, h, FULL.left, FULL.right);
    forall b | IsByte(b)
      ensures if InCont(m.conts.left, b) then !Has(e.range, b) && Lookup(t, b) == Some(m.conts.left.value.value)
              else Lookup(m.tree, b) == After(t, e, b)
    {
      MainSettled(w, t, h, e, b);
    }
  }

  lemma OwedRight(w: Width, t: Tree, h: int, e: Entry)
    requires Shape(t, h) && Proper(e.range) && Ins(w, t, h, FULL, e).conts.right.Some?
    requires var m := Ins(w, t, h, FULL, e);
             Owes(m.tree, FULL.left, FULL.right, m.path, m.conts.right.value)
    ensures var m := Ins(w, t, h, FULL, e);
            var c := m.conts.right.value;
            && m.path != [] && m.path[|m.path| - 1] > 0 && Ready(m.tree, h, m.path, c)
            && RightIsDone(t, e, m.conts.left, Continued(w, m.tree, h, m.path, c), LeftPath(m.tree, m.path, Piece(w, m.tree, h, m.path, c)))
  {
    hide Ins, Shape, Lookup, Owes, Fits, Ready, Continued, LeftPath, Piece;
    var m := Ins(w, t, h, FULL, e);
    var c := m.conts.right.value;
    MainPlace(w, t, h, e);
    MainShape(w, t, h, FULL, e);
    var t1 := Continued(w, m.tree, h, m.path, c);
    forall b | IsByte(b)
      ensures if InCont(m.conts.left, b) then !Has(e.range, b) && Lookup(t, b) == Some(m.conts.left.value.value)
              else Lookup(t1, b) == After(t, e, b)
      ensures Fits(t1, h, FULL.left, FULL.right)
    {
      ContinueCorrect(w, m.tree, h, FULL.left, FULL.right, m.path, c, b);
      RightSettles(w, t, h, e, t1, b);
    }
    assert IsByte(BYTE_INDEX_MIN);
    FitsHeight(t1, h, FULL.left, FULL.right);
    if m.conts.left.Some? {
      StillOwes(w, m.tree, h, FULL.left, FULL.right, m.path, c, m.conts.left.value);
    }
  }

  lemma OwedRightOrderly(w: Width, t: Tree, h: int, p: seq<nat>, c: Cont)
    requires Shape(t, h) && Owes(t, FULL.left, FULL.right, p, c)
    ensures Ready(t, h, p, c)
    ensures Ins(w, SubAt(t, p), h - |p|, c.valid, PieceOf(c)).conts == NO_CONTS
    ensures Orderly(t, p, Piece(w, t, h, p, c)) && !Stops(SubAt(t, p), h - |p|, c.valid, PieceOf(c))
  {
    hide Ins, Shape, Fits, Leads, Opens, Orderly, Stops;
    OwesPlace(t, h, FULL.left, FULL.right, p, c);
    var s, a, b :| Leads(t, FULL.left, FULL.right, p, s, a, b) && Opens(s, c, a, b);
    PieceFits(w, t, h, FULL.left, FULL.right, p, s, a, b, c);
    OrderlyFits(t, h, FULL.left, FULL.right, p, s, a, b, Piece(w, t, h, p, c));
    OpensGetsDown(s, h - |p|, c, a, b);
  }

  /** A right continuation that has its place ends well, and so does the left one after it. */
  lemma OwedEnds(w: Width, t: Tree, h: int, e: Entry, t': Tree)
    requires Shape(t, h) && Proper(e.range) && Ins(w, t, h, FULL, e).conts.right.Some?
    requires var m := Ins(w, t, h, FULL, e);
             Owes(m.tree, FULL.left, FULL.right, m.path, m.conts.right.value)
    ensures var m := Ins(w, t, h, FULL, e);
            var c := m.conts.right.value;
            && m.path != [] && m.path[|m.path| - 1] > 0 && Ready(m.tree, h, m.path, c)
            && var t1, q := Continued(w, m.tree, h, m.path, c), LeftPath(m.tree, m.path, Piece(w, m.tree, h, m.path, c));
            Ends(w, t, h, e, t') <==> LeftOn(w, t1, q, m.conts.left, t')
  {
    hide Ins, Shape, Lookup, Owes, Orderly, Stops, LeftPath, LeftEnds, LeftTree, LeftSplits, Up, ValidPath, SubAt;
    var m := Ins(w, t, h, FULL, e);
    var c := m.conts.right.value;
    MainPlace(w, t, h, e);
    OwedRight(w, t, h, e);
    OwedRightOrderly(w, m.tree, h, m.path, c);
    var t1, q := Continued(w, m.tree, h, m.path, c), LeftPath(m.tree, m.path, Piece(w, m.tree, h, m.path, c));
    LeftPhase(w, t1, q, q, m.conts.left, t');
  }

  lemma OutOfOrder(w: Width, t: Tree, h: int, e: Entry)
    requires Shape(t, h) && Proper(e.range) && ToTheEdge(Ins(Bits32, t, h, FULL, e))
    ensures var m := Ins(Bits32, t, h, FULL, e);
            && m.tree.Node? && Shape(m.tree, h) && Ready(m.tree, h, m.path, m.conts.right.value)
            && var s := SubAt(m.tree, m.path);
            && (s.Node? && Packed(s, m.conts.right.value.valid.left, e.range.right + 1)
                ==> !Orderly(m.tree, m.path, RightPiece(Bits32, m, h).tree))
            && (Pushed(RightPiece(Bits32, m, h).tree, h - |m.path|) <==> Packed(s, m.conts.right.value.valid.left, e.range.right + 1))
  {
    hide Ins, Shape, Orderly, HasBefore, ValidPath, SubAt, Leads, Straddled;
    var m := Ins(Bits32, t, h, FULL, e);
    var c := m.conts.right.value;
    MainPlace(Bits32, t, h, e);
    EdgePlace(t, h, e);
    var s, r := SubAt(m.tree, m.path), RightPiece(Bits32, m, h);
    EdgePushes(Bits32, s, h - |m.path|, c.valid, PieceOf(c));
    if s.Node? && Packed(s, c.valid.left, e.range.right + 1) {
      MainShape(Bits32, s, h - |m.path|, c.valid, PieceOf(c));
      PushedProper(r.tree, h - |m.path|, c.valid.left, c.valid.right);
      OldEntryMisfits(m.tree, h, m.path, e, r.tree);
    }
  }

  lemma PushedProper(c: Tree, h: int, lo: int, hi: int)
    requires Fits(c, h, lo, hi) && Pushed(c, h)
    ensures Proper(c.entries[0].range)
  {
  }

  /** What the edge continuation makes of its place, byte by byte. */
  lemma EdgePieceLookup(s: Tree, h: int, c: Cont, x: int)
    requires Shape(s, h) && AtEdge(c.valid, PieceOf(c)) && c.range.left <= x <= BYTE_INDEX_MAX
    requires Ins(Bits32, s, h, c.valid, PieceOf(c)).conts == NO_CONTS
    ensures Lookup(Ins(Bits32, s, h, c.valid, PieceOf(c)).tree, x) == Some(c.value)
  {
    hide Ins, Shape, Lookup;
    MainLookup(Bits32, s, h, c.valid, PieceOf(c), x);
  }

  /** A piece that is put back without a split, at a place that only its own bytes reach. */
  lemma PutDone(t: Tree, h: int, e: Entry, r: Tree)
    requires Shape(t, h) && Proper(e.range) && ToTheEdge(Ins(Bits32, t, h, FULL, e))
    requires var m := Ins(Bits32, t, h, FULL, e);
             && ValidPath(m.tree, m.path) && Shape(r, h - |m.path|)
             && forall x :: e.range.right < x <= BYTE_INDEX_MAX ==> Lookup(r, x) == Some(m.conts.right.value.value)
    ensures var m := Ins(Bits32, t, h, FULL, e);
            && m.path != [] && m.path[|m.path| - 1] > 0
            && RightIsDone(t, e, m.conts.left, PutAt(m.tree, m.path, r), LeftSibling(m.path))
            && PutAt(m.tree, m.path, r).height == h && Shape(PutAt(m.tree, m.path, r), h)
  {
    hide Ins, Shape, Lookup, Owes, Leads, ValidPath, SubAt, PutAt, HasBefore, AtEdge;
    var m := Ins(Bits32, t, h, FULL, e);
    var c := m.conts.right.value;
    MainPlace(Bits32, t, h, e);
    EdgePlace(t, h, e);
    PutShape(m.tree, h, m.path, r);
    var t1 := PutAt(m.tree, m.path, r);
    PutHeight(m.tree, h, m.path, r);
    forall b | IsByte(b)
      ensures if InCont(m.conts.left, b) then !Has(e.range, b) && Lookup(t, b) == Some(m.conts.left.value.value)
              else Lookup(t1, b) == After(t, e, b)
    {
      PutLookup(m.tree, h, FULL.left, FULL.right, m.path, SubAt(m.tree, m.path), e.range.right + 1, BYTE_INDEX_MAX, r, b);
      RightSettles(Bits32, t, h, e, t1, b);
    }
    if m.conts.left.Some? {
      MainShape(Bits32, t, h, FULL, e);
      PutOwes(m.tree, FULL.left, FULL.right, m.path, r, m.conts.left.value);
    }
  }

  lemma PutHeight(t: Tree, h: int, p: seq<nat>, s: Tree)
    requires Shape(t, h) && ValidPath(t, p) && p != []
    ensures t.Node? && t.height == h && PutAt(t, p, s).Node? && PutAt(t, p, s).height == h
  {
  }

  lemma PutOwes(t: Tree, lo: int, hi: int, p: seq<nat>, r: Tree, left: Cont)
    requires ValidPath(t, p) && p != [] && p[|p| - 1] > 0 && Owes(t, lo, hi, LeftSibling(p), left)
    ensures Owes(PutAt(t, p, r), lo, hi, LeftSibling(p), left)
  {
    hide Leads, Opens, ValidPath, PutAt;
    var sl, a, b :| Leads(t, lo, hi, LeftSibling(p), sl, a, b) && Opens(sl, left, a, b);
    PutSibling(t, lo, hi, p, r, sl, a, b);
  }

  /** The left place is as it was. */
  lemma PutSplits(t: Tree, h: int, p: seq<nat>, r: Tree, lc: Option<Cont>)
    requires t.Node? && Shape(t, h) && ValidPath(t, p) && p != [] && p[|p| - 1] > 0 && Shape(PutAt(t, p, r), h)
    requires lc.Some? ==> Owes(t, FULL.left, FULL.right, LeftSibling(p), lc.value)
    ensures PutAt(t, p, r).Node? && t.height == h
    ensures lc.Some? ==> Ready(t, h, LeftSibling(p), lc.value) && Ready(PutAt(t, p, r), PutAt(t, p, r).height, LeftSibling(p), lc.value)
    ensures LeftSplits(PutAt(t, p, r), LeftSibling(p), lc) <==> LeftSplits(t, LeftSibling(p), lc)
  {
    hide Leads, Opens, ValidPath, PutAt, Shape, AllFull, SubAt;
    PutHeight(t, h, p, r);
    if lc.Some? {
      OwesPlace(t, h, FULL.left, FULL.right, LeftSibling(p), lc.value);
      PutOwes(t, FULL.left, FULL.right, p, r, lc.value);
      OwesPlace(PutAt(t, p, r), h, FULL.left, FULL.right, LeftSibling(p), lc.value);
      var sl, a, b :| Leads(t, FULL.left, FULL.right, LeftSibling(p), sl, a, b);
      PutSibling(t, FULL.left, FULL.right, p, r, sl, a, b);
      LeadsValid(t, FULL.left, FULL.right, LeftSibling(p), sl, a, b);
      LeadsValid(PutAt(t, p, r), FULL.left, FULL.right, LeftSibling(p), sl, a, b);
    }
  }

  lemma SiblingReady(w: Width, t: Tree, h: int, e: Entry)
    requires Shape(t, h) && Proper(e.range) && Ins(w, t, h, FULL, e).conts.right.Some?
    ensures var m := Ins(w, t, h, FULL, e);
            && m.path != [] && m.path[|m.path| - 1] > 0 && m.tree.Node? && m.tree.height == h && Shape(m.tree, h)
            && (m.conts.left.Some? ==>
                  && Owes(m.tree, FULL.left, FULL.right, LeftSibling(m.path), m.conts.left.value)
                  && Ready(m.tree, h, LeftSibling(m.path), m.conts.left.value))
  {
    hide Ins, Owes, Ready, ValidPath;
    var m := Ins(w, t, h, FULL, e);
    MainPlace(w, t, h, e);
    MainShape(w, t, h, FULL, e);
    if m.conts.left.Some? {
      OwesPlace(m.tree, h, FULL.left, FULL.right, LeftSibling(m.path), m.conts.left.value);
    }
  }

  /** When a write ends well. A piece that ends at the last byte index goes down the right spine of
      its place: there must be no old entry on the way that it cuts, nor may all nodes be full of old
      entries; and if it takes the place of old entries, a left piece must not split its way up. */
  ghost predicate SafeAtEdge(t: Tree, h: int, e: Entry)
    requires Shape(t, h) && Proper(e.range)
  {
    hide Ins, Shape, ValidPath, Straddled, Packed, Covered, Owes, SubAt, LeftSplits, Ready;
    var m := Ins(Bits32, t, h, FULL, e);
    ToTheEdge(m) ==>
      (EdgePlace(t, h, e);
       SiblingReady(Bits32, t, h, e);
       var s, left := SubAt(m.tree, m.path), e.range.right + 1;
       && !Straddled(s, left)
       && !(s.Node? && Packed(s, m.conts.right.value.valid.left, left))
       && (Covered(s, left) ==> !LeftSplits(m.tree, LeftSibling(m.path), m.conts.left)))
  }

  /** The right continuation of a write with 32-bit indices meets nothing if and only if its piece
      does not reach the last byte index, or no old entry on the right spine of its place is cut. */
  lemma EdgeMeetsNothing(t: Tree, h: int, e: Entry)
    requires Shape(t, h) && Proper(e.range) && Ins(Bits32, t, h, FULL, e).conts.right.Some?
    ensures var m := Ins(Bits32, t, h, FULL, e);
            && ValidPath(m.tree, m.path)
            && (RightMeetsNothing(Bits32, t, h, e) <==>
                || m.conts.right.value.range.right < BYTE_INDEX_MAX
                || !Straddled(SubAt(m.tree, m.path), e.range.right + 1))
  {
    hide Ins, Shape, ValidPath, Straddled, Owes, SubAt;
    var m := Ins(Bits32, t, h, FULL, e);
    var c := m.conts.right.value;
    MainPlace(Bits32, t, h, e);
    EdgeCont(t, h, FULL, e);
    if ToTheEdge(m) {
      EdgePlace(t, h, e);
      EdgeConts(Bits32, SubAt(m.tree, m.path), h - |m.path|, c.valid, PieceOf(c));
    } else {
      MainShape(Bits32, t, h, FULL, e);
      OwedRightOrderly(Bits32, m.tree, h, m.path, c);
    }
  }

  lemma EdgeLeft(t: Tree, e: Entry, lc: Option<Cont>, t1: Tree, arrays: seq<nat>, q: seq<nat>, t': Tree)
    requires RightIsDone(t, e, lc, t1, q)
    requires arrays == q || (arrays != [] && arrays[|arrays| - 1] > 0 && ValidPath(t1, arrays) && q == LeftSibling(arrays))
    ensures t1.Node? && (lc.Some? ==> Ready(t1, t1.height, q, lc.value))
    ensures LeftEnds(Bits32, t1, arrays, q, lc, t') <==>
            t' == LeftTree(Bits32, t1, q, lc) && (arrays == q || !LeftSplits(t1, q, lc))
  {
    hide Shape, Lookup, Owes, LeftSplits, LeftTree, LeftEnds, Ready, ValidPath;
    LeftPhase(Bits32, t1, arrays, q, lc, t');
  }

  /** An edge continuation that cuts no old entry and is not pushed up puts its piece back. */
  lemma EdgePut(t: Tree, h: int, e: Entry)
    requires Shape(t, h) && Proper(e.range) && ToTheEdge(Ins(Bits32, t, h, FULL, e))
    requires var m := Ins(Bits32, t, h, FULL, e);
             && Ready(m.tree, h, m.path, m.conts.right.value)
             && var s := SubAt(m.tree, m.path);
             !Straddled(s, e.range.right + 1) && !Packed(s, m.conts.right.value.valid.left, e.range.right + 1)
    ensures var m := Ins(Bits32, t, h, FULL, e);
            && m.path != [] && m.path[|m.path| - 1] > 0 && m.tree.Node? && m.tree.height == h && Shape(m.tree, h)
            && var r, q := RightPiece(Bits32, m, h).tree, LeftSibling(m.path);
            && RightIsDone(t, e, m.conts.left, PutAt(m.tree, m.path, r), q)
            && Shape(PutAt(m.tree, m.path, r), h)
            && Orderly(m.tree, m.path, r)
            && Up(m.tree, m.path, r) == PutAt(m.tree, m.path, r)
            && LeftPath(m.tree, m.path, r) == q
  {
    hide Ins, Shape, Lookup, Owes, ValidPath, SubAt, PutAt, HasBefore, Straddled, Packed, Covered, Orderly,
      RightIsDone, LeftPath, Up, AtEdge, Pushed, Leads;
    var m := Ins(Bits32, t, h, FULL, e);
    var c, h' := m.conts.right.value, h - |m.path|;
    MainPlace(Bits32, t, h, e);
    EdgePlace(t, h, e);
    OutOfOrder(Bits32, t, h, e);
    EdgeProper(c.valid, PieceOf(c));
    var s, r := SubAt(m.tree, m.path), RightPiece(Bits32, m, h).tree;
    EdgeConts(Bits32, s, h', c.valid, PieceOf(c));
    MainShape(Bits32, s, h', c.valid, PieceOf(c));
    assert Shape(r, h');
    forall x | e.range.right < x <= BYTE_INDEX_MAX
      ensures Lookup(r, x) == Some(c.value)
    {
      EdgePieceLookup(s, h', c, x);
    }
    PutDone(t, h, e, r);
    PutHeight(m.tree, h, m.path, r);
    OrderlyPut(m.tree, h, m.path, r);
    LeftPathUnpushed(m.tree, h, m.path, r);
  }

  /** What Ends says of an edge continuation that goes through old contents. */
  lemma EdgeMeans(t: Tree, h: int, e: Entry, t': Tree)
    requires Shape(t, h) && Proper(e.range) && ToTheEdge(Ins(Bits32, t, h, FULL, e))
    ensures var m := Ins(Bits32, t, h, FULL, e);
            && ValidPath(m.tree, m.path) && m.path != [] && m.path[|m.path| - 1] > 0
            && Ready(m.tree, h, m.path, m.conts.right.value)
            && var r, s, left := RightPiece(Bits32, m, h).tree, SubAt(m.tree, m.path), e.range.right + 1;
            Ends(Bits32, t, h, e, t') <==>
            && !Straddled(s, left) && Orderly(m.tree, m.path, r)
            && LeftEnds(Bits32, Up(m.tree, m.path, r),
                        if Covered(s, left) then m.path else LeftPath(m.tree, m.path, r),
                        if Covered(s, left) then LeftSibling(m.path) else LeftPath(m.tree, m.path, r),
                        m.conts.left, t')
  {
    hide Ins, Shape, Lookup, Owes, HasBefore, Straddled, Packed, Covered, Stops, Orderly,
      LeftSplits, RightIsDone, LeftTree, LeftEnds, LeftPath, Up, AtEdge, Pushed, ValidPath, SubAt, Ready, Leads;
    var m := Ins(Bits32, t, h, FULL, e);
    var c, h' := m.conts.right.value, h - |m.path|;
    MainPlace(Bits32, t, h, e);
    EdgePlace(t, h, e);
    EdgeProper(c.valid, PieceOf(c));
    var s := SubAt(m.tree, m.path);
    EdgeConts(Bits32, s, h', c.valid, PieceOf(c));
    EdgeStops(s, h', c.valid, PieceOf(c));
  }

  /** An edge continuation that goes through old contents. */
  lemma EdgeEnds(t: Tree, h: int, e: Entry, t': Tree)
    requires Shape(t, h) && Proper(e.range) && ToTheEdge(Ins(Bits32, t, h, FULL, e))
    requires var m := Ins(Bits32, t, h, FULL, e);
             ValidPath(m.tree, m.path) && SubAt(m.tree, m.path).Node?
    ensures var m := Ins(Bits32, t, h, FULL, e);
            var c, lc := m.conts.right.value, m.conts.left;
            && Ready(m.tree, h, m.path, c)
            && if !SafeAtEdge(t, h, e) then !Ends(Bits32, t, h, e, t')
               else
                 && m.path != [] && m.path[|m.path| - 1] > 0
                 && var t1, q := PutAt(m.tree, m.path, RightPiece(Bits32, m, h).tree), LeftSibling(m.path);
                 && t1.Node? && RightIsDone(t, e, lc, t1, q) && (lc.Some? ==> Ready(t1, t1.height, q, lc.value))
                 && (Ends(Bits32, t, h, e, t') <==> t' == LeftTree(Bits32, t1, q, lc))
  {
    hide Ins, Shape, Lookup, Owes, ValidPath, SubAt, PutAt, HasBefore, Straddled, Packed, Covered, Stops, Orderly,
      LeftSplits, RightIsDone, LeftTree, LeftEnds, LeftPath, Up, AtEdge, Ready, Pushed, Ends;
    var m := Ins(Bits32, t, h, FULL, e);
    var c, lc, left := m.conts.right.value, m.conts.left, e.range.right + 1;
    EdgeMeans(t, h, e, t');
    SiblingReady(Bits32, t, h, e);
    OutOfOrder(Bits32, t, h, e);
    var s, r := SubAt(m.tree, m.path), RightPiece(Bits32, m, h);
    if !Straddled(s, left) && !Packed(s, c.valid.left, left) {
      EdgePut(t, h, e);
      var t1, q := PutAt(m.tree, m.path, r.tree), LeftSibling(m.path);
      PutSplits(m.tree, h, m.path, r.tree, lc);
      LeftSettles(Bits32, t, e, lc, t1, q, BYTE_INDEX_MIN);
      PutValid(m.tree, m.path, r.tree);
      EdgeLeft(t, e, lc, t1, if Covered(s, left) then m.path else q, q, t');
    }
  }

  /** The tree t1 from which only the left continuation is left to do, at `place`. */
  ghost predicate LeftToDo(w: Width, t: Tree, h: int, e: Entry, t1: Tree, place: seq<nat>)
    requires Shape(t, h) && Proper(e.range)
  {
    hide Ins, Shape, RightIsDone, LeftTree, Ready, Ends;
    var lc := Ins(w, t, h, FULL, e).conts.left;
    && t1.Node? && RightIsDone(t, e, lc, t1, place) && (lc.Some? ==> Ready(t1, t1.height, place, lc.value))
    && forall t' :: Ends(w, t, h, e, t') <==> t' == LeftTree(w, t1, place, lc)
  }

  lemma NoRightEnds(w: Width, t: Tree, h: int, e: Entry)
    requires Shape(t, h) && Proper(e.range) && Ins(w, t, h, FULL, e).conts.right.None?
    ensures var m := Ins(w, t, h, FULL, e);
            LeftToDo(w, t, h, e, m.tree, m.path)
  {
    hide Ins, Shape, Lookup, Owes, LeftTree, LeftEnds, Ready, LeftSplits;
    var m := Ins(w, t, h, FULL, e);
    NoRight(w, t, h, e);
    LeftReadyAt(m.tree, m.path, m.conts.left);
    forall t'
      ensures Ends(w, t, h, e, t') <==> t' == LeftTree(w, m.tree, m.path, m.conts.left)
    {
      LeftPhase(w, m.tree, m.path, m.path, m.conts.left, t');
    }
  }

  lemma OwedToDo(w: Width, t: Tree, h: int, e: Entry)
    requires Shape(t, h) && Proper(e.range) && Ins(w, t, h, FULL, e).conts.right.Some?
    requires var m := Ins(w, t, h, FULL, e);
             Owes(m.tree, FULL.left, FULL.right, m.path, m.conts.right.value)
    ensures exists t1, place :: LeftToDo(w, t, h, e, t1, place)
  {
    hide Ins, Shape, Lookup, Owes, LeftTree, Ends, Continued, LeftPath, Piece, ValidPath, SubAt;
    var m := Ins(w, t, h, FULL, e);
    var c := m.conts.right.value;
    OwedRight(w, t, h, e);
    var t1, q := Continued(w, m.tree, h, m.path, c), LeftPath(m.tree, m.path, Piece(w, m.tree, h, m.path, c));
    LeftReadyAt(t1, q, m.conts.left);
    forall t'
      ensures Ends(w, t, h, e, t') <==> t' == LeftTree(w, t1, q, m.conts.left)
    {
      OwedEnds(w, t, h, e, t');
    }
    assert LeftToDo(w, t, h, e, t1, q);
  }

  lemma SafeToDo(t: Tree, h: int, e: Entry)
    requires Shape(t, h) && Proper(e.range)
    ensures SafeAtEdge(t, h, e) ==> exists t1, place :: LeftToDo(Bits32, t, h, e, t1, place)
    ensures !SafeAtEdge(t, h, e) ==> forall t' :: !Ends(Bits32, t, h, e, t')
  {
    hide Ins, Shape, Lookup, Owes, LeftTree, Ready, Ends, RightIsDone, ValidPath, SubAt, PutAt, RightPiece, SafeAtEdge, Opens, Leads;
    var m := Ins(Bits32, t, h, FULL, e);
    MainShape(Bits32, t, h, FULL, e);
    OffEdgeSafe(t, h, e);
    EdgeCont(t, h, FULL, e);
    if m.conts.right.None? {
      NoRightEnds(Bits32, t, h, e);
    } else if !ToTheEdge(m) {
      OwedToDo(Bits32, t, h, e);
    } else {
      EdgePlace(t, h, e);
      if SubAt(m.tree, m.path).Nil? {
        NilOwes(t, h, e);
        OwedToDo(Bits32, t, h, e);
      } else {
        EdgeToDo(t, h, e);
      }
    }
  }

  /** Away from the edge there is no condition, nor when the piece goes below a leaf. */
  lemma OffEdgeSafe(t: Tree, h: int, e: Entry)
    requires Shape(t, h) && Proper(e.range)
    ensures var m := Ins(Bits32, t, h, FULL, e);
            && (!ToTheEdge(m) ==> SafeAtEdge(t, h, e))
            && (ToTheEdge(m) ==> ValidPath(m.tree, m.path))
            && (ToTheEdge(m) && SubAt(m.tree, m.path).Nil? ==> SafeAtEdge(t, h, e))
  {
    hide Ins, Shape, Owes, Ready, ValidPath, SubAt, LeftSplits;
    if ToTheEdge(Ins(Bits32, t, h, FULL, e)) {
      EdgePlace(t, h, e);
    }
  }

  lemma NilOwes(t: Tree, h: int, e: Entry)
    requires Shape(t, h) && Proper(e.range) && ToTheEdge(Ins(Bits32, t, h, FULL, e))
    requires var m := Ins(Bits32, t, h, FULL, e);
             ValidPath(m.tree, m.path) && SubAt(m.tree, m.path).Nil?
    ensures var m := Ins(Bits32, t, h, FULL, e);
            Owes(m.tree, FULL.left, FULL.right, m.path, m.conts.right.value)
  {
    hide Ins, Shape, Leads, ValidPath, SubAt;
    var m := Ins(Bits32, t, h, FULL, e);
    EdgePlace(t, h, e);
    assert Opens(Nil, m.conts.right.value, e.range.right + 1, BYTE_INDEX_MAX);
  }

  lemma EdgeToDo(t: Tree, h: int, e: Entry)
    requires Shape(t, h) && Proper(e.range) && ToTheEdge(Ins(Bits32, t, h, FULL, e))
    requires var m := Ins(Bits32, t, h, FULL, e);
             ValidPath(m.tree, m.path) && SubAt(m.tree, m.path).Node?
    ensures SafeAtEdge(t, h, e) ==> exists t1, place :: LeftToDo(Bits32, t, h, e, t1, place)
    ensures !SafeAtEdge(t, h, e) ==> forall t' :: !Ends(Bits32, t, h, e, t')
  {
    hide Ins, Shape, Lookup, Owes, LeftTree, Ready, Ends, RightIsDone, ValidPath, SubAt, PutAt, RightPiece, SafeAtEdge;
    var m := Ins(Bits32, t, h, FULL, e);
    EdgeEnds(t, h, e, t);
    if SafeAtEdge(t, h, e) {
      var t1, q := PutAt(m.tree, m.path, RightPiece(Bits32, m, h).tree), LeftSibling(m.path);
      forall t'
        ensures Ends(Bits32, t, h, e, t') <==> t' == LeftTree(Bits32, t1, q, m.conts.left)
      {
        EdgeEnds(t, h, e, t');
      }
      assert LeftToDo(Bits32, t, h, e, t1, q);
    } else {
      forall t'
        ensures !Ends(Bits32, t, h, e, t')
      {
        EdgeEnds(t, h, e, t');
      }
    }
  }

  lemma ToDoSettles(w: Width, t: Tree, h: int, e: Entry, t1: Tree, place: seq<nat>)
    requires Shape(t, h) && Proper(e.range) && LeftToDo(w, t, h, e, t1, place)
    ensures exists t' :: Ends(w, t, h, e, t')
    ensures forall t', b :: Ends(w, t, h, e, t') && IsByte(b) ==>
                              t'.Node? && Shape(t', t'.height) && Lookup(t', b) == After(t, e, b)
  {
    hide Ins, Shape, Lookup, LeftTree, Ready, Ends, RightIsDone;
    var lc := Ins(w, t, h, FULL, e).conts.left;
    assert Ends(w, t, h, e, LeftTree(w, t1, place, lc));
    forall t', b | Ends(w, t, h, e, t') && IsByte(b)
      ensures t'.Node? && Shape(t', t'.height) && Lookup(t', b) == After(t, e, b)
    {
      LeftSettles(w, t, e, lc, t1, place, b);
    }
  }

  /** A write with 32-bit indices ends well if and only if it is safe at the edge. */
  lemma EndsIfSafe(t: Tree, h: int, e: Entry)
    requires Shape(t, h) && Proper(e.range)
    ensures (exists t' :: Ends(Bits32, t, h, e, t')) <==> SafeAtEdge(t, h, e)
  {
    hide Ins, Shape, Ends, SafeAtEdge, LeftToDo;
    SafeToDo(t, h, e);
    if SafeAtEdge(t, h, e) {
      var t1, place :| LeftToDo(Bits32, t, h, e, t1, place);
      ToDoSettles(Bits32, t, h, e, t1, place);
    }
  }

  /** And then it has done what a write is for: the bytes of the range have the value, all others
      keep theirs. */
  lemma EndsCorrect(t: Tree, h: int, e: Entry, t': Tree, b: int)
    requires Shape(t, h) && Proper(e.range) && Ends(Bits32, t, h, e, t') && IsByte(b)
    ensures t'.Node? && Shape(t', t'.height)
    ensures Lookup(t', b) == if e.range.left <= b <= e.range.right then Some(e.value) else Lookup(t, b)
  {
    hide Ins, Shape, Ends, SafeAtEdge, LeftToDo, Lookup;
    SafeToDo(t, h, e);
    var t1, place :| LeftToDo(Bits32, t, h, e, t1, place);
    ToDoSettles(Bits32, t, h, e, t1, place);
  }

  /** A write ends in one way only. */
  lemma EndsOnce(t: Tree, h: int, e: Entry, t': Tree, t'': Tree)
    requires Shape(t, h) && Proper(e.range) && Ends(Bits32, t, h, e, t') && Ends(Bits32, t, h, e, t'')
    ensures t' == t''
  {
    hide Ins, Shape, Ends, SafeAtEdge, RightIsDone, LeftTree, Ready;
    SafeToDo(t, h, e);
    var t1, place :| LeftToDo(Bits32, t, h, e, t1, place);
  }

  /** Where the left continuation starts once the right one is done, and what the path arrays hold:
      the same, unless the right continuation has overwritten entries. */
  ghost predicate LeftStarts(w: Width, t: Tree, h: int, e: Entry, t1: Tree, arrays: seq<nat>, place: seq<nat>)
    requires Shape(t, h) && Proper(e.range)
  {
    hide Ins, Shape, Up, Stops, LeftPath;
    var m := Ins(w, t, h, FULL, e);
    if m.conts.right.None? then t1 == m.tree && arrays == place == m.path
    else
      && m.path != [] && m.path[|m.path| - 1] > 0 && Ready(m.tree, h, m.path, m.conts.right.value)
      && var r, c := RightPiece(w, m, h).tree, m.conts.right.value;
      && t1 == Up(m.tree, m.path, r)
      && if Stops(SubAt(m.tree, m.path), h - |m.path|, c.valid, PieceOf(c)) then arrays == m.path && place == LeftSibling(m.path)
         else arrays == place == LeftPath(m.tree, m.path, r)
  }

  /** A write that ends well gets to the left continuation with all other bytes settled, and if the
      path arrays do not lead to its place then no split gets up to there. */
  ghost predicate LeftCanEnd(t: Tree, e: Entry, lc: Option<Cont>, t1: Tree, arrays: seq<nat>, place: seq<nat>, w: Width, t': Tree) {
    hide Shape, RightIsDone, LeftTree, Ready, LeftSplits;
    && RightIsDone(t, e, lc, t1, place) && t1.Node? && (lc.Some? ==> Ready(t1, t1.height, place, lc.value))
    && (arrays == place || !LeftSplits(t1, place, lc)) && t' == LeftTree(w, t1, place, lc)
  }

  lemma EndsParts(w: Width, t: Tree, h: int, e: Entry, t': Tree, t1: Tree, arrays: seq<nat>, place: seq<nat>)
    requires Shape(t, h) && Proper(e.range) && Ends(w, t, h, e, t') && LeftStarts(w, t, h, e, t1, arrays, place)
    ensures LeftCanEnd(t, e, Ins(w, t, h, FULL, e).conts.left, t1, arrays, place, w, t')
  {
    hide Ins, Shape, Owes, Opens, Leads, Lookup, Ready, RightPiece, Ends, LeftStarts, LeftCanEnd, ValidPath, SubAt;
    var m := Ins(w, t, h, FULL, e);
    MainShape(w, t, h, FULL, e);
    EdgeCont(t, h, FULL, e);
    if m.conts.right.None? {
      AlonePart(w, t, h, e, t', t1, arrays, place);
    } else if EdgeFree(w, m.conts) {
      OwedPart(w, t, h, e, t', t1, arrays, place);
    } else {
      EdgePlace(t, h, e);
      if SubAt(m.tree, m.path).Nil? {
        NilOwes(t, h, e);
        OwedPart(w, t, h, e, t', t1, arrays, place);
      } else {
        EdgePart(t, h, e, t', t1, arrays, place);
      }
    }
  }

  lemma AlonePart(w: Width, t: Tree, h: int, e: Entry, t': Tree, t1: Tree, arrays: seq<nat>, place: seq<nat>)
    requires Shape(t, h) && Proper(e.range) && Ends(w, t, h, e, t') && LeftStarts(w, t, h, e, t1, arrays, place)
    requires Ins(w, t, h, FULL, e).conts.right.None?
    ensures LeftCanEnd(t, e, Ins(w, t, h, FULL, e).conts.left, t1, arrays, place, w, t')
  {
    hide Ins, Shape, Lookup, Owes, LeftTree, LeftEnds, Ready, LeftSplits;
    var m := Ins(w, t, h, FULL, e);
    NoRight(w, t, h, e);
    LeftPhase(w, m.tree, m.path, m.path, m.conts.left, t');
  }

  lemma OwedPart(w: Width, t: Tree, h: int, e: Entry, t': Tree, t1: Tree, arrays: seq<nat>, place: seq<nat>)
    requires Shape(t, h) && Proper(e.range) && Ends(w, t, h, e, t') && LeftStarts(w, t, h, e, t1, arrays, place)
    requires Ins(w, t, h, FULL, e).conts.right.Some?
    requires var m := Ins(w, t, h, FULL, e);
             Owes(m.tree, FULL.left, FULL.right, m.path, m.conts.right.value)
    ensures LeftCanEnd(t, e, Ins(w, t, h, FULL, e).conts.left, t1, arrays, place, w, t')
  {
    hide Ins, Shape, Lookup, Owes, LeftTree, Ends, Stops, LeftSplits, LeftPath, Up, ValidPath, SubAt, Orderly;
    var m := Ins(w, t, h, FULL, e);
    MainPlace(w, t, h, e);
    OwedRight(w, t, h, e);
    OwedRightOrderly(w, m.tree, h, m.path, m.conts.right.value);
    OwedEnds(w, t, h, e, t');
  }

  lemma EdgePart(t: Tree, h: int, e: Entry, t': Tree, t1: Tree, arrays: seq<nat>, place: seq<nat>)
    requires Shape(t, h) && Proper(e.range) && Ends(Bits32, t, h, e, t') && LeftStarts(Bits32, t, h, e, t1, arrays, place)
    requires ToTheEdge(Ins(Bits32, t, h, FULL, e))
    requires var m := Ins(Bits32, t, h, FULL, e);
             ValidPath(m.tree, m.path) && SubAt(m.tree, m.path).Node?
    ensures LeftCanEnd(t, e, Ins(Bits32, t, h, FULL, e).conts.left, t1, arrays, place, Bits32, t')
  {
    hide Ins, Shape, Lookup, Owes, LeftTree, Ends, Stops, LeftSplits, LeftPath, Up, ValidPath, SubAt, PutAt, Orderly, Straddled, Packed, Covered,
      RightIsDone, HasBefore, Leads, AtEdge, Ready;
    var m := Ins(Bits32, t, h, FULL, e);
    var c, left := m.conts.right.value, e.range.right + 1;
    EdgePlace(t, h, e);
    EdgeEnds(t, h, e, t');
    EdgeProper(c.valid, PieceOf(c));
    EdgeStops(SubAt(m.tree, m.path), h - |m.path|, c.valid, PieceOf(c));
    EdgePut(t, h, e);
    SiblingReady(Bits32, t, h, e);
    PutSplits(m.tree, h, m.path, RightPiece(Bits32, m, h).tree, m.conts.left);
  }
}
