/** The way down of an insertion, one node at a time. */
module FigDescent {
  import opened Intervals
  import opened FigTrees
  import opened FigPrune
  import opened FigInsert
  import opened FigAbsorb
  import opened FigPaths
  import opened FigWrite
  import opened FigMemory
  import opened FigPathOps
  import opened FigClimb
  import opened FigSpine

  /** What can be said of the bytes of `valid`: they surround the range, or lie beside it; and what
      is said of a place without entries does not matter. */
  ghost predicate Sound(s: Tree, valid: Interval, r: Interval) {
    Bare(s) || Beside(valid, r) || (Proper(valid) && ContainsInt(valid, r))
  }

  /** Each level takes what comes up to it from an insertion below. */
  lemma InsAbsorbable(w: Width, t: Tree, h: int, valid: Interval, e: Entry)
    requires t.Node? && Shape(t, h) && ProperOrEmpty(valid) && Proper(e.range) && Sound(t, valid, e.range)
    ensures var s := Pruned(t, h, valid);
            var i := Below(s.entries, e.range.left);
            i >= Upto(s.entries, e.range.right) && s.Node? && |s.subs| == |s.entries| + 1 ==>
              && Shape(s.subs[i], h - 1) && Sound(s.subs[i], GapValid(s.entries, i, valid), e.range)
              && Absorbable(s, i, Ins(w, s.subs[i], h - 1, GapValid(s.entries, i, valid), e).tree)
  {
    hide Pruned, Ins, Absorb;
    var s := Pruned(t, h, valid);
    PrunedShape(t, h, valid);
    var i := Below(s.entries, e.range.left);
    if i >= Upto(s.entries, e.range.right) {
      var v := GapValid(s.entries, i, valid);
      if Bare(t) {
        BarePruned(t, h, valid);
        BareIns(w, s.subs[i], h - 1, v, e);
        ContShape(w, s.subs[i], h - 1, EMPTY, e, e.range.left, e.range.right);
      } else if Beside(valid, e.range) {
        ContGap(s.entries, valid, e.range, BYTE_INDEX_MIN, BYTE_INDEX_MAX);
        ContShape(w, s.subs[i], h - 1, v, e, GapLo(s.entries, i, BYTE_INDEX_MIN), GapHi(s.entries, i, BYTE_INDEX_MAX));
        FitsAbsorbable(s, h, BYTE_INDEX_MIN, BYTE_INDEX_MAX, i, Ins(w, s.subs[i], h - 1, v, e).tree);
      } else {
        MainGap(s.entries, valid, e.range);
        MainShape(w, s.subs[i], h - 1, v, e);
        FitsAbsorbable(s, h, valid.left, valid.right, i, Ins(w, s.subs[i], h - 1, v, e).tree);
      }
    }
  }

  /** An insertion of e that has come down the path p in t will have the result `goal`. */
  ghost predicate Heading(w: Width, t: Tree, p: seq<nat>, valid: Interval, e: Entry, goal: Insertion) {
    && t.Node? && Shape(t, t.height) && ValidPath(t, p) && Shape(SubAt(t, p), t.height - |p|)
    && ProperOrEmpty(valid) && Proper(e.range) && Sound(SubAt(t, p), valid, e.range)
    && Orderly(t, p, Ins(w, SubAt(t, p), t.height - |p|, valid, e).tree)
    && goal == Extended(t, p, Ins(w, SubAt(t, p), t.height - |p|, valid, e))
  }

  /** The result of an insertion below p, seen from the top. */
  ghost function Extended(t: Tree, p: seq<nat>, r: Insertion): Insertion
    requires ValidPath(t, p)
  {
    Insertion(Up(t, p, r.tree), p + r.path, r.conts)
  }

  lemma HeadingDepth(w: Width, t: Tree, p: seq<nat>, valid: Interval, e: Entry, goal: Insertion)
    requires Heading(w, t, p, valid, e, goal)
    ensures |p| <= t.height + 1
    ensures SubAt(t, p).Node? <==> |p| <= t.height
    ensures SubAt(t, p).Node? ==> SubAt(t, p).height == t.height - |p| && Shape(SubAt(t, p), SubAt(t, p).height)
  {
  }

  /** The node at the end of the path has been pruned. */
  lemma PrunedPlace(t: Tree, p: seq<nat>, valid: Interval)
    requires t.Node? && Shape(t, t.height) && ValidPath(t, p) && ProperOrEmpty(valid)
    requires SubAt(t, p).Node? && Shape(SubAt(t, p), t.height - |p|)
    ensures var s := Pruned(SubAt(t, p), t.height - |p|, valid);
            var t' := PutAt(t, p, s);
            && s.Node? && Shape(s, t.height - |p|) && Within(s.entries, valid.left, valid.right)
            && t'.Node? && t'.height == t.height && Shape(t', t'.height) && ValidPath(t', p) && SubAt(t', p) == s
  {
    hide Pruned;
    var s := Pruned(SubAt(t, p), t.height - |p|, valid);
    PrunedShape(SubAt(t, p), t.height - |p|, valid);
    PutShape(t, t.height, p, s);
    PutValid(t, p, s);
    assert p == [] ==> SubAt(t, p) == t;
  }

  /** No entry overlaps: the insertion goes on in gap i. */
  lemma HeadingStep(w: Width, t: Tree, p: seq<nat>, valid: Interval, e: Entry, goal: Insertion)
    requires Heading(w, t, p, valid, e, goal) && SubAt(t, p).Node?
    requires var s := Pruned(SubAt(t, p), t.height - |p|, valid);
             s.Node? && Below(s.entries, e.range.left) >= Upto(s.entries, e.range.right)
    ensures var s := Pruned(SubAt(t, p), t.height - |p|, valid);
            var i := Below(s.entries, e.range.left);
            && ValidPath(PutAt(t, p, s), p + [i]) && i <= |s.entries|
            && Heading(w, PutAt(t, p, s), p + [i], GapValid(s.entries, i, valid), e, goal)
  {
    hide Pruned, Absorb, Up, Shape, Sound, Sorted, Orderly, Absorbable;
    var h := t.height - |p|;
    var s := Pruned(SubAt(t, p), h, valid);
    var t', i := PutAt(t, p, s), Below(s.entries, e.range.left);
    PrunedPlace(t, p, valid);
    ShapeGap(s, h, i);
    InsAbsorbable(w, SubAt(t, p), h, valid, e);
    assert [i][1..] == [];
    AppendPath(t', p, [i]);
    var r := Ins(w, s.subs[i], h - 1, GapValid(s.entries, i, valid), e);
    UpSnoc(t', p, i, r.tree);
    UpPut(t, p, s, Absorb(s, i, r.tree));
    OrderlyIgnores(t, p, s, Absorb(s, i, r.tree));
    OrderlySnoc(t', p, i, r.tree);
    assert p + ([i] + r.path) == (p + [i]) + r.path;
  }

  lemma OrderlySnoc(t: Tree, p: seq<nat>, i: nat, c: Tree)
    requires ValidPath(t, p) && ValidPath(SubAt(t, p), [i])
    ensures ValidPath(t, p + [i])
    ensures Orderly(t, p + [i], c) <==> Orderly(t, p, Absorb(SubAt(t, p), i, c)) && Absorbable(SubAt(t, p), i, c)
  {
    hide Absorb, Absorbable;
    assert [i][1..] == [];
    OrderlyAppend(t, p, [i], c);
  }

  lemma ShapeGap(s: Tree, h: int, i: nat)
    requires s.Node? && Shape(s, h) && i <= |s.entries|
    ensures Sorted(s.entries) && |s.entries| < FT_SPLITLIMIT && |s.subs| == |s.entries| + 1 && Shape(s.subs[i], h - 1)
  {
  }

  /** The insertion of e ends at the place p leads to, where the pruned node is overwritten. */
  ghost predicate OverwrittenAt(w: Width, t: Tree, p: seq<nat>, valid: Interval, e: Entry, goal: Insertion) {
    && t.Node? && ValidPath(t, p) && SubAt(t, p).Node? && Shape(SubAt(t, p), t.height - |p|) && ProperOrEmpty(valid)
    && var s := Pruned(SubAt(t, p), t.height - |p|, valid);
    && s.Node? && |s.subs| == |s.entries| + 1
    && var i, j := Below(s.entries, e.range.left), Upto(s.entries, e.range.right);
    && i < j
    && var o := Overwrite(w, s, valid, e, i, j);
    Shape(o.tree, t.height - |p|) && goal == Insertion(PutAt(t, p, o.tree), p + o.path, o.conts)
  }

  /** Entries overlap: the insertion ends here, with an overwritten node. */
  lemma HeadingOverlap(w: Width, t: Tree, p: seq<nat>, valid: Interval, e: Entry, goal: Insertion)
    requires Heading(w, t, p, valid, e, goal) && SubAt(t, p).Node?
    requires var s := Pruned(SubAt(t, p), t.height - |p|, valid);
             s.Node? && Below(s.entries, e.range.left) < Upto(s.entries, e.range.right)
    ensures OverwrittenAt(w, t, p, valid, e, goal)
  {
    hide Pruned, Absorb, Up, Run, LeftCont, RightCont, Orderly, Sound, Replaced, Shape, Sorted, Below, Upto;
    var h := t.height - |p|;
    var s := Pruned(SubAt(t, p), h, valid);
    PrunedPlace(t, p, valid);
    ShapeGap(s, h, 0);
    OverlapTree(w, s, h, valid, e);
    InsStep(w, SubAt(t, p), h, valid, e);
    UpIsPut(t, t.height, p, Ins(w, SubAt(t, p), h, valid, e).tree);
  }

  lemma OverlapTree(w: Width, s: Tree, h: int, valid: Interval, e: Entry)
    requires s.Node? && Shape(s, h) && Proper(e.range) && Below(s.entries, e.range.left) < Upto(s.entries, e.range.right)
    ensures |s.subs| == |s.entries| + 1
    ensures var o := Overwrite(w, s, valid, e, Below(s.entries, e.range.left), Upto(s.entries, e.range.right));
            Shape(o.tree, h) && !Pushed(o.tree, h)
  {
    hide Run, LeftCont, RightCont, Replaced;
    RunOf(s.entries, e.range);
    ReplacedShape(s, h, Below(s.entries, e.range.left), Upto(s.entries, e.range.right), e);
  }

  /** Below a leaf: what is left to do is to insert there. */
  lemma HeadingLeaf(w: Width, t: Tree, p: seq<nat>, valid: Interval, e: Entry, goal: Insertion)
    requires Heading(w, t, p, valid, e, goal) && SubAt(t, p).Nil?
    ensures goal == Insertion(Up(t, p, Fresh(e)), p, NO_CONTS) && CanClimb(t, p, e)
  {
    assert p + [] == p;
  }
}
