/** A continuation that puts back the last byte index, when it runs through old contents: it goes
    down the right spine of a subtree. */
module FigSpine {
  import opened Intervals
  import opened FigTrees
  import opened FigPrune
  import opened FigInsert

  function Last(es: seq<Entry>): Interval
    requires es != []
  {
    es[|es| - 1].range
  }

  /** On the way down the spine, the first entry that reaches `left` starts before it. */
  predicate Straddled(s: Tree, left: int) {
    && s.Node? && |s.subs| == |s.entries| + 1
    && if s.entries != [] && Last(s.entries).right >= left then
         exists k :: 0 <= k < |s.entries| && s.entries[k].range.left < left <= s.entries[k].range.right
       else (s.entries != [] ==> Last(s.entries).right + 1 < left) && Straddled(s.subs[|s.subs| - 1], left)
  }

  /** Some entry on the spine reaches `left`. */
  predicate Covered(s: Tree, left: int) {
    && s.Node? && |s.subs| == |s.entries| + 1
    && ((s.entries != [] && Last(s.entries).right >= left) || Covered(s.subs[|s.subs| - 1], left))
  }

  /** Every node on the spine is full with entries before `left`, even without the bytes
      before `from`. */
  predicate Packed(s: Tree, from: int, left: int) {
    s.Node? ==>
      && |s.subs| == |s.entries| + 1 == FT_SPLITLIMIT
      && from <= s.entries[0].range.right && Last(s.entries).right < left
      && Packed(s.subs[|s.subs| - 1], Last(s.entries).right + 1, left)
  }

  /** The insertion overwrites entries, and does not get below a leaf. */
  ghost predicate Stops(t: Tree, h: int, valid: Interval, e: Entry)
    requires Shape(t, h) && ProperOrEmpty(valid) && Proper(e.range)
    decreases h + 1
  {
    && t.Node?
    && var p := Pruned(t, h, valid);
    var i := Below(p.entries, e.range.left);
    (i < Upto(p.entries, e.range.right) ||
     (PrunedShape(t, h, valid); Stops(p.subs[i], h - 1, GapValid(p.entries, i, valid), e)))
  }

  /** The piece reaches the last byte index, and the bytes that are said to be reachable do, too. */
  predicate AtEdge(valid: Interval, e: Entry) {
    Proper(valid) && Proper(e.range) && valid.left <= e.range.left && valid.right == e.range.right == BYTE_INDEX_MAX
  }

  /** pe is the end of es that reaches `valid`, cut off on the left. */
  predicate EndOf(pe: seq<Entry>, es: seq<Entry>, valid: Interval) {
    && |pe| <= |es|
    && (forall k :: 0 <= k < |pe| ==> pe[k] == Clip(es[k + |es| - |pe|], valid) && es[k + |es| - |pe|].range.right >= valid.left)
    && (forall k :: 0 <= k < |es| - |pe| ==> es[k].range.right < valid.left)
  }

  lemma KeptEnd(es: seq<Entry>, valid: Interval)
    requires Sorted(es) && Proper(valid) && valid.right == BYTE_INDEX_MAX
    ensures Below(es, valid.left) <= Upto(es, valid.right) == |es|
    ensures EndOf(ClipAll(Kept(es, valid), valid), es, valid)
  {
    UptoIs(es, valid.right, |es|);
    assert Kept(es, valid) == es[Below(es, valid.left)..];
    forall k | Below(es, valid.left) <= k < |es|
      ensures es[k].range.right >= valid.left
    {
    }
  }

  /** Pruning at the last byte index keeps the end of the node. */
  lemma PrunedEnd(s: Tree, h: int, valid: Interval)
    requires s.Node? && Shape(s, h) && Proper(valid) && valid.right == BYTE_INDEX_MAX
    ensures var p := Pruned(s, h, valid);
            && p.Node? && Shape(p, h) && |p.subs| == |p.entries| + 1 && |s.subs| == |s.entries| + 1 <= FT_SPLITLIMIT
            && p.subs[|p.entries|] == s.subs[|s.entries|]
            && EndOf(p.entries, s.entries, valid) && Sorted(p.entries) && Sorted(s.entries)
  {
    hide EndOf;
    PrunedShape(s, h, valid);
    KeptEnd(s.entries, valid);
  }

  /** The entries of one node of the spine. */
  lemma EdgeEntries(pe: seq<Entry>, es: seq<Entry>, valid: Interval, e: Entry)
    requires EndOf(pe, es, valid) && Sorted(pe) && Sorted(es) && AtEdge(valid, e)
    ensures Upto(pe, e.range.right) == |pe|
    ensures Below(pe, e.range.left) < |pe| <==> es != [] && Last(es).right >= e.range.left
    ensures |pe| > 0 ==> es != [] && pe[|pe| - 1].range.right == Last(es).right >= valid.left
    ensures |pe| == 0 && es != [] ==> Last(es).right < valid.left
    ensures |pe| == |es| <==> es == [] || valid.left <= es[0].range.right
  {
    UptoIs(pe, e.range.right, |pe|);
    if |pe| > 0 {
      assert pe[|pe| - 1] == Clip(es[|es| - 1], valid);
      assert pe[0] == Clip(es[|es| - |pe|], valid);
    }
  }

  /** The gap behind the last entry. */
  lemma EdgeGap(pe: seq<Entry>, valid: Interval, e: Entry)
    requires Sorted(pe) && AtEdge(valid, e) && Below(pe, e.range.left) == |pe| && (pe != [] ==> pe[|pe| - 1].range.right >= valid.left)
    ensures var v := GapValid(pe, |pe|, valid);
            AtEdge(v, e) && v.left == if pe == [] then valid.left else pe[|pe| - 1].range.right + 1
  {
  }

  /** One node of the spine. */
  lemma EdgeNode(s: Tree, h: int, valid: Interval, e: Entry)
    requires s.Node? && Shape(s, h) && AtEdge(valid, e)
    ensures var p, left := Pruned(s, h, valid), e.range.left;
            var n := |p.entries|;
            && p.Node? && Shape(p, h) && |p.subs| == n + 1 && Upto(p.entries, e.range.right) == n
            && |s.subs| == |s.entries| + 1 && p.subs[n] == s.subs[|s.subs| - 1]
            && (Below(p.entries, left) < n <==> s.entries != [] && Last(s.entries).right >= left)
            && (n == FT_SPLITLIMIT - 1 <==> |s.entries| == FT_SPLITLIMIT - 1 && valid.left <= s.entries[0].range.right)
            && (n > 0 ==> s.entries != [] && p.entries[n - 1].range.right == Last(s.entries).right >= valid.left)
            && (n == 0 ==> s.entries != [] ==> Last(s.entries).right < valid.left)
            && (Below(p.entries, left) == n ==>
                  var v := GapValid(p.entries, n, valid);
                  && AtEdge(v, e)
                  && v.left == if n == 0 then valid.left else Last(s.entries).right + 1)
  {
    hide Pruned, Shape, Sorted, GapValid, AtEdge;
    EdgeProper(valid, e);
    PrunedEnd(s, h, valid);
    var p := Pruned(s, h, valid);
    EdgeEntries(p.entries, s.entries, valid, e);
    hide EndOf;
    if Below(p.entries, e.range.left) == |p.entries| {
      EdgeGap(p.entries, valid, e);
    }
  }

  lemma EdgeProper(valid: Interval, e: Entry)
    requires AtEdge(valid, e)
    ensures Proper(valid) && Proper(e.range) && valid.right == BYTE_INDEX_MAX && valid.left <= e.range.left
  {
  }

  /** At a node with an entry that reaches the piece, there is something left over on the left
      exactly when that entry is straddled. */
  lemma EdgeOverlap(w: Width, s: Tree, h: int, valid: Interval, e: Entry)
    requires s.Node? && Shape(s, h) && AtEdge(valid, e) && s.entries != [] && Last(s.entries).right >= e.range.left
    ensures var p := Pruned(s, h, valid);
            var i, n := Below(p.entries, e.range.left), |p.entries|;
            && i < n && |p.subs| == n + 1
            && var c := Overwrite(w, p, valid, e, i, n).conts;
            && c.right.None?
            && (c.left.None? <==> valid.left == e.range.left || !Straddled(s, e.range.left))
  {
    hide Pruned, Replaced;
    EdgeNode(s, h, valid, e);
    PrunedEnd(s, h, valid);
    var p, left := Pruned(s, h, valid), e.range.left;
    var i, d := Below(p.entries, left), |s.entries| - |p.entries|;
    assert p.entries[i] == Clip(s.entries[i + d], valid);
    assert Proper(p.entries[|p.entries| - 1].range);
    if k :| 0 <= k < |s.entries| && s.entries[k].range.left < left <= s.entries[k].range.right {
      assert k >= d && p.entries[k - d] == Clip(s.entries[k], valid);
      assert k == i + d;
    }
  }

  lemma InsStep(w: Width, t: Tree, h: int, valid: Interval, e: Entry)
    requires t.Node? && Shape(t, h) && ProperOrEmpty(valid) && Proper(e.range)
    ensures var p := Pruned(t, h, valid);
            && p.Node? && |p.subs| == |p.entries| + 1 && |p.entries| < FT_SPLITLIMIT
            && var i, j := Below(p.entries, e.range.left), Upto(p.entries, e.range.right);
            if i < j then Ins(w, t, h, valid, e) == Overwrite(w, p, valid, e, i, j)
            else
              && Shape(p.subs[i], h - 1)
              && var below := Ins(w, p.subs[i], h - 1, GapValid(p.entries, i, valid), e);
              Ins(w, t, h, valid, e) == Insertion(Absorb(p, i, below.tree), [i] + below.path, below.conts)
  {
    hide Pruned, Absorb, Overwrite;
    PrunedShape(t, h, valid);
  }

  /** Such a continuation wants a continuation of its own if and only if an entry is straddled. */
  lemma {:induction false} EdgeConts(w: Width, s: Tree, h: int, valid: Interval, e: Entry)
    requires Shape(s, h) && AtEdge(valid, e)
    ensures Ins(w, s, h, valid, e).conts == NO_CONTS <==> valid.left == e.range.left || !Straddled(s, e.range.left)
    ensures Ins(w, s, h, valid, e).conts.right.None?
    decreases h + 1
  {
    hide Pruned, Absorb, Overwrite, Ins, Shape, Sorted;
    if s.Node? {
      InsStep(w, s, h, valid, e);
      EdgeNode(s, h, valid, e);
      SpineLined(s, h);
      if s.entries != [] && Last(s.entries).right >= e.range.left {
        EdgeOverlap(w, s, h, valid, e);
      } else {
        var p := Pruned(s, h, valid);
        EdgeConts(w, p.subs[|p.entries|], h - 1, GapValid(p.entries, |p.entries|, valid), e);
        SpineStraddled(s, h, valid.left, e.range.left);
      }
    } else {
      InsNil(w, s, h, valid, e);
    }
  }

  lemma InsNil(w: Width, t: Tree, h: int, valid: Interval, e: Entry)
    requires t.Nil? && Shape(t, h) && ProperOrEmpty(valid) && Proper(e.range)
    ensures Ins(w, t, h, valid, e) == Insertion(Fresh(e), [], NO_CONTS) && h == -1
  {
  }

  /** Where no entry of the node reaches `left`, the next node of the spine decides. */
  lemma SpineStraddled(s: Tree, h: int, from: int, left: int)
    requires s.Node? && Shape(s, h) && (s.entries != [] ==> Last(s.entries).right < left) && from <= left
    ensures |s.subs| > 0
    ensures var v := if s.entries == [] || Last(s.entries).right < from then from else Last(s.entries).right + 1;
            v == left || !Straddled(s.subs[|s.subs| - 1], left) <==> from == left || !Straddled(s, left)
  {
  }

  lemma {:induction false} EdgeStops(s: Tree, h: int, valid: Interval, e: Entry)
    requires Shape(s, h) && AtEdge(valid, e)
    ensures Stops(s, h, valid, e) <==> Covered(s, e.range.left)
    decreases h + 1
  {
    hide Pruned, Shape, Sorted;
    if s.Node? {
      EdgeNode(s, h, valid, e);
      SpineLined(s, h);
      if !(s.entries != [] && Last(s.entries).right >= e.range.left) {
        var p := Pruned(s, h, valid);
        SpineSub(p, h);
        EdgeStops(p.subs[|p.entries|], h - 1, GapValid(p.entries, |p.entries|, valid), e);
      }
    }
  }

  lemma SpineLined(s: Tree, h: int)
    requires s.Node? && Shape(s, h)
    ensures |s.subs| == |s.entries| + 1 && |s.entries| < FT_SPLITLIMIT && h >= 0
  {
  }

  lemma SpineSub(s: Tree, h: int)
    requires s.Node? && Shape(s, h)
    ensures |s.subs| == |s.entries| + 1 && Shape(s.subs[|s.entries|], h - 1)
  {
  }

  /** It splits every node on its way if and only if all of them are full; and then an old entry,
      from before the piece, is pushed up. */
  lemma {:induction false} EdgePushes(w: Width, s: Tree, h: int, valid: Interval, e: Entry)
    requires Shape(s, h) && AtEdge(valid, e)
    ensures Pushed(Ins(w, s, h, valid, e).tree, h) <==> Packed(s, valid.left, e.range.left)
    ensures s.Node? && Packed(s, valid.left, e.range.left) ==> Ins(w, s, h, valid, e).tree.entries[0].range.right < e.range.left
    decreases h + 1
  {
    hide Pruned, Absorb, Ins, Shape, Sorted;
    if s.Node? {
      InsStep(w, s, h, valid, e);
      EdgeNode(s, h, valid, e);
      SpineLined(s, h);
      var p := Pruned(s, h, valid);
      PrunedHeight(s, h, valid);
      var n := |p.entries|;
      if !(s.entries != [] && Last(s.entries).right >= e.range.left) {
        var below := Ins(w, p.subs[n], h - 1, GapValid(p.entries, n, valid), e).tree;
        SpineSub(p, h);
        EdgePushes(w, p.subs[n], h - 1, GapValid(p.entries, n, valid), e);
        AbsorbEnd(p, h, below);
        if n == FT_SPLITLIMIT - 1 {
          EntriesUpto(p.entries, e.range.left, FT_ORDER);
        }
      }
    } else {
      InsNil(w, s, h, valid, e);
    }
  }

  lemma PrunedHeight(s: Tree, h: int, valid: Interval)
    requires s.Node? && Shape(s, h) && ProperOrEmpty(valid)
    ensures s.height == h >= 0 && Pruned(s, h, valid).Node? && Pruned(s, h, valid).height == h
  {
    hide Pruned;
    PrunedShape(s, h, valid);
  }

  lemma EntriesUpto(es: seq<Entry>, x: int, k: nat)
    requires Below(es, x) == |es| && k < |es|
    ensures es[k].range.right < x
  {
  }

  /** What a split at the end of a node pushes up. */
  lemma AbsorbEnd(p: Tree, h: int, c: Tree)
    requires p.Node? && p.height == h && |p.subs| == |p.entries| + 1 && |p.entries| < FT_SPLITLIMIT
    ensures Pushed(Absorb(p, |p.entries|, c), h) <==> Pushed(c, h - 1) && |p.entries| == FT_SPLITLIMIT - 1
    ensures Pushed(c, h - 1) && |p.entries| == FT_SPLITLIMIT - 1 ==>
              Absorb(p, |p.entries|, c).entries[0] == p.entries[FT_ORDER]
  {
  }
}

