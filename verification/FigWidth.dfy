/** Where 32-bit byte indices agree with the arithmetic the algorithm is written for. */
module FigWidth {
  import opened Intervals
  import opened FigTrees
  import opened FigPrune
  import opened FigInsert
  import opened FigAbsorb
  import opened FigPaths
  import opened FigWrite
  import opened FigCorrect
  import opened FigRuns

  lemma WrapsAround(x: int)
    requires IsByte(x)
    ensures Pred(Unbounded, x) == x - 1 && Succ(Unbounded, x) == x + 1
    ensures Pred(Bits32, x) == if x == BYTE_INDEX_MIN then BYTE_INDEX_MAX else x - 1
    ensures Succ(Bits32, x) == if x == BYTE_INDEX_MAX then BYTE_INDEX_MIN else x + 1
  {
  }

  /** The `valid` interval of a continuation comes out the same exactly when the overwritten
      entry does not touch the end of the byte indices on that side. */
  lemma LeftContWidth(es: seq<Entry>, valid: Interval, r: Interval, i: nat)
    requires Sorted(es) && Proper(valid) && Proper(r) && ContainsInt(valid, r) && i < |es|
    ensures LeftCont(Bits32, es, i, valid, r) == LeftCont(Unbounded, es, i, valid, r) <==>
            !(es[i].range.left < r.left && es[i].range.left == BYTE_INDEX_MIN)
  {
    hide Pred;
    WrapsAround(es[i].range.left);
    assert i > 0 ==> Proper(es[i - 1].range) && es[i - 1].range.right < es[i].range.left;
  }

  lemma RightContWidth(es: seq<Entry>, valid: Interval, r: Interval, j: nat)
    requires Sorted(es) && Proper(valid) && Proper(r) && ContainsInt(valid, r) && 0 < j <= |es|
    ensures RightCont(Bits32, es, j, valid, r) == RightCont(Unbounded, es, j, valid, r) <==>
            !(es[j - 1].range.right > r.right && es[j - 1].range.right == BYTE_INDEX_MAX)
  {
    hide Succ;
    WrapsAround(es[j - 1].range.right);
    assert j < |es| ==> Proper(es[j].range) && es[j - 1].range.right < es[j].range.left;
  }

  /** The same piece for the same place; and if `valid` differs, it does not even claim to keep
      clear of the piece. */
  predicate SamePiece(c: Option<Cont>, d: Option<Cont>) {
    && (c.Some? <==> d.Some?)
    && (c.Some? ==> c.value.range == d.value.range && c.value.value == d.value.value
                    && (c.value.valid == d.value.valid || !Beside(c.value.valid, c.value.range)))
  }

  lemma LeftPieceWidth(es: seq<Entry>, valid: Interval, r: Interval, i: nat)
    requires Sorted(es) && Proper(valid) && Proper(r) && ContainsInt(valid, r) && i < |es| && Within(es, valid.left, valid.right)
    ensures SamePiece(LeftCont(Bits32, es, i, valid, r), LeftCont(Unbounded, es, i, valid, r))
  {
    hide Pred;
    WrapsAround(es[i].range.left);
    assert i > 0 ==> Proper(es[i - 1].range) && es[i - 1].range.right < es[i].range.left;
  }

  /** The old contents that a right continuation is told about lie beside its piece exactly when
      the piece does not reach the last byte index. */
  lemma RightPieceBeside(es: seq<Entry>, valid: Interval, r: Interval, j: nat)
    requires Sorted(es) && Proper(valid) && Proper(r) && ContainsInt(valid, r) && 0 < j <= |es| && Within(es, valid.left, valid.right)
    requires j < |es| ==> r.right < es[j].range.left
    ensures var c := RightCont(Bits32, es, j, valid, r);
            c.Some? ==> (Beside(c.value.valid, c.value.range) <==> c.value.range.right < BYTE_INDEX_MAX)
  {
    hide Succ;
    WrapsAround(es[j - 1].range.right);
    assert j < |es| ==> Proper(es[j].range) && es[j - 1].range.right < es[j].range.left;
  }

  /** A main insertion with 32-bit indices computes the continuations it is meant to compute if
      and only if it leaves no piece that starts at byte 0 or ends at the last byte. */
  lemma {:induction false} MainWidth(t: Tree, h: int, valid: Interval, e: Entry)
    requires Shape(t, h) && Proper(valid) && Proper(e.range) && ContainsInt(valid, e.range)
    ensures Ins(Bits32, t, h, valid, e).tree == Ins(Unbounded, t, h, valid, e).tree
    ensures Ins(Bits32, t, h, valid, e).path == Ins(Unbounded, t, h, valid, e).path
    ensures var c, d := Ins(Bits32, t, h, valid, e).conts, Ins(Unbounded, t, h, valid, e).conts;
            && (c.right == d.right <==> EdgeFree(Bits32, d))
            && (c.left == d.left <==> !(d.left.Some? && d.left.value.range.left == BYTE_INDEX_MIN))
            && (EdgeFree(Bits32, c) <==> EdgeFree(Bits32, d))
            && SamePiece(c.left, d.left) && SamePiece(c.right, d.right)
            && (c.right.Some? ==> (Beside(c.right.value.valid, c.right.value.range) <==> EdgeFree(Bits32, c)))
    decreases h + 1
  {
    hide Absorb, Pruned, Replaced, LeftValid, RightValid, Run;
    if t.Node? {
      var p := Pruned(t, h, valid);
      PrunedShape(t, h, valid);
      var i, j := Below(p.entries, e.range.left), Upto(p.entries, e.range.right);
      if i < j {
        RunOf(p.entries, e.range);
        LeftContWidth(p.entries, valid, e.range, i);
        LeftPieceWidth(p.entries, valid, e.range, i);
        RightContWidth(p.entries, valid, e.range, j);
        RightPieceBeside(p.entries, valid, e.range, j);
      } else {
        MainGap(p.entries, valid, e.range);
        MainWidth(p.subs[i], h - 1, GapValid(p.entries, i, valid), e);
      }
    }
  }

  /** A continuation computes no bound that could wrap. */
  lemma {:induction false} ContWidth(t: Tree, h: int, valid: Interval, e: Entry, lo: int, hi: int)
    requires Shape(t, h) && ProperOrEmpty(valid) && Proper(e.range) && Beside(valid, e.range)
    requires Inside(valid, lo, hi) && Inside(e.range, lo, hi)
    ensures Ins(Bits32, t, h, valid, e) == Ins(Unbounded, t, h, valid, e)
    decreases h + 1
  {
    hide Absorb, Pruned;
    if t.Node? {
      var p := Pruned(t, h, valid);
      PrunedShape(t, h, valid);
      ContGap(p.entries, valid, e.range, lo, hi);
      var i := Below(p.entries, e.range.left);
      ContWidth(p.subs[i], h - 1, GapValid(p.entries, i, valid), e, GapLo(p.entries, i, lo), GapHi(p.entries, i, hi));
    }
  }

  /** The `valid` that came out wrong at byte 0 does no harm, because its place has no
      entries. */
  lemma PieceWidth(t: Tree, h: int, lo: int, hi: int, p: seq<nat>, c: Cont, d: Cont)
    requires Shape(t, h) && Owes(t, lo, hi, p, c) && Ready(t, h, p, d) && SamePiece(Some(c), Some(d))
    ensures Ready(t, h, p, c) && Piece(Bits32, t, h, p, c) == Piece(Unbounded, t, h, p, d)
  {
    hide Shape, Leads, Ins, ValidPath, SubAt;
    OwesPlace(t, h, lo, hi, p, c);
    var s, a, b :| Leads(t, lo, hi, p, s, a, b) && Opens(s, c, a, b);
    PieceFits(Bits32, t, h, lo, hi, p, s, a, b, c);
    if Bare(s) {
      BareIns(Bits32, s, h - |p|, c.valid, PieceOf(c));
      BareIns(Unbounded, s, h - |p|, d.valid, PieceOf(d));
      ContWidth(s, h - |p|, EMPTY, PieceOf(c), a, b);
    } else {
      ContWidth(s, h - |p|, c.valid, PieceOf(c), a, b);
    }
  }

  /** If the intended write leaves no piece at the last byte index, the 32-bit write is the
      intended one. */
  lemma WrittenWidth(t: Tree, h: int, e: Entry)
    requires Shape(t, h) && Proper(e.range) && EdgeFree(Bits32, Ins(Unbounded, t, h, FULL, e).conts)
    ensures CanWrite(Bits32, t, h, e) && CanWrite(Unbounded, t, h, e)
    ensures Written(Bits32, t, h, e) == Written(Unbounded, t, h, e)
  {
    hide Ins, Shape, Owes, Continued, LeftPath, Ready, Beside;
    MainWidth(t, h, FULL, e);
    AfterRightWidth(t, h, e);
    var r := AfterRight(Bits32, t, h, e);
    AfterRightCorrect(Bits32, t, h, e, BYTE_INDEX_MIN);
    if r.conts.left.Some? {
      LeftReady(Bits32, t, h, e);
      LeftReady(Unbounded, t, h, e);
      ContinuedWidth(r.tree, r.tree.height, FULL.left, FULL.right, r.path, r.conts.left.value, AfterRight(Unbounded, t, h, e).conts.left.value);
    }
  }

  lemma ContinuedWidth(t: Tree, h: int, lo: int, hi: int, p: seq<nat>, c: Cont, d: Cont)
    requires Shape(t, h) && Owes(t, lo, hi, p, c) && Ready(t, h, p, d) && SamePiece(Some(c), Some(d))
    ensures Ready(t, h, p, c) && Continued(Bits32, t, h, p, c) == Continued(Unbounded, t, h, p, d)
  {
    PieceWidth(t, h, lo, hi, p, c, d);
  }

  lemma AfterRightWidth(t: Tree, h: int, e: Entry)
    requires CanWrite(Bits32, t, h, e) && CanWrite(Unbounded, t, h, e)
    ensures var r, q := AfterRight(Bits32, t, h, e), AfterRight(Unbounded, t, h, e);
            r.tree == q.tree && r.path == q.path && SamePiece(r.conts.left, q.conts.left)
  {
    hide Ins, Shape, Owes, LeftPath, Ready, Piece, Beside;
    var m := Ins(Bits32, t, h, FULL, e);
    MainWidth(t, h, FULL, e);
    MainShape(Bits32, t, h, FULL, e);
    if m.conts.right.Some? {
      RightReady(Bits32, t, h, e);
      RightReady(Unbounded, t, h, e);
      PieceWidth(m.tree, h, FULL.left, FULL.right, m.path, m.conts.right.value, m.conts.right.value);
    }
  }

  /** Every entry of every node, stale ones too, lies in [lo, hi]. */
  predicate AllIn(t: Tree, lo: int, hi: int) {
    t.Node? ==> Within(t.entries, lo, hi) && forall i :: 0 <= i < |t.subs| ==> AllIn(t.subs[i], lo, hi)
  }

  lemma {:induction false} EmptyAllIn(h: int, lo: int, hi: int)
    ensures AllIn(EmptyChain(h), lo, hi)
    decreases h + 1
  {
    if h >= 0 {
      EmptyAllIn(h - 1, lo, hi);
    }
  }

  lemma PrunedAllIn(t: Tree, h: int, valid: Interval, lo: int, hi: int)
    requires t.Node? && Shape(t, h) && ProperOrEmpty(valid) && AllIn(t, lo, hi)
    ensures AllIn(Pruned(t, h, valid), lo, hi)
  {
    var p := Pruned(t, h, valid);
    if !valid.nonempty {
      EmptyAllIn(h, lo, hi);
    } else {
      BelowLeqUpto(t.entries, valid.left, valid.right);
      forall i | 0 <= i < |t.subs|
        ensures AllIn(Cleared(t.subs[i]), lo, hi)
      {
        EmptyAllIn(h - 1, lo, hi);
      }
      PrunedWithin(t.entries, valid, lo, hi);
    }
  }

  lemma PrunedWithin(es: seq<Entry>, valid: Interval, lo: int, hi: int)
    requires Sorted(es) && Proper(valid) && Within(es, lo, hi) && Below(es, valid.left) <= Upto(es, valid.right)
    ensures Within(ClipAll(Kept(es, valid), valid), lo, hi)
  {
    var c := ClipAll(Kept(es, valid), valid);
    forall i | 0 <= i < |c|
      ensures lo <= c[i].range.left && c[i].range.right <= hi
    {
      assert c[i] == Clip(es[Below(es, valid.left) + i], valid);
    }
  }

  lemma ReplacedAllIn(t: Tree, i: nat, j: nat, e: Entry, lo: int, hi: int)
    requires t.Node? && |t.subs| == |t.entries| + 1 && i < j <= |t.entries| && AllIn(t, lo, hi)
    requires lo <= e.range.left && e.range.right <= hi
    ensures AllIn(Replaced(t, i, j, e), lo, hi)
  {
    ReplacedWithin(t, i, j, e, lo, hi);
  }

  lemma AbsorbAllIn(t: Tree, h: int, i: nat, c: Tree, lo: int, hi: int)
    requires t.Node? && Shape(t, h) && i <= |t.entries| && AllIn(t, lo, hi) && AllIn(c, lo, hi)
    ensures AllIn(Absorb(t, i, c), lo, hi)
  {
    if Pushed(c, h - 1) {
      var e, w := c.entries[0], Widened(t, i, c.entries[0], c.subs[0], c.subs[1]);
      InsertWithin(t.entries, i, e, lo, hi);
      forall k | 0 <= k <= |t.subs|
        ensures AllIn(w.subs[k], lo, hi)
      {
        InsertAtIndex(t.subs[i := c.subs[0]], i + 1, c.subs[1], k);
      }
      if |w.entries| == FT_SPLITLIMIT {
        SplitAllIn(w, lo, hi);
      }
    }
  }

  lemma SplitAllIn(t: Tree, lo: int, hi: int)
    requires t.Node? && |t.entries| == FT_SPLITLIMIT && |t.subs| == FT_SPLITLIMIT + 1 && AllIn(t, lo, hi)
    ensures AllIn(SplitNode(t), lo, hi)
  {
    var s := SplitNode(t);
    assert AllIn(s.subs[0], lo, hi) && AllIn(s.subs[1], lo, hi);
  }

  lemma {:induction false} UpAllIn(t: Tree, h: int, p: seq<nat>, c: Tree, lo: int, hi: int)
    requires Shape(t, h) && ValidPath(t, p) && AllIn(t, lo, hi) && AllIn(c, lo, hi)
    ensures AllIn(Up(t, p, c), lo, hi)
    decreases |p|
  {
    if p != [] {
      UpAllIn(t.subs[p[0]], h - 1, p[1..], c, lo, hi);
      AbsorbAllIn(t, h, p[0], Up(t.subs[p[0]], p[1..], c), lo, hi);
    }
  }

  lemma {:induction false} SubAllIn(t: Tree, p: seq<nat>, lo: int, hi: int)
    requires ValidPath(t, p) && AllIn(t, lo, hi)
    ensures AllIn(SubAt(t, p), lo, hi)
    decreases |p|
  {
    if p != [] {
      SubAllIn(t.subs[p[0]], p[1..], lo, hi);
    }
  }

  predicate ContIn(c: Option<Cont>, lo: int, hi: int) {
    c.Some? ==> lo <= c.value.range.left && c.value.range.right <= hi
  }

  /** An insertion brings in no byte index from outside the tree and the range. */
  lemma {:induction false} InsAllIn(w: Width, t: Tree, h: int, valid: Interval, e: Entry, lo: int, hi: int)
    requires Shape(t, h) && ProperOrEmpty(valid) && Proper(e.range) && AllIn(t, lo, hi)
    requires lo <= e.range.left && e.range.right <= hi
    ensures AllIn(Ins(w, t, h, valid, e).tree, lo, hi)
    ensures ContIn(Ins(w, t, h, valid, e).conts.left, lo, hi) && ContIn(Ins(w, t, h, valid, e).conts.right, lo, hi)
    decreases h + 1
  {
    hide Absorb, Pruned, Replaced, LeftValid, RightValid;
    if t.Node? {
      var p := Pruned(t, h, valid);
      PrunedShape(t, h, valid);
      PrunedAllIn(t, h, valid, lo, hi);
      var i, j := Below(p.entries, e.range.left), Upto(p.entries, e.range.right);
      if i < j {
        ReplacedAllIn(p, i, j, e, lo, hi);
      } else {
        InsAllIn(w, p.subs[i], h - 1, GapValid(p.entries, i, valid), e, lo, hi);
        AbsorbAllIn(p, h, i, Ins(w, p.subs[i], h - 1, GapValid(p.entries, i, valid), e).tree, lo, hi);
      }
    }
  }

  lemma ContinuedAllIn(w: Width, t: Tree, h: int, p: seq<nat>, c: Cont, lo: int, hi: int)
    requires Shape(t, h) && Ready(t, h, p, c) && AllIn(t, lo, hi) && ContIn(Some(c), lo, hi)
    ensures AllIn(Continued(w, t, h, p, c), lo, hi)
  {
    hide Ins, AllIn, ValidPath, SubAt;
    SubAllIn(t, p, lo, hi);
    InsAllIn(w, SubAt(t, p), h - |p|, c.valid, PieceOf(c), lo, hi);
    UpAllIn(t, h, p, Piece(w, t, h, p, c), lo, hi);
  }

  lemma WrittenAllIn(w: Width, t: Tree, h: int, e: Entry, lo: int, hi: int)
    requires CanWrite(w, t, h, e) && AllIn(t, lo, hi) && lo <= e.range.left && e.range.right <= hi
    ensures AllIn(Written(w, t, h, e), lo, hi)
  {
    hide Ins, Shape, Owes, Continued, LeftPath, Ready, AllIn, Fits;
    var m, r := Ins(w, t, h, FULL, e), AfterRight(w, t, h, e);
    InsAllIn(w, t, h, FULL, e, lo, hi);
    MainShape(w, t, h, FULL, e);
    AfterRightCorrect(w, t, h, e, BYTE_INDEX_MIN);
    if m.conts.right.Some? {
      RightReady(w, t, h, e);
      ContinuedAllIn(w, m.tree, h, m.path, m.conts.right.value, lo, hi);
    }
    if r.conts.left.Some? {
      LeftReady(w, t, h, e);
      ContinuedAllIn(w, r.tree, r.tree.height, r.path, r.conts.left.value, lo, hi);
    }
  }

  /** The writes stay away from the last byte index. */
  predicate OffTheEdge(writes: seq<Entry>) {
    forall i :: 0 <= i < |writes| ==> Proper(writes[i].range) && writes[i].range.right < BYTE_INDEX_MAX
  }

  /** Over every run that stays away from the last byte index, byte 0 included, the 32-bit tree
      is the tree of the unbounded algorithm, node for node. */
  lemma {:induction false} RunWidth(writes: seq<Entry>, t: Tree)
    requires OffTheEdge(writes)
    ensures Reaches(Bits32, writes, t) <==> Reaches(Unbounded, writes, t)
    ensures Reaches(Unbounded, writes, t) ==> AllIn(t, BYTE_INDEX_MIN, BYTE_INDEX_MAX - 1)
    decreases |writes|
  {
    hide CanWrite, Written, Shape;
    if writes != [] {
      var n := |writes| - 1;
      if Reaches(Bits32, writes, t) {
        var t0 :| Reaches(Bits32, writes[..n], t0) && t0.Node? && CanWrite(Bits32, t0, t0.height, writes[n])
                  && t == Written(Bits32, t0, t0.height, writes[n]);
        RunWidth(writes[..n], t0);
        RunStepWidth(writes[..n], t0, writes[n]);
      }
      if Reaches(Unbounded, writes, t) {
        var t0 :| Reaches(Unbounded, writes[..n], t0) && t0.Node? && CanWrite(Unbounded, t0, t0.height, writes[n])
                  && t == Written(Unbounded, t0, t0.height, writes[n]);
        RunWidth(writes[..n], t0);
        RunStepWidth(writes[..n], t0, writes[n]);
        WrittenAllIn(Unbounded, t0, t0.height, writes[n], BYTE_INDEX_MIN, BYTE_INDEX_MAX - 1);
      }
    } else {
      EmptyAllIn(-1, BYTE_INDEX_MIN, BYTE_INDEX_MAX - 1);
    }
  }

  /** Every list of such writes is a run. */
  lemma RunExists32(writes: seq<Entry>) returns (t: Tree)
    requires OffTheEdge(writes)
    ensures Reaches(Bits32, writes, t)
  {
    hide Reaches;
    t := RunExists(writes);
    RunWidth(writes, t);
  }

  lemma RunStepWidth(writes: seq<Entry>, t: Tree, e: Entry)
    requires Reaches(Unbounded, writes, t) && t.Node? && AllIn(t, BYTE_INDEX_MIN, BYTE_INDEX_MAX - 1)
    requires Proper(e.range) && e.range.right < BYTE_INDEX_MAX
    ensures CanWrite(Bits32, t, t.height, e) && CanWrite(Unbounded, t, t.height, e)
    ensures Written(Bits32, t, t.height, e) == Written(Unbounded, t, t.height, e)
  {
    hide Reaches, Ins, Written, AllIn;
    RunCorrect(Unbounded, writes, t, BYTE_INDEX_MIN);
    InsAllIn(Unbounded, t, t.height, FULL, e, BYTE_INDEX_MIN, BYTE_INDEX_MAX - 1);
    WrittenWidth(t, t.height, e);
  }
}
