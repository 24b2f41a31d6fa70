/** ft_write of figtree.c: the main insertion, then the right and the left continuation. */
module FigCorrect {
  import opened Intervals
  import opened FigTrees
  import opened FigInsert
  import opened FigPaths
  import opened FigWrite

  predicate IsByte(b: int) {
    BYTE_INDEX_MIN <= b <= BYTE_INDEX_MAX
  }

  function PieceOf(c: Cont): Entry {
    Entry(c.range, c.value)
  }

  /** A continuation can start at the place p leads to. */
  ghost predicate Ready(t: Tree, h: int, p: seq<nat>, c: Cont) {
    ValidPath(t, p) && Shape(SubAt(t, p), h - |p|) && Proper(c.range) && ProperOrEmpty(c.valid)
  }

  /** The subtree a continuation turns its place into. */
  ghost function Piece(w: Width, t: Tree, h: int, p: seq<nat>, c: Cont): Tree
    requires Ready(t, h, p, c)
  {
    Ins(w, SubAt(t, p), h - |p|, c.valid, PieceOf(c)).tree
  }

  /** The tree after a continuation. */
  ghost function Continued(w: Width, t: Tree, h: int, p: seq<nat>, c: Cont): Tree
    requires Ready(t, h, p, c)
  {
    Up(t, p, Piece(w, t, h, p, c))
  }

  lemma OwesPlace(t: Tree, h: int, lo: int, hi: int, p: seq<nat>, c: Cont)
    requires Shape(t, h) && Owes(t, lo, hi, p, c)
    ensures Ready(t, h, p, c)
  {
    var s, a, b :| Leads(t, lo, hi, p, s, a, b) && Opens(s, c, a, b);
    LeadsValid(t, lo, hi, p, s, a, b);
    LeadsShape(t, h, lo, hi, p, s, a, b);
  }

  /** A continuation runs down without meeting another overlap, so it has no continuations of
      its own, and its result fits its place. */
  lemma PieceFits(w: Width, t: Tree, h: int, lo: int, hi: int, p: seq<nat>, s: Tree, a: int, b: int, c: Cont)
    requires Shape(t, h) && Leads(t, lo, hi, p, s, a, b) && Opens(s, c, a, b)
    ensures Ready(t, h, p, c) && SubAt(t, p) == s
    ensures Ins(w, s, h - |p|, c.valid, PieceOf(c)).conts == NO_CONTS
    ensures Fits(Piece(w, t, h, p, c), h - |p|, a, b)
  {
    hide Ins, Fits, Leads;
    LeadsValid(t, lo, hi, p, s, a, b);
    LeadsShape(t, h, lo, hi, p, s, a, b);
    OpensShape(w, s, h - |p|, c, a, b);
  }

  /** A continuation puts its piece back and changes no other byte. */
  lemma ContinueCorrect(w: Width, t: Tree, h: int, lo: int, hi: int, p: seq<nat>, c: Cont, x: int)
    requires Shape(t, h) && Owes(t, lo, hi, p, c) && lo <= x <= hi
    ensures Ready(t, h, p, c)
    ensures Fits(Continued(w, t, h, p, c), h, lo, hi)
    ensures Lookup(Continued(w, t, h, p, c), x) == if Has(c.range, x) then Some(c.value) else Lookup(t, x)
  {
    hide Leads, Fits, Shape, ValidPath, Up, Ins, SubAt;
    OwesPlace(t, h, lo, hi, p, c);
    var s, a, b :| Leads(t, lo, hi, p, s, a, b) && Opens(s, c, a, b);
    PieceFits(w, t, h, lo, hi, p, s, a, b, c);
    UpFits(t, h, lo, hi, p, s, a, b, Piece(w, t, h, p, c));
    UpLookup(t, h, lo, hi, p, s, a, b, Piece(w, t, h, p, c), x);
    if a <= x <= b {
      LeadsLookup(t, h, lo, hi, p, s, a, b, x);
      OpensLookup(w, s, h - |p|, c, a, b, x);
    }
  }

  /** The right continuation leaves the left one its place, at the repaired path. */
  lemma StillOwes(w: Width, t: Tree, h: int, lo: int, hi: int, p: seq<nat>, c: Cont, left: Cont)
    requires Shape(t, h) && Owes(t, lo, hi, p, c)
    requires p != [] && p[|p| - 1] > 0 && Owes(t, lo, hi, LeftSibling(p), left)
    ensures Ready(t, h, p, c)
    ensures Owes(Continued(w, t, h, p, c), lo, hi, LeftPath(t, p, Piece(w, t, h, p, c)), left)
  {
    OwesPlace(t, h, lo, hi, p, c);
    var s, a, b :| Leads(t, lo, hi, p, s, a, b) && Opens(s, c, a, b);
    var sl, al, bl :| Leads(t, lo, hi, LeftSibling(p), sl, al, bl) && Opens(sl, left, al, bl);
    PieceFits(w, t, h, lo, hi, p, s, a, b, c);
    LeftPathLeads(t, h, lo, hi, p, s, a, b, Piece(w, t, h, p, c), sl, al, bl);
  }

  lemma FitsHeight(c: Tree, h: int, lo: int, hi: int)
    requires Fits(c, h, lo, hi)
    ensures c.Node? && Shape(c, c.height) && (c.height == h || c.height == h + 1)
  {
  }

  /** A write that keeps to the byte indices. */
  ghost predicate CanWrite(w: Width, t: Tree, h: int, e: Entry) {
    Shape(t, h) && Proper(e.range) && EdgeFree(w, Ins(w, t, h, FULL, e).conts)
  }

  /** The tree and the path after the right continuation. */
  ghost function RightDone(w: Width, m: Insertion, h: int): (r: Insertion)
    requires m.conts.right.Some? ==>
               Ready(m.tree, h, m.path, m.conts.right.value) && m.path != [] && m.path[|m.path| - 1] > 0
  {
    if m.conts.right.None? then m
    else
      var c := m.conts.right.value;
      Insertion(Continued(w, m.tree, h, m.path, c), LeftPath(m.tree, m.path, Piece(w, m.tree, h, m.path, c)), m.conts)
  }

  /** The tree after the left continuation. */
  ghost function LeftDone(w: Width, r: Insertion): Tree
    requires r.conts.left.Some? ==> r.tree.Node? && Ready(r.tree, r.tree.height, r.path, r.conts.left.value)
  {
    if r.conts.left.None? then r.tree
    else Continued(w, r.tree, r.tree.height, r.path, r.conts.left.value)
  }

  lemma RightReady(w: Width, t: Tree, h: int, e: Entry)
    requires CanWrite(w, t, h, e) && Ins(w, t, h, FULL, e).conts.right.Some?
    ensures var m := Ins(w, t, h, FULL, e);
            Ready(m.tree, h, m.path, m.conts.right.value) && m.path != [] && m.path[|m.path| - 1] > 0
  {
    hide Ins, Shape, Owes;
    var m := Ins(w, t, h, FULL, e);
    MainShape(w, t, h, FULL, e);
    OwesPlace(m.tree, h, FULL.left, FULL.right, m.path, m.conts.right.value);
  }

  ghost function AfterRight(w: Width, t: Tree, h: int, e: Entry): (r: Insertion)
    requires CanWrite(w, t, h, e)
  {
    hide Ins, Shape, Ready;
    if Ins(w, t, h, FULL, e).conts.right.Some? then
      RightReady(w, t, h, e);
      RightDone(w, Ins(w, t, h, FULL, e), h)
    else
      RightDone(w, Ins(w, t, h, FULL, e), h)
  }

  lemma AfterRightCorrect(w: Width, t: Tree, h: int, e: Entry, b: int)
    requires CanWrite(w, t, h, e) && IsByte(b)
    ensures var r := AfterRight(w, t, h, e);
            && r.tree.Node? && Shape(r.tree, r.tree.height) && (r.tree.height == h || r.tree.height == h + 1)
            && (r.conts.left.Some? ==> Owes(r.tree, FULL.left, FULL.right, r.path, r.conts.left.value))
            && (if InCont(r.conts.left, b) then !Has(e.range, b) && Lookup(t, b) == Some(r.conts.left.value.value)
                else Lookup(r.tree, b) == After(t, e, b))
  {
    hide Ins, Shape, Leads, Continued, Owes, Lookup, LeftPath, Fits;
    var m := Ins(w, t, h, FULL, e);
    MainShape(w, t, h, FULL, e);
    MainLookup(w, t, h, FULL, e, b);
    FitsHeight(m.tree, h, FULL.left, FULL.right);
    if m.conts.right.Some? {
      var c := m.conts.right.value;
      RightReady(w, t, h, e);
      ContinueCorrect(w, m.tree, h, FULL.left, FULL.right, m.path, c, b);
      FitsHeight(Continued(w, m.tree, h, m.path, c), h, FULL.left, FULL.right);
      if m.conts.left.Some? {
        StillOwes(w, m.tree, h, FULL.left, FULL.right, m.path, c, m.conts.left.value);
      }
    }
  }

  lemma LeftReady(w: Width, t: Tree, h: int, e: Entry)
    requires CanWrite(w, t, h, e) && AfterRight(w, t, h, e).conts.left.Some?
    ensures var r := AfterRight(w, t, h, e);
            r.tree.Node? && Ready(r.tree, r.tree.height, r.path, r.conts.left.value)
  {
    hide AfterRight, Shape, Owes, Ready;
    var r := AfterRight(w, t, h, e);
    AfterRightCorrect(w, t, h, e, BYTE_INDEX_MIN);
    OwesPlace(r.tree, r.tree.height, FULL.left, FULL.right, r.path, r.conts.left.value);
  }

  /** The tree after ft_write. */
  ghost function Written(w: Width, t: Tree, h: int, e: Entry): Tree
    requires CanWrite(w, t, h, e)
  {
    hide AfterRight, Ready;
    if AfterRight(w, t, h, e).conts.left.Some? then
      LeftReady(w, t, h, e);
      LeftDone(w, AfterRight(w, t, h, e))
    else
      LeftDone(w, AfterRight(w, t, h, e))
  }

  /** ft_write gives the bytes of the range the value, and keeps all other bytes. The result
      is well formed again. */
  lemma WriteCorrect(w: Width, t: Tree, h: int, e: Entry, b: int)
    requires CanWrite(w, t, h, e) && IsByte(b)
    ensures Lookup(Written(w, t, h, e), b) == if e.range.left <= b <= e.range.right then Some(e.value) else Lookup(t, b)
    ensures Written(w, t, h, e).Node? && Shape(Written(w, t, h, e), Written(w, t, h, e).height)
  {
    hide AfterRight, Shape, Owes, Lookup, Continued, Fits, Ready, Ins;
    var r := AfterRight(w, t, h, e);
    AfterRightCorrect(w, t, h, e, b);
    if r.conts.left.Some? {
      var c := r.conts.left.value;
      LeftReady(w, t, h, e);
      ContinueCorrect(w, r.tree, r.tree.height, FULL.left, FULL.right, r.path, c, b);
      FitsHeight(Continued(w, r.tree, r.tree.height, r.path, c), r.tree.height, FULL.left, FULL.right);
    }
  }
}
