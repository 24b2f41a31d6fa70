/** Insertion as a recursive function: what _ft_insert of figtree.c, with ftn_insert and
    ftn_replaceEntries of figtreenode.c, does to the tree. */
module FigInsert {
  import opened Intervals
  import opened FigTrees
  import opened FigPrune

  /** A leftover piece of an overwritten entry, to be put back below the new entry. */
  datatype Cont = Cont(range: Interval, value: int, valid: Interval)

  datatype Conts = Conts(left: Option<Cont>, right: Option<Cont>)

  const NO_CONTS := Conts(None, None)

  function InsertAt<T>(s: seq<T>, i: nat, x: T): (r: seq<T>)
    requires i <= |s|
    ensures |r| == |s| + 1
  {
    s[..i] + [x] + s[i..]
  }

  /** A node that is too full gives way to a node one level up that holds its middle
      entry. */
  function SplitNode(t: Tree): Tree
    requires t.Node? && |t.entries| == FT_SPLITLIMIT && |t.subs| == FT_SPLITLIMIT + 1
  {
    var left := Node(t.entries[..FT_ORDER], t.subs[..FT_ORDER + 1], t.height);
    var right := Node(t.entries[FT_ORDER + 1..], t.subs[FT_ORDER + 1..], t.height);
    Node([t.entries[FT_ORDER]], [left, right], t.height + 1)
  }

  /** The node after an entry and the two subtrees on its sides took the place of subtree i. */
  function Widened(t: Tree, i: nat, e: Entry, left: Tree, right: Tree): Tree
    requires t.Node? && |t.subs| == |t.entries| + 1 && i < |t.subs|
  {
    t.(entries := InsertAt(t.entries, i, e), subs := InsertAt(t.subs[i := left], i + 1, right))
  }

  function SplitIfFull(t: Tree): Tree
    requires t.Node? && |t.entries| <= FT_SPLITLIMIT && |t.subs| == |t.entries| + 1
  {
    if |t.entries| == FT_SPLITLIMIT then SplitNode(t) else t
  }

  /** c came up out of a split of a node of height h. */
  predicate Pushed(c: Tree, h: int) {
    c.Node? && c.height == h + 1 && |c.entries| == 1 && |c.subs| == 2
  }

  /** What becomes of a subtree of height h when something is inserted below it. */
  predicate Grown(c: Tree, h: int) {
    Shape(c, h) || (Shape(c, h + 1) && Pushed(c, h))
  }

  /** The node after its subtree i turned into c. */
  function Absorb(t: Tree, i: nat, c: Tree): Tree
    requires t.Node? && |t.entries| < FT_SPLITLIMIT && |t.subs| == |t.entries| + 1 && i < |t.subs|
  {
    if Pushed(c, t.height - 1) then
      SplitIfFull(Widened(t, i, c.entries[0], c.subs[0], c.subs[1]))
    else t.(subs := t.subs[i := c])
  }

  /** Entries i up to j give way to one entry; the subtrees between them go. */
  function Replaced(t: Tree, i: nat, j: nat, e: Entry): Tree
    requires t.Node? && |t.subs| == |t.entries| + 1 && i < j <= |t.entries|
  {
    t.(entries := t.entries[..i] + [e] + t.entries[j..], subs := t.subs[..i + 1] + t.subs[j..])
  }

  function GapValid(es: seq<Entry>, i: nat, valid: Interval): (r: Interval)
    requires i <= |es| && ProperOrEmpty(valid)
    ensures ProperOrEmpty(r)
  {
    Restrict(valid, if i == 0 then BYTE_INDEX_MIN else es[i - 1].range.right + 1,
             if i == |es| then BYTE_INDEX_MAX else es[i].range.left - 1)
  }

  /** The old contents of the gap left of entry i. */
  function LeftValid(w: Width, es: seq<Entry>, i: nat, valid: Interval): Interval
    requires i < |es|
  {
    Restrict(valid, if i == 0 then BYTE_INDEX_MIN else es[i - 1].range.right + 1, Pred(w, es[i].range.left))
  }

  /** The old contents of the gap right of entry j - 1. */
  function RightValid(w: Width, es: seq<Entry>, j: nat, valid: Interval): Interval
    requires 0 < j <= |es|
  {
    Restrict(valid, Succ(w, es[j - 1].range.right), if j == |es| then BYTE_INDEX_MAX else es[j].range.left - 1)
  }

  function LeftCont(w: Width, es: seq<Entry>, i: nat, valid: Interval, range: Interval): Option<Cont>
    requires i < |es|
  {
    if es[i].range.left < range.left then
      Some(Cont(Span(es[i].range.left, range.left - 1), es[i].value, LeftValid(w, es, i, valid)))
    else None
  }

  function RightCont(w: Width, es: seq<Entry>, j: nat, valid: Interval, range: Interval): Option<Cont>
    requires 0 < j <= |es|
  {
    if es[j - 1].range.right > range.right then
      Some(Cont(Span(range.right + 1, es[j - 1].range.right), es[j - 1].value, RightValid(w, es, j, valid)))
    else None
  }

  /** `path` leads from the node the insertion started at to the place where a
      continuation has to go on: the subtree right of the new entry if there is a right
      continuation, the one left of it otherwise. */
  datatype Insertion = Insertion(tree: Tree, path: seq<nat>, conts: Conts)

  function Fresh(e: Entry): Tree {
    Node([e], [Nil, Nil], 0)
  }

  function Overwrite(w: Width, t: Tree, valid: Interval, e: Entry, i: nat, j: nat): Insertion
    requires t.Node? && |t.subs| == |t.entries| + 1 && i < j <= |t.entries|
  {
    var rc := RightCont(w, t.entries, j, valid, e.range);
    Insertion(Replaced(t, i, j, e), [if rc.Some? then i + 1 else i],
              Conts(LeftCont(w, t.entries, i, valid, e.range), rc))
  }

  /** Inserting e at t, of which only the bytes of `valid` are reachable. */
  ghost function Ins(w: Width, t: Tree, h: int, valid: Interval, e: Entry): Insertion
    requires Shape(t, h) && ProperOrEmpty(valid) && Proper(e.range)
    decreases h + 1
  {
    if t.Nil? then Insertion(Fresh(e), [], NO_CONTS)
    else
      PrunedShape(t, h, valid);
      var p := Pruned(t, h, valid);
      var i, j := Below(p.entries, e.range.left), Upto(p.entries, e.range.right);
      if i < j then Overwrite(w, p, valid, e, i, j)
      else
        var below := Ins(w, p.subs[i], h - 1, GapValid(p.entries, i, valid), e);
        Insertion(Absorb(p, i, below.tree), [i] + below.path, below.conts)
  }
}
