/** Paths from the root: carrying a grown subtree up a path, and finding the same place
    again after nodes on the way were split. */
module FigPaths {
  import opened FigTrees
  import opened FigPrune
  import opened FigInsert
  import opened FigAbsorb

  /** The bounds that a node with bounds [lo, hi] leaves to its subtree i. */
  function GapLo(es: seq<Entry>, i: nat, lo: int): int
    requires i <= |es|
  {
    if i == 0 then lo else es[i - 1].range.right + 1
  }

  function GapHi(es: seq<Entry>, i: nat, hi: int): int
    requires i <= |es|
  {
    if i == |es| then hi else es[i].range.left - 1
  }

  predicate ValidPath(t: Tree, p: seq<nat>)
    decreases |p|
  {
    p != [] ==>
      && t.Node? && |t.entries| < FT_SPLITLIMIT && |t.subs| == |t.entries| + 1
      && p[0] <= |t.entries| && ValidPath(t.subs[p[0]], p[1..])
  }

  function SubAt(t: Tree, p: seq<nat>): Tree
    requires ValidPath(t, p)
    decreases |p|
  {
    if p == [] then t else SubAt(t.subs[p[0]], p[1..])
  }

  /** Path p leads from t to the subtree s, which is reached by exactly the bytes of
      [a, b]. The entries of every node on the way are within the bounds of that node. */
  ghost predicate Leads(t: Tree, lo: int, hi: int, p: seq<nat>, s: Tree, a: int, b: int)
    decreases |p|
  {
    if p == [] then t == s && lo == a && hi == b
    else
      && t.Node? && |t.entries| < FT_SPLITLIMIT && |t.subs| == |t.entries| + 1
      && p[0] <= |t.entries| && Within(t.entries, lo, hi)
      && Leads(t.subs[p[0]], GapLo(t.entries, p[0], lo), GapHi(t.entries, p[0], hi), p[1..], s, a, b)
  }

  lemma {:induction false} LeadsValid(t: Tree, lo: int, hi: int, p: seq<nat>, s: Tree, a: int, b: int)
    requires Leads(t, lo, hi, p, s, a, b)
    ensures ValidPath(t, p) && SubAt(t, p) == s
    decreases |p|
  {
    if p != [] {
      LeadsValid(t.subs[p[0]], GapLo(t.entries, p[0], lo), GapHi(t.entries, p[0], hi), p[1..], s, a, b);
    }
  }

  lemma {:induction false} LeadsShape(t: Tree, h: int, lo: int, hi: int, p: seq<nat>, s: Tree, a: int, b: int)
    requires Shape(t, h) && Leads(t, lo, hi, p, s, a, b)
    ensures Shape(s, h - |p|) && lo <= a && b <= hi
    decreases |p|
  {
    if p != [] {
      LeadsShape(t.subs[p[0]], h - 1, GapLo(t.entries, p[0], lo), GapHi(t.entries, p[0], hi), p[1..], s, a, b);
    }
  }

  /** Bytes of [a, b], and no others, are looked up in s. */
  lemma {:induction false} LeadsLookup(t: Tree, h: int, lo: int, hi: int, p: seq<nat>, s: Tree, a: int, b: int, x: int)
    requires Shape(t, h) && Leads(t, lo, hi, p, s, a, b) && a <= x <= b
    ensures Lookup(t, x) == Lookup(s, x)
    decreases |p|
  {
    if p != [] {
      var glo, ghi := GapLo(t.entries, p[0], lo), GapHi(t.entries, p[0], hi);
      LeadsShape(t.subs[p[0]], h - 1, glo, ghi, p[1..], s, a, b);
      LeadsLookup(t.subs[p[0]], h - 1, glo, ghi, p[1..], s, a, b, x);
      LookupGap(t, p[0], x);
    }
  }

  /** The tree after the subtree that p leads to turned into c. */
  function Up(t: Tree, p: seq<nat>, c: Tree): Tree
    requires ValidPath(t, p)
    decreases |p|
  {
    if p == [] then c else Absorb(t, p[0], Up(t.subs[p[0]], p[1..], c))
  }

  /** On the way up the path, every entry that a split pushes up fits the gap it goes into. This is
      what ftn_insert is written for; its assertion asks a little less, that the entry does not
      overlap its neighbours. */
  ghost predicate Orderly(t: Tree, p: seq<nat>, c: Tree)
    requires ValidPath(t, p)
    decreases |p|
  {
    p != [] ==> Orderly(t.subs[p[0]], p[1..], c) && Absorbable(t, p[0], Up(t.subs[p[0]], p[1..], c))
  }

  /** c can take the place of a subtree of height h that is reached by the bytes of [a, b]. */
  ghost predicate Fits(c: Tree, h: int, a: int, b: int) {
    c.Node? && Grown(c, h) && Within(c.entries, a, b)
  }

  lemma FitsAbsorbable(t: Tree, h: int, lo: int, hi: int, i: nat, c: Tree)
    requires t.Node? && Shape(t, h) && Within(t.entries, lo, hi) && i <= |t.entries|
    requires Fits(c, h - 1, GapLo(t.entries, i, lo), GapHi(t.entries, i, hi))
    ensures Absorbable(t, i, c)
    ensures Fits(Absorb(t, i, c), h, lo, hi)
  {
    AbsorbShape(t, h, i, c);
    assert Pushed(c, h - 1) ==> Within(c.entries, lo, hi);
    AbsorbWithin(t, h, i, c, lo, hi);
  }

  /** Carrying a subtree up keeps the tree well formed. */
  lemma {:induction false} UpFits(t: Tree, h: int, lo: int, hi: int, p: seq<nat>, s: Tree, a: int, b: int, c: Tree)
    requires Shape(t, h) && Leads(t, lo, hi, p, s, a, b) && Fits(c, h - |p|, a, b)
    ensures ValidPath(t, p) && Fits(Up(t, p, c), h, lo, hi)
    decreases |p|
  {
    if p != [] {
      UpFits(t.subs[p[0]], h - 1, GapLo(t.entries, p[0], lo), GapHi(t.entries, p[0], hi), p[1..], s, a, b, c);
      FitsAbsorbable(t, h, lo, hi, p[0], Up(t.subs[p[0]], p[1..], c));
    }
  }

  lemma {:induction false} OrderlyUp(t: Tree, h: int, p: seq<nat>, c: Tree)
    requires Shape(t, h) && ValidPath(t, p) && Orderly(t, p, c) && Grown(c, h - |p|)
    ensures Grown(Up(t, p, c), h)
    decreases |p|
  {
    hide Absorb;
    if p != [] {
      OrderlyUp(t.subs[p[0]], h - 1, p[1..], c);
      AbsorbShape(t, h, p[0], Up(t.subs[p[0]], p[1..], c));
    }
  }

  /** What fits its place is in order. */
  lemma {:induction false} OrderlyFits(t: Tree, h: int, lo: int, hi: int, p: seq<nat>, s: Tree, a: int, b: int, c: Tree)
    requires Shape(t, h) && Leads(t, lo, hi, p, s, a, b) && Fits(c, h - |p|, a, b)
    ensures ValidPath(t, p) && Orderly(t, p, c)
    decreases |p|
  {
    hide Absorb;
    if p != [] {
      var glo, ghi := GapLo(t.entries, p[0], lo), GapHi(t.entries, p[0], hi);
      OrderlyFits(t.subs[p[0]], h - 1, glo, ghi, p[1..], s, a, b, c);
      UpFits(t.subs[p[0]], h - 1, glo, ghi, p[1..], s, a, b, c);
      FitsAbsorbable(t, h, lo, hi, p[0], Up(t.subs[p[0]], p[1..], c));
    }
  }

  lemma FitsLookup(t: Tree, h: int, lo: int, hi: int, i: nat, c: Tree, x: int)
    requires t.Node? && Shape(t, h) && Within(t.entries, lo, hi) && i <= |t.entries| && lo <= x <= hi
    requires Fits(c, h - 1, GapLo(t.entries, i, lo), GapHi(t.entries, i, hi))
    ensures Lookup(Absorb(t, i, c), x) ==
            if GapLo(t.entries, i, lo) <= x <= GapHi(t.entries, i, hi) then Lookup(c, x) else Lookup(t, x)
  {
    FitsAbsorbable(t, h, lo, hi, i, c);
    AbsorbLookup(t, h, i, c, x);
  }

  /** Carrying a subtree up changes what is found for the bytes that reach it, and for no
      other byte. */
  lemma {:induction false} UpLookup(t: Tree, h: int, lo: int, hi: int, p: seq<nat>, s: Tree, a: int, b: int, c: Tree, x: int)
    requires Shape(t, h) && Leads(t, lo, hi, p, s, a, b) && Fits(c, h - |p|, a, b) && lo <= x <= hi
    ensures ValidPath(t, p) && Lookup(Up(t, p, c), x) == if a <= x <= b then Lookup(c, x) else Lookup(t, x)
    decreases |p|
  {
    hide Absorb, Grown;
    LeadsValid(t, lo, hi, p, s, a, b);
    if p != [] {
      var glo, ghi, child := GapLo(t.entries, p[0], lo), GapHi(t.entries, p[0], hi), t.subs[p[0]];
      var grown := Up(child, p[1..], c);
      assert Up(t, p, c) == Absorb(t, p[0], grown);
      assert Fits(grown, h - 1, glo, ghi) by { UpFits(child, h - 1, glo, ghi, p[1..], s, a, b, c); }
      FitsLookup(t, h, lo, hi, p[0], grown, x);
      assert glo <= a && b <= ghi by { LeadsShape(child, h - 1, glo, ghi, p[1..], s, a, b); }
      if glo <= x <= ghi {
        assert Lookup(t, x) == Lookup(child, x) by { LookupGap(t, p[0], x); }
        UpLookup(child, h - 1, glo, ghi, p[1..], s, a, b, c, x);
      }
    }
  }

  /** Where slot s of a node goes when the node is split because it is full. */
  function Relocate(t: Tree, s: nat, rest: seq<nat>): (p: seq<nat>)
    requires t.Node?
    ensures p != []
  {
    if |t.entries| < FT_SPLITLIMIT then [s] + rest
    else if s <= FT_ORDER then [0, s] + rest
    else [1, s - (FT_ORDER + 1)] + rest
  }

  /** Where slot s of a node is after its subtree i turned into c; if that is slot i itself,
      q is the way on inside c. */
  function Shifted(t: Tree, i: nat, c: Tree, s: nat, q: seq<nat>): (p: seq<nat>)
    requires t.Node? && |t.entries| < FT_SPLITLIMIT && |t.subs| == |t.entries| + 1 && i < |t.subs|
    requires s == i ==> q != []
    ensures p != []
  {
    if !Pushed(c, t.height - 1) then [s] + q
    else
      var wide := Widened(t, i, c.entries[0], c.subs[0], c.subs[1]);
      if s == i then Relocate(wide, i + q[0], q[1..])
      else Relocate(wide, if s < i then s else s + 1, q)
  }

  /** The path to the subtree on the left of the one that p leads to. */
  function LeftSibling(p: seq<nat>): (q: seq<nat>)
    requires p != [] && p[|p| - 1] > 0
    ensures |q| == |p|
  {
    p[..|p| - 1] + [p[|p| - 1] - 1]
  }

  /** The path to that subtree after the one that p leads to turned into c. */
  function LeftPath(t: Tree, p: seq<nat>, c: Tree): (q: seq<nat>)
    requires ValidPath(t, p) && p != [] && p[|p| - 1] > 0
    ensures q != []
    decreases |p|
  {
    if |p| == 1 then Shifted(t, p[0], c, p[0] - 1, [])
    else Shifted(t, p[0], Up(t.subs[p[0]], p[1..], c), p[0], LeftPath(t.subs[p[0]], p[1..], c))
  }

  lemma SplitLeads(w: Tree, h: int, lo: int, hi: int, s: nat, rest: seq<nat>, sub: Tree, a: int, b: int)
    requires Body(w, h) && |w.entries| == FT_SPLITLIMIT && Within(w.entries, lo, hi) && s <= |w.entries|
    requires Leads(w.subs[s], GapLo(w.entries, s, lo), GapHi(w.entries, s, hi), rest, sub, a, b)
    ensures Leads(SplitNode(w), lo, hi, Relocate(w, s, rest), sub, a, b)
  {
    var n, mid := SplitNode(w), w.entries[FT_ORDER].range;
    var side, s' := if s <= FT_ORDER then 0 else 1, if s <= FT_ORDER then s else s - (FT_ORDER + 1);
    var half := n.subs[side];
    var hlo, hhi := GapLo(n.entries, side, lo), GapHi(n.entries, side, hi);
    assert half.subs[s'] == w.subs[s];
    assert Within(half.entries, hlo, hhi);
    assert GapLo(half.entries, s', hlo) == GapLo(w.entries, s, lo);
    assert GapHi(half.entries, s', hhi) == GapHi(w.entries, s, hi);
    assert ([s'] + rest)[1..] == rest;
    assert Leads(half, hlo, hhi, [s'] + rest, sub, a, b);
    assert Relocate(w, s, rest)[1..] == [s'] + rest;
  }

  lemma RelocateLeads(w: Tree, h: int, lo: int, hi: int, s: nat, rest: seq<nat>, sub: Tree, a: int, b: int)
    requires Body(w, h) && |w.entries| <= FT_SPLITLIMIT && Within(w.entries, lo, hi) && s <= |w.entries|
    requires Leads(w.subs[s], GapLo(w.entries, s, lo), GapHi(w.entries, s, hi), rest, sub, a, b)
    ensures Leads(SplitIfFull(w), lo, hi, Relocate(w, s, rest), sub, a, b)
  {
    if |w.entries| == FT_SPLITLIMIT {
      SplitLeads(w, h, lo, hi, s, rest, sub, a, b);
    } else {
      assert ([s] + rest)[1..] == rest;
    }
  }

  /** The bounds of a slot of a widened node. */
  lemma WidenedSlot(t: Tree, i: nat, e: Entry, left: Tree, right: Tree, s: nat, lo: int, hi: int)
    requires Lined(t) && i <= |t.entries| && s <= |t.entries| && s != i
    ensures var w, s' := Widened(t, i, e, left, right), if s < i then s else s + 1;
            && w.subs[s'] == t.subs[s]
            && GapLo(w.entries, s', lo) == GapLo(t.entries, s, lo)
            && GapHi(w.entries, s', hi) == GapHi(t.entries, s, hi)
  {
    WidenedSub(t, i, e, left, right, s);
    var s' := if s < i then s else s + 1;
    if s > 0 {
      InsertAtIndex(t.entries, i, e, s' - 1);
    }
    if s < |t.entries| {
      InsertAtIndex(t.entries, i, e, s');
    }
  }

  /** A slot of the widened node that holds one half of the subtree that was split. */
  lemma WidenedHalf(t: Tree, i: nat, c: Tree, side: nat, lo: int, hi: int)
    requires Lined(t) && i <= |t.entries| && Pushed(c, t.height - 1) && side <= 1
    ensures var w := Widened(t, i, c.entries[0], c.subs[0], c.subs[1]);
            && w.subs[i + side] == c.subs[side]
            && GapLo(w.entries, i + side, lo) == GapLo(c.entries, side, GapLo(t.entries, i, lo))
            && GapHi(w.entries, i + side, hi) == GapHi(c.entries, side, GapHi(t.entries, i, hi))
  {
    InsertAtIndex(t.subs[i := c.subs[0]], i + 1, c.subs[1], i + side);
    InsertAtIndex(t.entries, i, c.entries[0], i);
    if i > 0 {
      InsertAtIndex(t.entries, i, c.entries[0], i - 1);
    }
    if i < |t.entries| {
      InsertAtIndex(t.entries, i, c.entries[0], i + 1);
    }
  }

  lemma WidenedFits(t: Tree, h: int, lo: int, hi: int, i: nat, c: Tree)
    requires t.Node? && Shape(t, h) && Within(t.entries, lo, hi) && i <= |t.entries|
    requires Fits(c, h - 1, GapLo(t.entries, i, lo), GapHi(t.entries, i, hi)) && Pushed(c, h - 1)
    ensures Body(Widened(t, i, c.entries[0], c.subs[0], c.subs[1]), h)
    ensures Within(Widened(t, i, c.entries[0], c.subs[0], c.subs[1]).entries, lo, hi)
  {
    WidenedBody(t, h, i, c.entries[0], c.subs[0], c.subs[1]);
    InsertWithin(t.entries, i, c.entries[0], lo, hi);
  }

  /** A path through another slot than the one that changed. */
  lemma ShiftedAside(t: Tree, h: int, lo: int, hi: int, i: nat, c: Tree, s: nat, sub: Tree, a: int, b: int)
    requires t.Node? && Shape(t, h) && Within(t.entries, lo, hi) && i <= |t.entries| && s <= |t.entries| && s != i
    requires Fits(c, h - 1, GapLo(t.entries, i, lo), GapHi(t.entries, i, hi))
    requires Leads(t, lo, hi, [s], sub, a, b)
    ensures Leads(Absorb(t, i, c), lo, hi, Shifted(t, i, c, s, []), sub, a, b)
  {
    assert [s][1..] == [];
    if Pushed(c, h - 1) {
      var w := Widened(t, i, c.entries[0], c.subs[0], c.subs[1]);
      WidenedFits(t, h, lo, hi, i, c);
      WidenedSlot(t, i, c.entries[0], c.subs[0], c.subs[1], s, lo, hi);
      RelocateLeads(w, h, lo, hi, if s < i then s else s + 1, [], sub, a, b);
    } else {
      assert ([s] + [])[1..] == [];
    }
  }

  /** A path through the slot that changed. */
  lemma ShiftedThrough(t: Tree, h: int, lo: int, hi: int, i: nat, c: Tree, q: seq<nat>, sub: Tree, a: int, b: int)
    requires t.Node? && Shape(t, h) && Within(t.entries, lo, hi) && i <= |t.entries| && q != []
    requires Fits(c, h - 1, GapLo(t.entries, i, lo), GapHi(t.entries, i, hi))
    requires Leads(c, GapLo(t.entries, i, lo), GapHi(t.entries, i, hi), q, sub, a, b)
    ensures Leads(Absorb(t, i, c), lo, hi, Shifted(t, i, c, i, q), sub, a, b)
  {
    if Pushed(c, h - 1) {
      WidenedFits(t, h, lo, hi, i, c);
      WidenedHalf(t, i, c, q[0], lo, hi);
      RelocateLeads(Widened(t, i, c.entries[0], c.subs[0], c.subs[1]), h, lo, hi, i + q[0], q[1..], sub, a, b);
    } else {
      assert ([i] + q)[1..] == q;
    }
  }

  /** Path repair: after the subtree that p leads to was inserted into, with all the splits
      this caused, LeftPath still leads to the subtree on its left, which is reached by the
      same bytes as before. */
  lemma {:induction false} LeftPathLeads(t: Tree, h: int, lo: int, hi: int, p: seq<nat>,
                                         s: Tree, a: int, b: int, c: Tree, sl: Tree, al: int, bl: int)
    requires Shape(t, h) && Leads(t, lo, hi, p, s, a, b) && Fits(c, h - |p|, a, b)
    requires p != [] && p[|p| - 1] > 0 && Leads(t, lo, hi, LeftSibling(p), sl, al, bl)
    ensures ValidPath(t, p) && Leads(Up(t, p, c), lo, hi, LeftPath(t, p, c), sl, al, bl)
    decreases |p|
  {
    LeadsValid(t, lo, hi, p, s, a, b);
    if |p| == 1 {
      ShiftedAside(t, h, lo, hi, p[0], c, p[0] - 1, sl, al, bl);
    } else {
      var child, glo, ghi := t.subs[p[0]], GapLo(t.entries, p[0], lo), GapHi(t.entries, p[0], hi);
      assert LeftSibling(p)[1..] == LeftSibling(p[1..]);
      LeftPathLeads(child, h - 1, glo, ghi, p[1..], s, a, b, c, sl, al, bl);
      UpFits(child, h - 1, glo, ghi, p[1..], s, a, b, c);
      ShiftedThrough(t, h, lo, hi, p[0], Up(child, p[1..], c), LeftPath(child, p[1..], c), sl, al, bl);
    }
  }
}
