/** ft_write of figtree.c as a function on trees, and what it means: the bytes of the
    written range get the new value, all other bytes keep theirs. */
module FigWrite {
  import opened Intervals
  import opened FigTrees
  import opened FigPrune
  import opened FigInsert
  import opened FigAbsorb
  import opened FigPaths

  /** The interval lies wholly on one side of the other, or holds no byte. */
  predicate Beside(valid: Interval, r: Interval) {
    valid.nonempty ==> valid.right < r.left || r.right < valid.left
  }

  predicate Inside(i: Interval, lo: int, hi: int) {
    i.nonempty ==> lo <= i.left && i.right <= hi
  }

  /** A continuation meets no entry that overlaps its range: at every node the whole range
      falls into one gap. */
  lemma ContGap(es: seq<Entry>, valid: Interval, r: Interval, lo: int, hi: int)
    requires Sorted(es) && ProperOrEmpty(valid) && Proper(r) && Beside(valid, r)
    requires Inside(valid, lo, hi) && Inside(r, lo, hi)
    requires Within(es, valid.left, valid.right)
    ensures var i := Below(es, r.left);
            && i == Upto(es, r.right) && FitsGap(es, i, r)
            && Beside(GapValid(es, i, valid), r)
            && Within(es, lo, hi)
            && Inside(GapValid(es, i, valid), GapLo(es, i, lo), GapHi(es, i, hi))
            && Inside(r, GapLo(es, i, lo), GapHi(es, i, hi))
  {
    if es != [] {
      assert Proper(es[0].range) && valid.nonempty;
    }
  }

  /** In a continuation the gap keeps the old contents of `valid` in it. */
  lemma GapValidHas(es: seq<Entry>, i: nat, valid: Interval, b: int)
    requires i <= |es| && ProperOrEmpty(valid) && Has(valid, b) && InGap(es, i, b)
    ensures Has(GapValid(es, i, valid), b)
  {
  }

  /** Inserting a range beside `valid` has no continuations of its own, keeps the tree well
      formed, gives the range the value, and keeps what is found for the bytes of `valid`. */
  lemma {:induction false} ContShape(w: Width, t: Tree, h: int, valid: Interval, e: Entry, lo: int, hi: int)
    requires Shape(t, h) && ProperOrEmpty(valid) && Proper(e.range) && Beside(valid, e.range)
    requires Inside(valid, lo, hi) && Inside(e.range, lo, hi)
    ensures Ins(w, t, h, valid, e).conts == NO_CONTS
    ensures Fits(Ins(w, t, h, valid, e).tree, h, lo, hi)
    decreases h + 1
  {
    hide Absorb, Pruned;
    if t.Node? {
      var p := Pruned(t, h, valid);
      PrunedShape(t, h, valid);
      ContGap(p.entries, valid, e.range, lo, hi);
      var i := Below(p.entries, e.range.left);
      ContShape(w, p.subs[i], h - 1, GapValid(p.entries, i, valid), e, GapLo(p.entries, i, lo), GapHi(p.entries, i, hi));
      FitsAbsorbable(p, h, lo, hi, i, Ins(w, p.subs[i], h - 1, GapValid(p.entries, i, valid), e).tree);
    }
  }

  lemma {:induction false} ContLookup(w: Width, t: Tree, h: int, valid: Interval, e: Entry, lo: int, hi: int, b: int)
    requires Shape(t, h) && ProperOrEmpty(valid) && Proper(e.range) && Beside(valid, e.range)
    requires Inside(valid, lo, hi) && Inside(e.range, lo, hi)
    requires Has(e.range, b) || Has(valid, b)
    ensures Lookup(Ins(w, t, h, valid, e).tree, b) == if Has(e.range, b) then Some(e.value) else Lookup(t, b)
    decreases h + 1
  {
    hide Absorb, Pruned;
    if t.Node? {
      var p := Pruned(t, h, valid);
      PrunedShape(t, h, valid);
      ContGap(p.entries, valid, e.range, lo, hi);
      var i := Below(p.entries, e.range.left);
      var sub, v' := p.subs[i], GapValid(p.entries, i, valid);
      var below := Ins(w, sub, h - 1, v', e).tree;
      ContShape(w, sub, h - 1, v', e, GapLo(p.entries, i, lo), GapHi(p.entries, i, hi));
      FitsLookup(p, h, lo, hi, i, below, b);
      if Has(valid, b) {
        PrunedLookup(t, h, valid, b);
      }
      if GapLo(p.entries, i, lo) <= b <= GapHi(p.entries, i, hi) {
        LookupGap(p, i, b);
        if Has(valid, b) {
          GapValidHas(p.entries, i, valid, b);
        }
        ContLookup(w, sub, h - 1, v', e, GapLo(p.entries, i, lo), GapHi(p.entries, i, hi), b);
      }
    } else {
      BelowIs([e], b, if b <= e.range.right then 0 else 1);
    }
  }

  /** Among empty nodes it does not matter which bytes are said to be reachable. */
  lemma {:induction false} BareIns(w: Width, t: Tree, h: int, valid: Interval, e: Entry)
    requires Shape(t, h) && Bare(t) && ProperOrEmpty(valid) && Proper(e.range)
    ensures Ins(w, t, h, valid, e) == Ins(w, t, h, EMPTY, e)
    decreases h + 1
  {
    hide Absorb, Pruned;
    if t.Node? {
      BarePruned(t, h, valid);
      BarePruned(t, h, EMPTY);
      BareIns(w, t.subs[0], h - 1, GapValid([], 0, valid), e);
      BareIns(w, t.subs[0], h - 1, GapValid([], 0, EMPTY), e);
    }
  }

  lemma {:induction false} BareLookup(w: Width, t: Tree, h: int, e: Entry, lo: int, hi: int, b: int)
    requires Shape(t, h) && Bare(t) && Proper(e.range) && Inside(e.range, lo, hi) && lo <= b <= hi
    ensures Lookup(Ins(w, t, h, EMPTY, e).tree, b) == if Has(e.range, b) then Some(e.value) else Lookup(t, b)
    decreases h + 1
  {
    hide Absorb, Pruned;
    if t.Node? {
      BarePruned(t, h, EMPTY);
      var sub, v' := t.subs[0], GapValid([], 0, EMPTY);
      assert Below(t.entries, e.range.left) == 0;
      ContShape(w, sub, h - 1, v', e, lo, hi);
      FitsLookup(t, h, lo, hi, 0, Ins(w, sub, h - 1, v', e).tree, b);
      BareIns(w, sub, h - 1, v', e);
      BareLookup(w, sub, h - 1, e, lo, hi, b);
      LookupGap(t, 0, b);
    } else {
      BelowIs([e], b, if b <= e.range.right then 0 else 1);
    }
  }

  /** A continuation for a subtree s that is reached by the bytes of [a, b]: those of the piece
      to be put back, and those with the old contents. If s has no entries, it does not matter
      what `valid` says. */
  ghost predicate Opens(s: Tree, c: Cont, a: int, b: int) {
    && Proper(c.range) && ProperOrEmpty(c.valid) && Inside(c.range, a, b)
    && (Bare(s) || (
          && Beside(c.valid, c.range) && Inside(c.valid, a, b)
          && forall x :: a <= x <= b ==> Has(c.range, x) || Has(c.valid, x)))
  }

  /** The continuation meets no entry that overlaps its range, and keeps the place it starts at
      well formed. */
  lemma OpensShape(w: Width, s: Tree, h: int, c: Cont, a: int, b: int)
    requires Shape(s, h) && Opens(s, c, a, b)
    ensures Ins(w, s, h, c.valid, Entry(c.range, c.value)).conts == NO_CONTS
    ensures Fits(Ins(w, s, h, c.valid, Entry(c.range, c.value)).tree, h, a, b)
  {
    if Bare(s) {
      BareIns(w, s, h, c.valid, Entry(c.range, c.value));
      ContShape(w, s, h, EMPTY, Entry(c.range, c.value), a, b);
    } else {
      ContShape(w, s, h, c.valid, Entry(c.range, c.value), a, b);
    }
  }

  lemma OpensLookup(w: Width, s: Tree, h: int, c: Cont, a: int, b: int, x: int)
    requires Shape(s, h) && Opens(s, c, a, b) && a <= x <= b
    ensures Lookup(Ins(w, s, h, c.valid, Entry(c.range, c.value)).tree, x)
         == if Has(c.range, x) then Some(c.value) else Lookup(s, x)
  {
    if Bare(s) {
      BareIns(w, s, h, c.valid, Entry(c.range, c.value));
      BareLookup(w, s, h, Entry(c.range, c.value), a, b, x);
    } else {
      ContLookup(w, s, h, c.valid, Entry(c.range, c.value), a, b, x);
    }
  }

  predicate InCont(c: Option<Cont>, b: int) {
    c.Some? && Has(c.value.range, b)
  }

  /** No piece is left over at the last byte. There the bound of the old contents on the right
      wraps around. The bound on the left wraps around at byte 0, but pruning has made sure
      that there are no old contents there. */
  predicate EdgeFree(w: Width, conts: Conts) {
    w.Bits32? && conts.right.Some? ==> conts.right.value.range.right < BYTE_INDEX_MAX
  }

  lemma LeftOpens(w: Width, s: Tree, es: seq<Entry>, valid: Interval, r: Interval, i: nat)
    requires Sorted(es) && Proper(valid) && Proper(r) && ContainsInt(valid, r)
    requires Within(es, valid.left, valid.right) && i < |es| && (i > 0 ==> es[i - 1].range.right < r.left)
    requires es[i].range.left < r.left <= es[i].range.right
    requires es[i].range.left <= BYTE_INDEX_MIN ==> Bare(s)
    ensures Opens(s, LeftCont(w, es, i, valid, r).value, GapLo(es, i, valid.left), r.left - 1)
  {
  }

  lemma RightOpens(w: Width, s: Tree, es: seq<Entry>, valid: Interval, r: Interval, j: nat)
    requires Sorted(es) && Proper(valid) && Proper(r) && ContainsInt(valid, r)
    requires Within(es, valid.left, valid.right) && 0 < j <= |es| && (j < |es| ==> r.right < es[j].range.left)
    requires es[j - 1].range.left <= r.right < es[j - 1].range.right
    requires w.Bits32? ==> es[j - 1].range.right < BYTE_INDEX_MAX
    ensures Opens(s, RightCont(w, es, j, valid, r).value, r.right + 1, GapHi(es, j, valid.right))
  {
  }

  /** The two places beside the new entry, and the bytes that reach them. */
  lemma ReplacedLeads(t: Tree, h: int, i: nat, j: nat, e: Entry, lo: int, hi: int)
    requires t.Node? && Shape(t, h) && Within(t.entries, lo, hi) && lo <= e.range.left && e.range.right <= hi
    requires i < j <= |t.entries| && Run(t.entries, i, j, e.range) && Proper(e.range)
    ensures Leads(Replaced(t, i, j, e), lo, hi, [i], t.subs[i], GapLo(t.entries, i, lo), e.range.left - 1)
    ensures Leads(Replaced(t, i, j, e), lo, hi, [i + 1], t.subs[j], e.range.right + 1, GapHi(t.entries, j, hi))
  {
    var r := Replaced(t, i, j, e);
    ReplacedShape(t, h, i, j, e);
    ReplacedWithin(t, i, j, e, lo, hi);
    assert [i][1..] == [] && [i + 1][1..] == [];
    assert i > 0 ==> r.entries[i - 1] == t.entries[i - 1];
    assert j < |t.entries| ==> r.entries[i + 1] == t.entries[j];
  }

  /** Where the left continuation has to go on. */
  function LeftPlace(r: Insertion): seq<nat>
    requires r.conts.right.Some? ==> r.path != [] && r.path[|r.path| - 1] > 0
  {
    if r.conts.right.Some? then LeftSibling(r.path) else r.path
  }

  /** The tree still owes the piece c at the place p leads to. */
  ghost predicate Owes(t: Tree, lo: int, hi: int, p: seq<nat>, c: Cont) {
    exists s, a, b :: Leads(t, lo, hi, p, s, a, b) && Opens(s, c, a, b)
  }

  /** The result of a main insertion at a node of height h that is reached by the bytes of
      [lo, hi]. */
  ghost predicate Overwritten(w: Width, r: Insertion, h: int, lo: int, hi: int) {
    && Fits(r.tree, h, lo, hi)
    && (r.conts != NO_CONTS ==> Shape(r.tree, h) && r.path != [])
    && (r.conts.right.Some? ==>
          r.path[|r.path| - 1] > 0 && (EdgeFree(w, r.conts) ==> Owes(r.tree, lo, hi, r.path, r.conts.right.value)))
    && (r.conts.left.Some? ==> Owes(r.tree, lo, hi, LeftPlace(r), r.conts.left.value))
  }

  lemma RunOf(es: seq<Entry>, r: Interval)
    requires Sorted(es) && Proper(r) && Below(es, r.left) < Upto(es, r.right)
    ensures Run(es, Below(es, r.left), Upto(es, r.right), r)
  {
  }

  lemma MainGap(es: seq<Entry>, valid: Interval, r: Interval)
    requires Sorted(es) && Proper(valid) && Proper(r) && ContainsInt(valid, r)
    requires Within(es, valid.left, valid.right) && Below(es, r.left) >= Upto(es, r.right)
    ensures var i := Below(es, r.left);
            && FitsGap(es, i, r)
            && GapValid(es, i, valid) == Span(GapLo(es, i, valid.left), GapHi(es, i, valid.right))
            && ContainsInt(GapValid(es, i, valid), r) && Proper(GapValid(es, i, valid))
  {
  }

  /** The piece on the right has its place, unless its bound wraps around. */
  lemma OverwriteRight(w: Width, t: Tree, h: int, valid: Interval, e: Entry, i: nat, j: nat)
    requires t.Node? && Shape(t, h) && Proper(valid) && Proper(e.range) && ContainsInt(valid, e.range)
    requires Within(t.entries, valid.left, valid.right)
    requires i < j <= |t.entries| && Run(t.entries, i, j, e.range)
    requires EdgeFree(w, Overwrite(w, t, valid, e, i, j).conts)
    ensures var r := Overwrite(w, t, valid, e, i, j);
            r.conts.right.Some? ==> Owes(r.tree, valid.left, valid.right, r.path, r.conts.right.value)
  {
    hide Leads, Opens, Replaced;
    ReplacedLeads(t, h, i, j, e, valid.left, valid.right);
    if RightCont(w, t.entries, j, valid, e.range).Some? {
      RightOpens(w, t.subs[j], t.entries, valid, e.range, j);
    }
  }

  /** The piece on the left always has its place. */
  lemma OverwriteLeft(w: Width, t: Tree, h: int, valid: Interval, e: Entry, i: nat, j: nat)
    requires t.Node? && Shape(t, h) && Proper(valid) && Proper(e.range) && ContainsInt(valid, e.range)
    requires Within(t.entries, valid.left, valid.right)
    requires i < j <= |t.entries| && Run(t.entries, i, j, e.range)
    requires t.entries[0].range.left <= valid.left ==> Bare(t.subs[0])
    ensures var r := Overwrite(w, t, valid, e, i, j);
            r.conts.left.Some? ==> Owes(r.tree, valid.left, valid.right, LeftPlace(r), r.conts.left.value)
  {
    hide Leads, Opens, Replaced;
    ReplacedLeads(t, h, i, j, e, valid.left, valid.right);
    if LeftCont(w, t.entries, i, valid, e.range).Some? {
      LeftOpens(w, t.subs[i], t.entries, valid, e.range, i);
      assert LeftPlace(Overwrite(w, t, valid, e, i, j)) == [i];
    }
  }

  lemma OverwriteOwes(w: Width, t: Tree, h: int, valid: Interval, e: Entry, i: nat, j: nat)
    requires t.Node? && Shape(t, h) && Proper(valid) && Proper(e.range) && ContainsInt(valid, e.range)
    requires Within(t.entries, valid.left, valid.right)
    requires i < j <= |t.entries| && Run(t.entries, i, j, e.range)
    requires t.entries[0].range.left <= valid.left ==> Bare(t.subs[0])
    ensures Overwritten(w, Overwrite(w, t, valid, e, i, j), h, valid.left, valid.right)
  {
    hide Owes, Replaced, LeftCont, RightCont;
    ReplacedShape(t, h, i, j, e);
    ReplacedWithin(t, i, j, e, valid.left, valid.right);
    if EdgeFree(w, Overwrite(w, t, valid, e, i, j).conts) {
      OverwriteRight(w, t, h, valid, e, i, j);
    }
    OverwriteLeft(w, t, h, valid, e, i, j);
  }

  /** One level up, a place that is owed a piece is one step further away. */
  lemma OwesUp(t: Tree, h: int, lo: int, hi: int, i: nat, child: Tree, p: seq<nat>, c: Cont)
    requires t.Node? && Shape(t, h) && Within(t.entries, lo, hi) && i <= |t.entries|
    requires Owes(child, GapLo(t.entries, i, lo), GapHi(t.entries, i, hi), p, c)
    ensures Owes(t.(subs := t.subs[i := child]), lo, hi, [i] + p, c)
  {
    var s, a, b :| Leads(child, GapLo(t.entries, i, lo), GapHi(t.entries, i, hi), p, s, a, b) && Opens(s, c, a, b);
    assert ([i] + p)[1..] == p;
    assert Leads(t.(subs := t.subs[i := child]), lo, hi, [i] + p, s, a, b);
  }

  lemma OverwrittenUp(w: Width, t: Tree, h: int, lo: int, hi: int, i: nat, r: Insertion)
    requires t.Node? && Shape(t, h) && Within(t.entries, lo, hi) && i <= |t.entries|
    requires Overwritten(w, r, h - 1, GapLo(t.entries, i, lo), GapHi(t.entries, i, hi))
    ensures Overwritten(w, Insertion(Absorb(t, i, r.tree), [i] + r.path, r.conts), h, lo, hi)
  {
    hide Owes, Opens, Leads;
    var r' := Insertion(Absorb(t, i, r.tree), [i] + r.path, r.conts);
    FitsAbsorbable(t, h, lo, hi, i, r.tree);
    if r.conts.right.Some? && EdgeFree(w, r.conts) {
      OwesUp(t, h, lo, hi, i, r.tree, r.path, r.conts.right.value);
    }
    if r.conts.left.Some? {
      OwesUp(t, h, lo, hi, i, r.tree, LeftPlace(r), r.conts.left.value);
      assert LeftPlace(r') == [i] + LeftPlace(r);
    }
  }

  /** A main insertion keeps the tree well formed, and owes the pieces of the overwritten
      entries at places it gives the paths to. */
  lemma {:induction false} MainShape(w: Width, t: Tree, h: int, valid: Interval, e: Entry)
    requires Shape(t, h) && Proper(valid) && Proper(e.range) && ContainsInt(valid, e.range)
    ensures Overwritten(w, Ins(w, t, h, valid, e), h, valid.left, valid.right)
    decreases h + 1
  {
    hide Absorb, Pruned, Overwritten, Overwrite;
    if t.Node? {
      var p := Pruned(t, h, valid);
      PrunedShape(t, h, valid);
      var i, j := Below(p.entries, e.range.left), Upto(p.entries, e.range.right);
      if i < j {
        RunOf(p.entries, e.range);
        PrunedBare(t, h, valid);
        OverwriteOwes(w, p, h, valid, e, i, j);
      } else {
        MainGap(p.entries, valid, e.range);
        MainShape(w, p.subs[i], h - 1, GapValid(p.entries, i, valid), e);
        OverwrittenUp(w, p, h, valid.left, valid.right, i, Ins(w, p.subs[i], h - 1, GapValid(p.entries, i, valid), e));
      }
    } else {
      FreshOverwritten(w, h, valid, e);
    }
  }

  lemma FreshOverwritten(w: Width, h: int, valid: Interval, e: Entry)
    requires h == -1 && Proper(e.range) && ContainsInt(valid, e.range)
    ensures Overwritten(w, Insertion(Fresh(e), [], NO_CONTS), h, valid.left, valid.right)
  {
    assert Shape(Fresh(e), 0);
  }

  /** What has to be found for byte b once e is written. */
  ghost function After(t: Tree, e: Entry, b: int): Option<int> {
    if Has(e.range, b) then Some(e.value) else Lookup(t, b)
  }

  /** A main insertion has done its work for byte b, up to the pieces it owes; and these have
      the values that b had. */
  ghost predicate Settled(t: Tree, r: Insertion, e: Entry, b: int) {
    && (InCont(r.conts.left, b) ==> !Has(e.range, b) && Lookup(t, b) == Some(r.conts.left.value.value))
    && (InCont(r.conts.right, b) ==> !Has(e.range, b) && Lookup(t, b) == Some(r.conts.right.value.value))
    && (!InCont(r.conts.left, b) && !InCont(r.conts.right, b) ==> Lookup(r.tree, b) == After(t, e, b))
  }

  lemma OverwriteSettled(w: Width, t: Tree, h: int, valid: Interval, e: Entry, i: nat, j: nat, b: int)
    requires t.Node? && Shape(t, h) && Proper(e.range) && i < j <= |t.entries| && Run(t.entries, i, j, e.range)
    ensures Settled(t, Overwrite(w, t, valid, e, i, j), e, b)
  {
    hide Replaced, LeftValid, RightValid;
    var r, es := Overwrite(w, t, valid, e, i, j), t.entries;
    if InCont(r.conts.left, b) {
      LookupHit(t, h, i, b);
    } else if InCont(r.conts.right, b) {
      LookupHit(t, h, j - 1, b);
    } else {
      assert !Has(e.range, b) ==> b < es[i].range.left || b > es[j - 1].range.right;
      ReplacedLookup(t, h, i, j, e, b);
    }
  }

  lemma SettledUp(w: Width, t: Tree, h: int, lo: int, hi: int, i: nat, r: Insertion, e: Entry, b: int)
    requires t.Node? && Shape(t, h) && Within(t.entries, lo, hi) && i <= |t.entries| && lo <= b <= hi
    requires Overwritten(w, r, h - 1, GapLo(t.entries, i, lo), GapHi(t.entries, i, hi))
    requires Proper(e.range) && FitsGap(t.entries, i, e.range)
    requires var inside := GapLo(t.entries, i, lo) <= b <= GapHi(t.entries, i, hi);
             if inside then Settled(t.subs[i], r, e, b) else !InCont(r.conts.left, b) && !InCont(r.conts.right, b)
    ensures Settled(t, Insertion(Absorb(t, i, r.tree), [i] + r.path, r.conts), e, b)
  {
    hide Absorb, Owes;
    FitsLookup(t, h, lo, hi, i, r.tree, b);
    if GapLo(t.entries, i, lo) <= b <= GapHi(t.entries, i, hi) {
      LookupGap(t, i, b);
    }
  }

  /** The pieces an insertion below a gap owes lie in that gap. */
  lemma OwedInside(w: Width, r: Insertion, h: int, lo: int, hi: int, b: int)
    requires Overwritten(w, r, h, lo, hi) && EdgeFree(w, r.conts) && (InCont(r.conts.left, b) || InCont(r.conts.right, b))
    ensures lo <= b <= hi
  {
    if InCont(r.conts.left, b) {
      var s, a, z :| Leads(r.tree, lo, hi, LeftPlace(r), s, a, z) && Opens(s, r.conts.left.value, a, z);
      LeadsShape(r.tree, h, lo, hi, LeftPlace(r), s, a, z);
    } else {
      var s, a, z :| Leads(r.tree, lo, hi, r.path, s, a, z) && Opens(s, r.conts.right.value, a, z);
      LeadsShape(r.tree, h, lo, hi, r.path, s, a, z);
    }
  }

  lemma {:induction false} MainLookup(w: Width, t: Tree, h: int, valid: Interval, e: Entry, b: int)
    requires Shape(t, h) && Proper(valid) && Proper(e.range) && ContainsInt(valid, e.range)
    requires EdgeFree(w, Ins(w, t, h, valid, e).conts) && Has(valid, b)
    ensures Settled(t, Ins(w, t, h, valid, e), e, b)
    decreases h + 1
  {
    hide Absorb, Pruned, Overwritten, Overwrite, Settled;
    if t.Node? {
      var p := Pruned(t, h, valid);
      PrunedShape(t, h, valid);
      var i, j := Below(p.entries, e.range.left), Upto(p.entries, e.range.right);
      if i < j {
        RunOf(p.entries, e.range);
        OverwriteSettled(w, p, h, valid, e, i, j, b);
      } else {
        MainGap(p.entries, valid, e.range);
        var v' := GapValid(p.entries, i, valid);
        var r := Ins(w, p.subs[i], h - 1, v', e);
        MainShape(w, p.subs[i], h - 1, v', e);
        if Has(v', b) {
          MainLookup(w, p.subs[i], h - 1, v', e, b);
        } else if InCont(r.conts.left, b) || InCont(r.conts.right, b) {
          OwedInside(w, r, h - 1, v'.left, v'.right, b);
        }
        SettledUp(w, p, h, valid.left, valid.right, i, r, e, b);
      }
      PrunedLookup(t, h, valid, b);
      SettledSame(p, t, Ins(w, t, h, valid, e), e, b);
    } else {
      FreshSettled(e, b);
    }
  }

  lemma SettledSame(p: Tree, t: Tree, r: Insertion, e: Entry, b: int)
    requires Settled(p, r, e, b) && Lookup(p, b) == Lookup(t, b)
    ensures Settled(t, r, e, b)
  {
  }

  lemma FreshSettled(e: Entry, b: int)
    requires Proper(e.range)
    ensures Settled(Nil, Insertion(Fresh(e), [], NO_CONTS), e, b)
  {
    LookupSlot(Fresh(e), if b <= e.range.right then 0 else 1, b);
  }
}
