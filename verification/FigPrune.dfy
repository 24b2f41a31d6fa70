/** Pruning a node to the interval in which it can still be reached
    (ftn_pruneTo, ftn_clear, subtree_clear in figtreenode.c and utils.c). */
module FigPrune {
  import opened Intervals
  import opened FigTrees

  /** Every entry lies in [lo, hi]. */
  predicate Within(es: seq<Entry>, lo: int, hi: int) {
    forall i :: 0 <= i < |es| ==> lo <= es[i].range.left && es[i].range.right <= hi
  }

  function Cleared(t: Tree): Tree {
    if t.Nil? then Nil else EmptyChain(t.height)
  }

  /** Nothing but empty nodes. */
  predicate Bare(t: Tree) {
    t == Cleared(t)
  }

  function Clip(e: Entry, valid: Interval): Entry {
    e.(range := e.range.(left := Max(e.range.left, valid.left), right := Min(e.range.right, valid.right)))
  }

  function ClipAll(es: seq<Entry>, valid: Interval): (r: seq<Entry>)
    ensures |r| == |es|
    ensures forall i :: 0 <= i < |es| ==> r[i] == Clip(es[i], valid)
  {
    seq(|es|, i requires 0 <= i < |es| => Clip(es[i], valid))
  }

  /** The first surviving entry reaches past the left bound, so nothing left of it is
      reachable. */
  ghost predicate ClearsLeft(es: seq<Entry>, valid: Interval) {
    && Below(es, valid.left) < Upto(es, valid.right)
    && es[Below(es, valid.left)].range.left <= valid.left
  }

  /** The last surviving entry reaches past the right bound. The scan does not come back
      for an entry it has already treated on the left side. */
  ghost predicate ClearsRight(es: seq<Entry>, valid: Interval) {
    && Below(es, valid.left) < Upto(es, valid.right)
    && es[Upto(es, valid.right) - 1].range.right > valid.right
    && !(ClearsLeft(es, valid) && Upto(es, valid.right) == Below(es, valid.left) + 1)
  }

  ghost function PrunedSubs(es: seq<Entry>, subs: seq<Tree>, valid: Interval): (r: seq<Tree>)
    requires |subs| == |es| + 1
    requires Below(es, valid.left) <= Upto(es, valid.right)
    ensures |r| == Upto(es, valid.right) - Below(es, valid.left) + 1
  {
    var kept := subs[Below(es, valid.left)..Upto(es, valid.right) + 1];
    var kept := if ClearsLeft(es, valid) then kept[0 := Cleared(kept[0])] else kept;
    if ClearsRight(es, valid) then kept[|kept| - 1 := Cleared(kept[|kept| - 1])] else kept
  }

  lemma BelowLeqUpto(es: seq<Entry>, lo: int, hi: int)
    requires Sorted(es) && lo <= hi
    ensures Below(es, lo) <= Upto(es, hi)
  {
  }

  /** The node after ftn_pruneTo. */
  ghost function Pruned(t: Tree, h: int, valid: Interval): Tree
    requires t.Node? && Shape(t, h) && ProperOrEmpty(valid)
  {
    if !valid.nonempty then Cleared(t)
    else
      BelowLeqUpto(t.entries, valid.left, valid.right);
      t.(entries := ClipAll(Kept(t.entries, valid), valid),
      subs := PrunedSubs(t.entries, t.subs, valid))
  }

  /** The entries that survive: those that overlap `valid`. */
  ghost function Kept(es: seq<Entry>, valid: Interval): (r: seq<Entry>)
    requires Below(es, valid.left) <= Upto(es, valid.right)
    ensures |r| == Upto(es, valid.right) - Below(es, valid.left)
  {
    es[Below(es, valid.left)..Upto(es, valid.right)]
  }

  /** There is nothing to prune in empty nodes. */
  lemma BarePruned(t: Tree, h: int, valid: Interval)
    requires t.Node? && Shape(t, h) && ProperOrEmpty(valid) && Bare(t)
    ensures t.entries == [] && t.subs == [EmptyChain(h - 1)] && Bare(t.subs[0]) && Pruned(t, h, valid) == t
  {
    assert t == EmptyChain(h);
  }

  /** Left of an entry that reaches the left bound, pruning leaves only empty nodes. */
  lemma PrunedBare(t: Tree, h: int, valid: Interval)
    requires t.Node? && Shape(t, h) && Proper(valid)
    ensures var p := Pruned(t, h, valid);
            p.entries != [] && p.entries[0].range.left <= valid.left ==> |p.subs| > 0 && Bare(p.subs[0])
  {
    var p := Pruned(t, h, valid);
    if p.entries != [] && p.entries[0].range.left <= valid.left {
      assert p.entries[0] == Clip(t.entries[Below(t.entries, valid.left)], valid);
      ClearedShape(t.subs[Below(t.entries, valid.left)], h - 1);
    }
  }

  lemma PartSorted(es: seq<Entry>, from: nat, to: nat)
    requires Sorted(es) && from <= to <= |es|
    ensures Sorted(es[from..to])
  {
  }

  lemma KeptOverlap(es: seq<Entry>, valid: Interval, i: nat)
    requires Sorted(es) && Proper(valid) && Below(es, valid.left) <= i < Upto(es, valid.right)
    ensures Overlaps(es[i].range, valid)
  {
    assert es[Below(es, valid.left)].range.right <= es[i].range.right;
  }

  lemma ClipSorted(es: seq<Entry>, valid: Interval)
    requires Sorted(es) && Proper(valid)
    requires forall i :: 0 <= i < |es| ==> Overlaps(es[i].range, valid)
    ensures Sorted(ClipAll(es, valid)) && Within(ClipAll(es, valid), valid.left, valid.right)
  {
  }

  lemma PrunedEntries(t: Tree, h: int, valid: Interval)
    requires t.Node? && Shape(t, h) && Proper(valid)
    ensures Sorted(Pruned(t, h, valid).entries)
    ensures Within(Pruned(t, h, valid).entries, valid.left, valid.right)
  {
    BelowLeqUpto(t.entries, valid.left, valid.right);
    var from, to := Below(t.entries, valid.left), Upto(t.entries, valid.right);
    PartSorted(t.entries, from, to);
    forall i | 0 <= i < to - from
      ensures Overlaps(Kept(t.entries, valid)[i].range, valid)
    {
      KeptOverlap(t.entries, valid, from + i);
    }
    ClipSorted(Kept(t.entries, valid), valid);
  }

  lemma ClearedShape(t: Tree, h: int)
    requires Shape(t, h)
    ensures Shape(Cleared(t), h)
    ensures forall b :: Lookup(Cleared(t), b) == None
  {
    EmptyChainShape(h);
  }

  /** Pruning keeps the shape, leaves only entries inside `valid`. */
  lemma PrunedShape(t: Tree, h: int, valid: Interval)
    requires t.Node? && Shape(t, h) && ProperOrEmpty(valid)
    ensures Pruned(t, h, valid).Node? && Shape(Pruned(t, h, valid), h)
    ensures Within(Pruned(t, h, valid).entries, valid.left, valid.right)
  {
    if valid.nonempty {
      PrunedEntries(t, h, valid);
      forall i | 0 <= i < |t.subs|
        ensures Shape(Cleared(t.subs[i]), h - 1)
      {
        ClearedShape(t.subs[i], h - 1);
      }
    } else {
      ClearedShape(t, h);
    }
  }

  /** Where a byte of `valid` falls: into an entry that is kept, or into a gap next to
      one. */
  lemma PrunedSlot(es: seq<Entry>, valid: Interval, b: int)
    requires Sorted(es) && Proper(valid) && Has(valid, b)
    ensures Below(es, valid.left) <= Below(es, b) <= Upto(es, valid.right)
    ensures Below(es, b) < |es| && ContainsVal(es[Below(es, b)].range, b) ==> Below(es, b) < Upto(es, valid.right)
    ensures !(Below(es, b) < |es| && ContainsVal(es[Below(es, b)].range, b)) ==> InGap(es, Below(es, b), b)
  {
  }

  lemma PrunedHit(es: seq<Entry>, valid: Interval, b: int)
    requires Sorted(es) && Proper(valid) && Has(valid, b)
    requires Below(es, valid.left) <= Below(es, b) < Upto(es, valid.right)
    requires ContainsVal(es[Below(es, b)].range, b)
    ensures var m := Below(es, b) - Below(es, valid.left);
            && ContainsVal(ClipAll(Kept(es, valid), valid)[m].range, b)
            && ClipAll(Kept(es, valid), valid)[m].value == es[Below(es, b)].value
  {
    var m := Below(es, b) - Below(es, valid.left);
    assert ClipAll(Kept(es, valid), valid)[m] == Clip(es[Below(es, b)], valid);
  }

  lemma PrunedGap(es: seq<Entry>, valid: Interval, b: int)
    requires Sorted(es) && Proper(valid) && Has(valid, b) && InGap(es, Below(es, b), b)
    requires Below(es, valid.left) <= Below(es, b) <= Upto(es, valid.right)
    ensures InGap(ClipAll(Kept(es, valid), valid), Below(es, b) - Below(es, valid.left), b)
  {
    hide Sorted, Proper;
    var lo, k, hi, r := Below(es, valid.left), Below(es, b), Upto(es, valid.right), ClipAll(Kept(es, valid), valid);
    if k > lo {
      assert r[k - lo - 1] == Clip(es[k - 1], valid);
    }
    if k < hi {
      assert r[k - lo] == Clip(es[k], valid);
    }
  }

  /** The subtree below a gap that a byte of `valid` falls into is not one of the
      cleared ones. */
  lemma PrunedSubAt(es: seq<Entry>, subs: seq<Tree>, valid: Interval, b: int)
    requires Sorted(es) && |subs| == |es| + 1 && Proper(valid) && Has(valid, b)
    requires InGap(es, Below(es, b), b)
    ensures Below(es, valid.left) <= Below(es, b) <= Upto(es, valid.right)
    ensures PrunedSubs(es, subs, valid)[Below(es, b) - Below(es, valid.left)] == subs[Below(es, b)]
  {
    PrunedSlot(es, valid, b);
    var lo, hi, k := Below(es, valid.left), Upto(es, valid.right), Below(es, b);
    assert subs[lo..hi + 1][k - lo] == subs[k];
    if k == lo {
      assert !ClearsLeft(es, valid);
    }
    if k == hi {
      assert !ClearsRight(es, valid);
    }
  }

  lemma PrunedLookupHit(t: Tree, h: int, valid: Interval, b: int)
    requires t.Node? && Shape(t, h) && Proper(valid) && Has(valid, b)
    requires Below(t.entries, b) < |t.entries| && ContainsVal(t.entries[Below(t.entries, b)].range, b)
    ensures Lookup(Pruned(t, h, valid), b) == Lookup(t, b)
  {
    PrunedShape(t, h, valid);
    PrunedSlot(t.entries, valid, b);
    PrunedHit(t.entries, valid, b);
    LookupHit(t, h, Below(t.entries, b), b);
    LookupHit(Pruned(t, h, valid), h, Below(t.entries, b) - Below(t.entries, valid.left), b);
  }

  lemma PrunedLookupGap(t: Tree, h: int, valid: Interval, b: int)
    requires t.Node? && Shape(t, h) && Proper(valid) && Has(valid, b)
    requires InGap(t.entries, Below(t.entries, b), b)
    ensures Lookup(Pruned(t, h, valid), b) == Lookup(t, b)
  {
    PrunedShape(t, h, valid);
    PrunedSlot(t.entries, valid, b);
    PrunedGap(t.entries, valid, b);
    PrunedSubAt(t.entries, t.subs, valid, b);
    LookupGap(t, Below(t.entries, b), b);
    LookupGap(Pruned(t, h, valid), Below(t.entries, b) - Below(t.entries, valid.left), b);
  }

  /** Pruning does not change what is found for a byte of `valid`. */
  lemma PrunedLookup(t: Tree, h: int, valid: Interval, b: int)
    requires t.Node? && Shape(t, h) && ProperOrEmpty(valid) && Has(valid, b)
    ensures Lookup(Pruned(t, h, valid), b) == Lookup(t, b)
  {
    PrunedSlot(t.entries, valid, b);
    if Below(t.entries, b) < |t.entries| && ContainsVal(t.entries[Below(t.entries, b)].range, b) {
      PrunedLookupHit(t, h, valid, b);
    } else {
      PrunedLookupGap(t, h, valid, b);
    }
  }
}
