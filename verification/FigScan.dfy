/** What an iterator over a tree has to yield: the mappings that lookups see, from left to
    right. */
module FigScan {
  import opened Intervals
  import opened FigTrees
  import opened FigPrune
  import opened FigPaths

  /** The mappings of t for the bytes of [lo, hi]. */
  function Figs(t: Tree, lo: int, hi: int): seq<Entry>
    decreases t, if t.Nil? then 0 else |t.entries| + 1, 0
  {
    if t.Nil? || lo > hi || |t.subs| != |t.entries| + 1 then [] else FromGap(t, 0, lo, hi)
  }

  /** Those from gap k of the node on. */
  function FromGap(t: Tree, k: nat, lo: int, hi: int): seq<Entry>
    requires t.Node? && |t.subs| == |t.entries| + 1 && k <= |t.entries|
    decreases t, |t.entries| - k, 2
  {
    Figs(t.subs[k], Max(lo, GapLo(t.entries, k, lo)), Min(hi, GapHi(t.entries, k, hi))) + FromEntry(t, k, lo, hi)
  }

  /** Those from entry k of the node on. */
  function FromEntry(t: Tree, k: nat, lo: int, hi: int): seq<Entry>
    requires t.Node? && |t.subs| == |t.entries| + 1 && k <= |t.entries|
    decreases t, |t.entries| - k, 1
  {
    if k == |t.entries| then []
    else Shown(t.entries[k], lo, hi) + FromGap(t, k + 1, lo, hi)
  }

  /** The part of an entry in [lo, hi], if there is one. */
  function Shown(e: Entry, lo: int, hi: int): seq<Entry> {
    if e.range.left <= hi && lo <= e.range.right then [Clip(e, Span(lo, hi))] else []
  }

  /** figs is a list of disjoint mappings in ascending order, inside [lo, hi]. */
  ghost predicate Listed(figs: seq<Entry>, lo: int, hi: int) {
    Sorted(figs) && Within(figs, lo, hi)
  }

  ghost predicate Names(figs: seq<Entry>, b: int, v: int) {
    exists k :: 0 <= k < |figs| && Has(figs[k].range, b) && figs[k].value == v
  }

  lemma NamesAppend(f: seq<Entry>, g: seq<Entry>, b: int, v: int)
    ensures Names(f + g, b, v) <==> Names(f, b, v) || Names(g, b, v)
  {
    if Names(f, b, v) {
      var k :| 0 <= k < |f| && Has(f[k].range, b) && f[k].value == v;
      assert (f + g)[k] == f[k];
    }
    if Names(g, b, v) {
      var k :| 0 <= k < |g| && Has(g[k].range, b) && g[k].value == v;
      assert (f + g)[|f| + k] == g[k];
    }
  }

  lemma ListedAppend(f: seq<Entry>, g: seq<Entry>, lo: int, a: int, b: int, hi: int)
    requires Listed(f, lo, a) && Listed(g, b, hi) && a < b && a <= hi && lo <= b
    ensures Listed(f + g, lo, hi)
  {
    var fg := f + g;
    forall k | 0 <= k < |fg|
      ensures Proper(fg[k].range) && lo <= fg[k].range.left && fg[k].range.right <= hi
      ensures if k < |f| then fg[k].range.right <= a else fg[k].range.left >= b
    {
      assert fg[k] == if k < |f| then f[k] else g[k - |f|];
    }
    forall i, j | 0 <= i < j < |fg|
      ensures fg[i].range.right < fg[j].range.left
    {
      assert fg[i] == if i < |f| then f[i] else g[i - |f|];
      assert fg[j] == if j < |f| then f[j] else g[j - |f|];
    }
  }

  lemma ShownListed(e: Entry, lo: int, hi: int)
    requires Proper(e.range) && BYTE_INDEX_MIN <= lo <= hi
    ensures Listed(Shown(e, lo, hi), Max(lo, e.range.left), Min(hi, e.range.right))
  {
  }

  lemma {:induction false} FigsListed(t: Tree, h: int, lo: int, hi: int)
    requires Shape(t, h) && BYTE_INDEX_MIN <= lo
    ensures Listed(Figs(t, lo, hi), lo, hi)
    decreases t, if t.Nil? then 0 else |t.entries| + 1, 0
  {
    hide FromGap;
    if t.Node? && lo <= hi {
      FromGapListed(t, h, 0, lo, hi);
    }
  }

  lemma {:induction false} FromGapListed(t: Tree, h: int, k: nat, lo: int, hi: int)
    requires t.Node? && Shape(t, h) && k <= |t.entries| && BYTE_INDEX_MIN <= lo <= hi
    ensures Listed(FromGap(t, k, lo, hi), Max(lo, GapLo(t.entries, k, lo)), hi)
    decreases t, |t.entries| - k, 2
  {
    hide Listed, Figs, FromEntry;
    var a, b := Max(lo, GapLo(t.entries, k, lo)), Min(hi, GapHi(t.entries, k, hi));
    FigsListed(t.subs[k], h - 1, a, b);
    FromEntryListed(t, h, k, lo, hi);
    if k == |t.entries| {
      LastGap(t, lo, hi);
    } else {
      ListedAppend(Figs(t.subs[k], a, b), FromEntry(t, k, lo, hi), a, b, Max(lo, t.entries[k].range.left), hi);
    }
  }

  lemma LastGap(t: Tree, lo: int, hi: int)
    requires t.Node? && |t.subs| == |t.entries| + 1
    ensures var k := |t.entries|;
            FromGap(t, k, lo, hi) == Figs(t.subs[k], Max(lo, GapLo(t.entries, k, lo)), Min(hi, GapHi(t.entries, k, hi)))
  {
  }

  lemma {:induction false} FromEntryListed(t: Tree, h: int, k: nat, lo: int, hi: int)
    requires t.Node? && Shape(t, h) && k <= |t.entries| && BYTE_INDEX_MIN <= lo <= hi
    ensures Listed(FromEntry(t, k, lo, hi), if k == |t.entries| then hi else Max(lo, t.entries[k].range.left), hi)
    decreases t, |t.entries| - k, 1
  {
    hide FromGap;
    if k < |t.entries| {
      var e := t.entries[k];
      ShownListed(e, lo, hi);
      FromGapListed(t, h, k + 1, lo, hi);
      hide Listed;
      ListedAppend(Shown(e, lo, hi), FromGap(t, k + 1, lo, hi), Max(lo, e.range.left), Min(hi, e.range.right),
                   Max(lo, e.range.right + 1), hi);
    }
  }

  lemma NoneOutside(figs: seq<Entry>, lo: int, hi: int, b: int, v: int)
    requires Listed(figs, lo, hi) && (b < lo || b > hi)
    ensures !Names(figs, b, v)
  {
  }

  lemma FirstInside(figs: seq<Entry>, lo: int, hi: int)
    requires Listed(figs, lo, hi) && figs != []
    ensures lo <= hi
  {
    assert Proper(figs[0].range);
  }

  lemma Crossed(figs: seq<Entry>, lo: int, hi: int)
    requires Listed(figs, lo, hi) && lo > hi
    ensures figs == []
  {
    if figs != [] {
      FirstInside(figs, lo, hi);
    }
  }

  /** The list has exactly what lookups find: stale entries do not show up, and nothing that
      can be found is missing. */
  lemma {:induction false} FigsAreLookups(t: Tree, h: int, lo: int, hi: int, b: int, v: int)
    requires Shape(t, h) && BYTE_INDEX_MIN <= lo <= b <= hi
    ensures Names(Figs(t, lo, hi), b, v) <==> Lookup(t, b) == Some(v)
    decreases t, if t.Nil? then 0 else |t.entries| + 1, 0
  {
    hide FromGap;
    if t.Node? {
      GapLookups(t, h, 0, lo, hi, b, v);
    }
  }

  lemma {:induction false} GapLookups(t: Tree, h: int, k: nat, lo: int, hi: int, b: int, v: int)
    requires t.Node? && Shape(t, h) && k <= |t.entries| && BYTE_INDEX_MIN <= lo <= b <= hi
    requires k > 0 ==> t.entries[k - 1].range.right < b
    ensures Names(FromGap(t, k, lo, hi), b, v) <==> Lookup(t, b) == Some(v)
    decreases t, |t.entries| - k, 1
  {
    hide Listed, Figs, FromEntry, Names;
    var es, x, y := t.entries, Max(lo, GapLo(t.entries, k, lo)), Min(hi, GapHi(t.entries, k, hi));
    NamesAppend(Figs(t.subs[k], x, y), FromEntry(t, k, lo, hi), b, v);
    FromEntryListed(t, h, k, lo, hi);
    FigsListed(t.subs[k], h - 1, x, y);
    if k == |es| || b < es[k].range.left {
      LookupGap(t, k, b);
      FigsAreLookups(t.subs[k], h - 1, x, y, b, v);
      NoneBefore(t, h, k, lo, hi, b, v);
    } else {
      NoneOutside(Figs(t.subs[k], x, y), x, y, b, v);
      EntryLookups(t, h, k, lo, hi, b, v);
    }
  }

  lemma NoneBefore(t: Tree, h: int, k: nat, lo: int, hi: int, b: int, v: int)
    requires t.Node? && Shape(t, h) && k <= |t.entries| && BYTE_INDEX_MIN <= lo <= hi
    requires k < |t.entries| ==> b < t.entries[k].range.left
    ensures !Names(FromEntry(t, k, lo, hi), b, v)
  {
    if k < |t.entries| {
      hide FromEntry;
      FromEntryListed(t, h, k, lo, hi);
    }
  }

  lemma {:induction false} EntryLookups(t: Tree, h: int, k: nat, lo: int, hi: int, b: int, v: int)
    requires t.Node? && Shape(t, h) && k < |t.entries| && BYTE_INDEX_MIN <= lo <= b <= hi
    requires t.entries[k].range.left <= b
    ensures Names(FromEntry(t, k, lo, hi), b, v) <==> Lookup(t, b) == Some(v)
    decreases t, |t.entries| - k, 0
  {
    hide Listed, FromGap, Names;
    var e := t.entries[k];
    NamesAppend(Shown(e, lo, hi), FromGap(t, k + 1, lo, hi), b, v);
    ShownNames(e, lo, hi, b, v);
    if b <= e.range.right {
      LookupHit(t, h, k, b);
      FromGapListed(t, h, k + 1, lo, hi);
      NoneOutside(FromGap(t, k + 1, lo, hi), Max(lo, e.range.right + 1), hi, b, v);
    } else {
      GapLookups(t, h, k + 1, lo, hi, b, v);
    }
  }

  lemma ShownNames(e: Entry, lo: int, hi: int, b: int, v: int)
    requires lo <= b <= hi && e.range.nonempty
    ensures Names(Shown(e, lo, hi), b, v) <==> ContainsVal(e.range, b) && e.value == v
  {
    if ContainsVal(e.range, b) && e.value == v {
      assert Shown(e, lo, hi)[0] == Clip(e, Span(lo, hi));
    }
  }

  /** Nothing is left behind an entry that reaches the end of the interval. */
  lemma DonePast(t: Tree, h: int, k: nat, lo: int, hi: int)
    requires t.Node? && Shape(t, h) && k < |t.entries| && BYTE_INDEX_MIN <= lo <= hi && hi <= t.entries[k].range.right
    ensures FromGap(t, k + 1, lo, hi) == []
  {
    hide FromGap, Listed;
    FromGapListed(t, h, k + 1, lo, hi);
    Crossed(FromGap(t, k + 1, lo, hi), Max(lo, t.entries[k].range.right + 1), hi);
  }

  /** An entry behind the interval has nothing to show, nor has anything behind it. */
  lemma DoneBefore(t: Tree, h: int, k: nat, lo: int, hi: int)
    requires t.Node? && Shape(t, h) && k <= |t.entries| && BYTE_INDEX_MIN <= lo <= hi
    requires k < |t.entries| ==> hi < t.entries[k].range.left
    ensures FromEntry(t, k, lo, hi) == []
  {
    if k < |t.entries| {
      hide FromEntry, Listed;
      FromEntryListed(t, h, k, lo, hi);
      Crossed(FromEntry(t, k, lo, hi), Max(lo, t.entries[k].range.left), hi);
    }
  }

  /** An entry before the interval can be skipped, with the gap on its left. */
  lemma SkipEntry(t: Tree, k: nat, lo: int, hi: int)
    requires t.Node? && |t.subs| == |t.entries| + 1 && k < |t.entries| && t.entries[k].range.right < lo && Proper(t.entries[k].range)
    ensures FromGap(t, k, lo, hi) == FromGap(t, k + 1, lo, hi)
  {
  }

  /** No gap on the left of an entry that the interval starts in. */
  lemma SkipGap(t: Tree, k: nat, lo: int, hi: int)
    requires t.Node? && |t.subs| == |t.entries| + 1 && k < |t.entries| && t.entries[k].range.left <= lo
    ensures FromGap(t, k, lo, hi) == FromEntry(t, k, lo, hi)
  {
  }
}
