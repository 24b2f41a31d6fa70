/** One level of an insertion: widening a node, splitting it, absorbing a subtree that was
    split, overwriting a run of entries. */
module FigAbsorb {
  import opened Intervals
  import opened FigTrees
  import opened FigPrune
  import opened FigInsert

  /** A well-formed node of height h, except that it may be too full. */
  predicate Body(t: Tree, h: int) {
    && t.Node? && h >= 0 && t.height == h
    && Sorted(t.entries) && |t.subs| == |t.entries| + 1
    && forall i :: 0 <= i < |t.subs| ==> Shape(t.subs[i], h - 1)
  }

  /** The whole range lies strictly between entry i - 1 and entry i. */
  predicate FitsGap(es: seq<Entry>, i: nat, r: Interval)
    requires i <= |es|
  {
    && (i > 0 ==> es[i - 1].range.right < r.left)
    && (i < |es| ==> r.right < es[i].range.left)
  }

  lemma SortedConcat(a: seq<Entry>, b: seq<Entry>)
    requires Sorted(a) && Sorted(b)
    requires a != [] && b != [] ==> a[|a| - 1].range.right < b[0].range.left
    ensures Sorted(a + b)
  {
    var r := a + b;
    forall i, j | 0 <= i < j < |r|
      ensures r[i].range.right < r[j].range.left
    {
      if i < |a| <= j {
        assert a[i].range.right <= a[|a| - 1].range.right;
        assert b[0].range.left <= b[j - |a|].range.left;
      }
    }
  }

  lemma InsertSorted(es: seq<Entry>, i: nat, e: Entry)
    requires Sorted(es) && i <= |es| && Proper(e.range) && FitsGap(es, i, e.range)
    ensures Sorted(InsertAt(es, i, e))
  {
    PartSorted(es, 0, i);
    PartSorted(es, i, |es|);
    SortedConcat(es[..i], [e]);
    SortedConcat(es[..i] + [e], es[i..]);
  }

  lemma InsertWithin(es: seq<Entry>, i: nat, e: Entry, lo: int, hi: int)
    requires Within(es, lo, hi) && i <= |es| && lo <= e.range.left && e.range.right <= hi
    ensures Within(InsertAt(es, i, e), lo, hi)
  {
    forall k | 0 <= k <= |es|
      ensures lo <= InsertAt(es, i, e)[k].range.left && InsertAt(es, i, e)[k].range.right <= hi
    {
      InsertAtIndex(es, i, e, k);
    }
  }

  lemma WidenedBody(t: Tree, h: int, i: nat, e: Entry, left: Tree, right: Tree)
    requires Body(t, h) && i <= |t.entries|
    requires Proper(e.range) && FitsGap(t.entries, i, e.range)
    requires Shape(left, h - 1) && Shape(right, h - 1)
    ensures Body(Widened(t, i, e, left, right), h)
  {
    InsertSorted(t.entries, i, e);
    forall k | 0 <= k <= |t.subs|
      ensures Shape(Widened(t, i, e, left, right).subs[k], h - 1)
    {
      InsertAtIndex(t.subs[i := left], i + 1, right, k);
    }
  }

  lemma InsertAtIndex<T>(s: seq<T>, i: nat, x: T, k: nat)
    requires i <= |s| && k <= |s|
    ensures InsertAt(s, i, x)[k] == if k < i then s[k] else if k == i then x else s[k - 1]
  {
  }

  /** Where the slot of a byte moves to when an entry that does not hold it is added. */
  lemma InsertSlot(es: seq<Entry>, i: nat, e: Entry, k: nat, b: int)
    requires Sorted(es) && i <= |es| && Proper(e.range) && FitsGap(es, i, e.range)
    requires IsSlot(es, k, b) && !InGap(es, i, b)
    ensures IsSlot(InsertAt(es, i, e), if k < i then k else k + 1, b)
    ensures k < |es| ==> InsertAt(es, i, e)[if k < i then k else k + 1] == es[k]
  {
    var k' := if k < i then k else k + 1;
    if k < |es| {
      InsertAtIndex(es, i, e, k');
    }
    if k' > 0 {
      InsertAtIndex(es, i, e, k' - 1);
    }
  }

  lemma WidenedSub(t: Tree, i: nat, e: Entry, left: Tree, right: Tree, k: nat)
    requires Lined(t) && i <= |t.entries| && k <= |t.entries| && k != i
    ensures Widened(t, i, e, left, right).subs[if k < i then k else k + 1] == t.subs[k]
  {
    InsertAtIndex(t.subs[i := left], i + 1, right, if k < i then k else k + 1);
  }

  lemma WidenedLookupOutside(t: Tree, i: nat, e: Entry, left: Tree, right: Tree, b: int)
    requires Lined(t) && i <= |t.entries|
    requires Proper(e.range) && FitsGap(t.entries, i, e.range)
    requires !InGap(t.entries, i, b)
    ensures Lookup(Widened(t, i, e, left, right), b) == Lookup(t, b)
  {
    var w, k := Widened(t, i, e, left, right), Below(t.entries, b);
    var k' := if k < i then k else k + 1;
    InsertSorted(t.entries, i, e);
    InsertSlot(t.entries, i, e, k, b);
    LookupSlot(t, k, b);
    LookupSlot(w, k', b);
    if k != i {
      WidenedSub(t, i, e, left, right, k);
    }
  }

  lemma WidenedLookupInside(t: Tree, i: nat, e: Entry, left: Tree, right: Tree, b: int)
    requires Lined(t) && i <= |t.entries|
    requires Proper(e.range) && FitsGap(t.entries, i, e.range)
    requires InGap(t.entries, i, b)
    ensures Lookup(Widened(t, i, e, left, right), b) ==
            if b < e.range.left then Lookup(left, b) else if b <= e.range.right then Some(e.value) else Lookup(right, b)
  {
    var w, k' := Widened(t, i, e, left, right), if b <= e.range.right then i else i + 1;
    InsertSorted(t.entries, i, e);
    InsertAtIndex(t.entries, i, e, i);
    if i > 0 {
      InsertAtIndex(t.entries, i, e, i - 1);
    }
    if i < |t.entries| {
      InsertAtIndex(t.entries, i, e, i + 1);
    }
    LookupSlot(w, k', b);
    InsertAtIndex(t.subs[i := left], i + 1, right, k');
  }

  /** What is found in a pushed-up node. */
  lemma PushedLookup(c: Tree, h: int, b: int)
    requires Shape(c, h + 1) && Pushed(c, h)
    ensures Lookup(c, b) ==
            if b < c.entries[0].range.left then Lookup(c.subs[0], b)
            else if b <= c.entries[0].range.right then Some(c.entries[0].value)
            else Lookup(c.subs[1], b)
  {
    BelowIs(c.entries, b, if b <= c.entries[0].range.right then 0 else 1);
  }

  lemma SplitShape(t: Tree, h: int)
    requires Body(t, h) && |t.entries| == FT_SPLITLIMIT
    ensures Shape(SplitNode(t), h + 1) && Pushed(SplitNode(t), h)
  {
    var s := SplitNode(t);
    assert Shape(s.subs[0], h) && Shape(s.subs[1], h);
  }

  lemma PartLookup(t: Tree, from: nat, to: nat, b: int)
    requires Lined(t) && from <= to <= |t.entries|
    requires from > 0 ==> t.entries[from - 1].range.right < b
    requires to < |t.entries| ==> b < t.entries[to].range.left
    ensures Lookup(Node(t.entries[from..to], t.subs[from..to + 1], t.height), b) == Lookup(t, b)
  {
    PartSorted(t.entries, from, to);
    var p, k := Node(t.entries[from..to], t.subs[from..to + 1], t.height), Below(t.entries, b);
    LookupSlot(t, k, b);
    LookupSlot(p, k - from, b);
  }

  /** Splitting a node changes no lookup. */
  lemma SplitLookup(t: Tree, h: int, b: int)
    requires Body(t, h) && |t.entries| == FT_SPLITLIMIT
    ensures Lookup(SplitNode(t), b) == Lookup(t, b)
  {
    SplitShape(t, h);
    var s, mid := SplitNode(t), t.entries[FT_ORDER].range;
    PushedLookup(s, h, b);
    if b < mid.left {
      PartLookup(t, 0, FT_ORDER, b);
    } else if b > mid.right {
      PartLookup(t, FT_ORDER + 1, FT_SPLITLIMIT, b);
      assert t.entries[FT_ORDER + 1..] == t.entries[FT_ORDER + 1..FT_SPLITLIMIT];
      assert t.subs[FT_ORDER + 1..] == t.subs[FT_ORDER + 1..FT_SPLITLIMIT + 1];
    } else {
      BelowIs(t.entries, b, FT_ORDER);
    }
  }

  /** A pushed-up subtree whose entry fits the gap it comes up through. */
  predicate Absorbable(t: Tree, i: nat, c: Tree)
    requires t.Node? && i <= |t.entries|
  {
    && Grown(c, t.height - 1)
    && (Pushed(c, t.height - 1) ==> FitsGap(t.entries, i, c.entries[0].range))
  }

  /** Absorbing keeps the node well formed, or splits it. */
  lemma AbsorbShape(t: Tree, h: int, i: nat, c: Tree)
    requires t.Node? && Shape(t, h) && i <= |t.entries| && Absorbable(t, i, c)
    ensures Grown(Absorb(t, i, c), h)
  {
    if Pushed(c, h - 1) {
      WidenedBody(t, h, i, c.entries[0], c.subs[0], c.subs[1]);
      var w := Widened(t, i, c.entries[0], c.subs[0], c.subs[1]);
      if |w.entries| == FT_SPLITLIMIT {
        SplitShape(w, h);
      }
    }
  }

  lemma AbsorbWithin(t: Tree, h: int, i: nat, c: Tree, lo: int, hi: int)
    requires t.Node? && Shape(t, h) && i <= |t.entries| && Absorbable(t, i, c)
    requires Within(t.entries, lo, hi)
    requires Pushed(c, h - 1) ==> Within(c.entries, lo, hi)
    ensures Absorb(t, i, c).Node? && Within(Absorb(t, i, c).entries, lo, hi)
  {
    if Pushed(c, h - 1) {
      InsertWithin(t.entries, i, c.entries[0], lo, hi);
    }
  }

  /** Absorbing changes what is found in the gap the subtree hangs in, and nothing else. */
  lemma AbsorbLookup(t: Tree, h: int, i: nat, c: Tree, b: int)
    requires t.Node? && Shape(t, h) && i <= |t.entries| && Absorbable(t, i, c)
    ensures Lookup(Absorb(t, i, c), b) == if InGap(t.entries, i, b) then Lookup(c, b) else Lookup(t, b)
  {
    if Pushed(c, h - 1) {
      var e, l, r := c.entries[0], c.subs[0], c.subs[1];
      WidenedBody(t, h, i, e, l, r);
      if InGap(t.entries, i, b) {
        WidenedLookupInside(t, i, e, l, r, b);
        PushedLookup(c, h - 1, b);
      } else {
        WidenedLookupOutside(t, i, e, l, r, b);
      }
      if |Widened(t, i, e, l, r).entries| == FT_SPLITLIMIT {
        SplitLookup(Widened(t, i, e, l, r), h, b);
      }
    } else if InGap(t.entries, i, b) {
      LookupGap(t, i, b);
      LookupGap(Absorb(t, i, c), i, b);
    } else {
      AbsorbElsewhere(t, h, i, c, b);
    }
  }

  lemma AbsorbElsewhere(t: Tree, h: int, i: nat, c: Tree, b: int)
    requires t.Node? && Shape(t, h) && i <= |t.entries| && !InGap(t.entries, i, b)
    ensures Lookup(t.(subs := t.subs[i := c]), b) == Lookup(t, b)
  {
    var k := Below(t.entries, b);
    if !(k < |t.entries| && ContainsVal(t.entries[k].range, b)) {
      assert k != i;
      assert t.subs[i := c][k] == t.subs[k];
    }
  }

  /** Entries i up to j overlap the range of e, the others do not. */
  predicate Run(es: seq<Entry>, i: nat, j: nat, r: Interval)
    requires i < j <= |es|
  {
    && (i > 0 ==> es[i - 1].range.right < r.left)
    && es[i].range.right >= r.left
    && es[j - 1].range.left <= r.right
    && (j < |es| ==> r.right < es[j].range.left)
  }

  lemma ReplacedSorted(es: seq<Entry>, i: nat, j: nat, e: Entry)
    requires Sorted(es) && i < j <= |es| && Run(es, i, j, e.range) && Proper(e.range)
    ensures Sorted(es[..i] + [e] + es[j..])
  {
    PartSorted(es, 0, i);
    PartSorted(es, j, |es|);
    SortedConcat(es[..i], [e]);
    SortedConcat(es[..i] + [e], es[j..]);
  }

  lemma ReplacedShape(t: Tree, h: int, i: nat, j: nat, e: Entry)
    requires t.Node? && Shape(t, h) && i < j <= |t.entries| && Run(t.entries, i, j, e.range) && Proper(e.range)
    ensures Shape(Replaced(t, i, j, e), h) && i < |Replaced(t, i, j, e).entries|
    ensures Replaced(t, i, j, e).entries[i] == e
    ensures Replaced(t, i, j, e).subs[i] == t.subs[i] && Replaced(t, i, j, e).subs[i + 1] == t.subs[j]
  {
    ReplacedSorted(t.entries, i, j, e);
    var r := Replaced(t, i, j, e);
    forall k | 0 <= k < |r.subs|
      ensures Shape(r.subs[k], h - 1)
    {
      assert r.subs[k] == if k <= i then t.subs[k] else t.subs[k + (j - i) - 1];
    }
  }

  lemma ReplacedWithin(t: Tree, i: nat, j: nat, e: Entry, lo: int, hi: int)
    requires t.Node? && |t.subs| == |t.entries| + 1 && i < j <= |t.entries|
    requires Within(t.entries, lo, hi) && lo <= e.range.left && e.range.right <= hi
    ensures Within(Replaced(t, i, j, e).entries, lo, hi)
  {
    var es, r := t.entries, Replaced(t, i, j, e).entries;
    assert r[i] == e;
    assert forall k :: 0 <= k < i ==> r[k] == es[k];
    assert forall k :: i < k < |r| ==> r[k] == es[k + (j - i) - 1];
  }

  /** Where the slot of a byte outside the run moves to. */
  lemma ReplacedSlot(es: seq<Entry>, i: nat, j: nat, e: Entry, k: nat, b: int)
    requires Sorted(es) && i < j <= |es| && Run(es, i, j, e.range) && Proper(e.range)
    requires !Has(e.range, b) && (b < es[i].range.left || b > es[j - 1].range.right) && IsSlot(es, k, b)
    ensures var r, k' := es[..i] + [e] + es[j..], if b < e.range.left then k else k - (j - i) + 1;
            && 0 <= k' && IsSlot(r, k', b)
            && (b < e.range.left ==> k <= i) && (b >= e.range.left ==> j <= k)
            && (k < |es| && es[k].range.left <= b ==> r[k'] == es[k])
            && (k == |es| || es[k].range.left > b ==> (k' < |r| ==> r[k'].range.left > b))
  {
    if b < e.range.left {
      assert k <= i;
    } else {
      assert j <= k;
    }
  }

  /** Overwriting a run shows the new value in the range of e, and changes nothing outside
      the entries it replaces. */
  lemma ReplacedLookup(t: Tree, h: int, i: nat, j: nat, e: Entry, b: int)
    requires t.Node? && Shape(t, h) && i < j <= |t.entries| && Run(t.entries, i, j, e.range) && Proper(e.range)
    requires !Has(e.range, b) ==> b < t.entries[i].range.left || b > t.entries[j - 1].range.right
    ensures Lookup(Replaced(t, i, j, e), b) == if Has(e.range, b) then Some(e.value) else Lookup(t, b)
  {
    ReplacedSorted(t.entries, i, j, e);
    if Has(e.range, b) {
      LookupSlot(Replaced(t, i, j, e), i, b);
    } else {
      ReplacedLookupOutside(t, i, j, e, b);
    }
  }

  lemma ReplacedLookupOutside(t: Tree, i: nat, j: nat, e: Entry, b: int)
    requires Lined(t) && i < j <= |t.entries| && Run(t.entries, i, j, e.range) && Proper(e.range)
    requires !Has(e.range, b) && (b < t.entries[i].range.left || b > t.entries[j - 1].range.right)
    ensures Lookup(Replaced(t, i, j, e), b) == Lookup(t, b)
  {
    var k := Below(t.entries, b);
    ReplacedSorted(t.entries, i, j, e);
    ReplacedSlot(t.entries, i, j, e, k, b);
    LookupSlot(t, k, b);
    LookupSlot(Replaced(t, i, j, e), if b < e.range.left then k else k - (j - i) + 1, b);
  }
}
