/** The FIG tree as a value: what a tree means and which trees are well formed. */
module FigTrees {
  import opened Intervals

  const FT_ORDER: nat := 2
  const FT_SPLITLIMIT: nat := 5

  datatype Entry = Entry(range: Interval, value: int)

  /** `Nil` is the NULL pointer below a leaf. Leaves have height 0. */
  datatype Tree = Nil | Node(entries: seq<Entry>, subs: seq<Tree>, height: int)

  /** Entries of one node: proper, in order and disjoint. */
  predicate Sorted(es: seq<Entry>) {
    && (forall i :: 0 <= i < |es| ==> Proper(es[i].range))
    && (forall i, j :: 0 <= i < j < |es| ==> es[i].range.right < es[j].range.left)
  }

  /** All leaves at the same depth, one subtree more than entries, and room for
      one insertion, in every node, reachable by a lookup or stale. */
  predicate Shape(t: Tree, h: int) {
    match t
    case Nil => h == -1
    case Node(es, subs, height) =>
      && h >= 0 && height == h
      && Sorted(es) && |es| < FT_SPLITLIMIT
      && |subs| == |es| + 1
      && forall i :: 0 <= i < |subs| ==> Shape(subs[i], h - 1)
  }

  ghost predicate IsBelow(es: seq<Entry>, x: int, k: nat) {
    && k <= |es|
    && (forall i :: 0 <= i < k ==> es[i].range.right < x)
    && (k < |es| ==> es[k].range.right >= x)
  }

  lemma {:induction false} BelowExists(es: seq<Entry>, x: int, from: nat) returns (k: nat)
    requires from <= |es|
    requires forall i :: 0 <= i < from ==> es[i].range.right < x
    ensures IsBelow(es, x, k)
    decreases |es| - from
  {
    if from == |es| || es[from].range.right >= x {
      k := from;
    } else {
      k := BelowExists(es, x, from + 1);
    }
  }

  /** Number of leading entries that end before x. */
  ghost function Below(es: seq<Entry>, x: int): (k: nat)
    ensures IsBelow(es, x, k)
  {
    assert exists k :: IsBelow(es, x, k) by { var k := BelowExists(es, x, 0); }
    var k :| IsBelow(es, x, k);
    k
  }

  ghost predicate IsUpto(es: seq<Entry>, x: int, k: nat) {
    && k <= |es|
    && (forall i :: 0 <= i < k ==> es[i].range.left <= x)
    && (k < |es| ==> es[k].range.left > x)
  }

  lemma {:induction false} UptoExists(es: seq<Entry>, x: int, from: nat) returns (k: nat)
    requires from <= |es|
    requires forall i :: 0 <= i < from ==> es[i].range.left <= x
    ensures IsUpto(es, x, k)
    decreases |es| - from
  {
    if from == |es| || es[from].range.left > x {
      k := from;
    } else {
      k := UptoExists(es, x, from + 1);
    }
  }

  /** Number of leading entries that start at or before x. */
  ghost function Upto(es: seq<Entry>, x: int): (k: nat)
    ensures IsUpto(es, x, k)
  {
    assert exists k :: IsUpto(es, x, k) by { var k := UptoExists(es, x, 0); }
    var k :| IsUpto(es, x, k);
    k
  }

  /** The value a reader finds for byte b: the first entry on the way down that
      holds b. The gaps between entries decide which subtree is entered, so stale
      entries below an entry that covers them are never seen. */
  ghost function Lookup(t: Tree, b: int): Option<int>
    decreases t
  {
    match t
    case Nil => None
    case Node(es, subs, _) =>
      var k := Below(es, b);
      if k < |es| && ContainsVal(es[k].range, b) then Some(es[k].value)
      else if k < |subs| then Lookup(subs[k], b)
      else None
  }

  /** b lies strictly between entry k - 1 and entry k. */
  predicate InGap(es: seq<Entry>, k: int, b: int)
    requires 0 <= k <= |es|
  {
    && (k > 0 ==> es[k - 1].range.right < b)
    && (k < |es| ==> b < es[k].range.left)
  }

  lemma BelowIs(es: seq<Entry>, x: int, k: nat)
    requires Sorted(es) && k <= |es|
    requires k > 0 ==> es[k - 1].range.right < x
    requires k < |es| ==> x <= es[k].range.right
    ensures Below(es, x) == k
  {
  }

  lemma UptoIs(es: seq<Entry>, x: int, k: nat)
    requires Sorted(es) && k <= |es|
    requires k > 0 ==> es[k - 1].range.left <= x
    requires k < |es| ==> x < es[k].range.left
    ensures Upto(es, x) == k
  {
  }

  /** A lookup that hits an entry of the node. */
  lemma LookupHit(t: Tree, h: int, k: nat, b: int)
    requires t.Node? && Shape(t, h) && k < |t.entries| && ContainsVal(t.entries[k].range, b)
    ensures Lookup(t, b) == Some(t.entries[k].value)
  {
    BelowIs(t.entries, b, k);
  }

  /** A lookup that passes through gap k. */
  lemma LookupGap(t: Tree, k: nat, b: int)
    requires t.Node? && Sorted(t.entries) && |t.subs| == |t.entries| + 1
    requires k <= |t.entries| && InGap(t.entries, k, b)
    ensures Lookup(t, b) == Lookup(t.subs[k], b)
  {
    BelowIs(t.entries, b, k);
  }

  predicate Lined(t: Tree) {
    t.Node? && Sorted(t.entries) && |t.subs| == |t.entries| + 1
  }

  /** k is the slot of b: the first entry that does not end before b. */
  predicate IsSlot(es: seq<Entry>, k: nat, b: int) {
    && k <= |es|
    && (k > 0 ==> es[k - 1].range.right < b)
    && (k < |es| ==> b <= es[k].range.right)
  }

  lemma LookupSlot(t: Tree, k: nat, b: int)
    requires Lined(t) && IsSlot(t.entries, k, b)
    ensures Lookup(t, b) ==
            if k < |t.entries| && t.entries[k].range.left <= b then Some(t.entries[k].value)
            else Lookup(t.subs[k], b)
  {
    BelowIs(t.entries, b, k);
  }

  /** The tree with no mappings, as a chain of empty nodes. */
  function EmptyChain(h: int): Tree
    decreases h + 1
  {
    if h < 0 then Nil else Node([], [EmptyChain(h - 1)], h)
  }

  lemma {:induction false} EmptyChainShape(h: int)
    requires h >= -1
    ensures Shape(EmptyChain(h), h)
    ensures forall b :: Lookup(EmptyChain(h), b) == None
    decreases h + 1
  {
    if h >= 0 {
      EmptyChainShape(h - 1);
      forall b ensures Lookup(EmptyChain(h), b) == None {
        assert EmptyChain(h).subs[0] == EmptyChain(h - 1);
      }
    }
  }
}
