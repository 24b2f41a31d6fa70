/** Tree nodes in memory, and which tree a pointer stands for. */
module FigMemory {
  import opened FigTrees
  import opened FigPaths

  type Ptr = nat

  const NULL: Ptr := 0

  /** struct subtree_ptr: a pointer to a node in memory, or the place of its copy in the log. */
  datatype SubtreePtr = SubtreePtr(st: Ptr, inmemory: bool, recno: int, offset: int)

  /** struct ft_node. */
  datatype FtNode = FtNode(entries: seq<Entry>, subtrees: seq<SubtreePtr>, height: int, dirty: bool)

  type Memory = map<Ptr, FtNode>

  /** The node at pointer p, with all below it in memory, is the tree t. */
  ghost predicate Rep(m: Memory, p: Ptr, t: Tree)
    decreases t
  {
    match t
    case Nil => p == NULL
    case Node(es, subs, h) =>
      && p != NULL && p in m
      && m[p].entries == es && m[p].height == h && |m[p].subtrees| == |subs|
      && forall i :: 0 <= i < |subs| ==> m[p].subtrees[i].inmemory && Rep(m, m[p].subtrees[i].st, subs[i])
  }

  /** The pointers of all nodes of the tree. */
  ghost function Foot(m: Memory, p: Ptr, t: Tree): set<Ptr>
    requires Rep(m, p, t)
    decreases t
  {
    match t
    case Nil => {}
    case Node(es, subs, h) =>
      {p} + set i, q | 0 <= i < |subs| && q in Foot(m, m[p].subtrees[i].st, subs[i]) :: q
  }

  /** No node is reached twice. */
  ghost predicate NoAlias(m: Memory, p: Ptr, t: Tree)
    requires Rep(m, p, t)
    decreases t
  {
    match t
    case Nil => true
    case Node(es, subs, h) =>
      && (forall i :: 0 <= i < |subs| ==> NoAlias(m, m[p].subtrees[i].st, subs[i]))
      && (forall i :: 0 <= i < |subs| ==> p !in Foot(m, m[p].subtrees[i].st, subs[i]))
      && (forall i, j :: 0 <= i < j < |subs| ==>
                           Foot(m, m[p].subtrees[i].st, subs[i]) !! Foot(m, m[p].subtrees[j].st, subs[j]))
  }

  ghost predicate Own(m: Memory, p: Ptr, t: Tree) {
    Rep(m, p, t) && NoAlias(m, p, t)
  }

  /** m' has the nodes of ps as m has them. */
  ghost predicate SameOn(m: Memory, m': Memory, ps: set<Ptr>) {
    forall q :: q in ps ==> q in m && q in m' && m'[q] == m[q]
  }

  lemma {:induction false} FootInMemory(m: Memory, p: Ptr, t: Tree)
    requires Rep(m, p, t)
    ensures Foot(m, p, t) <= m.Keys
    ensures NULL !in Foot(m, p, t)
    ensures t.Node? ==> p in Foot(m, p, t)
    decreases t
  {
    if t.Node? {
      forall i | 0 <= i < |t.subs|
        ensures Foot(m, m[p].subtrees[i].st, t.subs[i]) <= m.Keys && NULL !in Foot(m, m[p].subtrees[i].st, t.subs[i])
      {
        FootInMemory(m, m[p].subtrees[i].st, t.subs[i]);
      }
    }
  }

  lemma FootSub(m: Memory, p: Ptr, t: Tree, i: nat)
    requires Rep(m, p, t) && t.Node? && i < |t.subs|
    ensures Foot(m, m[p].subtrees[i].st, t.subs[i]) <= Foot(m, p, t)
  {
  }

  /** A tree whose nodes are left alone stays what it is. */
  lemma {:induction false} Frame(m: Memory, m': Memory, p: Ptr, t: Tree)
    requires Rep(m, p, t) && SameOn(m, m', Foot(m, p, t))
    ensures Rep(m', p, t) && Foot(m', p, t) == Foot(m, p, t)
    ensures NoAlias(m, p, t) ==> NoAlias(m', p, t)
    decreases t
  {
    if t.Node? {
      forall i | 0 <= i < |t.subs|
        ensures var c := m[p].subtrees[i].st;
                && Rep(m', c, t.subs[i]) && Foot(m', c, t.subs[i]) == Foot(m, c, t.subs[i])
                && (NoAlias(m, c, t.subs[i]) ==> NoAlias(m', c, t.subs[i]))
      {
        FootSub(m, p, t, i);
        Frame(m, m', m[p].subtrees[i].st, t.subs[i]);
      }
    }
  }

  /** The pointer a path leads to. */
  ghost function AddrAt(m: Memory, p: Ptr, t: Tree, path: seq<nat>): Ptr
    requires Rep(m, p, t) && ValidPath(t, path)
    decreases |path|
  {
    if path == [] then p else AddrAt(m, m[p].subtrees[path[0]].st, t.subs[path[0]], path[1..])
  }

  lemma {:induction false} AddrRep(m: Memory, p: Ptr, t: Tree, path: seq<nat>)
    requires Rep(m, p, t) && ValidPath(t, path)
    ensures Rep(m, AddrAt(m, p, t, path), SubAt(t, path))
    ensures Foot(m, AddrAt(m, p, t, path), SubAt(t, path)) <= Foot(m, p, t)
    ensures NoAlias(m, p, t) ==> NoAlias(m, AddrAt(m, p, t, path), SubAt(t, path))
    decreases |path|
  {
    if path != [] {
      FootSub(m, p, t, path[0]);
      AddrRep(m, m[p].subtrees[path[0]].st, t.subs[path[0]], path[1..]);
    }
  }

  /** The tree with another subtree at the end of a path. */
  function PutAt(t: Tree, path: seq<nat>, s: Tree): Tree
    requires ValidPath(t, path)
    decreases |path|
  {
    if path == [] then s else t.(subs := t.subs[path[0] := PutAt(t.subs[path[0]], path[1..], s)])
  }

  lemma PutOwnSibling(m: Memory, m': Memory, p: Ptr, t: Tree, i: nat, j: nat, gone: set<Ptr>)
    requires t.Node? && Own(m, p, t) && i < |t.subs| && j < |t.subs| && i != j
    requires gone <= Foot(m, m[p].subtrees[i].st, t.subs[i])
    requires SameOn(m, m', Foot(m, p, t) - gone)
    ensures var c := m[p].subtrees[j].st;
            && Own(m', c, t.subs[j]) && Foot(m', c, t.subs[j]) == Foot(m, c, t.subs[j])
            && p !in Foot(m, c, t.subs[j])
            && Foot(m, c, t.subs[j]) <= Foot(m, p, t) - Foot(m, m[p].subtrees[i].st, t.subs[i])
  {
    FootSub(m, p, t, j);
    assert Foot(m, m[p].subtrees[j].st, t.subs[j]) !! Foot(m, m[p].subtrees[i].st, t.subs[i]);
    Frame(m, m', m[p].subtrees[j].st, t.subs[j]);
  }

  /** A node whose subtrees are all owned and do not meet is owned. */
  lemma OwnNode(m: Memory, p: Ptr, t: Tree)
    requires t.Node? && p != NULL && p in m
    requires m[p].entries == t.entries && m[p].height == t.height && |m[p].subtrees| == |t.subs|
    requires forall i :: 0 <= i < |t.subs| ==>
                           && m[p].subtrees[i].inmemory && Own(m, m[p].subtrees[i].st, t.subs[i])
                           && p !in Foot(m, m[p].subtrees[i].st, t.subs[i])
    requires forall i, j :: 0 <= i < j < |t.subs| ==>
                              && Rep(m, m[p].subtrees[i].st, t.subs[i]) && Rep(m, m[p].subtrees[j].st, t.subs[j])
                              && Foot(m, m[p].subtrees[i].st, t.subs[i]) !! Foot(m, m[p].subtrees[j].st, t.subs[j])
    ensures Own(m, p, t)
  {
  }

  lemma PutOwnNode(m: Memory, m': Memory, p: Ptr, t: Tree, i: nat, s: Tree, gone: set<Ptr>)
    requires t.Node? && Own(m, p, t) && i < |t.subs|
    requires gone <= Foot(m, m[p].subtrees[i].st, t.subs[i])
    requires SameOn(m, m', Foot(m, p, t) - gone)
    requires Own(m', m[p].subtrees[i].st, s)
    requires var c := m[p].subtrees[i].st;
             Foot(m', c, s) !! (Foot(m, p, t) - Foot(m, c, t.subs[i]))
    ensures Own(m', p, t.(subs := t.subs[i := s]))
    ensures var c := m[p].subtrees[i].st;
            Foot(m', p, t.(subs := t.subs[i := s])) == (Foot(m, p, t) - Foot(m, c, t.subs[i])) + Foot(m', c, s)
  {
    var n, ptrs := t.(subs := t.subs[i := s]), m[p].subtrees;
    FootInMemory(m, p, t);
    assert p in m' && m'[p] == m[p];
    forall j | 0 <= j < |t.subs| && j != i
      ensures Own(m', ptrs[j].st, n.subs[j]) && Foot(m', ptrs[j].st, n.subs[j]) == Foot(m, ptrs[j].st, t.subs[j])
      ensures p !in Foot(m', ptrs[j].st, n.subs[j]) && Foot(m', ptrs[j].st, n.subs[j]) !! Foot(m', ptrs[i].st, s)
    {
      PutOwnSibling(m, m', p, t, i, j, gone);
    }
    OwnNode(m', p, n);
    PutFoot(m, m', p, t, i, s);
  }

  lemma PutFoot(m: Memory, m': Memory, p: Ptr, t: Tree, i: nat, s: Tree)
    requires t.Node? && Own(m, p, t) && i < |t.subs| && p in m' && m'[p] == m[p]
    requires Rep(m', p, t.(subs := t.subs[i := s]))
    requires forall j :: 0 <= j < |t.subs| && j != i ==>
                           Rep(m', m[p].subtrees[j].st, t.subs[j])
                           && Foot(m', m[p].subtrees[j].st, t.subs[j]) == Foot(m, m[p].subtrees[j].st, t.subs[j])
    requires Rep(m', m[p].subtrees[i].st, s)
    ensures Foot(m', p, t.(subs := t.subs[i := s]))
         == (Foot(m, p, t) - Foot(m, m[p].subtrees[i].st, t.subs[i])) + Foot(m', m[p].subtrees[i].st, s)
  {
    var n, ptrs := t.(subs := t.subs[i := s]), m[p].subtrees;
    forall q
      ensures q in Foot(m', p, n) <==> q in (Foot(m, p, t) - Foot(m, ptrs[i].st, t.subs[i])) + Foot(m', ptrs[i].st, s)
    {
      if q in Foot(m', p, n) && q != p {
        var j :| 0 <= j < |n.subs| && q in Foot(m', ptrs[j].st, n.subs[j]);
        assert j != i ==> q in Foot(m, ptrs[j].st, t.subs[j]);
      }
      if q in Foot(m, p, t) && q != p {
        var j :| 0 <= j < |t.subs| && q in Foot(m, ptrs[j].st, t.subs[j]);
        assert j != i ==> q in Foot(m', ptrs[j].st, n.subs[j]);
      }
      if q in Foot(m', ptrs[i].st, s) {
        assert n.subs[i] == s;
      }
    }
  }

  /** Changing the subtree at the end of a path, in place, changes the whole tree there and
      nowhere else. */
  lemma {:induction false} PutOwn(m: Memory, m': Memory, p: Ptr, t: Tree, path: seq<nat>, s: Tree)
    requires Own(m, p, t) && ValidPath(t, path)
    requires var q := AddrAt(m, p, t, path);
             && Rep(m, q, SubAt(t, path))
             && SameOn(m, m', Foot(m, p, t) - Foot(m, q, SubAt(t, path)))
             && Own(m', q, s) && Foot(m', q, s) !! (Foot(m, p, t) - Foot(m, q, SubAt(t, path)))
    ensures Own(m', p, PutAt(t, path, s))
    ensures var q := AddrAt(m, p, t, path);
            Foot(m', p, PutAt(t, path, s)) == (Foot(m, p, t) - Foot(m, q, SubAt(t, path))) + Foot(m', q, s)
    decreases |path|
  {
    hide Foot;
    if path != [] {
      var c, sub, q := m[p].subtrees[path[0]].st, t.subs[path[0]], AddrAt(m, p, t, path);
      FootSub(m, p, t, path[0]);
      AddrRep(m, c, sub, path[1..]);
      PutOwn(m, m', c, sub, path[1..], s);
      PutOwnNode(m, m', p, t, path[0], PutAt(sub, path[1..], s), Foot(m, q, SubAt(t, path)));
    }
  }

  /** Between m and m', the tree at p went from t to t', and nothing but its nodes and new
      ones was touched. */
  ghost predicate Changed(m: Memory, m': Memory, p: Ptr, t: Tree, t': Tree) {
    && Own(m, p, t) && Own(m', p, t')
    && SameOn(m, m', m.Keys - Foot(m, p, t))
    && m.Keys <= m'.Keys
    && Foot(m', p, t') * m.Keys <= Foot(m, p, t)
  }

  lemma ChangedTransitive(m0: Memory, m1: Memory, m2: Memory, p: Ptr, t0: Tree, t1: Tree, t2: Tree)
    requires Changed(m0, m1, p, t0, t1) && Changed(m1, m2, p, t1, t2)
    ensures Changed(m0, m2, p, t0, t2)
  {
    FootInMemory(m1, p, t1);
    FootInMemory(m2, p, t2);
  }

  /** A change at the end of a path is a change of the whole tree. */
  lemma ChangedAt(m: Memory, m': Memory, p: Ptr, t: Tree, path: seq<nat>, s': Tree)
    requires Own(m, p, t) && ValidPath(t, path)
    requires Changed(m, m', AddrAt(m, p, t, path), SubAt(t, path), s')
    ensures Changed(m, m', p, t, PutAt(t, path, s'))
  {
    hide NoAlias, Rep;
    var q, s := AddrAt(m, p, t, path), SubAt(t, path);
    AddrRep(m, p, t, path);
    FootInMemory(m, p, t);
    PutOwn(m, m', p, t, path, s');
  }

  /** A change of one subtree is a change of the node. */
  lemma ChangedSub(m: Memory, m': Memory, p: Ptr, t: Tree, i: nat, s': Tree)
    requires Own(m, p, t) && t.Node? && |t.entries| < FT_SPLITLIMIT && |t.subs| == |t.entries| + 1 && i < |t.subs|
    requires Changed(m, m', m[p].subtrees[i].st, t.subs[i], s')
    ensures Changed(m, m', p, t, t.(subs := t.subs[i := s'])) && p in m' && m'[p] == m[p]
  {
    hide NoAlias;
    assert [i][1..] == [];
    assert AddrAt(m, p, t, [i]) == m[p].subtrees[i].st;
    ChangedAt(m, m', p, t, [i], s');
    assert p !in Foot(m, m[p].subtrees[i].st, t.subs[i]) by { NotBelow(m, p, t, i); }
    FootInMemory(m, p, t);
  }

  lemma NotBelow(m: Memory, p: Ptr, t: Tree, i: nat)
    requires Own(m, p, t) && t.Node? && i < |t.subs|
    ensures p !in Foot(m, m[p].subtrees[i].st, t.subs[i])
  {
  }

  /** A node record for t' that takes, of the subtrees of t at p, those that f picks. */
  ghost predicate Picks(m: Memory, p: Ptr, t: Tree, n: FtNode, t': Tree, f: seq<nat>) {
    && t.Node? && t'.Node? && p in m
    && n.entries == t'.entries && n.height == t'.height
    && |m[p].subtrees| == |t.subs|
    && |f| == |t'.subs| == |n.subtrees|
    && (forall k :: 0 <= k < |f| ==> f[k] < |t.subs| && n.subtrees[k] == m[p].subtrees[f[k]] && t'.subs[k] == t.subs[f[k]])
    && (forall k, l :: 0 <= k < l < |f| ==> f[k] != f[l])
  }

  lemma PickedSub(m: Memory, m': Memory, p: Ptr, t: Tree, i: nat)
    requires Own(m, p, t) && t.Node? && i < |t.subs| && SameOn(m, m', Foot(m, p, t) - {p})
    ensures var c := m[p].subtrees[i].st;
            && m[p].subtrees[i].inmemory && Own(m', c, t.subs[i]) && Foot(m', c, t.subs[i]) == Foot(m, c, t.subs[i])
            && p !in Foot(m, c, t.subs[i]) && Foot(m, c, t.subs[i]) <= Foot(m, p, t)
  {
    FootSub(m, p, t, i);
    Frame(m, m', m[p].subtrees[i].st, t.subs[i]);
  }

  lemma SubsApart(m: Memory, p: Ptr, t: Tree, i: nat, j: nat)
    requires Own(m, p, t) && t.Node? && i < |t.subs| && j < |t.subs| && i != j
    ensures Foot(m, m[p].subtrees[i].st, t.subs[i]) !! Foot(m, m[p].subtrees[j].st, t.subs[j])
  {
  }

  lemma FootBound(m: Memory, p: Ptr, t: Tree, ps: set<Ptr>)
    requires Rep(m, p, t) && t.Node?
    requires forall i :: 0 <= i < |t.subs| ==> Foot(m, m[p].subtrees[i].st, t.subs[i]) <= ps
    ensures Foot(m, p, t) <= {p} + ps
  {
  }

  /** The pointers below the subtrees that f picks. */
  ghost function PickedFoot(m: Memory, p: Ptr, t: Tree, f: seq<nat>): set<Ptr>
    requires Rep(m, p, t) && t.Node? && forall k :: 0 <= k < |f| ==> f[k] < |t.subs|
  {
    set k, q | 0 <= k < |f| && q in Foot(m, m[p].subtrees[f[k]].st, t.subs[f[k]]) :: q
  }

  lemma PickedFootBelow(m: Memory, p: Ptr, t: Tree, f: seq<nat>)
    requires Own(m, p, t) && t.Node? && forall k :: 0 <= k < |f| ==> f[k] < |t.subs|
    ensures PickedFoot(m, p, t, f) <= Foot(m, p, t) - {p}
  {
  }

  /** A node at l, which is p or a new pointer, that takes over subtrees of the node at p. */
  lemma NodeTakes(m: Memory, m': Memory, p: Ptr, t: Tree, l: Ptr, t': Tree, f: seq<nat>)
    requires Own(m, p, t) && l != NULL && l in m' && Picks(m, p, t, m'[l], t', f)
    requires SameOn(m, m', Foot(m, p, t) - {p}) && (l == p || l !in Foot(m, p, t))
    ensures Own(m', l, t') && Foot(m', l, t') <= {l} + PickedFoot(m, p, t, f)
  {
    hide Foot, NoAlias;
    var n := m'[l];
    FootInMemory(m, p, t);
    forall k | 0 <= k < |f|
      ensures var c := n.subtrees[k].st;
              && n.subtrees[k].inmemory && Own(m', c, t'.subs[k]) && Foot(m', c, t'.subs[k]) == Foot(m, c, t.subs[f[k]])
              && l !in Foot(m', c, t'.subs[k]) && Foot(m', c, t'.subs[k]) <= PickedFoot(m, p, t, f)
    {
      PickedSub(m, m', p, t, f[k]);
    }
    forall k, j | 0 <= k < j < |f|
      ensures Rep(m', n.subtrees[k].st, t'.subs[k]) && Rep(m', n.subtrees[j].st, t'.subs[j])
      ensures Foot(m', n.subtrees[k].st, t'.subs[k]) !! Foot(m', n.subtrees[j].st, t'.subs[j])
    {
      SubsApart(m, p, t, f[k], f[j]);
    }
    OwnNode(m', l, t');
    FootBound(m', l, t', PickedFoot(m, p, t, f));
  }

  /** Rewriting one node so that it keeps some of its subtrees. */
  lemma NodeRewritten(m: Memory, m': Memory, p: Ptr, t: Tree, n: FtNode, t': Tree, f: seq<nat>)
    requires Own(m, p, t) && Picks(m, p, t, n, t', f) && m' == m[p := n]
    ensures Changed(m, m', p, t, t')
  {
    FootInMemory(m, p, t);
    NodeTakes(m, m', p, t, p, t', f);
    PickedFootBelow(m, p, t, f);
  }

  /** Subtrees picked by disjoint choices do not meet. */
  lemma PickedApart(m: Memory, p: Ptr, t: Tree, f: seq<nat>, g: seq<nat>)
    requires Own(m, p, t) && t.Node?
    requires forall k :: 0 <= k < |f| ==> f[k] < |t.subs|
    requires forall k :: 0 <= k < |g| ==> g[k] < |t.subs|
    requires forall k, l :: 0 <= k < |f| && 0 <= l < |g| ==> f[k] != g[l]
    ensures PickedFoot(m, p, t, f) !! PickedFoot(m, p, t, g)
  {
    forall q | q in PickedFoot(m, p, t, f)
      ensures q !in PickedFoot(m, p, t, g)
    {
      if q in PickedFoot(m, p, t, g) {
        var k :| 0 <= k < |f| && q in Foot(m, m[p].subtrees[f[k]].st, t.subs[f[k]]);
        var l :| 0 <= l < |g| && q in Foot(m, m[p].subtrees[g[l]].st, t.subs[g[l]]);
        SubsApart(m, p, t, f[k], g[l]);
        assert false;
      }
    }
  }
}
