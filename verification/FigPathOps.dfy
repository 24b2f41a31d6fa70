/** Moving a path one step on, and changing the tree at its end. */
module FigPathOps {
  import opened FigTrees
  import opened FigInsert
  import opened FigPaths
  import opened FigMemory

  lemma {:induction false} PutValid(t: Tree, p: seq<nat>, s: Tree)
    requires ValidPath(t, p)
    ensures ValidPath(PutAt(t, p, s), p) && SubAt(PutAt(t, p, s), p) == s
    ensures PutAt(t, p, SubAt(t, p)) == t
    decreases |p|
  {
    if p != [] {
      PutValid(t.subs[p[0]], p[1..], s);
    }
  }

  lemma {:induction false} PutTwice(t: Tree, p: seq<nat>, s: Tree, s': Tree)
    requires ValidPath(t, p)
    ensures ValidPath(PutAt(t, p, s), p) && PutAt(PutAt(t, p, s), p, s') == PutAt(t, p, s')
    decreases |p|
  {
    if p != [] {
      PutTwice(t.subs[p[0]], p[1..], s, s');
    }
  }

  lemma {:induction false} SubShape(t: Tree, h: int, p: seq<nat>)
    requires Shape(t, h) && ValidPath(t, p)
    ensures Shape(SubAt(t, p), h - |p|)
    decreases |p|
  {
    if p != [] {
      SubShape(t.subs[p[0]], h - 1, p[1..]);
    }
  }

  lemma {:induction false} PutShape(t: Tree, h: int, p: seq<nat>, s: Tree)
    requires Shape(t, h) && ValidPath(t, p) && Shape(s, h - |p|)
    ensures Shape(PutAt(t, p, s), h)
    decreases |p|
  {
    if p != [] {
      PutShape(t.subs[p[0]], h - 1, p[1..], s);
    }
  }

  lemma {:induction false} AppendPath(t: Tree, p: seq<nat>, q: seq<nat>)
    requires ValidPath(t, p)
    ensures ValidPath(t, p + q) <==> ValidPath(SubAt(t, p), q)
    ensures ValidPath(t, p + q) ==> SubAt(t, p + q) == SubAt(SubAt(t, p), q)
    decreases |p|
  {
    if p == [] {
      assert p + q == q;
    } else {
      assert (p + q)[1..] == p[1..] + q;
      AppendPath(t.subs[p[0]], p[1..], q);
    }
  }

  /** Carrying up along p + q is carrying up along q, then along p. */
  lemma {:induction false} UpAppend(t: Tree, p: seq<nat>, q: seq<nat>, c: Tree)
    requires ValidPath(t, p) && ValidPath(SubAt(t, p), q)
    ensures ValidPath(t, p + q) && Up(t, p + q, c) == Up(t, p, Up(SubAt(t, p), q, c))
    decreases |p|
  {
    AppendPath(t, p, q);
    if p == [] {
      assert p + q == q;
    } else {
      assert (p + q)[1..] == p[1..] + q;
      UpAppend(t.subs[p[0]], p[1..], q, c);
    }
  }

  lemma UpSnoc(t: Tree, p: seq<nat>, i: nat, c: Tree)
    requires ValidPath(t, p) && ValidPath(SubAt(t, p), [i])
    ensures ValidPath(t, p + [i]) && Up(t, p + [i], c) == Up(t, p, Absorb(SubAt(t, p), i, c))
  {
    UpAppend(t, p, [i], c);
    assert [i][1..] == [];
  }

  lemma {:induction false} PutAppend(t: Tree, p: seq<nat>, q: seq<nat>, s: Tree)
    requires ValidPath(t, p) && ValidPath(SubAt(t, p), q)
    ensures ValidPath(t, p + q) && PutAt(t, p + q, s) == PutAt(t, p, PutAt(SubAt(t, p), q, s))
    decreases |p|
  {
    AppendPath(t, p, q);
    if p == [] {
      assert p + q == q;
    } else {
      assert (p + q)[1..] == p[1..] + q;
      PutAppend(t.subs[p[0]], p[1..], q, s);
    }
  }

  /** t differs from t0 only at and below the end of p0. */
  ghost predicate KeptAbove(t0: Tree, t: Tree, p0: seq<nat>) {
    ValidPath(t0, p0) && ValidPath(t, p0) && t == PutAt(t0, p0, SubAt(t, p0))
  }

  lemma KeptAboveStart(t: Tree, p0: seq<nat>)
    requires ValidPath(t, p0)
    ensures KeptAbove(t, t, p0)
  {
    PutValid(t, p0, SubAt(t, p0));
  }

  lemma KeptAbovePut(t0: Tree, t: Tree, p0: seq<nat>, p: seq<nat>, s: Tree)
    requires KeptAbove(t0, t, p0) && p0 <= p && ValidPath(t, p)
    ensures KeptAbove(t0, PutAt(t, p, s), p0)
  {
    var q := p[|p0|..];
    assert p == p0 + q;
    AppendPath(t, p0, q);
    PutAppend(t, p0, q, s);
    var s' := PutAt(SubAt(t, p0), q, s);
    PutTwice(t0, p0, SubAt(t, p0), s');
    PutValid(t0, p0, s');
  }

  /** The nodes above the end of a path decide what becomes of a subtree carried up. */
  lemma {:induction false} UpPut(t: Tree, p: seq<nat>, s: Tree, c: Tree)
    requires ValidPath(t, p)
    ensures ValidPath(PutAt(t, p, s), p) && Up(PutAt(t, p, s), p, c) == Up(t, p, c)
    decreases |p|
  {
    if p != [] {
      UpPut(t.subs[p[0]], p[1..], s, c);
      var t', i, g := PutAt(t, p, s), p[0], Up(t.subs[p[0]], p[1..], c);
      AbsorbIgnores(t, i, t'.subs[i], g);
    }
  }

  lemma AbsorbIgnores(t: Tree, i: nat, s: Tree, g: Tree)
    requires t.Node? && |t.entries| < FT_SPLITLIMIT && |t.subs| == |t.entries| + 1 && i < |t.subs|
    ensures Absorb(t.(subs := t.subs[i := s]), i, g) == Absorb(t, i, g)
  {
    var t' := t.(subs := t.subs[i := s]);
    if Pushed(g, t.height - 1) {
      assert t'.subs[i := g.subs[0]] == t.subs[i := g.subs[0]];
    } else {
      assert t'.subs[i := g] == t.subs[i := g];
    }
  }

  /** The order on a path does not depend on what is at its end. */
  lemma {:induction false} OrderlyIgnores(t: Tree, p: seq<nat>, s: Tree, c: Tree)
    requires ValidPath(t, p)
    ensures ValidPath(PutAt(t, p, s), p) && (Orderly(PutAt(t, p, s), p, c) <==> Orderly(t, p, c))
    decreases |p|
  {
    hide Absorb, Grown, Pushed;
    UpPut(t, p, s, c);
    if p != [] {
      OrderlyIgnores(t.subs[p[0]], p[1..], s, c);
      UpPut(t.subs[p[0]], p[1..], s, c);
    }
  }

  /** The order on a path in two parts. */
  lemma {:induction false} OrderlyAppend(t: Tree, p: seq<nat>, q: seq<nat>, c: Tree)
    requires ValidPath(t, p) && ValidPath(SubAt(t, p), q)
    ensures ValidPath(t, p + q)
    ensures Orderly(t, p + q, c) <==> Orderly(t, p, Up(SubAt(t, p), q, c)) && Orderly(SubAt(t, p), q, c)
    decreases |p|
  {
    hide Absorb;
    AppendPath(t, p, q);
    if p == [] {
      assert p + q == q;
    } else {
      assert (p + q)[1..] == p[1..] + q;
      OrderlyAppend(t.subs[p[0]], p[1..], q, c);
      UpAppend(t.subs[p[0]], p[1..], q, c);
    }
  }

  /** A subtree that was not split just takes its place. */
  lemma {:induction false} UpIsPut(t: Tree, h: int, p: seq<nat>, c: Tree)
    requires Shape(t, h) && ValidPath(t, p) && !Pushed(c, h - |p|)
    ensures Up(t, p, c) == PutAt(t, p, c)
    decreases |p|
  {
    if p != [] {
      UpIsPut(t.subs[p[0]], h - 1, p[1..], c);
      if |p| > 1 {
        var u := PutAt(t.subs[p[0]], p[1..], c);
        assert u.height == h - 1;
      }
    }
  }

  lemma {:induction false} LeftPathPut(t: Tree, p: seq<nat>, s: Tree, c: Tree)
    requires ValidPath(t, p) && p != [] && p[|p| - 1] > 0
    ensures ValidPath(PutAt(t, p, s), p) && LeftPath(PutAt(t, p, s), p, c) == LeftPath(t, p, c)
    decreases |p|
  {
    PutValid(t, p, s);
    var t', i := PutAt(t, p, s), p[0];
    if |p| == 1 {
      ShiftedIgnores(t, i, t'.subs[i], c, i - 1, []);
    } else {
      LeftPathPut(t.subs[i], p[1..], s, c);
      UpPut(t.subs[i], p[1..], s, c);
      ShiftedIgnores(t, i, t'.subs[i], Up(t.subs[i], p[1..], c), i, LeftPath(t.subs[i], p[1..], c));
    }
  }

  lemma ShiftedIgnores(t: Tree, i: nat, s: Tree, c: Tree, k: nat, q: seq<nat>)
    requires t.Node? && |t.entries| < FT_SPLITLIMIT && |t.subs| == |t.entries| + 1 && i < |t.subs|
    requires k == i ==> q != []
    ensures Shifted(t.(subs := t.subs[i := s]), i, c, k, q) == Shifted(t, i, c, k, q)
  {
  }

  /** nodes are the pointers of the nodes on the path idx from p down. */
  ghost predicate OnPath(m: Memory, p: Ptr, t: Tree, nodes: seq<Ptr>, idx: seq<nat>)
    requires Rep(m, p, t)
    decreases |idx|
  {
    && |nodes| == |idx|
    && (idx != [] ==>
          && t.Node? && |t.entries| < FT_SPLITLIMIT && |t.subs| == |t.entries| + 1 && idx[0] <= |t.entries|
          && nodes[0] == p
          && OnPath(m, m[p].subtrees[idx[0]].st, t.subs[idx[0]], nodes[1..], idx[1..]))
  }

  lemma {:induction false} OnPathValid(m: Memory, p: Ptr, t: Tree, nodes: seq<Ptr>, idx: seq<nat>)
    requires Rep(m, p, t) && OnPath(m, p, t, nodes, idx)
    ensures ValidPath(t, idx)
    decreases |idx|
  {
    if idx != [] {
      OnPathValid(m, m[p].subtrees[idx[0]].st, t.subs[idx[0]], nodes[1..], idx[1..]);
    }
  }

  lemma {:induction false} OnPathSnoc(m: Memory, p: Ptr, t: Tree, nodes: seq<Ptr>, idx: seq<nat>, i: nat)
    requires Rep(m, p, t) && OnPath(m, p, t, nodes, idx)
    requires ValidPath(t, idx) && ValidPath(SubAt(t, idx), [i])
    ensures OnPath(m, p, t, nodes + [AddrAt(m, p, t, idx)], idx + [i])
    ensures ValidPath(t, idx + [i]) && Rep(m, AddrAt(m, p, t, idx), SubAt(t, idx))
    ensures AddrAt(m, p, t, idx + [i]) == m[AddrAt(m, p, t, idx)].subtrees[i].st
    decreases |idx|
  {
    AppendPath(t, idx, [i]);
    if idx == [] {
      assert (nodes + [p])[1..] == [] && (idx + [i])[1..] == [];
    } else {
      var c, s := m[p].subtrees[idx[0]].st, t.subs[idx[0]];
      OnPathSnoc(m, c, s, nodes[1..], idx[1..], i);
      assert (nodes + [AddrAt(m, p, t, idx)])[1..] == nodes[1..] + [AddrAt(m, c, s, idx[1..])];
      assert (idx + [i])[1..] == idx[1..] + [i];
    }
  }

  /** A path in two parts. */
  lemma {:induction false} OnPathAppend(m: Memory, p: Ptr, t: Tree, n1: seq<Ptr>, n2: seq<Ptr>, i1: seq<nat>, i2: seq<nat>)
    requires Rep(m, p, t) && |n1| == |i1| && |n2| == |i2| && OnPath(m, p, t, n1 + n2, i1 + i2)
    ensures ValidPath(t, i1) && Rep(m, AddrAt(m, p, t, i1), SubAt(t, i1))
    ensures OnPath(m, p, t, n1, i1) && OnPath(m, AddrAt(m, p, t, i1), SubAt(t, i1), n2, i2)
    decreases |i1|
  {
    if i1 == [] {
      assert n1 + n2 == n2 && i1 + i2 == i2;
    } else {
      assert (n1 + n2)[1..] == n1[1..] + n2 && (i1 + i2)[1..] == i1[1..] + i2;
      OnPathAppend(m, m[p].subtrees[i1[0]].st, t.subs[i1[0]], n1[1..], n2, i1[1..], i2);
    }
  }

  /** The node at a place of the path, and the rest of the path from there. */
  lemma OnPathSplit(m: Memory, p: Ptr, t: Tree, nodes: seq<Ptr>, idx: seq<nat>, k: nat)
    requires Rep(m, p, t) && OnPath(m, p, t, nodes, idx) && k <= |idx| && |nodes| == |idx|
    ensures ValidPath(t, idx[..k]) && Rep(m, AddrAt(m, p, t, idx[..k]), SubAt(t, idx[..k]))
    ensures OnPath(m, p, t, nodes[..k], idx[..k])
    ensures OnPath(m, AddrAt(m, p, t, idx[..k]), SubAt(t, idx[..k]), nodes[k..], idx[k..])
  {
    hide OnPath, Rep;
    assert nodes == nodes[..k] + nodes[k..] && idx == idx[..k] + idx[k..];
    OnPathAppend(m, p, t, nodes[..k], nodes[k..], idx[..k], idx[k..]);
  }

  /** A change at the end of a path leaves the nodes on the path where they are. */
  lemma {:induction false} OnPathPut(m: Memory, m': Memory, p: Ptr, t: Tree, nodes: seq<Ptr>, idx: seq<nat>, s': Tree)
    requires Own(m, p, t) && OnPath(m, p, t, nodes, idx) && ValidPath(t, idx)
    requires Changed(m, m', AddrAt(m, p, t, idx), SubAt(t, idx), s')
    ensures Changed(m, m', p, t, PutAt(t, idx, s'))
    ensures OnPath(m', p, PutAt(t, idx, s'), nodes, idx)
    ensures ValidPath(PutAt(t, idx, s'), idx)
    ensures AddrAt(m', p, PutAt(t, idx, s'), idx) == AddrAt(m, p, t, idx)
    decreases |idx|
  {
    hide Foot, NoAlias;
    ChangedAt(m, m', p, t, idx, s');
    PutValid(t, idx, s');
    if idx != [] {
      var i := idx[0];
      var c, s := m[p].subtrees[i].st, t.subs[i];
      AddrRep(m, p, t, [i]);
      assert [i][1..] == [] && AddrAt(m, p, t, [i]) == c;
      OnPathPut(m, m', c, s, nodes[1..], idx[1..], s');
      ChangedSub(m, m', p, t, i, PutAt(s, idx[1..], s'));
    }
  }

  /** A tree that is left alone keeps its paths. */
  lemma {:induction false} OnPathFrame(m: Memory, m': Memory, p: Ptr, t: Tree, nodes: seq<Ptr>, idx: seq<nat>)
    requires Rep(m, p, t) && OnPath(m, p, t, nodes, idx) && SameOn(m, m', Foot(m, p, t))
    ensures Rep(m', p, t) && OnPath(m', p, t, nodes, idx)
    ensures ValidPath(t, idx) && AddrAt(m', p, t, idx) == AddrAt(m, p, t, idx)
    decreases |idx|
  {
    Frame(m, m', p, t);
    if idx != [] {
      FootSub(m, p, t, idx[0]);
      OnPathFrame(m, m', m[p].subtrees[idx[0]].st, t.subs[idx[0]], nodes[1..], idx[1..]);
    }
  }

  /** The nodes on a path are different. */
  lemma {:induction false} OnPathDistinct(m: Memory, p: Ptr, t: Tree, ns: seq<Ptr>, idx: seq<nat>, a: nat, b: nat)
    requires Own(m, p, t) && OnPath(m, p, t, ns, idx) && a < b < |idx|
    ensures a < |ns| && b < |ns| && ns[a] != ns[b] && ns[a] in m
    decreases |idx|
  {
    hide Foot;
    var c, s := m[p].subtrees[idx[0]].st, t.subs[idx[0]];
    if a == 0 {
      OnPathInFoot(m, c, s, ns[1..], idx[1..], b - 1);
      BelowNode(m, p, t, idx[0]);
    } else {
      OnPathDistinct(m, c, s, ns[1..], idx[1..], a - 1, b - 1);
    }
  }

  lemma BelowNode(m: Memory, p: Ptr, t: Tree, i: nat)
    requires Own(m, p, t) && t.Node? && i < |t.subs|
    ensures p in m && p !in Foot(m, m[p].subtrees[i].st, t.subs[i])
  {
  }

  lemma {:induction false} OnPathInFoot(m: Memory, p: Ptr, t: Tree, ns: seq<Ptr>, idx: seq<nat>, b: nat)
    requires Rep(m, p, t) && OnPath(m, p, t, ns, idx) && b < |idx|
    ensures ns[b] in Foot(m, p, t)
    decreases |idx|
  {
    FootInMemory(m, p, t);
    if b > 0 {
      FootSub(m, p, t, idx[0]);
      OnPathInFoot(m, m[p].subtrees[idx[0]].st, t.subs[idx[0]], ns[1..], idx[1..], b - 1);
    }
  }

  /** The k-th node of a path. */
  lemma OnPathAt(m: Memory, p: Ptr, t: Tree, ns: seq<Ptr>, idx: seq<nat>, k: nat)
    requires Rep(m, p, t) && OnPath(m, p, t, ns, idx) && k < |idx| == |ns|
    ensures ValidPath(t, idx[..k]) && ns[k] == AddrAt(m, p, t, idx[..k]) && OnPath(m, p, t, ns[..k], idx[..k])
  {
    OnPathSplit(m, p, t, ns, idx, k);
    assert ns[k..][0] == ns[k];
  }

  /** m' has the nodes ns as m has them. */
  ghost predicate AllKept(m: Memory, m': Memory, ns: seq<Ptr>) {
    forall k :: 0 <= k < |ns| ==> ns[k] in m && ns[k] in m' && m'[ns[k]] == m[ns[k]]
  }

  /** The nodes on a path are above the place it leads to. */
  lemma {:induction false} OnPathAbove(m: Memory, p: Ptr, t: Tree, ns: seq<Ptr>, idx: seq<nat>, k: nat)
    requires Own(m, p, t) && OnPath(m, p, t, ns, idx) && k < |idx|
    ensures k < |ns| && ns[k] in m && ValidPath(t, idx) && Rep(m, AddrAt(m, p, t, idx), SubAt(t, idx))
    ensures ns[k] !in Foot(m, AddrAt(m, p, t, idx), SubAt(t, idx))
    decreases |idx|
  {
    hide Foot;
    var c, s := m[p].subtrees[idx[0]].st, t.subs[idx[0]];
    if k == 0 {
      OnPathValid(m, c, s, ns[1..], idx[1..]);
      AddrRep(m, c, s, idx[1..]);
      BelowNode(m, p, t, idx[0]);
    } else {
      OnPathAbove(m, c, s, ns[1..], idx[1..], k - 1);
    }
  }

  /** A change at the end of a path leaves the nodes on it alone. */
  lemma PathKept(m: Memory, m': Memory, p: Ptr, t: Tree, ns: seq<Ptr>, idx: seq<nat>, s': Tree)
    requires Own(m, p, t) && OnPath(m, p, t, ns, idx) && ValidPath(t, idx)
    requires Changed(m, m', AddrAt(m, p, t, idx), SubAt(t, idx), s')
    ensures AllKept(m, m', ns)
  {
    hide Foot, NoAlias, Rep;
    forall k | 0 <= k < |ns|
      ensures ns[k] in m && ns[k] in m' && m'[ns[k]] == m[ns[k]]
    {
      OnPathAbove(m, p, t, ns, idx, k);
    }
  }

  /** Either still of height h, or pushed up out of a node of height h. */
  predicate Level(c: Tree, h: int) {
    c.Node? && (Pushed(c, h) || c.height == h)
  }

  lemma AbsorbLevel(t: Tree, i: nat, c: Tree)
    requires t.Node? && |t.entries| < FT_SPLITLIMIT && |t.subs| == |t.entries| + 1 && i < |t.subs|
    ensures Level(Absorb(t, i, c), t.height)
  {
  }

  lemma InsertInjective<T>(s: seq<T>, i: nat, x: T, s': seq<T>, x': T)
    requires i <= |s| == |s'| && InsertAt(s, i, x) == InsertAt(s', i, x')
    ensures s == s' && x == x'
  {
    var r, r' := InsertAt(s, i, x), InsertAt(s', i, x');
    assert r[i] == x && r'[i] == x';
    assert r[..i] == s[..i] && r'[..i] == s'[..i] && r[i + 1..] == s[i..] && r'[i + 1..] == s'[i..];
    assert s == s[..i] + s[i..] && s' == s'[..i] + s'[i..];
  }

  lemma SplitInjective(t: Tree, t': Tree)
    requires t.Node? && |t.entries| == FT_SPLITLIMIT && |t.subs| == FT_SPLITLIMIT + 1
    requires t'.Node? && |t'.entries| == FT_SPLITLIMIT && |t'.subs| == FT_SPLITLIMIT + 1
    requires SplitNode(t) == SplitNode(t')
    ensures t == t'
  {
    var n, n' := SplitNode(t), SplitNode(t');
    assert n.subs[0] == n'.subs[0] && n.subs[1] == n'.subs[1] && n.entries[0] == n'.entries[0];
    assert forall u: Tree :: u == t || u == t' ==> u.entries == u.entries[..FT_ORDER] + [u.entries[FT_ORDER]] + u.entries[FT_ORDER + 1..];
    assert forall u: Tree :: u == t || u == t' ==> u.subs == u.subs[..FT_ORDER + 1] + u.subs[FT_ORDER + 1..];
  }

  lemma WidenedInjective(t: Tree, i: nat, c: Tree, c': Tree)
    requires t.Node? && |t.subs| == |t.entries| + 1 && i < |t.subs|
    requires Pushed(c, t.height - 1) && Pushed(c', t.height - 1)
    requires Widened(t, i, c.entries[0], c.subs[0], c.subs[1]) == Widened(t, i, c'.entries[0], c'.subs[0], c'.subs[1])
    ensures c == c'
  {
    InsertInjective(t.entries, i, c.entries[0], t.entries, c'.entries[0]);
    InsertInjective(t.subs[i := c.subs[0]], i + 1, c.subs[1], t.subs[i := c'.subs[0]], c'.subs[1]);
    assert t.subs[i := c.subs[0]][i] == t.subs[i := c'.subs[0]][i];
    assert c.entries == c'.entries && c.subs == c'.subs;
  }

  /** A node tells what it has absorbed. */
  lemma AbsorbInjective(t: Tree, i: nat, c: Tree, c': Tree)
    requires t.Node? && |t.entries| < FT_SPLITLIMIT && |t.subs| == |t.entries| + 1 && i < |t.subs|
    requires Level(c, t.height - 1) && Level(c', t.height - 1) && Absorb(t, i, c) == Absorb(t, i, c')
    ensures c == c'
  {
    if Pushed(c, t.height - 1) && Pushed(c', t.height - 1) {
      var w := Widened(t, i, c.entries[0], c.subs[0], c.subs[1]);
      var w' := Widened(t, i, c'.entries[0], c'.subs[0], c'.subs[1]);
      if |t.entries| + 1 == FT_SPLITLIMIT {
        SplitInjective(w, w');
      }
      WidenedInjective(t, i, c, c');
    } else if Pushed(c, t.height - 1) {
      AbsorbGrows(t, i, c, c');
    } else if Pushed(c', t.height - 1) {
      AbsorbGrows(t, i, c', c);
    } else {
      assert t.subs[i := c][i] == t.subs[i := c'][i];
    }
  }

  lemma AbsorbGrows(t: Tree, i: nat, c: Tree, c': Tree)
    requires t.Node? && |t.entries| < FT_SPLITLIMIT && |t.subs| == |t.entries| + 1 && i < |t.subs|
    requires Pushed(c, t.height - 1) && !Pushed(c', t.height - 1)
    ensures Absorb(t, i, c) != Absorb(t, i, c')
  {
    assert |InsertAt(t.entries, i, c.entries[0])| == |t.entries| + 1;
  }

  lemma {:induction false} UpInjective(t: Tree, h: int, p: seq<nat>, c: Tree, c': Tree)
    requires Shape(t, h) && ValidPath(t, p) && Level(c, h - |p|) && Level(c', h - |p|) && Up(t, p, c) == Up(t, p, c')
    ensures c == c'
    decreases |p|
  {
    hide Absorb, Pushed;
    if p != [] {
      var s, q := t.subs[p[0]], p[1..];
      UpLevelHeight(s, h - 1, q, c);
      UpLevelHeight(s, h - 1, q, c');
      AbsorbInjective(t, p[0], Up(s, q, c), Up(s, q, c'));
      UpInjective(s, h - 1, q, c, c');
    }
  }

  lemma UpLevelHeight(t: Tree, h: int, p: seq<nat>, c: Tree)
    requires Shape(t, h) && ValidPath(t, p) && Level(c, h - |p|)
    ensures Level(Up(t, p, c), h)
  {
    if p != [] {
      AbsorbLevel(t, p[0], Up(t.subs[p[0]], p[1..], c));
    }
  }
}
