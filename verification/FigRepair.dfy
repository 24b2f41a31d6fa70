/** Path repair: keeping the path to the left continuation right while nodes on it are split. */
module FigRepair {
  import opened Intervals
  import opened FigTrees
  import opened FigInsert
  import opened FigPaths
  import opened FigMemory
  import opened FigNodes
  import opened FigPathOps
  import opened FigClimb

  /** The arrays hold, from the node at addr on, the way q to the pointer `end`. If that node
      was pushed up, its own step on the way is not in the arrays yet. */
  ghost predicate Suffix(m: Memory, addr: Ptr, c: Tree, h: int, q: seq<nat>, ns: seq<Ptr>, ix: seq<nat>, end: Ptr) {
    && Own(m, addr, c) && q != [] && ns != []
    && if Pushed(c, h) then
         && q[0] <= 1 && addr in m && |m[addr].subtrees| == 2
         && ix == q[1..] && PathTo(m, m[addr].subtrees[q[0]].st, c.subs[q[0]], ns, ix, end)
       else ix == q && PathTo(m, addr, c, ns, ix, end)
  }

  /** The path `ix`, over the nodes ns, leads from p to the pointer `end`. */
  ghost predicate PathTo(m: Memory, p: Ptr, t: Tree, ns: seq<Ptr>, ix: seq<nat>, end: Ptr) {
    && Own(m, p, t) && OnPath(m, p, t, ns, ix) && ValidPath(t, ix) && AddrAt(m, p, t, ix) == end
  }

  lemma PathToFrame(m: Memory, m': Memory, p: Ptr, t: Tree, ns: seq<Ptr>, ix: seq<nat>, end: Ptr)
    requires PathTo(m, p, t, ns, ix, end) && SameOn(m, m', Foot(m, p, t))
    ensures PathTo(m', p, t, ns, ix, end)
  {
    Frame(m, m', p, t);
    OnPathFrame(m, m', p, t, ns, ix);
  }

  /** One more node in front. */
  lemma PathToCons(m: Memory, p: Ptr, t: Tree, x: nat, ns: seq<Ptr>, ix: seq<nat>, end: Ptr)
    requires Own(m, p, t) && t.Node? && |t.entries| < FT_SPLITLIMIT && |t.subs| == |t.entries| + 1 && x <= |t.entries|
    requires p in m && x < |m[p].subtrees| && PathTo(m, m[p].subtrees[x].st, t.subs[x], ns, ix, end)
    ensures PathTo(m, p, t, [p] + ns, [x] + ix, end)
  {
    assert ([p] + ns)[1..] == ns && ([x] + ix)[1..] == ix;
  }

  /** A node and its slot, as a path of one step. */
  lemma PathToOne(m: Memory, p: Ptr, t: Tree, x: nat, end: Ptr)
    requires Own(m, p, t) && t.Node? && |t.entries| < FT_SPLITLIMIT && |t.subs| == |t.entries| + 1 && x <= |t.entries|
    requires p in m && x < |m[p].subtrees| && m[p].subtrees[x].st == end
    ensures PathTo(m, p, t, [p], [x], end)
  {
    assert [p][1..] == [] && [x][1..] == [];
  }

  /** The half of a split node that slot x went to, and its slot there. */
  lemma HalfOwn(m: Memory, p: Ptr, w: Tree, x: nat)
    requires w.Node? && |w.entries| == FT_SPLITLIMIT && |w.subs| == FT_SPLITLIMIT + 1 && x <= FT_SPLITLIMIT
    requires Own(m, p, SplitNode(w)) && p in m && |m[p].subtrees| == 2
    ensures var side, y := if x <= FT_ORDER then 0 else 1, if x <= FT_ORDER then x else x - (FT_ORDER + 1);
            var half := SplitNode(w).subs[side];
            && Own(m, m[p].subtrees[side].st, half)
            && half.Node? && |half.entries| == FT_ORDER && |half.subs| == FT_ORDER + 1 && y <= FT_ORDER
            && half.subs[y] == w.subs[x]
  {
    ChildOwn(m, p, SplitNode(w), if x <= FT_ORDER then 0 else 1);
  }

  /** What the arrays hold for slot x of a node that has taken an insertion. */
  ghost predicate Recorded(m: Memory, node: Ptr, full: bool, x: nat, n: Ptr, i: nat)
    requires node in m && (full ==> |m[node].subtrees| == 2)
  {
    if !full then n == node && i == x
    else if x <= FT_ORDER then n == m[node].subtrees[0].st && i == x
    else n == m[node].subtrees[1].st && i == x - (FT_ORDER + 1)
  }

  lemma RecordedSlot(m: Memory, node: Ptr, full: bool, subs: seq<SubtreePtr>, index: nat, left: Ptr, right: Ptr, x: nat, n: Ptr, i: nat)
    requires InsertedPtrs(m, node, full, subs, index, left, right) && x <= |subs|
    requires Recorded(m, node, full, x, n, i)
    ensures n in m && i < |m[n].subtrees| && m[n].subtrees[i].st == WidePtr(subs, index, left, right, x)
  {
  }

  /** The path through slot x of a node after an insertion, with the rest ns, ix. */
  lemma SuffixAt(m: Memory, node: Ptr, w: Tree, h: int, subs: seq<SubtreePtr>, index: nat, left: Ptr, right: Ptr,
                 x: nat, n: Ptr, i: nat, ns: seq<Ptr>, ix: seq<nat>, end: Ptr)
    requires w.Node? && |w.subs| == |w.entries| + 1 && 0 < |w.entries| <= FT_SPLITLIMIT && w.height == h && x <= |w.entries|
    requires InsertedPtrs(m, node, |w.entries| == FT_SPLITLIMIT, subs, index, left, right) && |subs| == |w.entries|
    requires Own(m, node, SplitIfFull(w))
    requires Recorded(m, node, |w.entries| == FT_SPLITLIMIT, x, n, i)
    requires var c := WidePtr(subs, index, left, right, x);
             if ix == [] then ns == [] && c == end else PathTo(m, c, w.subs[x], ns, ix, end)
    ensures Suffix(m, node, SplitIfFull(w), h, Relocate(w, x, ix), [n] + ns, [i] + ix, end)
  {
    hide InsertedPtrs, PathTo, Own, WidePtr;
    var full := |w.entries| == FT_SPLITLIMIT;
    RecordedSlot(m, node, full, subs, index, left, right, x, n, i);
    assert full ==> Relocate(w, x, ix)[1..] == [i] + ix;
    if full {
      PtrsTwo(m, node, full, subs, index, left, right);
      HalfOwn(m, node, w, x);
      var side := if x <= FT_ORDER then 0 else 1;
      Onward(m, n, SplitNode(w).subs[side], i, ns, ix, end);
    } else {
      Onward(m, node, w, x, ns, ix, end);
    }
  }

  lemma PtrsTwo(m: Memory, node: Ptr, full: bool, subs: seq<SubtreePtr>, index: nat, left: Ptr, right: Ptr)
    requires InsertedPtrs(m, node, full, subs, index, left, right)
    ensures node in m && (full ==> |m[node].subtrees| == 2)
  {
  }

  lemma Onward(m: Memory, p: Ptr, t: Tree, x: nat, ns: seq<Ptr>, ix: seq<nat>, end: Ptr)
    requires Own(m, p, t) && t.Node? && |t.entries| < FT_SPLITLIMIT && |t.subs| == |t.entries| + 1 && x <= |t.entries|
    requires p in m && x < |m[p].subtrees|
    requires if ix == [] then ns == [] && m[p].subtrees[x].st == end else PathTo(m, m[p].subtrees[x].st, t.subs[x], ns, ix, end)
    ensures PathTo(m, p, t, [p] + ns, [x] + ix, end)
  {
    if ix == [] {
      PathToOne(m, p, t, x, end);
      assert [p] + ns == [p] && [x] + ix == [x];
    } else {
      PathToCons(m, p, t, x, ns, ix, end);
    }
  }

  /** The way to the left continuation from level k of the path on, where f is the level of
      the overwritten node. */
  ghost function LeftWay(d: Tree, p: seq<nat>, e: Entry, k: nat, f: nat): (q: seq<nat>)
    requires ValidPath(d, p) && k <= f < |p| && p[f] > 0
    ensures q != []
  {
    WayParts(d, p, k, f);
    LeftPath(SubAt(d, p[..k]), p[k..f + 1], Climbed(d, p, e, f + 1))
  }

  lemma WayParts(d: Tree, p: seq<nat>, k: nat, f: nat)
    requires ValidPath(d, p) && k <= f < |p|
    ensures ValidPath(d, p[..k]) && ValidPath(SubAt(d, p[..k]), p[k..f + 1])
  {
    PathParts(d, p, f + 1);
    PathParts(d, p[..f + 1], k);
    assert p[..f + 1][..k] == p[..k] && p[..f + 1][k..] == p[k..f + 1];
  }

  /** What comes up to level k, computed from what came up to the overwritten node. */
  lemma ClimbedVia(d: Tree, p: seq<nat>, e: Entry, k: nat, f: nat)
    requires ValidPath(d, p) && k <= f < |p|
    ensures ValidPath(d, p[..k]) && ValidPath(SubAt(d, p[..k]), p[k..f + 1])
    ensures Climbed(d, p, e, k) == Up(SubAt(d, p[..k]), p[k..f + 1], Climbed(d, p, e, f + 1))
  {
    WayParts(d, p, k, f);
    PathParts(d, p, k);
    PathParts(d, p, f + 1);
    var s := SubAt(d, p[..k]);
    assert p[k..] == p[k..f + 1] + p[f + 1..];
    PrefixValid(s, p[k..f + 1], p[f + 1..]);
    AppendPath(s, p[k..f + 1], p[f + 1..]);
    assert p[..f + 1] == p[..k] + p[k..f + 1];
    AppendPath(d, p[..k], p[k..f + 1]);
    UpAppend(s, p[k..f + 1], p[f + 1..], Fresh(e));
  }

  /** The widened node at a level that has taken an insertion. */
  ghost function Wide(d: Tree, p: seq<nat>, e: Entry, k: nat): Tree
    requires ValidPath(d, p) && k < |p| && Pushed(Climbed(d, p, e, k + 1), d.height - (k + 1))
  {
    LevelNode(d, p, k);
    var c := Climbed(d, p, e, k + 1);
    Widened(SubAt(d, p[..k]), p[k], c.entries[0], c.subs[0], c.subs[1])
  }

  lemma WideLevel(d: Tree, p: seq<nat>, e: Entry, k: nat)
    requires CanClimb(d, p, e) && k < |p| && Pushed(Climbed(d, p, e, k + 1), d.height - (k + 1))
    ensures ValidPath(d, p[..k]) && SubAt(d, p[..k]).Node? && SubAt(d, p[..k]).height == d.height - k
    ensures var w := Wide(d, p, e, k);
            && w.Node? && |w.subs| == |w.entries| + 1 && 0 < |w.entries| <= FT_SPLITLIMIT && w.height == d.height - k
            && |w.entries| == |SubAt(d, p[..k]).entries| + 1 && p[k] < |w.entries|
            && SplitIfFull(w) == Climbed(d, p, e, k)
            && (Pushed(Climbed(d, p, e, k), d.height - k) <==> |w.entries| == FT_SPLITLIMIT)
  {
    LevelNode(d, p, k);
    SubShape(d, d.height, p[..k]);
    ClimbedStep(d, p, e, k);
  }

  /** LeftWay at the level of the overwritten node. */
  lemma LeftWayBase(d: Tree, p: seq<nat>, e: Entry, f: nat)
    requires CanClimb(d, p, e) && f < |p| && p[f] > 0 && Pushed(Climbed(d, p, e, f + 1), d.height - (f + 1))
    ensures LeftWay(d, p, e, f, f) == Relocate(Wide(d, p, e, f), p[f] - 1, [])
  {
    WideLevel(d, p, e, f);
    WayParts(d, p, f, f);
    assert p[f..f + 1] == [p[f]];
  }

  /** LeftWay one level further up. */
  lemma LeftWayStep(d: Tree, p: seq<nat>, e: Entry, k: nat, f: nat)
    requires CanClimb(d, p, e) && k < f < |p| && p[f] > 0 && Pushed(Climbed(d, p, e, k + 1), d.height - (k + 1))
    ensures var q := LeftWay(d, p, e, k + 1, f);
            LeftWay(d, p, e, k, f) == Relocate(Wide(d, p, e, k), p[k] + q[0], q[1..])
  {
    WideLevel(d, p, e, k);
    WayParts(d, p, k, f);
    WayParts(d, p, k + 1, f);
    LevelNode(d, p, k);
    ClimbedVia(d, p, e, k + 1, f);
    assert p[k..f + 1][1..] == p[k + 1..f + 1];
  }

  /** Repair at the level of the overwritten node: the left continuation goes one slot to the
      left of where the right one went. */
  lemma RepairBase(m: Memory, m': Memory, node: Ptr, d: Tree, p: seq<nat>, e: Entry, f: nat, left: Ptr, right: Ptr, n: Ptr, i: nat, end: Ptr)
    requires CanClimb(d, p, e) && f < |p| && p[f] > 0 && Pushed(Climbed(d, p, e, f + 1), d.height - (f + 1))
    requires node in m && Own(m', node, Climbed(d, p, e, f))
    requires var full := Pushed(Climbed(d, p, e, f), d.height - f);
             && InsertedPtrs(m', node, full, m[node].subtrees, p[f], left, right)
             && node in m' && (full ==> |m'[node].subtrees| == 2)
             && Recorded(m', node, full, p[f] - 1, n, i)
    requires ValidPath(d, p[..f]) && SubAt(d, p[..f]).Node? && |m[node].subtrees| == |SubAt(d, p[..f]).entries| + 1
    requires m[node].subtrees[p[f] - 1].st == end
    ensures Suffix(m', node, Climbed(d, p, e, f), d.height - f, LeftWay(d, p, e, f, f), [n], [i], end)
  {
    hide Climbed, InsertedPtrs, Own, Orderly, Shape, LeftWay, Suffix, Recorded;
    WideLevel(d, p, e, f);
    LeftWayBase(d, p, e, f);
    SuffixAt(m', node, Wide(d, p, e, f), d.height - f, m[node].subtrees, p[f], left, right, p[f] - 1, n, i, [], [], end);
    assert [n] + [] == [n] && [i] + [] == [i];
  }

  /** Which half of a pushed-up node the path goes through. */
  lemma SuffixSide(m: Memory, addr: Ptr, c: Tree, h: int, q: seq<nat>, ns: seq<Ptr>, ix: seq<nat>, end: Ptr)
    requires Suffix(m, addr, c, h, q, ns, ix, end) && Pushed(c, h)
    ensures addr in m && |m[addr].subtrees| == 2 && q[0] <= 1 && ix == q[1..] && ix != []
    ensures ns[0] == m[addr].subtrees[q[0]].st && PathTo(m, ns[0], c.subs[q[0]], ns, ix, end)
    ensures ns[0] == m[addr].subtrees[1].st <==> q[0] == 1
  {
    ChildOwn(m, addr, c, 0);
    ChildOwn(m, addr, c, 1);
    SubsApart(m, addr, c, 0, 1);
    FootInMemory(m, m[addr].subtrees[0].st, c.subs[0]);
    FootInMemory(m, m[addr].subtrees[1].st, c.subs[1]);
  }

  /** The slot of the widened node that the path goes through holds the half it goes
      through. */
  lemma WideSlot(d: Tree, p: seq<nat>, e: Entry, k: nat, side: nat)
    requires CanClimb(d, p, e) && k < |p| && Pushed(Climbed(d, p, e, k + 1), d.height - (k + 1)) && side <= 1
    ensures var w := Wide(d, p, e, k);
            w.Node? && p[k] + side < |w.subs| && w.subs[p[k] + side] == Climbed(d, p, e, k + 1).subs[side]
  {
    WideLevel(d, p, e, k);
    LevelNode(d, p, k);
    SubShape(d, d.height, p[..k]);
    WidenedHalf(SubAt(d, p[..k]), p[k], Climbed(d, p, e, k + 1), side, BYTE_INDEX_MIN, BYTE_INDEX_MAX);
  }

  /** Repair one level further up: the path goes through the half that the level below is in. */
  lemma RepairStep(m: Memory, m': Memory, addr: Ptr, node: Ptr, d: Tree, p: seq<nat>, e: Entry, k: nat, f: nat,
                   ns: seq<Ptr>, ix: seq<nat>, n: Ptr, i: nat, end: Ptr)
    requires CanClimb(d, p, e) && k < f < |p| && p[f] > 0 && Pushed(Climbed(d, p, e, k + 1), d.height - (k + 1))
    requires Suffix(m, addr, Climbed(d, p, e, k + 1), d.height - (k + 1), LeftWay(d, p, e, k + 1, f), ns, ix, end)
    requires addr in m && |m[addr].subtrees| == 2 && ns != []
    requires node in m && Own(m', node, Climbed(d, p, e, k)) && SameOn(m, m', m.Keys - {node})
    requires node !in Foot(m, addr, Climbed(d, p, e, k + 1))
    requires var full := Pushed(Climbed(d, p, e, k), d.height - k);
             && InsertedPtrs(m', node, full, m[node].subtrees, p[k], m[addr].subtrees[0].st, m[addr].subtrees[1].st)
             && node in m' && (full ==> |m'[node].subtrees| == 2)
             && Recorded(m', node, full, if ns[0] == m[addr].subtrees[1].st then p[k] + 1 else p[k], n, i)
    requires ValidPath(d, p[..k]) && SubAt(d, p[..k]).Node? && |m[node].subtrees| == |SubAt(d, p[..k]).entries| + 1
    ensures Suffix(m', node, Climbed(d, p, e, k), d.height - k, LeftWay(d, p, e, k, f), [n] + ns, [i] + ix, end)
  {
    hide InsertedPtrs, Orderly, Shape, LeftWay, Recorded, Suffix, PathTo, Rep, NoAlias, OnPath, Climbed;
    var c, q := Climbed(d, p, e, k + 1), LeftWay(d, p, e, k + 1, f);
    SuffixSide(m, addr, c, d.height - (k + 1), q, ns, ix, end);
    SuffixOwn(m, addr, c, d.height - (k + 1), q, ns, ix, end);
    WideLevel(d, p, e, k);
    WideSlot(d, p, e, k, q[0]);
    LeftWayStep(d, p, e, k, f);
    FootSub(m, addr, c, q[0]);
    FootInMemory(m, addr, c);
    PathToFrame(m, m', ns[0], c.subs[q[0]], ns, ix, end);
    SuffixAt(m', node, Wide(d, p, e, k), d.height - k, m[node].subtrees, p[k], m[addr].subtrees[0].st, m[addr].subtrees[1].st,
             p[k] + q[0], n, i, ns, ix, end);
  }

  lemma SuffixOwn(m: Memory, addr: Ptr, c: Tree, h: int, q: seq<nat>, ns: seq<Ptr>, ix: seq<nat>, end: Ptr)
    requires Suffix(m, addr, c, h, q, ns, ix, end) && Pushed(c, h)
    ensures Own(m, addr, c) && q[0] < |c.subs|
  {
  }

  /** Two paths in a row. */
  lemma {:induction false} OnPathJoin(m: Memory, p: Ptr, t: Tree, n1: seq<Ptr>, n2: seq<Ptr>, i1: seq<nat>, i2: seq<nat>)
    requires Rep(m, p, t) && OnPath(m, p, t, n1, i1) && ValidPath(t, i1) && Rep(m, AddrAt(m, p, t, i1), SubAt(t, i1))
    requires OnPath(m, AddrAt(m, p, t, i1), SubAt(t, i1), n2, i2)
    ensures OnPath(m, p, t, n1 + n2, i1 + i2)
    decreases |i1|
  {
    if i1 == [] {
      assert n1 + n2 == n2 && i1 + i2 == i2;
    } else {
      assert (n1 + n2)[1..] == n1[1..] + n2 && (i1 + i2)[1..] == i1[1..] + i2;
      OnPathJoin(m, m[p].subtrees[i1[0]].st, t.subs[i1[0]], n1[1..], n2, i1[1..], i2);
    }
  }

  /** Where no split comes up to, the path above is as before. */
  lemma {:induction false} LeftPathPrefix(d: Tree, h: int, p: seq<nat>, q: seq<nat>, c: Tree)
    requires Shape(d, h) && q != [] && q[|q| - 1] > 0 && ValidPath(d, p + q) && ValidPath(d, p) && ValidPath(SubAt(d, p), q)
    requires !Pushed(Up(SubAt(d, p), q, c), h - |p|)
    ensures LeftPath(d, p + q, c) == p + LeftPath(SubAt(d, p), q, c)
    decreases |p|
  {
    hide Absorb, Relocate, Widened;
    if p == [] {
      assert p + q == q;
    } else {
      assert (p + q)[1..] == p[1..] + q;
      LeftPathPrefix(d.subs[p[0]], h - 1, p[1..], q, c);
      UpAppend(d.subs[p[0]], p[1..], q, c);
      NotPushedUp(d.subs[p[0]], h - 1, p[1..], Up(SubAt(d, p), q, c));
    }
  }

  lemma NotPushedUp(t: Tree, h: int, p: seq<nat>, c: Tree)
    requires Shape(t, h) && ValidPath(t, p) && !Pushed(c, h - |p|)
    ensures !Pushed(Up(t, p, c), h)
  {
    UpIsPut(t, h, p, c);
    if p != [] {
      assert PutAt(t, p, c).height == t.height;
    }
  }

  lemma {:induction false} AddrAppend(m: Memory, root: Ptr, t: Tree, p: seq<nat>, q: seq<nat>)
    requires Rep(m, root, t) && ValidPath(t, p) && ValidPath(SubAt(t, p), q)
    ensures ValidPath(t, p + q) && Rep(m, AddrAt(m, root, t, p), SubAt(t, p))
    ensures AddrAt(m, root, t, p + q) == AddrAt(m, AddrAt(m, root, t, p), SubAt(t, p), q)
    decreases |p|
  {
    AppendPath(t, p, q);
    if p == [] {
      assert p + q == q;
    } else {
      assert (p + q)[1..] == p[1..] + q;
      AddrAppend(m, m[root].subtrees[p[0]].st, t.subs[p[0]], p[1..], q);
    }
  }

  /** A path in two parts, the second of which reaches `end`. */
  lemma PathToJoin(m: Memory, root: Ptr, t: Tree, n1: seq<Ptr>, i1: seq<nat>, n2: seq<Ptr>, i2: seq<nat>, end: Ptr)
    requires Own(m, root, t) && OnPath(m, root, t, n1, i1) && ValidPath(t, i1)
    requires PathTo(m, AddrAt(m, root, t, i1), SubAt(t, i1), n2, i2, end)
    ensures PathTo(m, root, t, n1 + n2, i1 + i2, end)
  {
    hide NoAlias, Foot;
    OnPathJoin(m, root, t, n1, n2, i1, i2);
    AddrAppend(m, root, t, i1, i2);
  }

  /** The climb stopped at or above the overwritten node: the path is the old one down to the
      level where it stopped, and the repaired one from there on. */
  lemma FinishRepaired(m: Memory, root: Ptr, t: Tree, d: Tree, p: seq<nat>, e: Entry, k: nat, f: nat,
                       n1: seq<Ptr>, n2: seq<Ptr>, ix: seq<nat>, end: Ptr)
    requires CanClimb(d, p, e) && k <= f < |p| && p[f] > 0 && !Pushed(Climbed(d, p, e, k), d.height - k)
    requires ValidPath(d, p[..k]) && t == PutAt(d, p[..k], Climbed(d, p, e, k)) && ValidPath(t, p[..k])
    requires Own(m, root, t) && OnPath(m, root, t, n1, p[..k])
    requires Suffix(m, AddrAt(m, root, t, p[..k]), Climbed(d, p, e, k), d.height - k, LeftWay(d, p, e, k, f), n2, ix, end)
    ensures p[..k] + ix == LeftWay(d, p, e, 0, f)
    ensures PathTo(m, root, t, n1 + n2, LeftWay(d, p, e, 0, f), end)
  {
    hide Climbed, Orderly, Shape, NoAlias, Foot, OnPath;
    var q := p[k..f + 1];
    PutValid(d, p[..k], Climbed(d, p, e, k));
    ClimbedVia(d, p, e, k, f);
    WayParts(d, p, 0, f);
    assert p[..0] == [] && p[0..f + 1] == p[..f + 1] == p[..k] + q;
    LeftPathPrefix(d, d.height, p[..k], q, Climbed(d, p, e, f + 1));
    PathToJoin(m, root, t, n1, p[..k], n2, ix, end);
  }

  lemma {:induction false} LeftPathUnpushed(d: Tree, h: int, p: seq<nat>, c: Tree)
    requires Shape(d, h) && p != [] && p[|p| - 1] > 0 && ValidPath(d, p) && !Pushed(c, h - |p|)
    ensures LeftPath(d, p, c) == LeftSibling(p)
    decreases |p|
  {
    if |p| > 1 {
      LeftPathUnpushed(d.subs[p[0]], h - 1, p[1..], c);
      NotPushedUp(d.subs[p[0]], h - 1, p[1..], c);
      assert LeftSibling(p) == [p[0]] + LeftSibling(p[1..]);
    }
  }

  /** The climb stopped below the overwritten node: only the last index has to change. */
  lemma FinishBelow(d: Tree, p: seq<nat>, e: Entry, k: nat, f: nat)
    requires CanClimb(d, p, e) && f < k < |p| && p[f] > 0 && !Pushed(Climbed(d, p, e, k), d.height - k)
    ensures LeftWay(d, p, e, 0, f) == p[..f] + [p[f] - 1]
  {
    hide Orderly;
    NotPushedBelow(d, p, e, k, f + 1);
    WayParts(d, p, 0, f);
    assert p[..0] == [] && p[0..f + 1] == p[..f + 1];
    LeftPathUnpushed(d, d.height, p[..f + 1], Climbed(d, p, e, f + 1));
    assert p[..f + 1][..f] == p[..f];
  }

  lemma {:induction false} NotPushedBelow(d: Tree, p: seq<nat>, e: Entry, k: nat, j: nat)
    requires CanClimb(d, p, e) && j <= k < |p| && !Pushed(Climbed(d, p, e, k), d.height - k)
    ensures !Pushed(Climbed(d, p, e, j), d.height - j)
    decreases k - j
  {
    hide Orderly;
    if j < k {
      NotPushedBelow(d, p, e, k, j + 1);
      ClimbedStep(d, p, e, j);
      LevelNode(d, p, j);
      SubShape(d, d.height, p[..j]);
      assert SubAt(d, p[..j]).height == d.height - j;
    }
  }

  /** The slot to the left of the one that the path goes through. */
  lemma LeftSlot(m: Memory, root: Ptr, t: Tree, ns: seq<Ptr>, idx: seq<nat>, f: nat, end: Ptr)
    requires Own(m, root, t) && OnPath(m, root, t, ns, idx) && f < |idx| == |ns| && idx[f] > 0
    requires ns[f] in m && idx[f] <= |m[ns[f]].subtrees| && m[ns[f]].subtrees[idx[f] - 1].st == end
    ensures PathTo(m, root, t, ns[..f + 1], idx[..f] + [idx[f] - 1], end)
  {
    hide NoAlias, Foot;
    OnPathSplit(m, root, t, ns, idx, f);
    AddrRep(m, root, t, idx[..f]);
    PathToOne(m, ns[f], SubAt(t, idx[..f]), idx[f] - 1, end);
    PathToJoin(m, root, t, ns[..f], idx[..f], [ns[f]], [idx[f] - 1], end);
    assert ns[..f] + [ns[f]] == ns[..f + 1];
  }

  /** The climb split the root: the path gets the new root in front. */
  lemma FinishRoot(m: Memory, root: Ptr, d: Tree, p: seq<nat>, e: Entry, f: nat, ns: seq<Ptr>, ix: seq<nat>, end: Ptr)
    requires CanClimb(d, p, e) && f < |p| && p[f] > 0 && Pushed(Climbed(d, p, e, 0), d.height)
    requires Suffix(m, root, Climbed(d, p, e, 0), d.height, LeftWay(d, p, e, 0, f), ns, ix, end)
    ensures root in m && |m[root].subtrees| == 2 && ns != []
    ensures var side := if ns[0] == m[root].subtrees[1].st then 1 else 0;
            && LeftWay(d, p, e, 0, f) == [side] + ix
            && PathTo(m, root, Climbed(d, p, e, 0), [root] + ns, [side] + ix, end)
    ensures ns[0] != m[root].subtrees[1].st ==> ns[0] == m[root].subtrees[0].st
  {
    hide Climbed, Orderly, Shape, OnPath;
    var c, q := Climbed(d, p, e, 0), LeftWay(d, p, e, 0, f);
    SuffixSide(m, root, c, d.height, q, ns, ix, end);
    SuffixOwn(m, root, c, d.height, q, ns, ix, end);
    PathToCons(m, root, c, q[0], ns, ix, end);
    assert q == [q[0]] + ix;
  }
}
