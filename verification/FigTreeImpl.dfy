/** The FIG tree (figtree.c): nodes in memory, changed in place. */
module FigTreeImpl {
  import opened Intervals
  import opened FigTrees
  import opened FigPrune
  import opened FigInsert
  import opened FigAbsorb
  import opened FigPaths
  import opened FigWrite
  import opened FigCorrect
  import opened FigRuns
  import opened FigHeight
  import opened FigMemory
  import opened FigNodes
  import opened FigPathOps
  import opened FigClimb
  import opened FigDescent
  import opened FigRepair
  import opened FigSpine
  import opened FigOutcome

  /** struct insertargs */
  datatype InsertArgs = InsertArgs(range: Interval, value: int, at: Ptr, valid: Interval)

  /** struct insertcont */
  datatype InsertCont = InsertCont(leftc: Option<InsertArgs>, rightc: Option<InsertArgs>)

  const NO_CONT := InsertCont(None, None)

  predicate SameCont(a: Option<InsertArgs>, c: Option<Cont>) {
    && (a.Some? <==> c.Some?)
    && (a.Some? ==> Cont(a.value.range, a.value.value, a.value.valid) == c.value)
  }

  class FigTree {
    const nodes: NodeStore
    const width: Width
    var root: Ptr
    ghost var tree: Tree
    /** The place in the path arrays, if any, whose index still belongs to the right continuation. */
    ghost var stale: int

    ghost predicate Valid()
      reads this, nodes
    {
      && nodes.Heap() && Own(nodes.mem, root, tree)
      && tree.Node? && Shape(tree, tree.height)
    }

    /** ft_init */
    constructor Init(width: Width)
      ensures Valid() && fresh(nodes) && this.width == width
      ensures tree == EMPTY_TREE && AllDirty(nodes.mem)
    {
      var store := new NodeStore();
      var r := store.FtnNew(0, true);
      nodes := store;
      this.width := width;
      root := r;
      tree := EMPTY_TREE;
      new;
      assert EmptyChain(0) == EMPTY_TREE;
      EmptyTreeShape();
    }

    /** The first entry of a node that does not end before b. */
    method FindEntry(p: Ptr, b: int) returns (i: nat)
      requires p in nodes.mem && Sorted(nodes.mem[p].entries)
      ensures i == Below(nodes.mem[p].entries, b)
    {
      i := 0;
      while i < |nodes.mem[p].entries| && !ContainsVal(nodes.mem[p].entries[i].range, b) && nodes.mem[p].entries[i].range.left <= b
        invariant i <= |nodes.mem[p].entries|
        invariant i > 0 ==> nodes.mem[p].entries[i - 1].range.right < b
      {
        i := i + 1;
      }
      BelowIs(nodes.mem[p].entries, b, i);
    }

    /** ft_lookup */
    method FtLookup(location: int) returns (r: Option<int>)
      requires Valid()
      ensures r == Lookup(tree, location)
    {
      var curr := root;
      ghost var s := tree;
      while curr != NULL
        invariant Rep(nodes.mem, curr, s) && Shape(s, if s.Nil? then -1 else s.height)
        invariant Lookup(s, location) == Lookup(tree, location)
        decreases s
      {
        RepNode(nodes.mem, curr, s);
        var i := FindEntry(curr, location);
        if i < |nodes.mem[curr].entries| && ContainsVal(nodes.mem[curr].entries[i].range, location) {
          return Some(nodes.mem[curr].entries[i].value);
        }
        curr := nodes.mem[curr].subtrees[i].st;
        s := s.subs[i];
      }
      r := None;
    }

    /** The path arrays have the indices of p, but for a stale one. */
    ghost predicate Matches(pathIndices: array<nat>, len: nat, p: seq<nat>)
      reads this, pathIndices
    {
      && len <= pathIndices.Length && len <= |p|
      && forall k :: 0 <= k < len && k != stale ==> pathIndices[k] == p[k]
    }

    /** path[..len] and pathIndices[..len] describe the path p of the tree. */
    ghost predicate Holds(path: array<Ptr>, pathIndices: array<nat>, len: nat, p: seq<nat>)
      requires Rep(nodes.mem, root, tree)
      reads this, nodes, path, pathIndices
    {
      && len <= path.Length && len == |p| && Matches(pathIndices, len, p)
      && OnPath(nodes.mem, root, tree, path[..len], p)
    }

    /** The scan of _ft_insert for an entry that overlaps the range or lies behind it. */
    method ScanRange(p: Ptr, range: Interval) returns (i: nat, overlap: bool)
      requires p in nodes.mem && Sorted(nodes.mem[p].entries) && Proper(range)
      ensures i == Below(nodes.mem[p].entries, range.left)
      ensures overlap <==> i < Upto(nodes.mem[p].entries, range.right)
    {
      i := 0;
      overlap := false;
      while i < |nodes.mem[p].entries|
        invariant i <= |nodes.mem[p].entries| && !overlap
        invariant i > 0 ==> nodes.mem[p].entries[i - 1].range.right < range.left
      {
        var ival := nodes.mem[p].entries[i].range;
        if Overlaps(ival, range) {
          BelowIs(nodes.mem[p].entries, range.left, i);
          overlap := true;
          return;
        } else if RightOf(ival, range) {
          break;
        }
        i := i + 1;
      }
      BelowIs(nodes.mem[p].entries, range.left, i);
    }

    /** The scan for the end of the run of entries that overlap the range. */
    method ScanRun(p: Ptr, range: Interval, i: nat) returns (j: nat)
      requires p in nodes.mem && Sorted(nodes.mem[p].entries) && Proper(range)
      requires i == Below(nodes.mem[p].entries, range.left) && i < Upto(nodes.mem[p].entries, range.right)
      ensures j == Upto(nodes.mem[p].entries, range.right)
    {
      j := i + 1;
      while j < |nodes.mem[p].entries| && LeftOverlaps(nodes.mem[p].entries[j].range, range)
        invariant i < j <= |nodes.mem[p].entries|
        invariant nodes.mem[p].entries[j - 1].range.left <= range.right
      {
        j := j + 1;
      }
      UptoIs(nodes.mem[p].entries, range.right, j);
    }

    /** The node at the end of the path is pruned to the bytes that can reach it. */
    method PruneAt(curr: Ptr, valid: Interval, path: array<Ptr>, pathIndices: array<nat>, len: nat, ghost p: seq<nat>)
      requires Valid() && Holds(path, pathIndices, len, p) && ValidPath(tree, p) && curr == AddrAt(nodes.mem, root, tree, p)
      requires SubAt(tree, p).Node? && Shape(SubAt(tree, p), tree.height - |p|) && ProperOrEmpty(valid)
      modifies this`tree, nodes
      ensures tree == PutAt(old(tree), p, Pruned(old(SubAt(tree, p)), old(tree).height - |p|, valid))
      ensures Valid() && Holds(path, pathIndices, len, p) && tree.height == old(tree).height
      ensures ValidPath(tree, p) && curr == AddrAt(nodes.mem, root, tree, p)
      ensures SubAt(tree, p) == Pruned(old(SubAt(tree, p)), old(tree).height - |p|, valid)
      ensures path[..] == old(path[..]) && AllKept(old(nodes.mem), nodes.mem, path[..len])
      ensures Tracks(old(nodes.mem), nodes.mem, root, old(tree), tree)
    {
      hide Tracked, Rep, NoAlias, Foot, Pruned, OnPath, Shape;
      ghost var s := SubAt(tree, p);
      AddrRep(nodes.mem, root, tree, p);
      ShapeNode(s, tree.height - |p|);
      nodes.FtnPruneTo(curr, valid, s);
      PrunedPlace(tree, p, valid);
      OnPathPut(old(nodes.mem), nodes.mem, root, tree, path[..len], p, Pruned(s, s.height, valid));
      PathKept(old(nodes.mem), nodes.mem, root, tree, path[..len], p, Pruned(s, s.height, valid));
      tree := PutAt(tree, p, Pruned(s, s.height, valid));
    }

    /** The path arrays get one more node. */
    method PushPath(curr: Ptr, i: nat, path: array<Ptr>, pathIndices: array<nat>, len: nat, ghost p: seq<nat>)
      requires Valid() && Holds(path, pathIndices, len, p) && ValidPath(tree, p) && curr == AddrAt(nodes.mem, root, tree, p)
      requires path != pathIndices && len < path.Length && len < pathIndices.Length
      requires SubAt(tree, p).Node? && Shape(SubAt(tree, p), tree.height - |p|) && i <= |SubAt(tree, p).entries|
      modifies path, pathIndices
      ensures ValidPath(tree, p + [i]) && Holds(path, pathIndices, len + 1, p + [i])
      ensures path[..len] == old(path[..len]) && path[len] == curr
      ensures curr in nodes.mem && i < |nodes.mem[curr].subtrees|
              && AddrAt(nodes.mem, root, tree, p + [i]) == nodes.mem[curr].subtrees[i].st
    {
      hide Rep, NoAlias, Foot, OnPath;
      path[len] := curr;
      pathIndices[len] := i;
      assert path[..len + 1] == old(path[..len]) + [curr];
      AddrRep(nodes.mem, root, tree, p);
      RepNode(nodes.mem, curr, SubAt(tree, p));
      assert [i][1..] == [];
      OnPathSnoc(nodes.mem, root, tree, old(path[..len]), p, i);
    }

    /** The run of overlapping entries that starts at i gives way to the new entry. What is
        left over of the first and the last of them becomes a continuation each. */
    method OverwriteAt(curr: Ptr, valid: Interval, range: Interval, value: int, i: nat,
                       path: array<Ptr>, pathIndices: array<nat>, len: nat, ghost p: seq<nat>)
      returns (ic: InsertCont, k: nat)
      requires Valid() && Holds(path, pathIndices, len, p) && ValidPath(tree, p) && curr == AddrAt(nodes.mem, root, tree, p)
      requires path != pathIndices && len < path.Length && len < pathIndices.Length
      requires SubAt(tree, p).Node? && Shape(SubAt(tree, p), tree.height - |p|) && Proper(range)
      requires i == Below(SubAt(tree, p).entries, range.left) && i < Upto(SubAt(tree, p).entries, range.right)
      modifies this`tree, nodes, path, pathIndices
      ensures Overwrites(width, old(tree), p, valid, Entry(range, value), tree, k, ic) && tree.height == old(tree).height
      ensures Valid() && Holds(path, pathIndices, len + 1, p + [k]) && ValidPath(tree, p + [i]) && ValidPath(tree, p + [i + 1])
      ensures ic.rightc.Some? ==> ic.rightc.value.at == AddrAt(nodes.mem, root, tree, p + [i + 1])
      ensures ic.leftc.Some? ==> ic.leftc.value.at == AddrAt(nodes.mem, root, tree, p + [i])
      ensures path[..len] == old(path[..len]) && AllKept(old(nodes.mem), nodes.mem, path[..len])
      ensures path[len] == curr && curr in nodes.mem && nodes.mem[curr].dirty
      ensures Tracks(old(nodes.mem), nodes.mem, root, old(tree), tree)
    {
      hide Tracks, Rep, NoAlias, Foot, OnPath, Run, Replaced, LeftCont, RightCont, Shape;
      ghost var s, h := SubAt(tree, p), tree.height - |p|;
      AddrRep(nodes.mem, root, tree, p);
      RepNode(nodes.mem, curr, s);
      ShapeNode(s, h);
      var j := ScanRun(curr, range, i);
      RunOf(s.entries, range);
      ic := MakeConts(curr, valid, range, i, j);
      k := if ic.rightc.Some? then i + 1 else i;
      ReplaceAt(curr, range, value, i, j, path, pathIndices, len, p);
      BothEnds(curr, p, i);
      PushPath(curr, k, path, pathIndices, len, p);
    }

    lemma BothEnds(curr: Ptr, p: seq<nat>, i: nat)
      requires Valid() && ValidPath(tree, p) && curr == AddrAt(nodes.mem, root, tree, p)
      requires SubAt(tree, p).Node? && Shape(SubAt(tree, p), tree.height - |p|) && i < |SubAt(tree, p).entries|
      ensures curr in nodes.mem && i + 1 < |nodes.mem[curr].subtrees|
      ensures ValidPath(tree, p + [i]) && AddrAt(nodes.mem, root, tree, p + [i]) == nodes.mem[curr].subtrees[i].st
      ensures ValidPath(tree, p + [i + 1]) && AddrAt(nodes.mem, root, tree, p + [i + 1]) == nodes.mem[curr].subtrees[i + 1].st
    {
      ShapeNode(SubAt(tree, p), tree.height - |p|);
      PathEnds(nodes.mem, root, tree, p, i);
      PathEnds(nodes.mem, root, tree, p, i + 1);
    }

    /** The continuations for the pieces of the overlapping entries i up to j that stick out of
        the range. */
    method MakeConts(curr: Ptr, valid: Interval, range: Interval, i: nat, j: nat) returns (ic: InsertCont)
      requires curr in nodes.mem && |nodes.mem[curr].subtrees| == |nodes.mem[curr].entries| + 1
      requires i < j <= |nodes.mem[curr].entries|
      ensures SameCont(ic.leftc, LeftCont(width, nodes.mem[curr].entries, i, valid, range))
      ensures SameCont(ic.rightc, RightCont(width, nodes.mem[curr].entries, j, valid, range))
      ensures ic.leftc.Some? ==> ic.leftc.value.at == nodes.mem[curr].subtrees[i].st
      ensures ic.rightc.Some? ==> ic.rightc.value.at == nodes.mem[curr].subtrees[j].st
    {
      var n := nodes.mem[curr];
      ic := NO_CONT;
      if n.entries[i].range.left < range.left {
        var leftValid := Restrict(valid, if i == 0 then BYTE_INDEX_MIN else n.entries[i - 1].range.right + 1,
                                  Pred(width, n.entries[i].range.left));
        ic := ic.(leftc := Some(InsertArgs(Span(n.entries[i].range.left, range.left - 1), n.entries[i].value,
                                           n.subtrees[i].st, leftValid)));
      }
      if n.entries[j - 1].range.right > range.right {
        var rightValid := Restrict(valid, Succ(width, n.entries[j - 1].range.right),
                                   if j == |n.entries| then BYTE_INDEX_MAX else n.entries[j].range.left - 1);
        ic := ic.(rightc := Some(InsertArgs(Span(range.right + 1, n.entries[j - 1].range.right), n.entries[j - 1].value,
                                            n.subtrees[j].st, rightValid)));
      }
    }

    method ReplaceAt(curr: Ptr, range: Interval, value: int, i: nat, j: nat,
                     path: array<Ptr>, pathIndices: array<nat>, len: nat, ghost p: seq<nat>)
      requires Valid() && Holds(path, pathIndices, len, p) && ValidPath(tree, p) && curr == AddrAt(nodes.mem, root, tree, p)
      requires SubAt(tree, p).Node? && Shape(SubAt(tree, p), tree.height - |p|) && Proper(range)
      requires i < j <= |SubAt(tree, p).entries| && Run(SubAt(tree, p).entries, i, j, range)
      requires curr in nodes.mem && j < |nodes.mem[curr].subtrees|
      modifies this`tree, nodes
      ensures |old(SubAt(tree, p)).subs| == |old(SubAt(tree, p)).entries| + 1
      ensures tree == PutAt(old(tree), p, Replaced(old(SubAt(tree, p)), i, j, Entry(range, value)))
      ensures Valid() && Holds(path, pathIndices, len, p) && ValidPath(tree, p) && curr == AddrAt(nodes.mem, root, tree, p)
      ensures tree.height == old(tree).height
      ensures SubAt(tree, p) == Replaced(old(SubAt(tree, p)), i, j, Entry(range, value))
      ensures Shape(SubAt(tree, p), tree.height - |p|) && SubAt(tree, p).Node? && i < |SubAt(tree, p).entries|
      ensures curr in nodes.mem && i + 1 < |nodes.mem[curr].subtrees|
      ensures nodes.mem[curr].subtrees[i].st == old(nodes.mem)[curr].subtrees[i].st
      ensures nodes.mem[curr].subtrees[i + 1].st == old(nodes.mem)[curr].subtrees[j].st
      ensures AllKept(old(nodes.mem), nodes.mem, path[..len])
      ensures nodes.mem[curr].dirty
      ensures Tracks(old(nodes.mem), nodes.mem, root, old(tree), tree)
    {
      hide Tracked, Rep, NoAlias, Foot, OnPath, Run, Replaced;
      ghost var s, h, e := SubAt(tree, p), tree.height - |p|, Entry(range, value);
      AddrRep(nodes.mem, root, tree, p);
      ShapeNode(s, h);
      nodes.FtnReplaceEntries(curr, i, j, range, value, s);
      ReplacedShape(s, h, i, j, e);
      PutShape(tree, tree.height, p, Replaced(s, i, j, e));
      PutValid(tree, p, Replaced(s, i, j, e));
      OnPathPut(old(nodes.mem), nodes.mem, root, tree, path[..len], p, Replaced(s, i, j, e));
      PathKept(old(nodes.mem), nodes.mem, root, tree, path[..len], p, Replaced(s, i, j, e));
      ShapeHeight(PutAt(tree, p, Replaced(s, i, j, e)), tree.height);
      tree := PutAt(tree, p, Replaced(s, i, j, e));
    }

    /** The path arrays lead to curr. */
    ghost predicate AtPlace(path: array<Ptr>, pathIndices: array<nat>, len: nat, p: seq<nat>, curr: Ptr)
      reads this, nodes, path, pathIndices
    {
      && Valid() && Holds(path, pathIndices, len, p)
      && ValidPath(tree, p) && curr == AddrAt(nodes.mem, root, tree, p)
    }

    /** The main insertion is done, and ic says what is left over and where. */
    ghost predicate Stopped(ic: InsertCont, goal: Insertion)
      requires Rep(nodes.mem, root, tree)
      reads this, nodes
    {
      && tree == goal.tree && SameCont(ic.leftc, goal.conts.left) && SameCont(ic.rightc, goal.conts.right)
      && goal.path != [] && ValidPath(tree, goal.path)
      && (ic.rightc.Some? ==> ic.rightc.value.at == AddrAt(nodes.mem, root, tree, goal.path) && goal.path[|goal.path| - 1] > 0)
      && (ic.leftc.Some? ==> ValidPath(tree, LeftPlace(goal)) && ic.leftc.value.at == AddrAt(nodes.mem, root, tree, LeftPlace(goal)))
    }

    /** One round of the first loop of _ft_insert. */
    method DescendStep(args: InsertArgs, valid: Interval, curr: Ptr,
                       path: array<Ptr>, pathIndices: array<nat>, len: nat, ghost p: seq<nat>, ghost goal: Insertion)
      returns (stop: bool, child: Ptr, childValid: Interval, ic: InsertCont, ghost i: nat)
      requires AtPlace(path, pathIndices, len, p, curr) && curr != NULL
      requires Heading(width, tree, p, valid, Entry(args.range, args.value), goal)
      requires path != pathIndices && path.Length == pathIndices.Length && path.Length > tree.height && len == |p|
      modifies this`tree, nodes, path, pathIndices
      ensures Valid() && Holds(path, pathIndices, len + 1, p + [i]) && tree.height == old(tree).height
      ensures exists s :: tree == PutAt(old(tree), p, s)
      ensures stop ==> Stopped(ic, goal) && goal.path == p + [i]
      ensures WillStop(old(tree), p, valid, Entry(args.range, args.value)) <==>
              stop || WillStop(tree, p + [i], childValid, Entry(args.range, args.value))
      ensures !stop ==> ic == NO_CONT && AtPlace(path, pathIndices, len + 1, p + [i], child)
                        && Heading(width, tree, p + [i], childValid, Entry(args.range, args.value), goal)
      ensures path[..len] == old(path[..len]) && AllKept(old(nodes.mem), nodes.mem, path[..len])
      ensures path[len] == curr && (stop ==> curr in nodes.mem && nodes.mem[curr].dirty)
      ensures Tracks(old(nodes.mem), nodes.mem, root, old(tree), tree)
    {
      hide Tracks, AllKept, Rep, NoAlias, Foot, OnPath, Shape, Pruned, Heading, Stopped, Below, Upto;
      ghost var e, t0 := Entry(args.range, args.value), tree;
      PlaceNode(p, curr);
      HeadingDepth(width, tree, p, valid, e, goal);
      HeadingReady(width, tree, p, valid, e, goal);
      PruneAt(curr, valid, path, pathIndices, len, p);
      ghost var m0, m1, t1 := old(nodes.mem), nodes.mem, tree;
      PrunedPlace(t0, p, valid);
      ShapeNode(SubAt(tree, p), tree.height - |p|);
      PlaceNode(p, curr);
      var k, overlap := ScanRange(curr, args.range);
      ghost var es := SubAt(tree, p).entries;
      StopsStep(t0, p, valid, e);
      stop, child, childValid, ic := overlap, curr, valid, NO_CONT;
      if overlap {
        ghost var ns := path[..len];
        ic, i := StopHere(args, valid, curr, k, path, pathIndices, len, p, t0, goal);
        TracksTransitive(m0, m1, nodes.mem, root, t0, t1, tree);
        assert ns[..len] == ns;
        AllKeptPrefix(m0, m1, nodes.mem, ns, len);
      } else {
        child, childValid := GoDown(args, valid, curr, k, path, pathIndices, len, p, t0, goal);
        i := k;
        HeadingReady(width, tree, p + [i], childValid, e, goal);
        SubSnoc(tree, p, i);
      }
    }

    method StopHere(args: InsertArgs, valid: Interval, curr: Ptr, i: nat, path: array<Ptr>, pathIndices: array<nat>, len: nat,
                    ghost p: seq<nat>, ghost t0: Tree, ghost goal: Insertion)
      returns (ic: InsertCont, k: nat)
      requires AtPlace(path, pathIndices, len, p, curr) && PrunedFrom(t0, p, valid)
      requires path != pathIndices && len < path.Length && len < pathIndices.Length
      requires Heading(width, t0, p, valid, Entry(args.range, args.value), goal)
      requires i == Below(SubAt(tree, p).entries, args.range.left) && i < Upto(SubAt(tree, p).entries, args.range.right)
      modifies this`tree, nodes, path, pathIndices
      ensures Valid() && Holds(path, pathIndices, len + 1, p + [k]) && tree.height == old(tree).height
      ensures exists s :: tree == PutAt(t0, p, s)
      ensures Stopped(ic, goal) && goal.path == p + [k]
      ensures path[..len] == old(path[..len]) && AllKept(old(nodes.mem), nodes.mem, path[..len])
      ensures path[len] == curr && curr in nodes.mem && nodes.mem[curr].dirty
      ensures Tracks(old(nodes.mem), nodes.mem, root, old(tree), tree)
    {
      hide Tracks, Rep, NoAlias, Foot, OnPath, Pruned, Overwrite, Shape;
      ghost var e, t1 := Entry(args.range, args.value), tree;
      HeadingReady(width, t0, p, valid, e, goal);
      HeadingOverlap(width, t0, p, valid, e, goal);
      ic, k := OverwriteAt(curr, valid, args.range, args.value, i, path, pathIndices, len, p);
      OverlapStops(width, t0, t1, p, valid, e, tree, k, ic, goal);
    }

    method GoDown(args: InsertArgs, valid: Interval, curr: Ptr, i: nat, path: array<Ptr>, pathIndices: array<nat>, len: nat,
                  ghost p: seq<nat>, ghost t0: Tree, ghost goal: Insertion)
      returns (child: Ptr, childValid: Interval)
      requires AtPlace(path, pathIndices, len, p, curr) && PrunedFrom(t0, p, valid) && curr != NULL
      requires path != pathIndices && len < path.Length && len < pathIndices.Length
      requires Heading(width, t0, p, valid, Entry(args.range, args.value), goal)
      requires i == Below(SubAt(tree, p).entries, args.range.left) && i >= Upto(SubAt(tree, p).entries, args.range.right)
      modifies path, pathIndices
      ensures AtPlace(path, pathIndices, len + 1, p + [i], child)
      ensures Heading(width, tree, p + [i], childValid, Entry(args.range, args.value), goal)
      ensures path[..len] == old(path[..len]) && path[len] == curr
      ensures i <= |SubAt(tree, p).entries| && childValid == GapValid(SubAt(tree, p).entries, i, valid)
    {
      hide Rep, NoAlias, Foot, OnPath, Pruned, Shape;
      ghost var e := Entry(args.range, args.value);
      HeadingReady(width, t0, p, valid, e, goal);
      HeadingStep(width, t0, p, valid, e, goal);
      PlaceNode(p, curr);
      PushPath(curr, i, path, pathIndices, len, p);
      var n := nodes.mem[curr];
      child := n.subtrees[i].st;
      childValid := Restrict(valid, if i == 0 then BYTE_INDEX_MIN else n.entries[i - 1].range.right + 1,
                             if i == |n.entries| then BYTE_INDEX_MAX else n.entries[i].range.left - 1);
    }

    /** The tree is t0 with the node at the end of p pruned. */
    ghost predicate PrunedFrom(t0: Tree, p: seq<nat>, valid: Interval)
      reads this
    {
      && t0.Node? && Shape(t0, t0.height) && ValidPath(t0, p) && ProperOrEmpty(valid)
      && SubAt(t0, p).Node? && Shape(SubAt(t0, p), t0.height - |p|)
      && tree == PutAt(t0, p, Pruned(SubAt(t0, p), t0.height - |p|, valid))
      && tree.Node? && tree.height == t0.height && ValidPath(tree, p)
      && SubAt(tree, p) == Pruned(SubAt(t0, p), t0.height - |p|, valid)
      && SubAt(tree, p).Node? && Shape(SubAt(tree, p), tree.height - |p|)
    }

    lemma PlaceNode(p: seq<nat>, curr: Ptr)
      requires Valid() && ValidPath(tree, p) && curr == AddrAt(nodes.mem, root, tree, p)
      ensures curr != NULL <==> SubAt(tree, p).Node?
      ensures curr != NULL ==> curr in nodes.mem && nodes.mem[curr].entries == SubAt(tree, p).entries
                               && |nodes.mem[curr].subtrees| == |SubAt(tree, p).subs|
    {
      AddrRep(nodes.mem, root, tree, p);
    }

    lemma StartKept(path: array<Ptr>, pathIndices: array<nat>, len: nat, p: seq<nat>)
      requires Valid() && Holds(path, pathIndices, len, p)
      ensures len <= path.Length && AllKept(nodes.mem, nodes.mem, path[..len])
    {
      forall k | 0 <= k < len ensures path[..len][k] in nodes.mem {
        OnPathAbove(nodes.mem, root, tree, path[..len], p, k);
      }
    }

    /** The first loop of _ft_insert: down to the first node with an entry that overlaps the
        range, which is overwritten, or to the place below a leaf. */
    method Descend(args: InsertArgs, path: array<Ptr>, pathIndices: array<nat>, pathLen: nat,
                   ghost p0: seq<nat>, ghost goal: Insertion)
      returns (len: nat, atLeaf: bool, ic: InsertCont, ghost p: seq<nat>)
      requires AtPlace(path, pathIndices, pathLen, p0, args.at) && pathLen == |p0|
      requires Heading(width, tree, p0, args.valid, Entry(args.range, args.value), goal)
      requires path != pathIndices && path.Length == pathIndices.Length && path.Length > tree.height
      modifies this`tree, nodes, path, pathIndices
      ensures Valid() && Holds(path, pathIndices, len, p) && len == |p| && tree.height == old(tree).height
      ensures p0 <= p && KeptAbove(old(tree), tree, p0)
      ensures atLeaf ==> ic == NO_CONT && CanClimb(tree, p, Entry(args.range, args.value))
                         && goal == Insertion(Up(tree, p, Fresh(Entry(args.range, args.value))), p, NO_CONTS)
      ensures !atLeaf ==> Stopped(ic, goal) && goal.path == p
      ensures atLeaf <==> !WillStop(old(tree), p0, args.valid, Entry(args.range, args.value))
      ensures path[..pathLen] == old(path[..pathLen]) && AllKept(old(nodes.mem), nodes.mem, path[..pathLen])
      ensures pathLen < len ==> path[pathLen] == args.at
      ensures |p| <= tree.height + 1 && (!atLeaf ==> pathLen < len && path[len - 1] in nodes.mem && nodes.mem[path[len - 1]].dirty)
      ensures Tracks(old(nodes.mem), nodes.mem, root, old(tree), tree)
    {
      hide Tracks, Rep, NoAlias, Foot, OnPath, Shape, Heading, KeptAbove, Stopped, Holds, AllKept;
      ghost var e := Entry(args.range, args.value);
      var curr, valid := args.at, args.valid;
      len, p, ic, atLeaf := pathLen, p0, NO_CONT, true;
      ghost var m0 := nodes.mem;
      StartKept(path, pathIndices, len, p0);
      TracksSame(nodes.mem, root, tree);
      KeptAboveStart(tree, p0);
      while curr != NULL
        invariant AtPlace(path, pathIndices, len, p, curr) && len == |p| && atLeaf && ic == NO_CONT
        invariant tree.height == old(tree).height && p0 <= p && KeptAbove(old(tree), tree, p0)
        invariant pathLen <= len <= path.Length && path[..pathLen] == old(path[..pathLen]) && AllKept(old(nodes.mem), nodes.mem, path[..pathLen])
        invariant Heading(width, tree, p, valid, e, goal)
        invariant WillStop(old(tree), p0, args.valid, e) <==> WillStop(tree, p, valid, e)
        invariant if pathLen < len then path[pathLen] == args.at else curr == args.at
        invariant Tracks(old(nodes.mem), nodes.mem, root, old(tree), tree)
        decreases tree.height + 1 - |p|
      {
        ghost var t1, m1, ns, i := tree, nodes.mem, path[..len], 0;
        assert path[..pathLen] == ns[..pathLen];
        var stop: bool;
        PlaceNode(p, curr);
        HeadingDepth(width, tree, p, valid, e, goal);
        stop, curr, valid, ic, i := DescendStep(args, valid, curr, path, pathIndices, len, p, goal);
        assert pathLen < len ==> path[pathLen] == path[..len][pathLen] == ns[pathLen];
        ghost var s :| tree == PutAt(t1, p, s);
        KeptAbovePut(old(tree), t1, p0, p, s);
        len, p := len + 1, p + [i];
        assert path[..pathLen] == ns[..pathLen];
        AllKeptPrefix(m0, m1, nodes.mem, ns, pathLen);
        TracksTransitive(m0, m1, nodes.mem, root, old(tree), t1, tree);
        if stop {
          atLeaf := false;
          return;
        }
      }
      PlaceNode(p, curr);
      HeadingLeaf(width, tree, p, valid, e, goal);
    }

    /** The way up has dealt with the levels from k on: the node at level k of the path has
        turned into Climbed(k), and the nodes above it are as before. */
    ghost predicate Climbing(d: Tree, p: seq<nat>, e: Entry, k: nat)
      reads this, nodes
    {
      && nodes.Heap() && Own(nodes.mem, root, tree)
      && CanClimb(d, p, e) && k <= |p| && ValidPath(d, p[..k])
      && tree == PutAt(d, p[..k], Part(d, p, e, k)) && ValidPath(tree, p[..k])
    }

    /** What comes up to the next level: at first the new entry, later the node that a split
        pushed up. */
    ghost predicate Carried(d: Tree, p: seq<nat>, e: Entry, k: nat, ent: Entry, left: Ptr, right: Ptr)
      requires Climbing(d, p, e, k)
      reads this, nodes
    {
      if k == |p| then ent == e && left == NULL && right == NULL
      else
        && Pushed(Climbed(d, p, e, k), d.height - k)
        && var c := AddrAt(nodes.mem, root, tree, p[..k]);
        && c in nodes.mem && |nodes.mem[c].subtrees| == 2
        && ent == Climbed(d, p, e, k).entries[0]
        && left == nodes.mem[c].subtrees[0].st && right == nodes.mem[c].subtrees[1].st
    }

    /** What comes up hangs below the slot it goes into. */
    lemma CarriedHalves(node: Ptr, index: nat, ent: Entry, left: Ptr, right: Ptr, d: Tree, p: seq<nat>, e: Entry, k: nat)
      requires 0 < k && Climbing(d, p, e, k) && Carried(d, p, e, k, ent, left, right) && index == p[k - 1]
      requires ValidPath(tree, p[..k - 1]) && node == AddrAt(nodes.mem, root, tree, p[..k - 1])
      ensures ComesUp(d, p, e, k, ent) && Own(nodes.mem, node, SubAt(tree, p[..k - 1]))
      ensures SubAt(tree, p[..k - 1]).Node? && index < |SubAt(tree, p[..k - 1]).subs|
      ensures var c := Part(d, p, e, k);
              && (c.Node? ==> |c.subs| == 2)
              && Halves(nodes.mem, node, SubAt(tree, p[..k - 1]), index, left, right,
                        if c.Nil? then Nil else c.subs[0], if c.Nil? then Nil else c.subs[1])
    {
      hide Climbed;
      var q, m := p[..k - 1], nodes.mem;
      LevelReady(d, p, e, k, tree);
      AddrRep(m, root, tree, q);
      if k < |p| {
        LevelNode(d, p, k - 1);
        var c := AddrAt(m, root, tree, p[..k]);
        PathEnds(m, root, tree, q, index);
        assert c == m[node].subtrees[index].st;
        ChildOwn(m, node, SubAt(tree, q), index);
        HalvesOf(m, c, Climbed(d, p, e, k));
      }
    }

    /** ftn_insert at the next level up. */
    method InsertAtLevel(node: Ptr, index: nat, ent: Entry, left: Ptr, right: Ptr,
                         ghost d: Tree, ghost p: seq<nat>, ghost e: Entry, ghost k: nat, ghost ns: seq<Ptr>)
      returns (rv: Ptr)
      requires 0 < k && Climbing(d, p, e, k) && Carried(d, p, e, k, ent, left, right) && index == p[k - 1]
      requires ValidPath(tree, p[..k - 1]) && node == AddrAt(nodes.mem, root, tree, p[..k - 1])
      requires OnPath(nodes.mem, root, tree, ns, p[..k - 1])
      modifies this`tree, nodes
      ensures Climbing(d, p, e, k - 1) && node == AddrAt(nodes.mem, root, tree, p[..k - 1])
      ensures OnPath(nodes.mem, root, tree, ns, p[..k - 1])
      ensures rv != NULL <==> Pushed(Climbed(d, p, e, k - 1), d.height - (k - 1))
      ensures rv != NULL ==> rv == node
      ensures node != NULL && node in old(nodes.mem) && SameOn(old(nodes.mem), nodes.mem, old(nodes.mem).Keys - {node})
      ensures InsertedPtrs(nodes.mem, node, rv != NULL, old(nodes.mem)[node].subtrees, index, left, right)
      ensures nodes.mem[node].dirty
      ensures Tracks(old(nodes.mem), nodes.mem, root, old(tree), tree)
    {
      hide Tracked, Rep, NoAlias, Foot, OnPath, Shape, Orderly, Climbed, Halves, InsertedPtrs;
      ghost var q, s, c := p[..k - 1], SubAt(tree, p[..k - 1]), Part(d, p, e, k);
      ghost var lt, rt := if c.Nil? then Nil else c.subs[0], if c.Nil? then Nil else c.subs[1];
      AddrRep(nodes.mem, root, tree, q);
      LevelReady(d, p, e, k, tree);
      CarriedHalves(node, index, ent, left, right, d, p, e, k);
      RepNode(nodes.mem, node, s);
      LevelDone(d, p, e, k, tree, ent);
      rv := nodes.FtnInsert(node, ent, index, left, right, s, lt, rt);
      OnPathPut(old(nodes.mem), nodes.mem, root, tree, ns, q, Climbed(d, p, e, k - 1));
      tree := PutAt(tree, q, Climbed(d, p, e, k - 1));
    }

    /** The adjustment of the path arrays at one level on the way up of a right continuation. */
    method RepairLevel(pathindex: nat, f: nat, right: Ptr, topush: Ptr, path: array<Ptr>, pathIndices: array<nat>)
      requires path != pathIndices && pathindex < path.Length == pathIndices.Length && (pathindex < f ==> pathindex + 1 < path.Length)
      requires pathindex == f ==> pathIndices[pathindex] > 0
      requires path[pathindex] in nodes.mem && (topush != NULL ==> topush == path[pathindex] && |nodes.mem[topush].subtrees| == 2)
      modifies path, pathIndices
      ensures path[..] == old(path[..])[pathindex := path[pathindex]]
      ensures pathIndices[..] == old(pathIndices[..])[pathindex := pathIndices[pathindex]]
      ensures var index := old(pathIndices[pathindex]);
              var x := if pathindex == f then index - 1 else if pathindex < f && old(path[pathindex + 1]) == right then index + 1 else index;
              Recorded(nodes.mem, old(path[pathindex]), topush != NULL, x, path[pathindex], pathIndices[pathindex])
    {
      var insertindex := pathIndices[pathindex];
      if pathindex == f {
        insertindex := insertindex - 1;
        pathIndices[pathindex] := insertindex;
      } else if pathindex < f {
        var nextpathmember := path[pathindex + 1];
        if nextpathmember == right {
          insertindex := insertindex + 1;
          pathIndices[pathindex] := insertindex;
        }
      }
      if topush != NULL {
        if insertindex <= FT_ORDER {
          path[pathindex] := nodes.mem[topush].subtrees[0].st;
        } else {
          path[pathindex] := nodes.mem[topush].subtrees[1].st;
          insertindex := insertindex - (FT_ORDER + 1);
          pathIndices[pathindex] := insertindex;
        }
      }
    }

    /** The state of the loop that goes up: the levels from k on are done. */
    ghost predicate UpState(d: Tree, p: seq<nat>, e: Entry, k: nat, ent: Entry, left: Ptr, right: Ptr, topush: Ptr,
                            path: array<Ptr>, pathIndices: array<nat>)
      reads this, nodes, path, pathIndices
    {
      && Climbing(d, p, e, k) && Carried(d, p, e, k, ent, left, right)
      && path.Length == pathIndices.Length && |p| <= path.Length
      && Matches(pathIndices, k, p) && OnPath(nodes.mem, root, tree, path[..k], p[..k])
      && (k < |p| ==> topush == AddrAt(nodes.mem, root, tree, p[..k]))
    }

    /** What a right continuation knows about the left one: up to the overwritten node, its
        pointer; from there on, the repaired path. */
    ghost predicate RepairState(d: Tree, p: seq<nat>, e: Entry, k: nat, f: nat, node: Ptr, end: Ptr,
                                path: array<Ptr>, pathIndices: array<nat>)
      requires ValidPath(d, p) && k <= |p| && d.Node?
      reads this, nodes, path, pathIndices
    {
      && f < |p| <= path.Length == pathIndices.Length && p[f] > 0
      && if k <= f then
           Suffix(nodes.mem, node, Climbed(d, p, e, k), d.height - k, LeftWay(d, p, e, k, f), path[k..f + 1], pathIndices[k..f + 1], end)
         else
           path[f] in nodes.mem && p[f] <= |nodes.mem[path[f]].subtrees| && nodes.mem[path[f]].subtrees[p[f] - 1].st == end
    }

    /** One level up without repair. */
    method UpLevel(pathindex: nat, ent: Entry, left: Ptr, right: Ptr, topush: Ptr, path: array<Ptr>, pathIndices: array<nat>,
                   ghost d: Tree, ghost p: seq<nat>, ghost e: Entry)
      returns (rv: Ptr)
      requires pathindex < |p| && UpState(d, p, e, pathindex + 1, ent, left, right, topush, path, pathIndices) && stale != pathindex
      modifies this`tree, nodes
      ensures Climbing(d, p, e, pathindex) && path[pathindex] == AddrAt(nodes.mem, root, tree, p[..pathindex])
      ensures Matches(pathIndices, pathindex, p) && pathIndices[pathindex] == p[pathindex]
      ensures OnPath(nodes.mem, root, tree, path[..pathindex], p[..pathindex])
      ensures rv == if Pushed(Climbed(d, p, e, pathindex), d.height - pathindex) then path[pathindex] else NULL
      ensures path[pathindex] in old(nodes.mem) && path[pathindex] != NULL
      ensures SameOn(old(nodes.mem), nodes.mem, old(nodes.mem).Keys - {path[pathindex]})
      ensures InsertedPtrs(nodes.mem, path[pathindex], rv != NULL, old(nodes.mem)[path[pathindex]].subtrees, p[pathindex], left, right)
      ensures path[pathindex] in nodes.mem && nodes.mem[path[pathindex]].dirty
      ensures Tracks(old(nodes.mem), nodes.mem, root, old(tree), tree)
    {
      hide Rep, NoAlias, Foot, OnPath, Shape, Orderly, Climbed, InsertedPtrs, Carried;
      ghost var k := pathindex + 1;
      assert pathIndices[pathindex] == p[pathindex];
      assert path[..k][pathindex] == path[pathindex] && path[..k][..pathindex] == path[..pathindex];
      assert p[..k][..pathindex] == p[..pathindex];
      OnPathAt(nodes.mem, root, tree, path[..k], p[..k], pathindex);
      rv := InsertAtLevel(path[pathindex], pathIndices[pathindex], ent, left, right, d, p, e, k, path[..pathindex]);
    }

    /** The node that the next level up is about to change, in memory. */
    lemma LevelInMemory(d: Tree, p: seq<nat>, e: Entry, k: nat, ent: Entry, left: Ptr, right: Ptr, topush: Ptr,
                        path: array<Ptr>, pathIndices: array<nat>)
      requires k < |p| && UpState(d, p, e, k + 1, ent, left, right, topush, path, pathIndices)
      ensures ValidPath(d, p[..k]) && SubAt(d, p[..k]).Node? && path[k] in nodes.mem
      ensures |nodes.mem[path[k]].subtrees| == |SubAt(d, p[..k]).entries| + 1 && p[k] < |nodes.mem[path[k]].subtrees|
      ensures Pushed(Climbed(d, p, e, k + 1), d.height - (k + 1))
      ensures k + 1 < |p| ==> topush == nodes.mem[path[k]].subtrees[p[k]].st && topush in nodes.mem
                              && |nodes.mem[topush].subtrees| == 2 && Own(nodes.mem, topush, Climbed(d, p, e, k + 1))
                              && left == nodes.mem[topush].subtrees[0].st && right == nodes.mem[topush].subtrees[1].st
                              && path[k] !in Foot(nodes.mem, topush, Climbed(d, p, e, k + 1))
    {
      hide OnPath, Shape, Orderly, Climbed, Foot;
      var m, q := nodes.mem, p[..k];
      assert path[..k + 1][k] == path[k] && p[..k + 1][..k] == q;
      OnPathAt(m, root, tree, path[..k + 1], p[..k + 1], k);
      LevelReady(d, p, e, k + 1, tree);
      LevelNode(d, p, k);
      AddrRep(m, root, tree, q);
      RepNode(m, path[k], SubAt(tree, q));
      ClimbedEnds(d, p, e);
      if k + 1 < |p| {
        PathEnds(m, root, tree, q, p[k]);
        ChildOwn(m, path[k], SubAt(tree, q), p[k]);
        NotBelow(m, path[k], SubAt(tree, q), p[k]);
      }
    }

    /** One level up, with repair of the path arrays. */
    method UpLevelRepaired(pathindex: nat, f: nat, ent: Entry, left: Ptr, right: Ptr, topush: Ptr,
                           path: array<Ptr>, pathIndices: array<nat>, ghost d: Tree, ghost p: seq<nat>, ghost e: Entry, ghost end: Ptr)
      returns (rv: Ptr)
      requires pathindex < |p| && UpState(d, p, e, pathindex + 1, ent, left, right, topush, path, pathIndices) && path != pathIndices
      requires RepairState(d, p, e, pathindex + 1, f, topush, end, path, pathIndices) && stale < 0
      modifies this`tree, nodes, path, pathIndices
      ensures Climbing(d, p, e, pathindex) && old(path[pathindex]) == AddrAt(nodes.mem, root, tree, p[..pathindex])
      ensures Matches(pathIndices, pathindex, p) && OnPath(nodes.mem, root, tree, path[..pathindex], p[..pathindex])
      ensures path[..pathindex] == old(path[..pathindex])
      ensures rv == if Pushed(Climbed(d, p, e, pathindex), d.height - pathindex) then old(path[pathindex]) else NULL
      ensures old(path[pathindex]) != NULL
      ensures RepairState(d, p, e, pathindex, f, old(path[pathindex]), end, path, pathIndices)
      ensures pathindex > f ==> pathIndices[f] == p[f] && path[f] == old(path[f])
      ensures old(path[pathindex]) in nodes.mem && nodes.mem[old(path[pathindex])].dirty
      ensures Tracks(old(nodes.mem), nodes.mem, root, old(tree), tree)
    {
      hide Rep, NoAlias, Foot, OnPath, Shape, Orderly, Climbed, InsertedPtrs, Carried, Suffix, Recorded, LeftWay;
      ghost var node, m0, ns, ix := path[pathindex], nodes.mem, path[..], pathIndices[..];
      LevelInMemory(d, p, e, pathindex, ent, left, right, topush, path, pathIndices);
      if pathindex > f {
        OnPathDistinct(nodes.mem, root, tree, path[..pathindex + 1], p[..pathindex + 1], f, pathindex);
      }
      rv := UpLevel(pathindex, ent, left, right, topush, path, pathIndices, d, p, e);
      PtrsTwo(nodes.mem, node, rv != NULL, m0[node].subtrees, p[pathindex], left, right);
      RepairLevel(pathindex, f, right, rv, path, pathIndices);
      if pathindex <= f {
        LevelRepaired(m0, ns, ix, pathindex, f, left, right, topush, path, pathIndices, d, p, e, end);
      }
    }

    lemma LevelRepaired(m0: Memory, ns: seq<Ptr>, ix: seq<nat>, k: nat, f: nat, left: Ptr, right: Ptr, topush: Ptr,
                        path: array<Ptr>, pathIndices: array<nat>, d: Tree, p: seq<nat>, e: Entry, end: Ptr)
      requires k <= f < |p| <= path.Length == pathIndices.Length == |ns| == |ix| && p[f] > 0 && Climbing(d, p, e, k)
      requires ns[k] == AddrAt(nodes.mem, root, tree, p[..k]) && ns[k] in m0
      requires SameOn(m0, nodes.mem, m0.Keys - {ns[k]})
      requires Pushed(Climbed(d, p, e, k + 1), d.height - (k + 1)) && ValidPath(d, p[..k]) && SubAt(d, p[..k]).Node?
      requires |m0[ns[k]].subtrees| == |SubAt(d, p[..k]).entries| + 1
      requires var full := Pushed(Climbed(d, p, e, k), d.height - k);
               && InsertedPtrs(nodes.mem, ns[k], full, m0[ns[k]].subtrees, p[k], left, right)
               && ns[k] in nodes.mem && (full ==> |nodes.mem[ns[k]].subtrees| == 2)
               && Recorded(nodes.mem, ns[k], full, if k == f then p[k] - 1 else if ns[k + 1] == right then p[k] + 1 else p[k],
                           path[k], pathIndices[k])
      requires path[..] == ns[k := path[k]] && pathIndices[..] == ix[k := pathIndices[k]]
      requires k == f ==> m0[ns[k]].subtrees[p[k] - 1].st == end
      requires k < f ==> topush in m0 && |m0[topush].subtrees| == 2
                         && left == m0[topush].subtrees[0].st && right == m0[topush].subtrees[1].st
                         && Own(m0, topush, Climbed(d, p, e, k + 1)) && ns[k] !in Foot(m0, topush, Climbed(d, p, e, k + 1))
                         && Suffix(m0, topush, Climbed(d, p, e, k + 1), d.height - (k + 1), LeftWay(d, p, e, k + 1, f),
                                   ns[k + 1..f + 1], ix[k + 1..f + 1], end)
      ensures RepairState(d, p, e, k, f, ns[k], end, path, pathIndices)
    {
      hide Rep, NoAlias, Foot, Shape, Orderly, Climbed, InsertedPtrs, Suffix, Recorded, LeftWay;
      var node := ns[k];
      NodeClimbed(d, p, e, k);
      if k == f {
        assert path[f..f + 1] == [path[f]] && pathIndices[f..f + 1] == [pathIndices[f]];
        RepairBase(m0, nodes.mem, node, d, p, e, f, left, right, path[f], pathIndices[f], end);
      } else {
        assert path[k..f + 1] == path[..][k..f + 1] == [path[k]] + ns[k + 1..f + 1];
        assert pathIndices[k..f + 1] == pathIndices[..][k..f + 1] == [pathIndices[k]] + ix[k + 1..f + 1];
        assert ns[k + 1..f + 1][0] == ns[k + 1];
        RepairStep(m0, nodes.mem, topush, node, d, p, e, k, f, ns[k + 1..f + 1], ix[k + 1..f + 1], path[k], pathIndices[k], end);
      }
    }

    lemma NodeClimbed(d: Tree, p: seq<nat>, e: Entry, k: nat)
      requires Climbing(d, p, e, k) && k < |p|
      ensures Own(nodes.mem, AddrAt(nodes.mem, root, tree, p[..k]), Climbed(d, p, e, k))
    {
      PutValid(d, p[..k], Climbed(d, p, e, k));
      AddrRep(nodes.mem, root, tree, p[..k]);
    }

    lemma ClimbStart(p: seq<nat>, e: Entry, path: array<Ptr>, pathIndices: array<nat>)
      requires Valid() && Holds(path, pathIndices, |p|, p) && CanClimb(tree, p, e) && path.Length == pathIndices.Length
      ensures UpState(tree, p, e, |p|, e, NULL, NULL, NULL, path, pathIndices)
    {
      hide Rep, NoAlias, OnPath, Shape, Orderly;
      PutValid(tree, p, Nil);
      assert p[..|p|] == p;
    }

    /** What a split pushed up is carried to the next level. */
    lemma SplitCarried(d: Tree, p: seq<nat>, e: Entry, k: nat, c: Ptr)
      requires Climbing(d, p, e, k) && k < |p| && Pushed(Climbed(d, p, e, k), d.height - k)
      requires c == AddrAt(nodes.mem, root, tree, p[..k])
      ensures c in nodes.mem && |nodes.mem[c].entries| == 1 && |nodes.mem[c].subtrees| == 2
      ensures Carried(d, p, e, k, nodes.mem[c].entries[0], nodes.mem[c].subtrees[0].st, nodes.mem[c].subtrees[1].st)
    {
      hide NoAlias, Foot, Shape, Orderly, Climbed;
      NodeClimbed(d, p, e, k);
      RepNode(nodes.mem, c, Climbed(d, p, e, k));
    }

    /** Nothing comes up any more, or there is no level left: the insertion is done. */
    lemma ClimbStops(d: Tree, p: seq<nat>, e: Entry, k: nat)
      requires Climbing(d, p, e, k) && k < |p| && (k == 0 || !Pushed(Climbed(d, p, e, k), d.height - k))
      ensures Valid() && tree == Up(d, p, Fresh(e))
      ensures k == 0 ==> tree == Climbed(d, p, e, 0) && AddrAt(nodes.mem, root, tree, p[..0]) == root
    {
      hide Rep, NoAlias, Orderly, Up, Absorb, Climbed, Shape;
      ClimbDone(d, p, e, k);
      ClimbedEnds(d, p, e);
      ClimbedShape(d, p, e);
    }

    /** The way to the left continuation when the climb stops at level k. */
    lemma WayAtStop(path: array<Ptr>, pathIndices: array<nat>, d: Tree, p: seq<nat>, e: Entry, k: nat, f: nat, end: Ptr)
      requires path.Length == pathIndices.Length && k < |p| <= path.Length && f < |p| && p[f] > 0
      requires Climbing(d, p, e, k) && !Pushed(Climbed(d, p, e, k), d.height - k)
      requires OnPath(nodes.mem, root, tree, path[..k], p[..k])
      requires forall j :: 0 <= j < k ==> pathIndices[j] == if j == f then p[f] - 1 else p[j]
      requires RepairState(d, p, e, k, f, AddrAt(nodes.mem, root, tree, p[..k]), end, path, pathIndices)
      ensures pathIndices[..f + 1] == LeftWay(d, p, e, 0, f)
      ensures PathTo(nodes.mem, root, tree, path[..f + 1], pathIndices[..f + 1], end)
    {
      hide Rep, NoAlias, OnPath, Shape, Orderly, Climbed, Suffix, LeftWay, PathTo;
      assert pathIndices[..k] == if f < k then p[..k][f := p[f] - 1] else p[..k];
      if k <= f {
        FinishRepaired(nodes.mem, root, tree, d, p, e, k, f, path[..k], path[k..f + 1], pathIndices[k..f + 1], end);
        assert path[..f + 1] == path[..k] + path[k..f + 1] && pathIndices[..f + 1] == pathIndices[..k] + pathIndices[k..f + 1];
      } else {
        FinishBelow(d, p, e, k, f);
        LeftSlot(nodes.mem, root, tree, path[..k], p[..k], f, end);
        assert path[..k][..f + 1] == path[..f + 1] && p[..k][..f] == p[..f];
        assert pathIndices[..f + 1] == pathIndices[..k][..f + 1] == p[..f] + [p[f] - 1];
      }
    }

    /** The climb stops at level pathindex: if it did not get up to the shared part of the path, the last
        shared index is still to be decremented. */
    method FinishPath(pathindex: nat, f: nat, path: array<Ptr>, pathIndices: array<nat>,
                      ghost d: Tree, ghost p: seq<nat>, ghost e: Entry, ghost end: Ptr)
      requires path != pathIndices && path.Length == pathIndices.Length && pathindex < |p| <= path.Length && f < |p| && p[f] > 0
      requires Climbing(d, p, e, pathindex) && !Pushed(Climbed(d, p, e, pathindex), d.height - pathindex) && stale < 0
      requires OnPath(nodes.mem, root, tree, path[..pathindex], p[..pathindex]) && Matches(pathIndices, pathindex, p)
      requires RepairState(d, p, e, pathindex, f, AddrAt(nodes.mem, root, tree, p[..pathindex]), end, path, pathIndices)
      modifies pathIndices
      ensures pathIndices[..f + 1] == LeftWay(d, p, e, 0, f)
      ensures PathTo(nodes.mem, root, tree, path[..f + 1], pathIndices[..f + 1], end)
    {
      hide Rep, NoAlias, OnPath, Shape, Orderly, Climbed, Suffix, LeftWay, PathTo;
      if pathindex > f {
        pathIndices[f] := pathIndices[f] - 1;
      }
      WayAtStop(path, pathIndices, d, p, e, pathindex, f, end);
    }

    lemma SuffixAtRoot(d: Tree, p: seq<nat>, e: Entry, f: nat, topush: Ptr, path: array<Ptr>, pathIndices: array<nat>, end: Ptr)
      requires d.Node? && ValidPath(d, p) && f < |p| && RepairState(d, p, e, 0, f, topush, end, path, pathIndices)
      ensures p[f] > 0 && f < path.Length == pathIndices.Length
      ensures Suffix(nodes.mem, topush, Climbed(d, p, e, 0), d.height, LeftWay(d, p, e, 0, f), path[..f + 1], pathIndices[..f + 1], end)
    {
      hide Suffix, Climbed, LeftWay;
      assert path[0..f + 1] == path[..f + 1] && pathIndices[0..f + 1] == pathIndices[..f + 1];
    }

    /** The path arrays after the root was split: the new root comes in front. */
    method PushRoot(topush: Ptr, len: nat, path: array<Ptr>, pathIndices: array<nat>,
                    ghost d: Tree, ghost p: seq<nat>, ghost e: Entry, ghost f: nat, ghost end: Ptr)
      requires path != pathIndices && path.Length == pathIndices.Length && 0 < len == |p| < path.Length
      requires CanClimb(d, p, e) && f < |p| && p[f] > 0 && Pushed(Climbed(d, p, e, 0), d.height)
      requires Suffix(nodes.mem, topush, Climbed(d, p, e, 0), d.height, LeftWay(d, p, e, 0, f), path[..f + 1], pathIndices[..f + 1], end)
      modifies path, pathIndices
      ensures pathIndices[..f + 2] == LeftWay(d, p, e, 0, f)
      ensures PathTo(nodes.mem, topush, Climbed(d, p, e, 0), path[..f + 2], pathIndices[..f + 2], end)
    {
      hide Rep, NoAlias, OnPath, Shape, Orderly, Climbed, Suffix, LeftWay, PathTo;
      FinishRoot(nodes.mem, topush, d, p, e, f, path[..f + 1], pathIndices[..f + 1], end);
      ghost var ns, ix := path[..], pathIndices[..];
      var nextpathmember := path[0];
      forall i | 0 <= i < len { pathIndices[i + 1] := pathIndices[i]; }
      if nextpathmember == nodes.mem[topush].subtrees[1].st {
        pathIndices[0] := 1;
      } else {
        assert nextpathmember == nodes.mem[topush].subtrees[0].st;
        pathIndices[0] := 0;
      }
      forall i | 0 <= i < len { path[i + 1] := path[i]; }
      path[0] := topush;
      InFront(ns, path[..], f + 1);
      InFront(ix, pathIndices[..], f + 1);
      assert path[..][..f + 2] == path[..f + 2] && pathIndices[..][..f + 2] == pathIndices[..f + 2];
    }

    /** One level up. */
    method UpOne(pathindex: nat, rightContinuation: bool, f: int, ent: Entry, left: Ptr, right: Ptr, topush: Ptr,
                 path: array<Ptr>, pathIndices: array<nat>, ghost d: Tree, ghost p: seq<nat>, ghost e: Entry, ghost end: Ptr)
      returns (rv: Ptr)
      requires pathindex < |p| && UpState(d, p, e, pathindex + 1, ent, left, right, topush, path, pathIndices) && path != pathIndices
      requires stale != pathindex
      requires rightContinuation ==> 0 <= f && stale < 0 && RepairState(d, p, e, pathindex + 1, f, topush, end, path, pathIndices)
      modifies this`tree, nodes, path, pathIndices
      ensures Climbing(d, p, e, pathindex) && old(path[pathindex]) == AddrAt(nodes.mem, root, tree, p[..pathindex])
      ensures Matches(pathIndices, pathindex, p) && OnPath(nodes.mem, root, tree, path[..pathindex], p[..pathindex])
      ensures path[..pathindex] == old(path[..pathindex])
      ensures rv == if Pushed(Climbed(d, p, e, pathindex), d.height - pathindex) then old(path[pathindex]) else NULL
      ensures old(path[pathindex]) != NULL
      ensures rightContinuation ==>
                && RepairState(d, p, e, pathindex, f, old(path[pathindex]), end, path, pathIndices)
                && (pathindex > f ==> pathIndices[f] == p[f] && path[f] == old(path[f]))
      ensures old(path[pathindex]) in nodes.mem && nodes.mem[old(path[pathindex])].dirty
      ensures Tracks(old(nodes.mem), nodes.mem, root, old(tree), tree)
    {
      hide Tracks, Rep, NoAlias, Foot, OnPath, Shape, Orderly, Climbed, InsertedPtrs, Carried, Suffix, LeftWay, Pushed, RepairState, Matches;
      if rightContinuation {
        rv := UpLevelRepaired(pathindex, f, ent, left, right, topush, path, pathIndices, d, p, e, end);
      } else {
        rv := UpLevel(pathindex, ent, left, right, topush, path, pathIndices, d, p, e);
      }
    }

    /** The second part of _ft_insert: the entry goes into the leaf, splits are carried up. For a
        right continuation, the arrays then hold the way to the left one. */
    method ClimbUp(entry: Entry, path: array<Ptr>, pathIndices: array<nat>, len: nat, rightContinuation: bool, f: int,
                   ghost p: seq<nat>, ghost end: Ptr)
      returns (newLen: nat)
      requires Valid() && Holds(path, pathIndices, len, p) && len == |p| && CanClimb(tree, p, entry)
      requires path != pathIndices && path.Length == pathIndices.Length
      requires rightContinuation ==> 0 <= f < len < path.Length && p[f] > 0 && RepairState(tree, p, entry, len, f, NULL, end, path, pathIndices)
      requires stale < 0 || (!rightContinuation && stale < len && !Pushed(Climbed(tree, p, entry, stale + 1), tree.height - (stale + 1)))
      modifies this`tree, this`root, nodes, path, pathIndices
      ensures Valid() && tree == Up(old(tree), p, Fresh(entry))
      ensures rightContinuation ==>
                && newLen <= path.Length && pathIndices[..newLen] == LeftWay(old(tree), p, entry, 0, f)
                && PathTo(nodes.mem, root, tree, path[..newLen], pathIndices[..newLen], end)
      ensures root == old(root) && old(path[len - 1]) in nodes.mem && nodes.mem[old(path[len - 1])].dirty
      ensures Tracks(old(nodes.mem), nodes.mem, root, old(tree), tree)
    {
      hide Rep, NoAlias, Foot, OnPath, Shape, Orderly, Climbed, Suffix, LeftWay, PathTo, Carried, InsertedPtrs, Tracks, RepairState;
      ghost var d := tree;
      var topush, left, right, ent := NULL, NULL, NULL, entry;
      ClimbStart(p, entry, path, pathIndices);
      ClimbedEnds(d, p, entry);
      TracksSame(nodes.mem, root, tree);
      var pathindex := len - 1;
      newLen := len;
      while pathindex >= 0
        invariant -1 <= pathindex < len
        invariant UpState(d, p, entry, pathindex + 1, ent, left, right, topush, path, pathIndices)
        invariant stale <= pathindex && Pushed(Climbed(d, p, entry, pathindex + 1), d.height - (pathindex + 1))
        invariant rightContinuation ==> RepairState(d, p, entry, pathindex + 1, f, topush, end, path, pathIndices)
        invariant pathindex == len - 1 ==> path[len - 1] == old(path[len - 1])
        invariant root == old(root)
        invariant pathindex < len - 1 ==> old(path[len - 1]) in nodes.mem && nodes.mem[old(path[len - 1])].dirty
        invariant Tracks(old(nodes.mem), nodes.mem, root, d, tree)
      {
        ghost var m1, t1 := nodes.mem, tree;
        topush := UpOne(pathindex, rightContinuation, f, ent, left, right, topush, path, pathIndices, d, p, entry, end);
        TracksTransitive(old(nodes.mem), m1, nodes.mem, root, d, t1, tree);
        if old(path[len - 1]) in m1 && m1[old(path[len - 1])].dirty {
          StaysDirty(m1, nodes.mem, root, t1, tree, old(path[len - 1]));
        }
        if topush == NULL {
          ClimbStops(d, p, entry, pathindex);
          if rightContinuation {
            FinishPath(pathindex, f, path, pathIndices, d, p, entry, end);
            newLen := f + 1;
          }
          return;
        }
        SplitCarried(d, p, entry, pathindex, topush);
        ent := nodes.mem[topush].entries[0];
        left := nodes.mem[topush].subtrees[0].st;
        right := nodes.mem[topush].subtrees[1].st;
        pathindex := pathindex - 1;
      }
      ClimbStops(d, p, entry, 0);
      root := topush;
      if rightContinuation {
        SuffixAtRoot(d, p, entry, f, topush, path, pathIndices, end);
        PushRoot(topush, len, path, pathIndices, d, p, entry, f, end);
        newLen := f + 2;
      }
    }

    lemma StoppedTree(ic: InsertCont, goal: Insertion)
      requires Valid() && Stopped(ic, goal)
      ensures tree == goal.tree && (ic == NO_CONT <==> goal.conts == NO_CONTS)
    {
    }

    /** The path arrays hold the path q, which leads to the pointer `end`. */
    ghost predicate Way(path: array<Ptr>, pathIndices: array<nat>, len: nat, q: seq<nat>, end: Ptr)
      reads this, nodes, path, pathIndices
    {
      && Valid() && len == |q| && Holds(path, pathIndices, len, q)
      && ValidPath(tree, q) && AddrAt(nodes.mem, root, tree, q) == end
    }

    /** What a right continuation that starts at p0 needs so that it can repair the path. */
    ghost predicate Branches(args: InsertArgs, p0: seq<nat>, q: seq<nat>, end: Ptr)
      reads this, nodes
    {
      && Valid() && stale < 0 && p0 != [] && p0[|p0| - 1] > 0
      && ValidPath(tree, p0) && ValidPath(tree, LeftSibling(p0)) && end == AddrAt(nodes.mem, root, tree, LeftSibling(p0))
      && Repairs(width, tree, p0, args.valid, Entry(args.range, args.value), q)
    }

    /** The path arrays still lead to where the right continuation started; `end` is to the left
        of that place. */
    ghost predicate Unrepaired(path: array<Ptr>, pathIndices: array<nat>, len: nat, p0: seq<nat>, end: Ptr)
      reads this, nodes, path, pathIndices
    {
      Valid() && Holds(path, pathIndices, len, p0) && ValidPath(tree, p0) && SlotIs(nodes.mem, path[..len], p0, end)
    }

    /** _ft_insert. After a main insertion, `ic` holds the continuations, and if there are any,
        the path arrays the way to the right one, or to the left one if there is no right one.
        After a right continuation, they hold the repaired way to the left one, or, if it has
        overwritten entries, still the way to the right one. In the latter case the left
        continuation must not carry anything up to there. */
    method FtInsert(args: InsertArgs, path: array<Ptr>, pathIndices: array<nat>, pathLen: nat, rightContinuation: bool,
                    ghost p0: seq<nat>, ghost goal: Insertion, ghost q: seq<nat>, ghost end: Ptr)
      returns (ic: InsertCont, len: nat)
      requires AtPlace(path, pathIndices, pathLen, p0, args.at)
      requires Heading(width, tree, p0, args.valid, Entry(args.range, args.value), goal)
      requires path != pathIndices && path.Length == pathIndices.Length && path.Length > tree.height
      requires rightContinuation ==> path.Length > tree.height + 1 && Branches(args, p0, q, end)
      requires stale < 0 || (stale == |p0| - 1 && StaysBelow(width, tree, p0, args.valid, Entry(args.range, args.value)))
      modifies this`tree, this`root, nodes, path, pathIndices
      ensures Valid() && tree == goal.tree
      ensures ic == NO_CONT || (Stopped(ic, goal) && tree.height == old(tree).height)
      ensures ic == NO_CONT <==> goal.conts == NO_CONTS
      ensures !rightContinuation && ic != NO_CONT ==> len == |goal.path| && Holds(path, pathIndices, len, goal.path)
      ensures rightContinuation ==>
                if WillStop(old(tree), p0, args.valid, Entry(args.range, args.value)) then Unrepaired(path, pathIndices, len, p0, end)
                else Way(path, pathIndices, len, q, end)
      ensures root == old(root) && (|p0| == old(tree).height ==> args.at in nodes.mem && nodes.mem[args.at].dirty)
      ensures Tracks(old(nodes.mem), nodes.mem, root, old(tree), tree)
    {
      hide Rep, NoAlias, Foot, OnPath, Shape, Orderly, Heading, Stopped, KeptAbove, LeftWay, Tracks, AllKept, CanClimb, Repairs,
        Climbed, WillStop, StaysBelow;
      var finalsharedindex := pathLen - 1;
      ghost var t0, ns := tree, if pathLen <= path.Length then path[..pathLen] else [];
      var atLeaf: bool;
      ghost var p: seq<nat>;
      if rightContinuation {
        BranchSlot(args, path, pathIndices, p0, q, end);
      }
      ghost var m0 := nodes.mem;
      len, atLeaf, ic, p := Descend(args, path, pathIndices, pathLen, p0, goal);
      ghost var m1 := nodes.mem;
      if rightContinuation {
        SlotLater(m0, nodes.mem, ns, path[finalsharedindex], p0, end);
      }
      if !atLeaf {
        StoppedTree(ic, goal);
        if rightContinuation {
          KeptSlot(path, pathIndices, len, t0, p0, p, end);
          len := finalsharedindex + 1;
        }
        return;
      }
      ghost var d := tree;
      var entry := Entry(args.range, args.value);
      ClimbLength(d, p, entry);
      if rightContinuation {
        WayRepaired(width, t0, d, p0, p, args.valid, entry, goal, q);
      }
      if stale >= 0 {
        BelowStays(width, t0, d, p0, p, args.valid, entry, goal);
      }
      len := ClimbUp(entry, path, pathIndices, len, rightContinuation, finalsharedindex, p, end);
      TracksTransitive(m0, m1, nodes.mem, root, t0, d, tree);
      if rightContinuation {
        WayHeld(path, pathIndices, len, q, end);
      }
    }

    lemma KeptSlot(path: array<Ptr>, pathIndices: array<nat>, len: nat, t0: Tree, p0: seq<nat>, p: seq<nat>, end: Ptr)
      requires Valid() && Holds(path, pathIndices, len, p) && p0 != [] && p0 <= p && KeptAbove(t0, tree, p0)
      requires path[|p0| - 1] in nodes.mem && p0[|p0| - 1] <= |nodes.mem[path[|p0| - 1]].subtrees| && p0[|p0| - 1] > 0
      requires nodes.mem[path[|p0| - 1]].subtrees[p0[|p0| - 1] - 1].st == end
      ensures Unrepaired(path, pathIndices, |p0|, p0, end)
    {
      hide Rep, NoAlias, Foot, OnPath, Shape;
      var n := |p0|;
      OnPathDefined(path[..len], p);
      OnPathSplit(nodes.mem, root, tree, path[..len], p, n);
      assert path[..len][..n] == path[..n] && p[..n] == p0;
      assert path[..n][n - 1] == path[n - 1];
    }

    lemma OnPathDefined(ns: seq<Ptr>, p: seq<nat>)
      requires Valid() && OnPath(nodes.mem, root, tree, ns, p)
      ensures |ns| == |p|
    {
    }

    lemma BranchSlot(args: InsertArgs, path: array<Ptr>, pathIndices: array<nat>, p0: seq<nat>, q: seq<nat>, end: Ptr)
      requires Branches(args, p0, q, end) && Holds(path, pathIndices, |p0|, p0) && ValidPath(tree, p0)
      ensures |p0| <= path.Length && SlotIs(nodes.mem, path[..|p0|], p0, end)
    {
      hide Rep, NoAlias, Foot, OnPath, Repairs, Shape, AddrAt;
      StartKept(path, pathIndices, |p0|, p0);
      LeftBranch(nodes.mem, root, tree, path[..|p0|], p0, |p0| - 1);
    }

    lemma WayHeld(path: array<Ptr>, pathIndices: array<nat>, len: nat, q: seq<nat>, end: Ptr)
      requires Valid() && len <= path.Length == pathIndices.Length && pathIndices[..len] == q
      requires PathTo(nodes.mem, root, tree, path[..len], pathIndices[..len], end)
      ensures Way(path, pathIndices, len, q, end)
    {
    }

    /** The path arrays lead to the place where the right continuation c has to start, `at`; on
        the left of that place is `end`. */
    ghost predicate RightPlace(path: array<Ptr>, pathIndices: array<nat>, len: nat, m: Insertion, c: Cont, at: Ptr, end: Ptr)
      reads this, nodes, path, pathIndices
    {
      && Way(path, pathIndices, len, m.path, at) && m.path != [] && m.path[|m.path| - 1] > 0
      && ValidPath(tree, LeftSibling(m.path)) && end == AddrAt(nodes.mem, root, tree, LeftSibling(m.path))
    }

    /** The right continuation. */
    method ContinueRight(args: InsertArgs, path: array<Ptr>, pathIndices: array<nat>, pathLen: nat,
                         ghost m: Insertion, ghost c: Cont, ghost end: Ptr) returns (len: nat)
      requires m.tree == tree && m.conts.right == Some(c) && Cont(args.range, args.value, args.valid) == c && stale < 0
      requires RightPlace(path, pathIndices, pathLen, m, c, args.at, end) && Goes(width, tree, m.path, c)
      requires path != pathIndices && path.Length == pathIndices.Length && path.Length > tree.height + 1
      modifies this`tree, this`root, nodes, path, pathIndices
      ensures Ready(old(tree), old(tree).height, m.path, c) && Valid()
      ensures tree == Continued(width, old(tree), old(tree).height, m.path, c)
      ensures if WillStop(old(tree), m.path, c.valid, PieceOf(c)) then Unrepaired(path, pathIndices, len, m.path, end)
              else Way(path, pathIndices, len, LeftPath(old(tree), m.path, Piece(width, old(tree), old(tree).height, m.path, c)), end)
      ensures root == old(root)
      ensures Tracks(old(nodes.mem), nodes.mem, root, old(tree), tree)
    {
      hide Tracks, Rep, NoAlias, OnPath, Shape, Orderly, Heading, Ready, Ins, LeftPath, Up, Stopped, Goes, WillStop;
      ContHeading(width, tree, m.path, c);
      ghost var q := LeftPath(tree, m.path, Piece(width, tree, tree.height, m.path, c));
      ContRepairs(width, tree, m.path, c, q);
      var ic: InsertCont;
      ic, len := FtInsert(args, path, pathIndices, pathLen, true, m.path, ContGoal(width, tree, m.path, c), q, end);
      assert ic == NO_CONT;
    }

    /** The left continuation. */
    method ContinueLeft(args: InsertArgs, path: array<Ptr>, pathIndices: array<nat>, pathLen: nat, ghost p: seq<nat>, ghost c: Cont)
      requires Valid() && AtPlace(path, pathIndices, pathLen, p, args.at) && Cont(args.range, args.value, args.valid) == c
      requires Goes(width, tree, p, c) && (stale < 0 || (stale == |p| - 1 && StaysBelow(width, tree, p, c.valid, PieceOf(c))))
      requires path != pathIndices && path.Length == pathIndices.Length && path.Length > tree.height
      modifies this`tree, this`root, nodes, path, pathIndices
      ensures Ready(old(tree), old(tree).height, p, c) && Valid() && tree == Continued(width, old(tree), old(tree).height, p, c)
      ensures root == old(root)
      ensures Tracks(old(nodes.mem), nodes.mem, root, old(tree), tree)
    {
      hide Tracks, Rep, NoAlias, OnPath, Shape, Orderly, Heading, Ready, Ins, LeftPath, Up, Stopped, Branches, Goes, StaysBelow;
      ContHeading(width, tree, p, c);
      var ic, len := FtInsert(args, path, pathIndices, pathLen, false, p, ContGoal(width, tree, p, c), [], NULL);
      assert ic == NO_CONT;
    }

    /** ft_write. Whenever a write can end well, this is how it ends. */
    method FtWrite(start: int, end: int, value: int)
      requires Valid() && CanEnd(width, tree, Entry(Span(start, end), value))
      modifies this, nodes
      ensures Valid() && Ends(width, old(tree), old(tree).height, Entry(Span(start, end), value), tree)
      ensures root == old(root) && (old(tree).height == 0 ==> root in nodes.mem && nodes.mem[root].dirty)
      ensures Tracks(old(nodes.mem), nodes.mem, root, old(tree), tree)
    {
      hide Rep, NoAlias, OnPath, Shape, Orderly, Heading, Owes, Ready, Ins, LeftPath, Up, Stopped, Holds, Tracks, Branches,
        CanEnd, Ends, Goes, StaysBelow, WillStop, RightPlace, Unrepaired, LeftStarts, LeftCanEnd;
      ghost var t0, h, e := tree, tree.height, Entry(Span(start, end), value);
      ghost var t' := EndOfWrite(width, t0, e);
      stale := -1;
      RootNode();
      var maxdepth := nodes.mem[root].height + 2;
      var path := new Ptr[maxdepth];
      var pathIndices := new nat[maxdepth];
      StartAtRoot(path, pathIndices);
      ghost var m := MainStarts(width, t0, e);
      var iargs := InsertArgs(Span(start, end), value, root, Span(BYTE_INDEX_MIN, BYTE_INDEX_MAX));
      var starinserts, pathLen := FtInsert(iargs, path, pathIndices, 0, false, [], m, [], NULL);
      ghost var m0, m1 := old(nodes.mem), nodes.mem;
      ghost var to := StarPlaces(starinserts, path, pathIndices, pathLen, t0, m, e);
      ghost var arrays, place := m.path, m.path;
      if starinserts.rightc.Some? {
        ghost var c := m.conts.right.value;
        RightGoes(width, t0, e, t', m);
        pathLen := ContinueRight(starinserts.rightc.value, path, pathIndices, pathLen, m, c, to);
        TracksTransitive(m0, m1, nodes.mem, root, t0, m.tree, tree);
        if h == 0 {
          StaysDirty(m1, nodes.mem, root, m.tree, tree, root);
        }
        RightLeaves(width, t0, e, m, c);
        if WillStop(m.tree, m.path, c.valid, PieceOf(c)) {
          place := LeftSibling(m.path);
          StillThere(path, pathIndices, pathLen, m.path, to);
          stale := |m.path| - 1;
          StalePlace(path, pathIndices, pathLen, m.path, to);
        } else {
          arrays := LeftPath(m.tree, m.path, Piece(width, m.tree, h, m.path, c));
          place := arrays;
        }
      } else {
        RightLeavesAlone(width, t0, e, m);
      }
      LeftGoes(width, t0, e, t', tree, arrays, place);
      if starinserts.leftc.Some? {
        ghost var m2, t2 := nodes.mem, tree;
        ContinueLeft(starinserts.leftc.value, path, pathIndices, pathLen, place, m.conts.left.value);
        TracksTransitive(m0, m2, nodes.mem, root, t0, t2, tree);
        if h == 0 {
          StaysDirty(m2, nodes.mem, root, t2, tree, root);
        }
      }
    }

    /** After a right continuation that has overwritten entries, the last index is stale; the nodes
        on the path are those on the way to the left continuation. */
    lemma StalePlace(path: array<Ptr>, pathIndices: array<nat>, len: nat, p0: seq<nat>, end: Ptr)
      requires Valid() && stale == |p0| - 1 && len == |p0| <= path.Length && |p0| <= pathIndices.Length && p0 != [] && p0[|p0| - 1] > 0
      requires forall k :: 0 <= k < |p0| - 1 ==> pathIndices[k] == p0[k]
      requires OnPath(nodes.mem, root, tree, path[..len], p0) && ValidPath(tree, p0) && SlotIs(nodes.mem, path[..len], p0, end)
      ensures AtPlace(path, pathIndices, len, LeftSibling(p0), end)
    {
      hide Rep, NoAlias, Foot, OnPath, Shape;
      SiblingValid(tree, p0);
      LeftBranch(nodes.mem, root, tree, path[..len], p0, |p0| - 1);
      OnPathSibling(nodes.mem, root, tree, path[..len], p0);
    }

    lemma StillThere(path: array<Ptr>, pathIndices: array<nat>, len: nat, p0: seq<nat>, end: Ptr)
      requires Unrepaired(path, pathIndices, len, p0, end) && stale < 0
      ensures Valid() && len == |p0| <= path.Length && |p0| <= pathIndices.Length
      ensures forall k :: 0 <= k < |p0| ==> pathIndices[k] == p0[k]
      ensures OnPath(nodes.mem, root, tree, path[..len], p0) && ValidPath(tree, p0) && SlotIs(nodes.mem, path[..len], p0, end)
    {
      hide Rep, NoAlias, OnPath, Shape;
    }

    lemma RootNode()
      requires Valid()
      ensures root in nodes.mem && nodes.mem[root].height == tree.height >= 0
    {
    }

    lemma StartAtRoot(path: array<Ptr>, pathIndices: array<nat>)
      requires Valid()
      ensures AtPlace(path, pathIndices, 0, [], root)
    {
    }

    /** Where the continuations have to start. */
    lemma StarPlaces(ic: InsertCont, path: array<Ptr>, pathIndices: array<nat>, pathLen: nat, t0: Tree, m: Insertion, e: Entry) returns (to: Ptr)
      requires Valid() && t0.Node? && Shape(t0, t0.height) && Proper(e.range) && m == Ins(width, t0, t0.height, FULL, e) && tree == m.tree
      requires ic == NO_CONT || (Stopped(ic, m) && tree.height == t0.height && pathLen == |m.path| && Holds(path, pathIndices, pathLen, m.path))
      requires ic == NO_CONT ==> m.conts == NO_CONTS
      ensures SameCont(ic.leftc, m.conts.left) && SameCont(ic.rightc, m.conts.right)
      ensures ic != NO_CONT ==> tree.height == t0.height
      ensures ic.rightc.Some? ==> RightPlace(path, pathIndices, pathLen, m, m.conts.right.value, ic.rightc.value.at, to)
      ensures ic.rightc.Some? && ic.leftc.Some? ==> to == ic.leftc.value.at
      ensures ic.rightc.None? && ic.leftc.Some? ==> AtPlace(path, pathIndices, pathLen, m.path, ic.leftc.value.at)
    {
      hide Rep, NoAlias, OnPath, Shape, Orderly, Owes, Ins, Fits;
      to := NULL;
      MainShape(width, t0, t0.height, FULL, e);
      if ic.rightc.Some? {
        SiblingValid(tree, m.path);
        to := AddrAt(nodes.mem, root, tree, LeftSibling(m.path));
      }
    }
  }

  /** The first n elements moved up by one. */
  lemma InFront<T>(a: seq<T>, b: seq<T>, n: nat)
    requires n < |b| && n <= |a| && forall i :: 0 <= i < n ==> b[i + 1] == a[i]
    ensures b[..n + 1] == [b[0]] + a[..n]
  {
    forall i | 0 <= i < n + 1
      ensures b[..n + 1][i] == ([b[0]] + a[..n])[i]
    {
      assert i > 0 ==> b[(i - 1) + 1] == a[i - 1];
    }
  }

  /** The tree t' is t with the node at the end of p overwritten. */
  ghost predicate Overwrites(w: Width, t: Tree, p: seq<nat>, valid: Interval, e: Entry, t': Tree, k: nat, ic: InsertCont) {
    && ValidPath(t, p) && SubAt(t, p).Node? && |SubAt(t, p).subs| == |SubAt(t, p).entries| + 1
    && var i, j := Below(SubAt(t, p).entries, e.range.left), Upto(SubAt(t, p).entries, e.range.right);
    && i < j
    && var o := Overwrite(w, SubAt(t, p), valid, e, i, j);
    && t' == PutAt(t, p, o.tree) && [k] == o.path
    && SameCont(ic.leftc, o.conts.left) && SameCont(ic.rightc, o.conts.right)
  }

  /** The two subtrees of a node with one entry. */
  lemma HalvesOf(m: Memory, c: Ptr, t: Tree)
    requires Own(m, c, t) && t.Node? && |t.subs| == 2
    ensures c in m && |m[c].subtrees| == 2
    ensures var l, r := m[c].subtrees[0].st, m[c].subtrees[1].st;
            && Own(m, l, t.subs[0]) && Own(m, r, t.subs[1]) && Foot(m, l, t.subs[0]) !! Foot(m, r, t.subs[1])
            && Foot(m, l, t.subs[0]) <= Foot(m, c, t) && Foot(m, r, t.subs[1]) <= Foot(m, c, t)
  {
    FootSub(m, c, t, 0);
    FootSub(m, c, t, 1);
    SubsApart(m, c, t, 0, 1);
  }

  lemma HeadingReady(w: Width, t: Tree, p: seq<nat>, valid: Interval, e: Entry, goal: Insertion)
    requires Heading(w, t, p, valid, e, goal)
    ensures t.Node? && Shape(t, t.height) && ValidPath(t, p) && Shape(SubAt(t, p), t.height - |p|)
    ensures ProperOrEmpty(valid) && Proper(e.range)
  {
  }

  lemma ClimbedShape(d: Tree, p: seq<nat>, e: Entry)
    requires CanClimb(d, p, e)
    ensures Climbed(d, p, e, 0).Node? && Shape(Climbed(d, p, e, 0), Climbed(d, p, e, 0).height)
  {
    hide Climbed, Orderly;
    ClimbedFits(d, p, e, 0);
  }

  /** The last node of ns, at the slot before the last step of p0, points to `end`. */
  ghost predicate SlotIs(m: Memory, ns: seq<Ptr>, p0: seq<nat>, end: Ptr) {
    && p0 != [] && |ns| == |p0| && p0[|p0| - 1] > 0 && ns[|p0| - 1] in m
    && p0[|p0| - 1] <= |m[ns[|p0| - 1]].subtrees| && m[ns[|p0| - 1]].subtrees[p0[|p0| - 1] - 1].st == end
  }

  lemma SlotLater(m: Memory, m': Memory, ns: seq<Ptr>, last: Ptr, p0: seq<nat>, end: Ptr)
    requires SlotIs(m, ns, p0, end) && AllKept(m, m', ns) && last == ns[|ns| - 1]
    ensures last in m' && p0[|p0| - 1] <= |m'[last].subtrees| && m'[last].subtrees[p0[|p0| - 1] - 1].st == end
  {
  }

  lemma ClimbLength(d: Tree, p: seq<nat>, e: Entry)
    requires CanClimb(d, p, e)
    ensures d.Node? && |p| == d.height + 1
  {
  }

  /** After the insertion below p0, q leads to the subtree that was on its left. */
  ghost predicate Repairs(w: Width, t0: Tree, p0: seq<nat>, valid: Interval, e: Entry, q: seq<nat>) {
    && t0.Node? && ValidPath(t0, p0) && Shape(SubAt(t0, p0), t0.height - |p0|) && ProperOrEmpty(valid) && Proper(e.range)
    && p0 != [] && p0[|p0| - 1] > 0
    && q == LeftPath(t0, p0, Ins(w, SubAt(t0, p0), t0.height - |p0|, valid, e).tree)
  }

  /** What comes up to the place where an insertion started is what the insertion makes of it. */
  lemma ClimbedIs(w: Width, t0: Tree, d: Tree, p0: seq<nat>, p: seq<nat>, valid: Interval, e: Entry, goal: Insertion)
    requires Heading(w, t0, p0, valid, e, goal) && KeptAbove(t0, d, p0) && p0 <= p && d.Node? && d.height == t0.height
    requires CanClimb(d, p, e) && goal == Insertion(Up(d, p, Fresh(e)), p, NO_CONTS)
    ensures ValidPath(t0, p0) && Climbed(d, p, e, |p0|) == Ins(w, SubAt(t0, p0), t0.height - |p0|, valid, e).tree
  {
    hide Ins, Absorb, Up, Orderly;
    var k, c := |p0|, Ins(w, SubAt(t0, p0), t0.height - |p0|, valid, e).tree;
    PathParts(d, p, k);
    assert p[..k] == p0 && p == p0 + p[k..];
    UpAppend(d, p0, p[k..], Fresh(e));
    UpPut(t0, p0, SubAt(d, p0), Climbed(d, p, e, k));
    InsLevel(w, SubAt(t0, p0), t0.height - k, valid, e);
    ClimbedLevel(d, p, e, k);
    UpInjective(t0, t0.height, p0, c, Climbed(d, p, e, k));
  }

  /** The repaired way is the one that LeftPath gives. */
  lemma WayRepaired(w: Width, t0: Tree, d: Tree, p0: seq<nat>, p: seq<nat>, valid: Interval, e: Entry, goal: Insertion, q: seq<nat>)
    requires Heading(w, t0, p0, valid, e, goal) && KeptAbove(t0, d, p0) && p0 <= p && d.Node? && d.height == t0.height
    requires CanClimb(d, p, e) && goal == Insertion(Up(d, p, Fresh(e)), p, NO_CONTS)
    requires p0 != [] && p0[|p0| - 1] > 0 && Repairs(w, t0, p0, valid, e, q)
    ensures ValidPath(d, p) && q == LeftWay(d, p, e, 0, |p0| - 1)
  {
    hide Ins, Absorb, Up, LeftPath, Orderly, Climbed;
    var k, c := |p0|, Ins(w, SubAt(t0, p0), t0.height - |p0|, valid, e).tree;
    ClimbedIs(w, t0, d, p0, p, valid, e, goal);
    WayParts(d, p, 0, k - 1);
    PathParts(d, p, k);
    assert p[..0] == [] && p[0..k] == p[..k] == p0;
    LeftPathPut(t0, p0, SubAt(d, p0), c);
  }

  /** No split gets up to the place where the insertion of e starts. */
  ghost predicate StaysBelow(w: Width, t: Tree, p: seq<nat>, valid: Interval, e: Entry) {
    && t.Node? && ValidPath(t, p) && Shape(SubAt(t, p), t.height - |p|) && ProperOrEmpty(valid) && Proper(e.range)
    && !Pushed(Ins(w, SubAt(t, p), t.height - |p|, valid, e).tree, t.height - |p|)
  }

  lemma BelowStays(w: Width, t0: Tree, d: Tree, p0: seq<nat>, p: seq<nat>, valid: Interval, e: Entry, goal: Insertion)
    requires Heading(w, t0, p0, valid, e, goal) && KeptAbove(t0, d, p0) && p0 <= p && d.Node? && d.height == t0.height
    requires CanClimb(d, p, e) && goal == Insertion(Up(d, p, Fresh(e)), p, NO_CONTS) && StaysBelow(w, t0, p0, valid, e)
    ensures !Pushed(Climbed(d, p, e, |p0|), d.height - |p0|)
  {
    hide Ins, Up, Orderly, Climbed, Pushed;
    ClimbedIs(w, t0, d, p0, p, valid, e, goal);
  }

  lemma InsLevel(w: Width, t: Tree, h: int, valid: Interval, e: Entry)
    requires Shape(t, h) && ProperOrEmpty(valid) && Proper(e.range)
    ensures Level(Ins(w, t, h, valid, e).tree, h)
  {
    hide Pruned, Absorb;
    if t.Node? {
      PrunedShape(t, h, valid);
      var s := Pruned(t, h, valid);
      var i := Below(s.entries, e.range.left);
      if i >= Upto(s.entries, e.range.right) {
        AbsorbLevel(s, i, Ins(w, s.subs[i], h - 1, GapValid(s.entries, i, valid), e).tree);
      }
    }
  }

  lemma ClimbedLevel(d: Tree, p: seq<nat>, e: Entry, k: nat)
    requires CanClimb(d, p, e) && k <= |p|
    ensures Level(Climbed(d, p, e, k), d.height - k)
  {
    hide Orderly;
    PathParts(d, p, k);
    SubShape(d, d.height, p[..k]);
    UpLevelHeight(SubAt(d, p[..k]), d.height - k, p[k..], Fresh(e));
  }

  /** What a continuation is heading for. */
  ghost function ContGoal(w: Width, t: Tree, p: seq<nat>, c: Cont): Insertion
    requires t.Node? && Ready(t, t.height, p, c)
  {
    Extended(t, p, Ins(w, SubAt(t, p), t.height - |p|, c.valid, PieceOf(c)))
  }

  /** A continuation can run from the place that p leads to: it wants no continuation, and what it
      carries up is in order. */
  ghost predicate Goes(w: Width, t: Tree, p: seq<nat>, c: Cont) {
    && t.Node? && Shape(t, t.height) && Ready(t, t.height, p, c) && Sound(SubAt(t, p), c.valid, c.range)
    && Ins(w, SubAt(t, p), t.height - |p|, c.valid, PieceOf(c)).conts == NO_CONTS
    && Orderly(t, p, Piece(w, t, t.height, p, c))
  }

  lemma ContHeading(w: Width, t: Tree, p: seq<nat>, c: Cont)
    requires Goes(w, t, p, c)
    ensures t.Node? && Ready(t, t.height, p, c)
    ensures Heading(w, t, p, c.valid, PieceOf(c), ContGoal(w, t, p, c))
    ensures ContGoal(w, t, p, c).tree == Continued(w, t, t.height, p, c) && ContGoal(w, t, p, c).conts == NO_CONTS
  {
    hide Ins, Up, Orderly;
  }

  /** A continuation of which nothing is in the way. */
  lemma OwedGoes(w: Width, t: Tree, p: seq<nat>, c: Cont)
    requires t.Node? && Shape(t, t.height) && Owes(t, FULL.left, FULL.right, p, c)
    ensures Goes(w, t, p, c)
  {
    hide Ins, Up, Orderly, Shape, ValidPath, SubAt;
    OwedRightOrderly(w, t, t.height, p, c);
    var s, a, b :| Leads(t, FULL.left, FULL.right, p, s, a, b) && Opens(s, c, a, b);
    LeadsValid(t, FULL.left, FULL.right, p, s, a, b);
  }

  ghost predicate CanEnd(w: Width, t: Tree, e: Entry) {
    t.Node? && Shape(t, t.height) && Proper(e.range) && exists t' :: Ends(w, t, t.height, e, t')
  }

  lemma EndOfWrite(w: Width, t: Tree, e: Entry) returns (t': Tree)
    requires CanEnd(w, t, e)
    ensures t.Node? && Shape(t, t.height) && Proper(e.range) && Ends(w, t, t.height, e, t')
  {
    hide Ends;
    t' :| Ends(w, t, t.height, e, t');
  }

  lemma RightGoes(w: Width, t: Tree, e: Entry, t': Tree, m: Insertion)
    requires t.Node? && Shape(t, t.height) && Proper(e.range) && Ends(w, t, t.height, e, t')
    requires m == Ins(w, t, t.height, FULL, e) && m.conts.right.Some?
    ensures Goes(w, m.tree, m.path, m.conts.right.value)
  {
    hide Ins, Shape, Orderly, LeftEnds, LeftPath, Up, Stops, ValidPath, SubAt, Sound;
    SiblingReady(w, t, t.height, e);
    RightSound(w, t, t.height, e);
  }

  lemma RightSound(w: Width, t: Tree, h: int, e: Entry)
    requires Shape(t, h) && Proper(e.range) && Ins(w, t, h, FULL, e).conts.right.Some?
    ensures var m := Ins(w, t, h, FULL, e);
            ValidPath(m.tree, m.path) && Sound(SubAt(m.tree, m.path), m.conts.right.value.valid, m.conts.right.value.range)
  {
    hide Ins, Shape, ValidPath, SubAt, Leads, HasBefore;
    var m := Ins(w, t, h, FULL, e);
    MainPlace(w, t, h, e);
    MainShape(w, t, h, FULL, e);
    EdgeCont(t, h, FULL, e);
    if EdgeFree(w, m.conts) {
      var s, a, b :| Leads(m.tree, FULL.left, FULL.right, m.path, s, a, b) && Opens(s, m.conts.right.value, a, b);
      LeadsValid(m.tree, FULL.left, FULL.right, m.path, s, a, b);
    }
  }

  /** What is there when the right continuation is done. */
  lemma RightLeaves(w: Width, t: Tree, e: Entry, m: Insertion, c: Cont)
    requires t.Node? && Shape(t, t.height) && Proper(e.range) && m == Ins(w, t, t.height, FULL, e) && m.conts.right == Some(c)
    ensures m.path != [] && m.path[|m.path| - 1] > 0 && ValidPath(m.tree, m.path)
    ensures m.tree.Node? && m.tree.height == t.height && Ready(m.tree, t.height, m.path, c)
    ensures var t1, q := Continued(w, m.tree, t.height, m.path, c), LeftPath(m.tree, m.path, Piece(w, m.tree, t.height, m.path, c));
            && t1.Node? && t1.height <= t.height + 1
            && (if WillStop(m.tree, m.path, c.valid, PieceOf(c)) then LeftStarts(w, t, t.height, e, t1, m.path, LeftSibling(m.path))
                else LeftStarts(w, t, t.height, e, t1, q, q))
  {
    hide Ins, Shape, LeftPath, Up, Stops, ValidPath, SubAt, Pushed;
    SiblingReady(w, t, t.height, e);
    MainPlace(w, t, t.height, e);
    InsLevel(w, SubAt(m.tree, m.path), t.height - |m.path|, c.valid, PieceOf(c));
    UpLevelHeight(m.tree, t.height, m.path, Piece(w, m.tree, t.height, m.path, c));
    LevelHeight(Continued(w, m.tree, t.height, m.path, c), t.height);
  }

  lemma LevelHeight(c: Tree, h: int)
    requires Level(c, h)
    ensures c.Node? && c.height <= h + 1
  {
  }

  lemma RightLeavesAlone(w: Width, t: Tree, e: Entry, m: Insertion)
    requires t.Node? && Shape(t, t.height) && Proper(e.range) && m == Ins(w, t, t.height, FULL, e) && m.conts.right.None?
    ensures LeftStarts(w, t, t.height, e, m.tree, m.path, m.path)
  {
  }

  /** The left continuation can run, and gives the tree that the write ends with. */
  lemma LeftGoes(w: Width, t: Tree, e: Entry, t': Tree, t1: Tree, arrays: seq<nat>, place: seq<nat>)
    requires t.Node? && Shape(t, t.height) && Proper(e.range) && Ends(w, t, t.height, e, t')
    requires LeftStarts(w, t, t.height, e, t1, arrays, place)
    ensures var lc := Ins(w, t, t.height, FULL, e).conts.left;
            if lc.None? then t' == t1
            else
              && t1.Node? && Goes(w, t1, place, lc.value) && Ready(t1, t1.height, place, lc.value)
              && t' == Continued(w, t1, t1.height, place, lc.value)
              && (arrays == place || StaysBelow(w, t1, place, lc.value.valid, PieceOf(lc.value)))
  {
    hide Ins, Shape, Ends, LeftStarts, Goes, Owes, Continued, ValidPath, SubAt, Pushed, AllFull;
    var lc := Ins(w, t, t.height, FULL, e).conts.left;
    EndsParts(w, t, t.height, e, t', t1, arrays, place);
    if lc.Some? {
      OwedGoes(w, t1, place, lc.value);
      SplitsFull(w, SubAt(t1, place), t1.height - |place|, lc.value.valid, PieceOf(lc.value));
    }
  }

  lemma ContRepairs(w: Width, t: Tree, p: seq<nat>, c: Cont, q: seq<nat>)
    requires t.Node? && Ready(t, t.height, p, c) && p != [] && p[|p| - 1] > 0
    requires q == LeftPath(t, p, Piece(w, t, t.height, p, c))
    ensures Repairs(w, t, p, c.valid, PieceOf(c), q)
  {
  }

  /** What a write starts with. */
  lemma MainStarts(w: Width, t: Tree, e: Entry) returns (m: Insertion)
    requires t.Node? && Shape(t, t.height) && Proper(e.range)
    ensures m == Ins(w, t, t.height, FULL, e) && Heading(w, t, [], FULL, e, m)
  {
    hide Ins;
    m := Ins(w, t, t.height, FULL, e);
    assert [] + m.path == m.path;
  }

  lemma SiblingValid(t: Tree, p: seq<nat>)
    requires ValidPath(t, p) && p != [] && p[|p| - 1] > 0
    ensures ValidPath(t, LeftSibling(p))
  {
    var k := |p| - 1;
    LevelNode(t, p, k);
    assert [p[k] - 1][1..] == [];
    AppendPath(t, p[..k], [p[k] - 1]);
  }

  /** The slot to the left of the last step of a path. */
  lemma LeftBranch(m: Memory, root: Ptr, t: Tree, ns: seq<Ptr>, p: seq<nat>, f: nat)
    requires Own(m, root, t) && t.Node? && Shape(t, t.height) && OnPath(m, root, t, ns, p) && ValidPath(t, p)
    requires |p| == f + 1 && p[f] > 0 && ValidPath(t, LeftSibling(p))
    ensures |ns| == |p| && ns[f] in m && p[f] <= |m[ns[f]].subtrees|
    ensures m[ns[f]].subtrees[p[f] - 1].st == AddrAt(m, root, t, LeftSibling(p))
  {
    hide Rep, NoAlias, Foot, Shape, AddrAt, SubAt, ValidPath;
    assert |ns| == |p|;
    hide OnPath;
    OnPathAt(m, root, t, ns, p, f);
    LevelNode(t, p, f);
    SubShape(t, t.height, p[..f]);
    AddrRep(m, root, t, p[..f]);
    RepNode(m, ns[f], SubAt(t, p[..f]));
    PathEnds(m, root, t, p[..f], p[f] - 1);
  }

  lemma AllKeptPrefix(m0: Memory, m1: Memory, m2: Memory, ns: seq<Ptr>, n: nat)
    requires n <= |ns| && AllKept(m0, m1, ns[..n]) && AllKept(m1, m2, ns)
    ensures AllKept(m0, m2, ns[..n])
  {
    forall k | 0 <= k < n ensures ns[..n][k] in m0 && ns[..n][k] in m2 && m2[ns[..n][k]] == m0[ns[..n][k]] {
      assert ns[..n][k] == ns[k];
    }
  }

  /** An insertion that has come to the place p leads to will overwrite entries. */
  ghost predicate WillStop(t: Tree, p: seq<nat>, valid: Interval, e: Entry) {
    && t.Node? && ValidPath(t, p) && Shape(SubAt(t, p), t.height - |p|) && ProperOrEmpty(valid) && Proper(e.range)
    && Stops(SubAt(t, p), t.height - |p|, valid, e)
  }

  lemma StopsStep(t0: Tree, p: seq<nat>, valid: Interval, e: Entry)
    requires t0.Node? && ValidPath(t0, p) && SubAt(t0, p).Node? && Shape(SubAt(t0, p), t0.height - |p|)
    requires ProperOrEmpty(valid) && Proper(e.range)
    ensures var s := Pruned(SubAt(t0, p), t0.height - |p|, valid);
            var i := Below(s.entries, e.range.left);
            && s.Node? && |s.subs| == |s.entries| + 1 && Shape(s.subs[i], t0.height - |p| - 1)
            && (WillStop(t0, p, valid, e) <==>
                i < Upto(s.entries, e.range.right) || Stops(s.subs[i], t0.height - |p| - 1, GapValid(s.entries, i, valid), e))
  {
    hide Pruned;
    PrunedShape(SubAt(t0, p), t0.height - |p|, valid);
  }

  /** The nodes on a path are those on the path to the place beside its end. */
  lemma {:induction false} OnPathSibling(m: Memory, root: Ptr, t: Tree, ns: seq<Ptr>, p: seq<nat>)
    requires Rep(m, root, t) && OnPath(m, root, t, ns, p) && p != [] && p[|p| - 1] > 0
    ensures OnPath(m, root, t, ns, LeftSibling(p))
    decreases |p|
  {
    var i := p[0];
    if |p| > 1 {
      assert LeftSibling(p)[1..] == LeftSibling(p[1..]);
      OnPathSibling(m, m[root].subtrees[i].st, t.subs[i], ns[1..], p[1..]);
    } else {
      assert LeftSibling(p)[1..] == [];
    }
  }

  lemma SubSnoc(t: Tree, p: seq<nat>, i: nat)
    requires ValidPath(t, p) && ValidPath(t, p + [i])
    ensures SubAt(t, p).Node? && i < |SubAt(t, p).subs| && SubAt(t, p + [i]) == SubAt(t, p).subs[i]
  {
    AppendPath(t, p, [i]);
    assert [i][1..] == [];
  }

  /** What OverwriteAt did to the pruned tree is what the insertion was heading for. */
  lemma OverlapStops(w: Width, t0: Tree, t1: Tree, p: seq<nat>, valid: Interval, e: Entry, t: Tree, k: nat, ic: InsertCont, goal: Insertion)
    requires ValidPath(t0, p) && ValidPath(t1, p) && t1 == PutAt(t0, p, SubAt(t1, p))
    requires Overwrites(w, t1, p, valid, e, t, k, ic)
    requires var i, j := Below(SubAt(t1, p).entries, e.range.left), Upto(SubAt(t1, p).entries, e.range.right);
             var o := Overwrite(w, SubAt(t1, p), valid, e, i, j);
             goal == Insertion(PutAt(t0, p, o.tree), p + o.path, o.conts)
    ensures t == goal.tree && goal.path == p + [k] && goal.path[|goal.path| - 1] == k
    ensures SameCont(ic.leftc, goal.conts.left) && SameCont(ic.rightc, goal.conts.right)
    ensures var i := Below(SubAt(t1, p).entries, e.range.left);
            && k == (if goal.conts.right.Some? then i + 1 else i)
            && LeftPlace(goal) == p + [i]
  {
    hide Replaced, LeftCont, RightCont;
    var i, j := Below(SubAt(t1, p).entries, e.range.left), Upto(SubAt(t1, p).entries, e.range.right);
    PutTwice(t0, p, SubAt(t1, p), Overwrite(w, SubAt(t1, p), valid, e, i, j).tree);
    if goal.conts.right.Some? {
      assert LeftSibling(p + [i + 1]) == p + [i];
    }
  }

  /** The pointer one step further on. */
  lemma PathEnds(m: Memory, root: Ptr, t: Tree, p: seq<nat>, i: nat)
    requires Own(m, root, t) && ValidPath(t, p) && SubAt(t, p).Node?
    requires |SubAt(t, p).entries| < FT_SPLITLIMIT && |SubAt(t, p).subs| == |SubAt(t, p).entries| + 1 && i <= |SubAt(t, p).entries|
    ensures ValidPath(t, p + [i]) && AddrAt(m, root, t, p) in m && i < |m[AddrAt(m, root, t, p)].subtrees|
    ensures AddrAt(m, root, t, p + [i]) == m[AddrAt(m, root, t, p)].subtrees[i].st
  {
    hide NoAlias, Foot;
    AddrRep(m, root, t, p);
    RepNode(m, AddrAt(m, root, t, p), SubAt(t, p));
    assert [i][1..] == [];
    AppendPath(t, p, [i]);
    AddrAppend(m, root, t, p, [i]);
  }
}
