/** Iteration over a FIG tree with a stack of nodes (ft_read and fti_next of figtree.c), in
    the 32-bit arithmetic it is compiled with. */
module FigIterImpl {
  import opened Intervals
  import opened FigTrees
  import opened FigPrune
  import opened FigPaths
  import opened FigMemory
  import opened FigNodes
  import opened FigScan
  import opened FigTreeImpl

  /** struct figtree_iterstate: `pos` is the entry to look at when iteration comes back to the
      node. */
  datatype IterState = IterState(node: Ptr, pos: int, valid: Interval)

  ghost predicate Lives(m: Memory, s: IterState, t: Tree, h: int) {
    Rep(m, s.node, t) && Shape(t, h) && Proper(s.valid)
  }

  /** Everything left of entry `pos` is done. */
  ghost predicate Paused(m: Memory, s: IterState, t: Tree, h: int) {
    && Lives(m, s, t, h)
    && (t.Node? ==> 0 <= s.pos <= |t.entries| && (s.pos < |t.entries| ==> s.valid.left <= t.entries[s.pos].range.right))
  }

  ghost predicate Stack(m: Memory, sts: seq<IterState>, ts: seq<Tree>, h: int) {
    |sts| == |ts| && forall d :: 0 <= d < |sts| ==> Paused(m, sts[d], ts[d], h - d)
  }

  /** What the state of one node still has to yield. */
  ghost function Rest(s: IterState, t: Tree): seq<Entry> {
    if t.Node? && |t.subs| == |t.entries| + 1 && 0 <= s.pos <= |t.entries| then
      FromEntry(t, s.pos, s.valid.left, s.valid.right)
    else []
  }

  ghost function RestAll(sts: seq<IterState>, ts: seq<Tree>): seq<Entry>
    requires |sts| == |ts|
    decreases |sts|
  {
    if sts == [] then []
    else Rest(sts[|sts| - 1], ts[|ts| - 1]) + RestAll(sts[..|sts| - 1], ts[..|ts| - 1])
  }

  lemma PushRest(sts: seq<IterState>, ts: seq<Tree>, s: IterState, t: Tree)
    requires |sts| == |ts|
    ensures RestAll(sts + [s], ts + [t]) == Rest(s, t) + RestAll(sts, ts)
  {
    assert (sts + [s])[..|sts|] == sts && (ts + [t])[..|ts|] == ts;
  }

  lemma PushStack(m: Memory, sts: seq<IterState>, ts: seq<Tree>, h: int, s: IterState, t: Tree)
    requires Stack(m, sts, ts, h) && Paused(m, s, t, h - |sts|)
    ensures Stack(m, sts + [s], ts + [t], h)
  {
  }

  /** The node of a state, in memory. */
  lemma StateNode(m: Memory, s: IterState, t: Tree, h: int)
    requires Lives(m, s, t, h)
    ensures s.node == NULL <==> t.Nil?
    ensures t.Nil? ==> h == -1
    ensures t.Node? ==> h >= 0 && s.node in m && m[s.node].entries == t.entries && Sorted(t.entries)
                        && |m[s.node].subtrees| == |t.subs| == |t.entries| + 1
                        && forall i :: 0 <= i < |t.subs| ==> Rep(m, m[s.node].subtrees[i].st, t.subs[i]) && Shape(t.subs[i], h - 1)
  {
  }

  /** The entry at `pos` can be read. */
  ghost predicate Readable(m: Memory, s: IterState, t: Tree) {
    && (s.node == NULL <==> t.Nil?)
    && (t.Node? ==> s.node in m && m[s.node].entries == t.entries && 0 <= s.pos <= |t.entries|
                    && s.valid.nonempty)
  }

  class FigIter {
    const nodes: NodeStore
    const states: array<IterState>
    var depth: int
    ghost var trees: seq<Tree>

    /** The states in use. */
    ghost function Used(): seq<IterState>
      requires -1 <= depth < states.Length
      reads this, states
    {
      states[..depth + 1]
    }

    ghost predicate Stacked()
      reads this, nodes, states
    {
      && -1 <= depth < states.Length
      && Stack(nodes.mem, Used(), trees, states.Length - 2)
    }

    /** What is still to be yielded. */
    ghost function Remaining(): seq<Entry>
      requires Stacked()
      reads this, nodes, states
    {
      RestAll(Used(), trees)
    }

    /** The next entry is at hand. */
    ghost predicate Valid()
      reads this, nodes, states
    {
      && Stacked()
      && (depth >= 0 ==>
            && trees[depth].Node? && states[depth].pos < |trees[depth].entries|
            && trees[depth].entries[states[depth].pos].range.left <= states[depth].valid.right)
    }

    /** The state on top of the stack, and what lies below it. */
    lemma Top()
      requires Stacked() && depth >= 0
      ensures |trees| == depth + 1 && Paused(nodes.mem, states[depth], trees[depth], states.Length - 2 - depth)
      ensures Stack(nodes.mem, states[..depth], trees[..depth], states.Length - 2)
      ensures Remaining() == Rest(states[depth], trees[depth]) + RestAll(states[..depth], trees[..depth])
    {
      assert Used()[depth] == states[depth] && Used()[..depth] == states[..depth];
    }

    /** Up to the next node with an entry to yield. */
    method Backtrack()
      requires Stacked()
      modifies this
      ensures Valid() && Remaining() == old(Remaining())
    {
      hide Rep, Shape, RestAll, Rest, FromEntry, Paused;
      TopReadable();
      while depth != -1 && (states[depth].node == NULL || states[depth].pos == |nodes.mem[states[depth].node].entries|
        || LeftOf(states[depth].valid, nodes.mem[states[depth].node].entries[states[depth].pos].range))
        invariant Stacked() && Remaining() == old(Remaining())
        invariant depth >= 0 ==> |trees| == depth + 1 && Readable(nodes.mem, states[depth], trees[depth])
        decreases depth
      {
        Top();
        DoneState(states[depth], trees[depth], states.Length - 2 - depth);
        trees := trees[..depth];
        depth := depth - 1;
        TopReadable();
      }
    }

    lemma TopReadable()
      requires Stacked()
      ensures depth >= 0 ==> |trees| == depth + 1 && Readable(nodes.mem, states[depth], trees[depth])
    {
      if depth >= 0 {
        Top();
        StateNode(nodes.mem, states[depth], trees[depth], states.Length - 2 - depth);
      }
    }

    lemma DoneState(s: IterState, t: Tree, h: int)
      requires Paused(nodes.mem, s, t, h)
      requires t.Node? ==> s.pos == |t.entries| || s.valid.right < t.entries[s.pos].range.left
      ensures Rest(s, t) == []
    {
      if t.Node? {
        DoneBefore(t, h, s.pos, s.valid.left, s.valid.right);
      }
    }

    /** The first entry of a node that holds `start` or lies behind it. */
    method ScanTo(node: Ptr, start: int) returns (pos: nat)
      requires node in nodes.mem && Sorted(nodes.mem[node].entries)
      ensures pos <= |nodes.mem[node].entries|
      ensures pos > 0 ==> nodes.mem[node].entries[pos - 1].range.right < start
      ensures pos < |nodes.mem[node].entries| ==> start <= nodes.mem[node].entries[pos].range.right
    {
      pos := 0;
      while pos < |nodes.mem[node].entries| && !ContainsVal(nodes.mem[node].entries[pos].range, start)
        && !RightOfVal(nodes.mem[node].entries[pos].range, start)
        invariant pos <= |nodes.mem[node].entries|
        invariant pos > 0 ==> nodes.mem[node].entries[pos - 1].range.right < start
      {
        pos := pos + 1;
      }
    }

    /** On top of what lies below it. */
    lemma TopIs(below: seq<IterState>, ts: seq<Tree>)
      requires 0 <= depth < states.Length && |trees| == depth + 1
      requires below == states[..depth] && ts == trees[..depth] && Stack(nodes.mem, below, ts, states.Length - 2)
      requires Paused(nodes.mem, states[depth], trees[depth], states.Length - 2 - depth)
      ensures Stacked() && Remaining() == Rest(states[depth], trees[depth]) + RestAll(below, ts)
    {
      assert Used() == below + [states[depth]] && trees == ts + [trees[depth]];
      PushStack(nodes.mem, below, ts, states.Length - 2, states[depth], trees[depth]);
      PushRest(below, ts, states[depth], trees[depth]);
    }

    /** Into the gap at `pos`, of which the bytes from `start` on are wanted. */
    method Push(pos: nat, start: int)
      requires 0 <= depth < states.Length && |trees| == depth + 1
      requires Stack(nodes.mem, states[..depth], trees[..depth], states.Length - 2)
      requires Lives(nodes.mem, states[depth], trees[depth], states.Length - 2 - depth)
      requires states[depth].pos == pos && states[depth].valid.left == start && trees[depth].Node?
      requires pos <= |trees[depth].entries| && (pos > 0 ==> trees[depth].entries[pos - 1].range.right < start)
      requires pos < |trees[depth].entries| ==> start < trees[depth].entries[pos].range.left
      modifies this, states
      ensures depth == old(depth) + 1 && 0 <= depth < states.Length && |trees| == depth + 1
      ensures Stack(nodes.mem, states[..depth], trees[..depth], states.Length - 2)
      ensures Lives(nodes.mem, states[depth], trees[depth], states.Length - 2 - depth)
      ensures states[depth].pos == -1 && states[depth].valid.left == start
      ensures pos < |old(trees[depth]).subs| && trees[depth] == old(trees[depth]).subs[pos]
      ensures |old(trees[depth]).subs| == |old(trees[depth]).entries| + 1
      ensures Figs(trees[depth], start, states[depth].valid.right) + RestAll(states[..depth], trees[..depth])
           == FromGap(old(trees[depth]), pos, start, old(states[depth]).valid.right) + old(RestAll(states[..depth], trees[..depth]))
    {
      hide Figs, FromGap, FromEntry, Rep, Shape, RestAll, Rest, Stack;
      ghost var t, h, below, ts := trees[depth], states.Length - 2 - depth, states[..depth], trees[..depth];
      var ors := states[depth];
      StateNode(nodes.mem, ors, t, h);
      StackLength(nodes.mem, below, ts, states.Length - 2);
      PushStack(nodes.mem, below, ts, states.Length - 2, ors, t);
      PushFigs(below, ts, ors, t, pos);
      var n := nodes.mem[ors.node];
      var lo := if pos == 0 then BYTE_INDEX_MIN else Succ(Bits32, n.entries[pos - 1].range.right);
      var hi := if pos == |n.entries| then BYTE_INDEX_MAX else Pred(Bits32, n.entries[pos].range.left);
      depth := depth + 1;
      trees := trees + [t.subs[pos]];
      states[depth] := IterState(n.subtrees[pos].st, -1, RestrictNonempty(ors.valid, lo, hi));
      assert states[..depth] == below + [ors] && trees[..depth] == ts + [t];
    }

    /** ft_read: an iterator over the closed interval [start, end]. */
    constructor FtRead(t: FigTree, start: int, end: int)
      requires t.Valid() && Proper(Span(start, end))
      ensures Valid() && nodes == t.nodes && fresh(states)
      ensures Remaining() == Figs(t.tree, start, end)
    {
      var n := t.nodes.mem[t.root].height + 2;
      nodes := t.nodes;
      states := new IterState[n];
      depth := 0;
      trees := [t.tree];
      new;
      states[0] := IterState(t.root, -1, Span(start, end));
      Seek(start);
      Backtrack();
    }

    /** The first loop of ft_read: down to `start`. */
    method Seek(start: int)
      requires depth == 0 < states.Length && |trees| == 1 && trees[0].Node? && states.Length == trees[0].height + 2
      requires Lives(nodes.mem, states[0], trees[0], trees[0].height) && states[0].pos == -1 && states[0].valid.left == start
      modifies this, states
      ensures Stacked() && Remaining() == old(Figs(trees[0], start, states[0].valid.right))
    {
      hide Figs, FromGap, FromEntry, Rep, Shape;
      while states[depth].node != NULL
        invariant 0 <= depth < states.Length && |trees| == depth + 1
        invariant Stack(nodes.mem, states[..depth], trees[..depth], states.Length - 2)
        invariant Lives(nodes.mem, states[depth], trees[depth], states.Length - 2 - depth)
        invariant states[depth].pos == -1 && states[depth].valid.left == start
        invariant Figs(trees[depth], start, states[depth].valid.right) + RestAll(states[..depth], trees[..depth])
               == old(Figs(trees[0], start, states[0].valid.right))
        decreases trees[depth]
      {
        ghost var t, h, below := trees[depth], states.Length - 2 - depth, states[..depth];
        var rs := states[depth];
        StateNode(nodes.mem, rs, t, h);
        var pos := ScanTo(rs.node, start);
        SkipTo(t, h, pos, start, rs.valid.right);
        states[depth] := rs.(pos := pos);
        assert states[..depth] == below;
        if pos < |nodes.mem[rs.node].entries| && ContainsVal(nodes.mem[rs.node].entries[pos].range, start) {
          SkipGap(t, pos, start, rs.valid.right);
          TopIs(below, trees[..depth]);
          return;
        }
        Push(pos, start);
      }
      StateNode(nodes.mem, states[depth], trees[depth], states.Length - 2 - depth);
      NoFigs(trees[depth], start, states[depth].valid.right);
      TopIs(states[..depth], trees[..depth]);
    }

    /** fti_next: the next mapping, or none if there is no other. */
    method FtiNext() returns (next: Option<Entry>)
      requires Valid()
      modifies this, states
      ensures Valid()
      ensures next == if old(Remaining()) == [] then None else Some(old(Remaining())[0])
      ensures Remaining() == if old(Remaining()) == [] then [] else old(Remaining())[1..]
    {
      hide Rep, Shape, RestAll, Rest, FromEntry, FromGap, Figs, Paused, Stack;
      AtFig();
      if depth == -1 {
        next := None;
        return;
      }
      var rs := states[depth];
      var entry := nodes.mem[rs.node].entries[rs.pos];
      next := Some(Entry(RestrictNonempty(entry.range, rs.valid.left, rs.valid.right), entry.value));
      Advance();
      Backtrack();
    }

    /** The mapping at hand is the first of those that remain. */
    lemma AtFig()
      requires Valid()
      ensures depth == -1 ==> Remaining() == []
      ensures depth >= 0 ==>
                && |trees| == depth + 1 && Fig(nodes.mem, states[depth], trees[depth], states.Length - 2 - depth)
                && Stack(nodes.mem, states[..depth], trees[..depth], states.Length - 2)
                && Remaining() == [Clip(trees[depth].entries[states[depth].pos], states[depth].valid)]
                                  + (FromGap(trees[depth], states[depth].pos + 1, states[depth].valid.left, states[depth].valid.right)
                                     + RestAll(states[..depth], trees[..depth]))
    {
      hide Rep, Shape, FromEntry, FromGap, Figs;
      if depth >= 0 {
        Top();
        StateNode(nodes.mem, states[depth], trees[depth], states.Length - 2 - depth);
        ShownFig(trees[depth], states[depth].pos, states[depth].valid);
      }
    }

    /** Past the mapping at hand: first all the way down into the gap behind it. */
    method Advance()
      requires 0 <= depth < states.Length && |trees| == depth + 1 && Fig(nodes.mem, states[depth], trees[depth], states.Length - 2 - depth)
      requires Stack(nodes.mem, states[..depth], trees[..depth], states.Length - 2)
      modifies this, states
      ensures Stacked()
      ensures Remaining() == old(FromGap(trees[depth], states[depth].pos + 1, states[depth].valid.left, states[depth].valid.right)
                                 + RestAll(states[..depth], trees[..depth]))
    {
      hide Rep, Shape, RestAll, Rest, FromEntry, FromGap, Figs, Stack;
      ghost var t, h, below, ts := trees[depth], states.Length - 2 - depth, states[..depth], trees[..depth];
      var rs := states[depth];
      StateNode(nodes.mem, rs, t, h);
      var n := nodes.mem[rs.node];
      var entry := n.entries[rs.pos];
      if rs.valid.right <= entry.range.right {
        states[depth] := rs.(pos := |n.entries|);
        assert states[..depth] == below;
        DonePast(t, h, rs.pos, rs.valid.left, rs.valid.right);
        NothingLeft(states[depth], t);
        TopIs(below, ts);
      } else {
        IntoGap();
      }
    }

    /** Into the gap behind the mapping at hand. */
    method IntoGap()
      requires 0 <= depth < states.Length && |trees| == depth + 1 && Fig(nodes.mem, states[depth], trees[depth], states.Length - 2 - depth)
      requires Stack(nodes.mem, states[..depth], trees[..depth], states.Length - 2)
      requires states[depth].valid.right > trees[depth].entries[states[depth].pos].range.right
      modifies this, states
      ensures Stacked()
      ensures Remaining() == old(FromGap(trees[depth], states[depth].pos + 1, states[depth].valid.left, states[depth].valid.right)
                                 + RestAll(states[..depth], trees[..depth]))
    {
      hide Rep, Shape, RestAll, Rest, FromEntry, FromGap, Figs, Stack, Sorted;
      ghost var t, h, below, ts := trees[depth], states.Length - 2 - depth, states[..depth], trees[..depth];
      var rs := states[depth];
      BehindFig(nodes.mem, rs, t, h);
      var n := nodes.mem[rs.node];
      var leftlimit := Succ(Bits32, n.entries[rs.pos].range.right);
      var pos := rs.pos + 1;
      states[depth] := rs.(pos := pos);
      assert states[..depth] == below;
      TopIs(below, ts);
      GapRest(states[depth], t);
      var rightlimit := if pos == |n.entries| then BYTE_INDEX_MAX else Pred(Bits32, n.entries[pos].range.left);
      if leftlimit <= rightlimit {
        Drill(n.subtrees[pos].st, leftlimit, rightlimit, t.subs[pos]);
      } else {
        NoGap(t, pos, rs.valid.left, rs.valid.right);
      }
    }

    /** Down into a gap, to the first mapping there, or to the place below a leaf. */
    method Drill(subtree: Ptr, leftlimit: int, rightlimit: int, ghost t: Tree)
      requires Stacked() && 0 <= depth && |trees| == depth + 1 && Proper(states[depth].valid)
      requires Rep(nodes.mem, subtree, t) && Shape(t, states.Length - 3 - depth)
      requires Max(states[depth].valid.left, leftlimit) <= Min(states[depth].valid.right, rightlimit)
      modifies this, states
      ensures Stacked()
      ensures Remaining() == Figs(t, Max(old(states[depth]).valid.left, leftlimit), Min(old(states[depth]).valid.right, rightlimit))
                             + old(Remaining())
    {
      hide Rep, Shape, RestAll, Rest, FromEntry, FromGap, Figs, Stack;
      ghost var goal := Figs(t, Max(states[depth].valid.left, leftlimit), Min(states[depth].valid.right, rightlimit)) + Remaining();
      ghost var s := t;
      var curr, lo, hi, found := subtree, leftlimit, rightlimit, false;
      SubtreeNull(nodes.mem, curr, s, states.Length - 3 - depth);
      while curr != NULL && !found
        invariant Stacked() && 0 <= depth && |trees| == depth + 1 && Proper(states[depth].valid)
        invariant !found ==>
                    && Rep(nodes.mem, curr, s) && Shape(s, states.Length - 3 - depth) && (curr == NULL <==> s.Nil?)
                    && Max(states[depth].valid.left, lo) <= Min(states[depth].valid.right, hi)
                    && goal == Figs(s, Max(states[depth].valid.left, lo), Min(states[depth].valid.right, hi)) + Remaining()
        invariant found ==> goal == Remaining()
        decreases s, !found
      {
        ghost var up := s;
        curr, lo, hi, found := DrillStep(curr, lo, hi, s, goal);
        if !found {
          s := s.subs[states[depth].pos];
          SubtreeNull(nodes.mem, curr, s, states.Length - 3 - depth);
        }
      }
      if !found {
        NoFigs(s, Max(states[depth].valid.left, lo), Min(states[depth].valid.right, hi));
      }
    }

    /** One node further down. */
    method DrillStep(subtree: Ptr, leftlimit: int, rightlimit: int, ghost t: Tree, ghost goal: seq<Entry>)
      returns (curr: Ptr, lo: int, hi: int, found: bool)
      requires Stacked() && 0 <= depth && |trees| == depth + 1 && Proper(states[depth].valid) && subtree != NULL
      requires Rep(nodes.mem, subtree, t) && Shape(t, states.Length - 3 - depth) && t.Node?
      requires Max(states[depth].valid.left, leftlimit) <= Min(states[depth].valid.right, rightlimit)
      requires goal == Figs(t, Max(states[depth].valid.left, leftlimit), Min(states[depth].valid.right, rightlimit)) + Remaining()
      modifies this, states
      ensures Stacked() && 0 <= depth && |trees| == depth + 1 && Proper(states[depth].valid)
      ensures found ==> goal == Remaining()
      ensures !found ==>
                && 0 <= states[depth].pos < |t.subs| && Rep(nodes.mem, curr, t.subs[states[depth].pos])
                && Shape(t.subs[states[depth].pos], states.Length - 3 - depth)
                && Max(states[depth].valid.left, lo) <= Min(states[depth].valid.right, hi)
                && goal == Figs(t.subs[states[depth].pos], Max(states[depth].valid.left, lo), Min(states[depth].valid.right, hi)) + Remaining()
    {
      hide Rep, Shape, RestAll, Rest, FromEntry, FromGap, Figs, Stack;
      ghost var below, ts, h, rest := Used(), trees, states.Length - 2, Remaining();
      var valid := RestrictNonempty(states[depth].valid, leftlimit, rightlimit);
      StateNode(nodes.mem, IterState(subtree, 0, valid), t, h - 1 - depth);
      var n := nodes.mem[subtree];
      var pos := SkipLeft(subtree, valid);
      SkipTo(t, h - 1 - depth, pos, valid.left, valid.right);
      depth := depth + 1;
      trees := trees + [t];
      states[depth] := IterState(subtree, pos, valid);
      assert states[..depth] == below && trees[..depth] == ts;
      TopIs(below, ts);
      GapRest(states[depth], t);
      curr := n.subtrees[pos].st;
      lo := if pos == 0 then BYTE_INDEX_MIN else Succ(Bits32, n.entries[pos - 1].range.right);
      hi := BYTE_INDEX_MAX;
      found := false;
      if pos < |n.entries| {
        if LeftOverlaps(valid, n.entries[pos].range) {
          found := true;
          SkipGap(t, pos, valid.left, valid.right);
          RestIs(states[depth], t);
          return;
        }
        hi := Pred(Bits32, n.entries[pos].range.left);
      }
    }

    /** The first entry of a node that does not lie left of `valid`. */
    method SkipLeft(node: Ptr, valid: Interval) returns (pos: nat)
      requires node in nodes.mem && Sorted(nodes.mem[node].entries)
      ensures pos <= |nodes.mem[node].entries|
      ensures pos > 0 ==> nodes.mem[node].entries[pos - 1].range.right < valid.left
      ensures pos < |nodes.mem[node].entries| ==> valid.left <= nodes.mem[node].entries[pos].range.right
    {
      pos := 0;
      while pos != |nodes.mem[node].entries| && LeftOf(nodes.mem[node].entries[pos].range, valid)
        invariant pos <= |nodes.mem[node].entries|
        invariant pos > 0 ==> nodes.mem[node].entries[pos - 1].range.right < valid.left
      {
        pos := pos + 1;
      }
    }
  }

  /** The entry at `pos` is the next to be yielded. */
  ghost predicate Fig(m: Memory, s: IterState, t: Tree, h: int) {
    && Lives(m, s, t, h) && t.Node? && |t.subs| == |t.entries| + 1 && s.node in m && m[s.node].entries == t.entries
    && 0 <= s.pos < |t.entries| && Proper(t.entries[s.pos].range)
    && s.valid.left <= t.entries[s.pos].range.right && t.entries[s.pos].range.left <= s.valid.right
  }

  /** The gap behind the mapping at hand. */
  lemma BehindFig(m: Memory, s: IterState, t: Tree, h: int)
    requires Fig(m, s, t, h)
    ensures var k := s.pos + 1;
            && k < |m[s.node].subtrees| == |t.subs| && Rep(m, m[s.node].subtrees[k].st, t.subs[k]) && Shape(t.subs[k], h - 1)
            && (k < |t.entries| ==> Proper(t.entries[k].range) && t.entries[k - 1].range.right < t.entries[k].range.left)
  {
  }

  lemma ShownFig(t: Tree, k: nat, valid: Interval)
    requires t.Node? && |t.subs| == |t.entries| + 1 && k < |t.entries|
    requires valid.left <= t.entries[k].range.right && t.entries[k].range.left <= valid.right
    ensures FromEntry(t, k, valid.left, valid.right) == [Clip(t.entries[k], valid)] + FromGap(t, k + 1, valid.left, valid.right)
  {
  }

  lemma NothingLeft(s: IterState, t: Tree)
    requires t.Node? && s.pos == |t.entries|
    ensures Rest(s, t) == []
  {
  }

  lemma RestIs(s: IterState, t: Tree)
    requires t.Node? && |t.subs| == |t.entries| + 1 && 0 <= s.pos <= |t.entries|
    ensures Rest(s, t) == FromEntry(t, s.pos, s.valid.left, s.valid.right)
  {
  }

  /** The gap before the entry that comes next, and the rest. */
  lemma GapRest(s: IterState, t: Tree)
    requires t.Node? && |t.subs| == |t.entries| + 1 && 0 <= s.pos <= |t.entries|
    ensures var lo, hi, k := s.valid.left, s.valid.right, s.pos;
            FromGap(t, k, lo, hi)
            == Figs(t.subs[k], Max(lo, GapLo(t.entries, k, lo)), Min(hi, GapHi(t.entries, k, hi))) + Rest(s, t)
  {
    hide FromGap, FromEntry, Figs;
    GapSplit(t, s.pos, s.valid.left, s.valid.right);
  }

  lemma NoGap(t: Tree, k: nat, lo: int, hi: int)
    requires t.Node? && |t.subs| == |t.entries| + 1 && k <= |t.entries|
    requires Max(lo, GapLo(t.entries, k, lo)) > Min(hi, GapHi(t.entries, k, hi))
    ensures Figs(t.subs[k], Max(lo, GapLo(t.entries, k, lo)), Min(hi, GapHi(t.entries, k, hi))) == []
  {
  }

  lemma SubtreeNull(m: Memory, p: Ptr, t: Tree, h: int)
    requires Rep(m, p, t) && Shape(t, h)
    ensures p == NULL <==> t.Nil?
  {
  }

  lemma GapSplit(t: Tree, k: nat, lo: int, hi: int)
    requires t.Node? && |t.subs| == |t.entries| + 1 && k <= |t.entries|
    ensures FromGap(t, k, lo, hi)
         == Figs(t.subs[k], Max(lo, GapLo(t.entries, k, lo)), Min(hi, GapHi(t.entries, k, hi))) + FromEntry(t, k, lo, hi)
  {
  }

  lemma StackLength(m: Memory, sts: seq<IterState>, ts: seq<Tree>, h: int)
    requires Stack(m, sts, ts, h)
    ensures |sts| == |ts|
  {
  }

  /** The gap at `pos` comes before what the node has left. */
  lemma PushFigs(sts: seq<IterState>, ts: seq<Tree>, s: IterState, t: Tree, k: nat)
    requires |sts| == |ts| && t.Node? && |t.subs| == |t.entries| + 1 && s.pos == k <= |t.entries|
    ensures var lo, hi := s.valid.left, s.valid.right;
            Figs(t.subs[k], Max(lo, GapLo(t.entries, k, lo)), Min(hi, GapHi(t.entries, k, hi))) + RestAll(sts + [s], ts + [t])
            == FromGap(t, k, lo, hi) + RestAll(sts, ts)
  {
    hide RestAll, Figs, FromGap, FromEntry;
    GapSplit(t, k, s.valid.left, s.valid.right);
    PushRest(sts, ts, s, t);
  }

  lemma NoFigs(t: Tree, lo: int, hi: int)
    requires t.Nil?
    ensures Figs(t, lo, hi) == []
  {
  }

  /** Entries before the interval can be skipped. */
  lemma {:induction false} SkipTo(t: Tree, h: int, k: nat, lo: int, hi: int)
    requires t.Node? && Shape(t, h) && k <= |t.entries| && lo <= hi
    requires k > 0 ==> t.entries[k - 1].range.right < lo
    ensures Figs(t, lo, hi) == FromGap(t, k, lo, hi)
    decreases k
  {
    hide FromGap;
    if k > 0 {
      assert Proper(t.entries[k - 1].range);
      SkipTo(t, h, k - 1, lo, hi);
      SkipEntry(t, k - 1, lo, hi);
    }
  }
}
