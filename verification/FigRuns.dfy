/** Whole runs of writes on a tree that starts empty (ft_init). */
module FigRuns {
  import opened Intervals
  import opened FigTrees
  import opened FigCorrect
  import opened FigHeight

  /** ft_init. */
  const EMPTY_TREE := Node([], [Nil], 0)

  /** The trees of a run: each write is applied to what the ones before it left. */
  ghost predicate Reaches(w: Width, writes: seq<Entry>, t: Tree)
    decreases |writes|
  {
    if writes == [] then t == EMPTY_TREE
    else
      var n := |writes| - 1;
      exists t0 :: Reaches(w, writes[..n], t0) && t0.Node? && CanWrite(w, t0, t0.height, writes[n])
                   && t == Written(w, t0, t0.height, writes[n])
  }

  /** The last write that covers byte b. */
  function LastWriter(writes: seq<Entry>, b: int): Option<int>
    decreases |writes|
  {
    if writes == [] then None
    else
      var last := writes[|writes| - 1];
      if last.range.left <= b <= last.range.right then Some(last.value)
      else LastWriter(writes[..|writes| - 1], b)
  }

  lemma EmptyTreeShape()
    ensures Shape(EMPTY_TREE, 0)
    ensures forall b :: Lookup(EMPTY_TREE, b) == None
  {
    assert EMPTY_TREE.subs[0] == Nil;
  }

  /** Over every run: the tree is well formed and maps each byte to its last writer. */
  lemma {:induction false} RunCorrect(w: Width, writes: seq<Entry>, t: Tree, b: int)
    requires Reaches(w, writes, t) && IsByte(b)
    ensures t.Node? && Shape(t, t.height)
    ensures Lookup(t, b) == LastWriter(writes, b)
    decreases |writes|
  {
    hide CanWrite, Written, Lookup, Shape;
    if writes == [] {
      EmptyTreeShape();
    } else {
      var n := |writes| - 1;
      var t0 :| Reaches(w, writes[..n], t0) && t0.Node? && CanWrite(w, t0, t0.height, writes[n])
                && t == Written(w, t0, t0.height, writes[n]);
      RunCorrect(w, writes[..n], t0, b);
      WriteCorrect(w, t0, t0.height, writes[n], b);
    }
  }

  lemma {:induction false} RunPotential(w: Width, writes: seq<Entry>, t: Tree)
    requires Reaches(w, writes, t)
    ensures t.Node? && Potential(t) <= 2 * |writes|
    decreases |writes|
  {
    hide CanWrite, Written;
    if writes == [] {
      PhiOne(Nil);
      assert Phi(t) == Stored(|t.entries|, t.height) + PhiAll(t.subs);
    } else {
      var n := |writes| - 1;
      var t0 :| Reaches(w, writes[..n], t0) && t0.Node? && CanWrite(w, t0, t0.height, writes[n])
                && t == Written(w, t0, t0.height, writes[n]);
      RunPotential(w, writes[..n], t0);
      PotentialWritten(w, t0, t0.height, writes[n]);
    }
  }

  /** The height is logarithmic in the number of writes, although pruning and overwriting
      leave nodes as empty as they like. */
  lemma HeightBound(w: Width, writes: seq<Entry>, t: Tree)
    requires Reaches(w, writes, t)
    ensures t.Node? && t.height >= 0 && Pow3(t.height + 1) <= 4 * |writes| + 3
  {
    hide Reaches;
    RunPotential(w, writes, t);
    RunCorrect(w, writes, t, BYTE_INDEX_MIN);
    RootCostClosed(t.height);
  }

  /** Every list of writes is a run. */
  lemma {:induction false} RunExists(writes: seq<Entry>) returns (t: Tree)
    requires forall i :: 0 <= i < |writes| ==> Proper(writes[i].range)
    ensures Reaches(Unbounded, writes, t)
    decreases |writes|
  {
    hide CanWrite, Written;
    if writes == [] {
      t := EMPTY_TREE;
    } else {
      var n := |writes| - 1;
      var t0 := RunExists(writes[..n]);
      RunCorrect(Unbounded, writes[..n], t0, BYTE_INDEX_MIN);
      AnyWrite(t0, writes[n]);
      t := Written(Unbounded, t0, t0.height, writes[n]);
    }
  }

  lemma AnyWrite(t: Tree, e: Entry)
    requires t.Node? && Shape(t, t.height) && Proper(e.range)
    ensures CanWrite(Unbounded, t, t.height, e)
  {
  }

  /** A run goes on with any write that is possible. */
  lemma RunOn(w: Width, writes: seq<Entry>, t: Tree, e: Entry)
    requires Reaches(w, writes, t) && t.Node? && CanWrite(w, t, t.height, e)
    ensures Reaches(w, writes + [e], Written(w, t, t.height, e))
  {
    assert (writes + [e])[..|writes|] == writes;
  }
}
