/** The way up of an insertion: what the tree is after each level, and that every level can
    take what comes up to it. */
module FigClimb {
  import opened Intervals
  import opened FigTrees
  import opened FigInsert
  import opened FigAbsorb
  import opened FigPaths
  import opened FigMemory
  import opened FigPathOps

  /** What the node at level k of the path has turned into. */
  ghost function Climbed(d: Tree, p: seq<nat>, e: Entry, k: nat): Tree
    requires ValidPath(d, p) && k <= |p|
  {
    PathParts(d, p, k);
    Up(SubAt(d, p[..k]), p[k..], Fresh(e))
  }

  lemma PathParts(d: Tree, p: seq<nat>, k: nat)
    requires ValidPath(d, p) && k <= |p|
    ensures ValidPath(d, p[..k]) && ValidPath(SubAt(d, p[..k]), p[k..])
    ensures SubAt(SubAt(d, p[..k]), p[k..]) == SubAt(d, p)
  {
    assert p == p[..k] + p[k..];
    PrefixValid(d, p[..k], p[k..]);
    AppendPath(d, p[..k], p[k..]);
  }

  lemma {:induction false} PrefixValid(d: Tree, p: seq<nat>, q: seq<nat>)
    requires ValidPath(d, p + q)
    ensures ValidPath(d, p)
    decreases |p|
  {
    if p != [] {
      assert (p + q)[1..] == p[1..] + q;
      PrefixValid(d.subs[p[0]], p[1..], q);
    }
  }

  /** The node at level k of the path. */
  lemma LevelNode(d: Tree, p: seq<nat>, k: nat)
    requires ValidPath(d, p) && k < |p|
    ensures ValidPath(d, p[..k]) && ValidPath(d, p[..k + 1]) && p[..k + 1] == p[..k] + [p[k]]
    ensures var s := SubAt(d, p[..k]);
            && s.Node? && |s.entries| < FT_SPLITLIMIT && |s.subs| == |s.entries| + 1 && p[k] <= |s.entries|
            && SubAt(d, p[..k + 1]) == s.subs[p[k]]
  {
    PathParts(d, p, k);
    PathParts(d, p, k + 1);
    assert p[..k + 1] == p[..k] + [p[k]];
    AppendPath(d, p[..k], [p[k]]);
    assert [p[k]][1..] == [];
  }

  lemma ClimbedStep(d: Tree, p: seq<nat>, e: Entry, k: nat)
    requires ValidPath(d, p) && k < |p|
    ensures ValidPath(d, p[..k])
    ensures var s := SubAt(d, p[..k]);
            && s.Node? && |s.entries| < FT_SPLITLIMIT && |s.subs| == |s.entries| + 1 && p[k] <= |s.entries|
            && Climbed(d, p, e, k) == Absorb(s, p[k], Climbed(d, p, e, k + 1))
  {
    LevelNode(d, p, k);
    PathParts(d, p, k);
    PathParts(d, p, k + 1);
    assert p[k..][1..] == p[k + 1..];
  }

  lemma ClimbedEnds(d: Tree, p: seq<nat>, e: Entry)
    requires ValidPath(d, p)
    ensures Climbed(d, p, e, |p|) == Fresh(e) && Climbed(d, p, e, 0) == Up(d, p, Fresh(e))
  {
    assert p[..0] == [] && p[0..] == p && p[|p|..] == [];
  }

  /** Every level of the path can absorb what comes up to it. */
  ghost predicate CanClimb(d: Tree, p: seq<nat>, e: Entry) {
    && d.Node? && Shape(d, d.height) && |p| == d.height + 1 && ValidPath(d, p) && SubAt(d, p).Nil? && Proper(e.range)
    && Orderly(d, p, Fresh(e))
  }

  lemma FreshGrown(e: Entry)
    requires Proper(e.range)
    ensures Grown(Fresh(e), -1)
  {
    assert Shape(Fresh(e), 0);
  }

  lemma ClimbedFits(d: Tree, p: seq<nat>, e: Entry, k: nat)
    requires CanClimb(d, p, e) && k <= |p|
    ensures Grown(Climbed(d, p, e, k), d.height - k)
    ensures k < |p| ==> ValidPath(d, p[..k]) && SubAt(d, p[..k]).Node? && p[k] <= |SubAt(d, p[..k]).entries|
                        && Shape(SubAt(d, p[..k]), d.height - k) && Absorbable(SubAt(d, p[..k]), p[k], Climbed(d, p, e, k + 1))
  {
    hide Shape, Up, Grown;
    assert p == p[..k] + p[k..];
    PathParts(d, p, k);
    SubShape(d, d.height, p[..k]);
    FreshGrown(e);
    OrderlyAppend(d, p[..k], p[k..], Fresh(e));
    OrderlyUp(SubAt(d, p[..k]), d.height - k, p[k..], Fresh(e));
    if k < |p| {
      LevelNode(d, p, k);
      PathParts(d, p, k + 1);
      assert p[k..][1..] == p[k + 1..] && p[k..][0] == p[k];
    }
  }

  ghost function Part(d: Tree, p: seq<nat>, e: Entry, k: nat): Tree
    requires ValidPath(d, p) && k <= |p|
  {
    if k == |p| then Nil else Climbed(d, p, e, k)
  }

  /** The entry and the subtrees on its sides that come up to the next level. */
  ghost predicate ComesUp(d: Tree, p: seq<nat>, e: Entry, k: nat, ent: Entry)
    requires ValidPath(d, p) && k <= |p|
  {
    if k == |p| then ent == e
    else Pushed(Climbed(d, p, e, k), d.height - k) && ent == Climbed(d, p, e, k).entries[0]
  }

  lemma PutSnoc(d: Tree, q: seq<nat>, i: nat, x: Tree)
    requires ValidPath(d, q) && ValidPath(SubAt(d, q), [i])
    ensures ValidPath(d, q + [i])
    ensures PutAt(d, q + [i], x) == PutAt(d, q, SubAt(d, q).(subs := SubAt(d, q).subs[i := x]))
  {
    PutAppend(d, q, [i], x);
    assert [i][1..] == [];
  }

  /** The node that the next level is about to change. */
  lemma LevelReady(d: Tree, p: seq<nat>, e: Entry, k: nat, t: Tree)
    requires CanClimb(d, p, e) && 0 < k <= |p| && ValidPath(d, p[..k]) && t == PutAt(d, p[..k], Part(d, p, e, k))
    ensures ValidPath(t, p[..k - 1]) && ValidPath(d, p[..k - 1])
    ensures var s, i := SubAt(d, p[..k - 1]), p[k - 1];
            && s.Node? && i < |s.subs|
            && SubAt(t, p[..k - 1]) == s.(subs := s.subs[i := Part(d, p, e, k)])
            && t == PutAt(d, p[..k - 1], SubAt(t, p[..k - 1]))
            && s.height >= 0 && |s.subs| == |s.entries| + 1 && |s.entries| < FT_SPLITLIMIT && s.height == d.height - (k - 1)
  {
    var q, i, x := p[..k - 1], p[k - 1], Part(d, p, e, k);
    LevelNode(d, p, k - 1);
    assert [i][1..] == [];
    PutSnoc(d, q, i, x);
    PutValid(d, q, SubAt(d, q).(subs := SubAt(d, q).subs[i := x]));
    SubShape(d, d.height, q);
  }

  /** The next level has absorbed what came up. */
  lemma LevelDone(d: Tree, p: seq<nat>, e: Entry, k: nat, t: Tree, ent: Entry)
    requires CanClimb(d, p, e) && 0 < k <= |p| && ValidPath(d, p[..k]) && t == PutAt(d, p[..k], Part(d, p, e, k))
    requires ComesUp(d, p, e, k, ent)
    ensures ValidPath(t, p[..k - 1]) && ValidPath(d, p[..k - 1])
    ensures var s, i, c := SubAt(t, p[..k - 1]), p[k - 1], Part(d, p, e, k);
            && s.Node? && i <= |s.entries| && |s.subs| == |s.entries| + 1 && |s.entries| < FT_SPLITLIMIT
            && FitsGap(s.entries, i, ent.range)
            && (c.Node? ==> |c.subs| == 2)
            && var l, r := if c.Nil? then Nil else c.subs[0], if c.Nil? then Nil else c.subs[1];
            && SplitIfFull(Widened(s, i, ent, l, r)) == Climbed(d, p, e, k - 1)
            && (Pushed(Climbed(d, p, e, k - 1), d.height - (k - 1)) <==> |s.entries| + 1 == FT_SPLITLIMIT)
    ensures ValidPath(PutAt(t, p[..k - 1], Climbed(d, p, e, k - 1)), p[..k - 1])
    ensures PutAt(t, p[..k - 1], Climbed(d, p, e, k - 1)) == PutAt(d, p[..k - 1], Part(d, p, e, k - 1))
  {
    hide Climbed, Shape, Widened;
    var q, i, c := p[..k - 1], p[k - 1], Part(d, p, e, k);
    LevelReady(d, p, e, k, t);
    ClimbedStep(d, p, e, k - 1);
    ClimbedEnds(d, p, e);
    ClimbedFits(d, p, e, k - 1);
    AbsorbIgnores(SubAt(d, q), i, c, Climbed(d, p, e, k));
    PutTwice(d, q, SubAt(t, q), Climbed(d, p, e, k - 1));
    PutValid(d, q, Climbed(d, p, e, k - 1));
    SplitHeight(SubAt(t, q), i, ent, if c.Nil? then Nil else c.subs[0], if c.Nil? then Nil else c.subs[1]);
  }

  lemma SplitHeight(s: Tree, i: nat, e: Entry, l: Tree, r: Tree)
    requires s.Node? && i <= |s.entries| && |s.subs| == |s.entries| + 1 && |s.entries| < FT_SPLITLIMIT
    ensures Pushed(SplitIfFull(Widened(s, i, e, l, r)), s.height) <==> |s.entries| + 1 == FT_SPLITLIMIT
  {
  }

  /** When nothing comes up any more, the insertion is done. */
  lemma ClimbDone(d: Tree, p: seq<nat>, e: Entry, k: nat)
    requires CanClimb(d, p, e) && k < |p| && (k == 0 || !Pushed(Climbed(d, p, e, k), d.height - k))
    ensures ValidPath(d, p[..k]) && PutAt(d, p[..k], Climbed(d, p, e, k)) == Up(d, p, Fresh(e))
  {
    hide Orderly, Absorb, Shape;
    PathParts(d, p, k);
    assert p == p[..k] + p[k..];
    UpAppend(d, p[..k], p[k..], Fresh(e));
    if k == 0 {
      ClimbedEnds(d, p, e);
      assert p[..0] == [];
    } else {
      UpIsPut(d, d.height, p[..k], Climbed(d, p, e, k));
    }
  }
}
