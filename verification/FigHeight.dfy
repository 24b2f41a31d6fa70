/** How high a tree can grow, although nodes have no minimum fill: a potential that pays for
    every split. */
module FigHeight {
  import opened Intervals
  import opened FigTrees
  import opened FigPrune
  import opened FigInsert
  import opened FigPaths
  import opened FigWrite
  import opened FigCorrect

  function Pow3(n: int): (r: nat)
    ensures r >= 1
  {
    if n <= 0 then 1 else 3 * Pow3(n - 1)
  }

  /** A node of height h stores 3^h for each entry beyond the second. */
  function Stored(entries: nat, h: int): nat {
    if entries <= FT_ORDER then 0 else (entries - FT_ORDER) * Pow3(h)
  }

  function Phi(t: Tree): nat
    decreases t
  {
    match t
    case Nil => 0
    case Node(es, subs, h) => Stored(|es|, h) + PhiAll(subs)
  }

  function PhiAll(ts: seq<Tree>): nat
    decreases ts
  {
    if ts == [] then 0 else Phi(ts[0]) + PhiAll(ts[1..])
  }

  lemma {:induction false} PhiConcat(a: seq<Tree>, b: seq<Tree>)
    ensures PhiAll(a + b) == PhiAll(a) + PhiAll(b)
    decreases |a|
  {
    if a == [] {
      assert a + b == b;
    } else {
      assert (a + b)[1..] == a[1..] + b;
      PhiConcat(a[1..], b);
    }
  }

  lemma PhiOne(t: Tree)
    ensures PhiAll([t]) == Phi(t)
  {
    assert [t][1..] == [];
  }

  /** The share of subtree i. */
  lemma PhiPick(ts: seq<Tree>, i: nat)
    requires i < |ts|
    ensures PhiAll(ts) == PhiAll(ts[..i]) + Phi(ts[i]) + PhiAll(ts[i + 1..])
  {
    hide Phi, PhiAll;
    assert ts == ts[..i] + ([ts[i]] + ts[i + 1..]);
    PhiConcat(ts[..i], [ts[i]] + ts[i + 1..]);
    PhiConcat([ts[i]], ts[i + 1..]);
    PhiOne(ts[i]);
  }

  lemma PhiUpdate(ts: seq<Tree>, i: nat, c: Tree)
    requires i < |ts|
    ensures PhiAll(ts[i := c]) == PhiAll(ts) - Phi(ts[i]) + Phi(c)
  {
    PhiPick(ts, i);
    PhiPick(ts[i := c], i);
    assert ts[i := c][..i] == ts[..i] && ts[i := c][i + 1..] == ts[i + 1..];
  }

  lemma PhiSplice(ts: seq<Tree>, i: nat, left: Tree, right: Tree)
    requires i < |ts|
    ensures PhiAll(InsertAt(ts[i := left], i + 1, right)) == PhiAll(ts) - Phi(ts[i]) + Phi(left) + Phi(right)
  {
    hide Phi, PhiAll;
    var s := ts[i := left];
    PhiUpdate(ts, i, left);
    assert s == s[..i + 1] + s[i + 1..];
    PhiConcat(s[..i + 1], s[i + 1..]);
    PhiConcat(s[..i + 1] + [right], s[i + 1..]);
    PhiConcat(s[..i + 1], [right]);
    PhiOne(right);
  }

  lemma PhiPart(ts: seq<Tree>, from: nat, to: nat)
    requires from <= to <= |ts|
    ensures PhiAll(ts[from..to]) <= PhiAll(ts)
  {
    assert ts == ts[..from] + (ts[from..to] + ts[to..]);
    PhiConcat(ts[..from], ts[from..to] + ts[to..]);
    PhiConcat(ts[from..to], ts[to..]);
  }

  lemma PhiPair(ts: seq<Tree>)
    requires |ts| == 2
    ensures PhiAll(ts) == Phi(ts[0]) + Phi(ts[1])
  {
    assert PhiAll(ts[1..]) == Phi(ts[1..][0]) + PhiAll(ts[1..][1..]);
  }

  lemma {:induction false} PhiEmpty(h: int)
    ensures Phi(EmptyChain(h)) == 0
    decreases h + 1
  {
    if h >= 0 {
      PhiEmpty(h - 1);
      var subs := EmptyChain(h).subs;
      assert subs[0] == EmptyChain(h - 1) && PhiAll(subs) == Phi(subs[0]) + PhiAll(subs[1..]);
    }
  }

  lemma PhiCleared(t: Tree)
    ensures Phi(Cleared(t)) == 0
  {
    if t.Node? { PhiEmpty(t.height); }
  }

  lemma StoredMonotone(m: nat, n: nat, h: int)
    requires m <= n
    ensures Stored(m, h) <= Stored(n, h)
  {
    if m > FT_ORDER {
      assert (m - FT_ORDER) * Pow3(h) <= (n - FT_ORDER) * Pow3(h);
    }
  }

  lemma StoredOneMore(n: nat, h: int)
    ensures Stored(n + 1, h) <= Stored(n, h) + Pow3(h)
  {
    if n > FT_ORDER {
      assert (n + 1 - FT_ORDER) * Pow3(h) == (n - FT_ORDER) * Pow3(h) + Pow3(h);
    }
  }

  lemma PhiClearedAt(ts: seq<Tree>, i: nat)
    requires i < |ts|
    ensures PhiAll(ts[i := Cleared(ts[i])]) <= PhiAll(ts)
  {
    PhiCleared(ts[i]);
    PhiUpdate(ts, i, Cleared(ts[i]));
  }

  lemma PhiPrunedSubs(es: seq<Entry>, subs: seq<Tree>, valid: Interval)
    requires |subs| == |es| + 1 && Below(es, valid.left) <= Upto(es, valid.right)
    ensures PhiAll(PrunedSubs(es, subs, valid)) <= PhiAll(subs)
  {
    hide PhiAll, Cleared, ClearsLeft, ClearsRight;
    var kept := subs[Below(es, valid.left)..Upto(es, valid.right) + 1];
    PhiPart(subs, Below(es, valid.left), Upto(es, valid.right) + 1);
    PhiClearedAt(kept, 0);
    var kept' := if ClearsLeft(es, valid) then kept[0 := Cleared(kept[0])] else kept;
    PhiClearedAt(kept', |kept'| - 1);
  }

  /** Pruning never stores more. */
  lemma PhiPruned(t: Tree, h: int, valid: Interval)
    requires t.Node? && Shape(t, h) && ProperOrEmpty(valid)
    ensures Phi(Pruned(t, h, valid)) <= Phi(t)
  {
    if !valid.nonempty {
      PhiCleared(t);
    } else {
      hide PrunedSubs, Stored;
      BelowLeqUpto(t.entries, valid.left, valid.right);
      PhiPrunedSubs(t.entries, t.subs, valid);
      StoredMonotone(|Kept(t.entries, valid)|, |t.entries|, h);
    }
  }

  /** Overwriting never stores more. */
  lemma PhiReplaced(t: Tree, i: nat, j: nat, e: Entry)
    requires t.Node? && |t.subs| == |t.entries| + 1 && i < j <= |t.entries|
    ensures Phi(Replaced(t, i, j, e)) <= Phi(t)
  {
    assert t.subs == t.subs[..i + 1] + (t.subs[i + 1..j] + t.subs[j..]);
    PhiConcat(t.subs[..i + 1], t.subs[i + 1..j] + t.subs[j..]);
    PhiConcat(t.subs[i + 1..j], t.subs[j..]);
    PhiConcat(t.subs[..i + 1], t.subs[j..]);
    StoredMonotone(|t.entries| - (j - i) + 1, |t.entries|, t.height);
  }

  /** The credit a split at height h gives to the level above. */
  function Credit(c: Tree, h: int): nat {
    if Pushed(c, h) then Pow3(h + 1) else 0
  }

  lemma PhiSplit(t: Tree)
    requires t.Node? && t.height >= 0 && |t.entries| == FT_SPLITLIMIT && |t.subs| == FT_SPLITLIMIT + 1
    ensures Phi(SplitNode(t)) + Pow3(t.height + 1) == Phi(t)
  {
    var s := SplitNode(t);
    assert t.subs == t.subs[..FT_ORDER + 1] + t.subs[FT_ORDER + 1..];
    PhiConcat(t.subs[..FT_ORDER + 1], t.subs[FT_ORDER + 1..]);
    PhiPair(s.subs);
  }

  lemma PhiPushed(c: Tree, h: int)
    requires Pushed(c, h)
    ensures Phi(c) == Phi(c.subs[0]) + Phi(c.subs[1])
  {
    PhiPair(c.subs);
  }

  lemma PhiWidened(t: Tree, i: nat, c: Tree)
    requires Lined(t) && i <= |t.entries| && Pushed(c, t.height - 1)
    ensures Phi(Widened(t, i, c.entries[0], c.subs[0], c.subs[1])) <= Phi(t) - Phi(t.subs[i]) + Phi(c) + Pow3(t.height)
  {
    hide Stored;
    PhiSplice(t.subs, i, c.subs[0], c.subs[1]);
    PhiPushed(c, t.height - 1);
    StoredOneMore(|t.entries|, t.height);
  }

  /** Absorbing a subtree spends the credit of its split, and gains a credit if this node is
      split in turn. */
  lemma PhiAbsorb(t: Tree, h: int, i: nat, c: Tree)
    requires t.Node? && Shape(t, h) && i <= |t.entries|
    ensures Phi(Absorb(t, i, c)) + Credit(Absorb(t, i, c), h) <= Phi(t) - Phi(t.subs[i]) + Phi(c) + Credit(c, h - 1)
  {
    hide Phi, SplitNode, PhiAll;
    if Pushed(c, h - 1) {
      PhiWidened(t, i, c);
      var w := Widened(t, i, c.entries[0], c.subs[0], c.subs[1]);
      if |w.entries| == FT_SPLITLIMIT {
        PhiSplit(w);
      }
    } else {
      PhiReplacedSub(t, i, c);
    }
  }

  lemma PhiReplacedSub(t: Tree, i: nat, c: Tree)
    requires t.Node? && i < |t.subs|
    ensures Phi(t.(subs := t.subs[i := c])) == Phi(t) - Phi(t.subs[i]) + Phi(c)
  {
    PhiUpdate(t.subs, i, c);
  }

  /** Carrying a subtree up a path spends its credit along the way. */
  lemma {:induction false} PhiUp(t: Tree, h: int, lo: int, hi: int, p: seq<nat>, s: Tree, a: int, b: int, c: Tree)
    requires Shape(t, h) && Leads(t, lo, hi, p, s, a, b)
    ensures ValidPath(t, p)
    ensures Phi(Up(t, p, c)) + Credit(Up(t, p, c), h) <= Phi(t) - Phi(s) + Phi(c) + Credit(c, h - |p|)
    decreases |p|
  {
    hide Phi, Absorb, Credit;
    LeadsValid(t, lo, hi, p, s, a, b);
    if p != [] {
      PhiUp(t.subs[p[0]], h - 1, GapLo(t.entries, p[0], lo), GapHi(t.entries, p[0], hi), p[1..], s, a, b, c);
      PhiAbsorb(t, h, p[0], Up(t.subs[p[0]], p[1..], c));
    }
  }

  /** An insertion that reaches a leaf costs one unit, one that overwrites entries is free. */
  lemma {:induction false} PhiIns(w: Width, t: Tree, h: int, valid: Interval, e: Entry)
    requires Shape(t, h) && ProperOrEmpty(valid) && Proper(e.range)
    ensures var r := Ins(w, t, h, valid, e);
            Phi(r.tree) + Credit(r.tree, h) <= Phi(t) + if r.conts == NO_CONTS then 1 else 0
    decreases h + 1
  {
    hide Absorb, Pruned, Phi, Replaced, Credit;
    if t.Node? {
      var p := Pruned(t, h, valid);
      PrunedShape(t, h, valid);
      PhiPruned(t, h, valid);
      var i, j := Below(p.entries, e.range.left), Upto(p.entries, e.range.right);
      if i < j {
        PhiReplaced(p, i, j, e);
        NoCredit(p, i, j, e);
      } else {
        var below := Ins(w, p.subs[i], h - 1, GapValid(p.entries, i, valid), e);
        PhiIns(w, p.subs[i], h - 1, GapValid(p.entries, i, valid), e);
        PhiAbsorb(p, h, i, below.tree);
      }
    } else {
      PhiFresh(e);
    }
  }

  lemma NoCredit(t: Tree, i: nat, j: nat, e: Entry)
    requires t.Node? && |t.subs| == |t.entries| + 1 && i < j <= |t.entries|
    ensures Credit(Replaced(t, i, j, e), t.height) == 0
  {
  }

  lemma PhiFresh(e: Entry)
    ensures Phi(Nil) == 0 && Phi(Fresh(e)) == 0 && Credit(Fresh(e), -1) == 1
  {
    var f := Fresh(e);
    PhiPair(f.subs);
    assert Phi(f.subs[0]) == 0 && Phi(f.subs[1]) == 0;
    assert Phi(f) == Stored(|f.entries|, f.height) + PhiAll(f.subs);
    assert Pushed(f, -1);
  }

  /** What all splits of the root up to height h together took. */
  function RootCost(h: int): nat {
    if h <= 0 then 0 else RootCost(h - 1) + Pow3(h)
  }

  /** The potential of a whole tree. */
  function Potential(t: Tree): nat
    requires t.Node?
  {
    Phi(t) + RootCost(t.height)
  }

  /** At the root, the credit of a split goes into the height. */
  lemma PotentialRoot(t: Tree, h: int, c: Tree, lo: int, hi: int, cost: nat)
    requires t.Node? && t.height == h && h >= 0 && Fits(c, h, lo, hi)
    requires Phi(c) + Credit(c, h) <= Phi(t) + cost
    ensures Potential(c) <= Potential(t) + cost
  {
  }

  lemma PotentialContinued(w: Width, t: Tree, h: int, lo: int, hi: int, p: seq<nat>, c: Cont)
    requires t.Node? && Shape(t, h) && Owes(t, lo, hi, p, c)
    ensures Ready(t, h, p, c) && Continued(w, t, h, p, c).Node?
    ensures Potential(Continued(w, t, h, p, c)) <= Potential(t) + 1
  {
    hide Phi, Leads, Credit, Ins, Up, Shape;
    OwesPlace(t, h, lo, hi, p, c);
    var s, a, b :| Leads(t, lo, hi, p, s, a, b) && Opens(s, c, a, b);
    PieceFits(w, t, h, lo, hi, p, s, a, b, c);
    PhiIns(w, s, h - |p|, c.valid, PieceOf(c));
    PhiUp(t, h, lo, hi, p, s, a, b, Piece(w, t, h, p, c));
    UpFits(t, h, lo, hi, p, s, a, b, Piece(w, t, h, p, c));
    ShapeHeight(t, h);
    PotentialRoot(t, h, Continued(w, t, h, p, c), lo, hi, 1);
  }

  lemma ShapeHeight(t: Tree, h: int)
    requires t.Node? && Shape(t, h)
    ensures t.height == h && h >= 0
  {
  }

  /** One write raises the potential by at most 2: it reaches a leaf once, or it overwrites
      entries and each of the two continuations reaches a leaf. */
  lemma PotentialWritten(w: Width, t: Tree, h: int, e: Entry)
    requires t.Node? && CanWrite(w, t, h, e)
    ensures Written(w, t, h, e).Node? && Potential(Written(w, t, h, e)) <= Potential(t) + 2
  {
    hide Phi, RootCost, Credit, Ins, Owes, Continued, Shape, Fits, Ready, AfterRight, Potential;
    var m, r := Ins(w, t, h, FULL, e), AfterRight(w, t, h, e);
    AfterRightCorrect(w, t, h, e, BYTE_INDEX_MIN);
    PotentialMain(w, t, h, e);
    var spent := PotentialRight(w, t, h, e);
    if r.conts.left.Some? {
      LeftReady(w, t, h, e);
      PotentialContinued(w, r.tree, r.tree.height, FULL.left, FULL.right, r.path, r.conts.left.value);
    }
  }

  lemma PotentialMain(w: Width, t: Tree, h: int, e: Entry)
    requires t.Node? && CanWrite(w, t, h, e)
    ensures var m := Ins(w, t, h, FULL, e);
            && m.tree.Node? && (m.conts != NO_CONTS ==> Shape(m.tree, h))
            && Potential(m.tree) <= Potential(t) + if m.conts == NO_CONTS then 1 else 0
  {
    hide Phi, RootCost, Credit, Ins, Owes;
    var m := Ins(w, t, h, FULL, e);
    MainShape(w, t, h, FULL, e);
    PhiIns(w, t, h, FULL, e);
    ShapeHeight(t, h);
    PotentialRoot(t, h, m.tree, FULL.left, FULL.right, if m.conts == NO_CONTS then 1 else 0);
  }

  lemma PotentialRight(w: Width, t: Tree, h: int, e: Entry) returns (spent: nat)
    requires t.Node? && CanWrite(w, t, h, e)
    ensures var r := AfterRight(w, t, h, e);
            && r.tree.Node? && Potential(r.tree) <= Potential(t) + spent
            && spent + (if r.conts.left.Some? then 1 else 0) <= 2
  {
    hide Phi, RootCost, Credit, Ins, Owes, Continued, Shape, Fits, Ready, Potential;
    var m := Ins(w, t, h, FULL, e);
    MainShape(w, t, h, FULL, e);
    PotentialMain(w, t, h, e);
    spent := if m.conts == NO_CONTS || m.conts.right.Some? then 1 else 0;
    if m.conts.right.Some? {
      RightReady(w, t, h, e);
      PotentialContinued(w, m.tree, h, FULL.left, FULL.right, m.path, m.conts.right.value);
    }
  }

  lemma {:induction false} RootCostClosed(h: int)
    requires h >= 0
    ensures 2 * RootCost(h) + 3 == Pow3(h + 1)
    decreases h
  {
    if h > 0 {
      RootCostClosed(h - 1);
    }
  }
}
