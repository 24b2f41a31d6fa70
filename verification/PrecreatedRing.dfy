/** The queue of precreated logs in gdpfs_log.c: one producer thread, any number of consumers, a
    ring of slots, one mutex and one condition variable. The producer fills a slot without
    holding the mutex. */
module PrecreatedRing {

  type Name = int

  /** Where a consumer, that is one call of gdpfs_log_get_precreated, is: at the head of its loop
      with the mutex to be taken, asleep on the condition variable, or done with log number `ticket`. A
      notified sleeper has been woken but has not got the mutex yet. */
  datatype Consumer = Calling | Asleep(notified: bool) | Returned(name: Name, ticket: nat)

  /** Where the producer is: at the head of its loop, asleep, or filling the slot at `back`. */
  datatype Producer = Checking | Sleeping(notified: bool) | Filling

  /** `produced` and `taken` are the history: all logs that were published, and how many were
      handed out. */
  datatype Ring = Ring(slots: seq<Name>, front: nat, back: nat, producer: Producer, consumers: map<nat, Consumer>,
                       produced: seq<Name>, taken: nat)

  function Next(x: nat, n: nat): nat
    requires x < n
  {
    if x + 1 == n then 0 else x + 1
  }

  ghost predicate Init(s: Ring) {
    && |s.slots| > 0 && s.front == 0 && s.back == 0 && s.producer == Checking
    && (forall c :: c in s.consumers ==> s.consumers[c] == Calling)
    && s.produced == [] && s.taken == 0
  }

  ghost predicate Indices(s: Ring) {
    s.front < |s.slots| && s.back < |s.slots|
  }

  predicate Full(s: Ring)
    requires s.back < |s.slots|
  {
    s.front == Next(s.back, |s.slots|)
  }

  predicate Empty(s: Ring) {
    s.front == s.back
  }

  function Woken(c: Consumer): Consumer {
    if c.Asleep? then Asleep(true) else c
  }

  function Broadcast(s: Ring): Ring {
    s.(producer := if s.producer.Sleeping? then Sleeping(true) else s.producer,
    consumers := map c | c in s.consumers :: Woken(s.consumers[c]))
  }

  /** Some sleeper has not been notified. */
  ghost predicate SomeAsleep(s: Ring) {
    s.producer == Sleeping(false) || exists c :: c in s.consumers && s.consumers[c] == Asleep(false)
  }

  /** One sleeper is woken: the producer, or a consumer. */
  ghost predicate WakesOne(s: Ring, s': Ring) {
    || (s.producer == Sleeping(false) && s' == s.(producer := Sleeping(true)))
    || (exists c :: c in s.consumers && s.consumers[c] == Asleep(false) && s' == s.(consumers := s.consumers[c := Asleep(true)]))
  }

  /** Signalling wakes one sleeper, whichever, if there is one. */
  ghost predicate Signalled(s: Ring, s': Ring) {
    if SomeAsleep(s) then WakesOne(s, s') else s' == s
  }

  /** The producer has the mutex at the head of its loop. */
  ghost predicate ProducerChecks(s: Ring, s': Ring) {
    && Indices(s) && (s.producer == Checking || s.producer == Sleeping(true))
    && s' == s.(producer := if Full(s) then Sleeping(false) else Filling)
  }

  ghost predicate Filled(s: Ring, s': Ring, x: Name)
    requires Indices(s)
  {
    s' == s.(slots := s.slots[s.back := x])
  }

  /** Without the mutex, the slot at `back` is written, bit by bit. */
  ghost predicate ProducerFills(s: Ring, s': Ring) {
    && Indices(s) && s.producer == Filling
    && exists x :: Filled(s, s', x)
  }

  /** With the mutex again, the slot is published. */
  ghost predicate ProducerPublishes(s: Ring, s': Ring) {
    && Indices(s) && s.producer == Filling
    && var b := Next(s.back, |s.slots|);
    var p := s.(back := b, producer := Checking, produced := s.produced + [s.slots[s.back]]);
    s' == if b == Next(s.front, |s.slots|) then Broadcast(p) else p
  }

  ghost predicate Called(s: Ring, s': Ring, c: nat) {
    c !in s.consumers && s' == s.(consumers := s.consumers[c := Calling])
  }

  ghost predicate ConsumerCalls(s: Ring, s': Ring) {
    exists c :: Called(s, s', c)
  }

  /** The ring after a consumer has taken a log, before it signals. */
  ghost function Taken(s: Ring, c: nat): Ring
    requires Indices(s)
  {
    s.(front := Next(s.front, |s.slots|), consumers := s.consumers[c := Returned(s.slots[s.front], s.taken)], taken := s.taken + 1)
  }

  /** A consumer has the mutex at the head of its loop. */
  ghost predicate ConsumerChecks(s: Ring, s': Ring, c: nat) {
    && Indices(s) && c in s.consumers && (s.consumers[c] == Calling || s.consumers[c] == Asleep(true))
    && if Empty(s) then s' == s.(consumers := s.consumers[c := Asleep(false)])
       else Signalled(Taken(s, c), s')
  }

  /** A step of some thread. A sleeper may also wake up for no reason. */
  ghost predicate Step(s: Ring, s': Ring) {
    || ProducerChecks(s, s') || ProducerFills(s, s') || ProducerPublishes(s, s')
    || ConsumerCalls(s, s') || (exists c :: ConsumerChecks(s, s', c)) || WakesOne(s, s')
  }

  ghost predicate Run(ss: seq<Ring>) {
    && ss != [] && Init(ss[0])
    && forall i :: 0 <= i < |ss| - 1 ==> Step(ss[i], ss[i + 1])
  }

  /** The slot of log number i. */
  ghost function SlotOf(i: nat, n: nat): (x: nat)
    requires n > 0
    ensures x < n
  {
    if i == 0 then 0 else Next(SlotOf(i - 1, n), n)
  }

  lemma {:induction false} SlotAhead(i: nat, d: nat, n: nat)
    requires n > 0 && d <= n
    ensures SlotOf(i + d, n) == if SlotOf(i, n) + d < n then SlotOf(i, n) + d else SlotOf(i, n) + d - n
    decreases d
  {
    if d > 0 {
      SlotAhead(i, d - 1, n);
    }
  }

  /** The logs between `taken` and `produced` lie in the ring, in their order. */
  ghost predicate Queued(s: Ring) {
    && |s.slots| > 0 && Indices(s) && s.taken <= |s.produced| < s.taken + |s.slots|
    && s.front == SlotOf(s.taken, |s.slots|) && s.back == SlotOf(|s.produced|, |s.slots|)
    && forall i :: s.taken <= i < |s.produced| ==> s.slots[SlotOf(i, |s.slots|)] == s.produced[i]
  }

  /** Consumer c has log number k. */
  ghost predicate Holds(s: Ring, c: nat, k: nat) {
    c in s.consumers && s.consumers[c].Returned? && s.consumers[c].ticket == k
  }

  ghost predicate Held(s: Ring, k: nat) {
    exists c :: Holds(s, c, k)
  }

  /** Every log that was handed out went to one consumer, and to no other. */
  ghost predicate HandedOut(s: Ring) {
    && (forall c :: c in s.consumers && s.consumers[c].Returned? ==>
                      s.consumers[c].ticket < s.taken <= |s.produced| && s.consumers[c].name == s.produced[s.consumers[c].ticket])
    && (forall c, d :: c in s.consumers && d in s.consumers && c != d && s.consumers[c].Returned? && s.consumers[d].Returned? ==>
                         s.consumers[c].ticket != s.consumers[d].ticket)
    && (forall k :: 0 <= k < s.taken ==> Held(s, k))
  }

  /** Whoever sleeps without having been notified has a reason to. */
  ghost predicate SleepersWait(s: Ring) {
    && (forall c :: c in s.consumers && s.consumers[c] == Asleep(false) ==> s.taken == |s.produced|)
    && (s.producer == Sleeping(false) ==> |s.produced| == s.taken + |s.slots| - 1)
  }

  ghost predicate Inv(s: Ring) {
    && |s.slots| >= 2 && Queued(s) && HandedOut(s) && SleepersWait(s)
    && (s.producer == Filling ==> |s.produced| < s.taken + |s.slots| - 1)
  }

  /** Empty and full, in terms of what is queued. */
  lemma EmptyFull(s: Ring)
    requires |s.slots| > 0 && Queued(s)
    ensures Empty(s) <==> s.taken == |s.produced|
    ensures Full(s) <==> |s.produced| == s.taken + |s.slots| - 1
  {
    SlotAhead(s.taken, |s.produced| - s.taken, |s.slots|);
  }

  /** The slot that is being filled is none that can be read. */
  lemma FillingIsApart(s: Ring, i: nat)
    requires Queued(s) && s.taken <= i < |s.produced|
    ensures SlotOf(i, |s.slots|) != s.back
  {
    SlotAhead(i, |s.produced| - i, |s.slots|);
  }

  lemma InitInv(s: Ring)
    requires Init(s) && |s.slots| >= 2
    ensures Inv(s)
  {
  }

  lemma ChecksInv(s: Ring, s': Ring)
    requires Inv(s) && ProducerChecks(s, s')
    ensures Inv(s')
  {
    EmptyFull(s);
    KeepsHandedOut(s, s');
  }

  lemma FillsInv(s: Ring, s': Ring)
    requires Inv(s) && ProducerFills(s, s')
    ensures Inv(s')
  {
    forall i | s.taken <= i < |s.produced|
      ensures s'.slots[SlotOf(i, |s'.slots|)] == s.produced[i]
    {
      FillingIsApart(s, i);
    }
    KeepsHandedOut(s, s');
  }

  lemma PublishesInv(s: Ring, s': Ring)
    requires Inv(s) && ProducerPublishes(s, s')
    ensures Inv(s')
  {
    hide SlotOf;
    var n := |s.slots|;
    SlotAhead(|s.produced|, 1, n);
    forall i | s'.taken <= i < |s'.produced|
      ensures s'.slots[SlotOf(i, n)] == s'.produced[i]
    {
    }
    var p := s.(back := s'.back, producer := Checking, produced := s'.produced);
    assert Queued(p);
    EmptyFull(s);
    if s.taken == |s.produced| {
      assert s'.back == Next(s.front, n);
    }
    assert HandedOut(s') by {
      forall k | 0 <= k < s'.taken
        ensures Held(s', k)
      {
        assert Held(s, k);
        var c :| Holds(s, c, k);
        assert Holds(s', c, k);
      }
    }
  }

  lemma CallsInv(s: Ring, s': Ring)
    requires Inv(s) && ConsumerCalls(s, s')
    ensures Inv(s')
  {
    var c :| Called(s, s', c);
    KeepsHandedOut(s, s');
  }

  /** A step that hands out nothing. */
  lemma KeepsHandedOut(s: Ring, s': Ring)
    requires HandedOut(s) && s'.produced == s.produced && s'.taken == s.taken
    requires forall c :: c in s.consumers && s.consumers[c].Returned? ==> c in s'.consumers && s'.consumers[c] == s.consumers[c]
    requires forall c :: c in s'.consumers && s'.consumers[c].Returned? ==> c in s.consumers && s'.consumers[c] == s.consumers[c]
    ensures HandedOut(s')
  {
    forall k | 0 <= k < s'.taken
      ensures Held(s', k)
    {
      assert Held(s, k);
      var c :| Holds(s, c, k);
      assert Holds(s', c, k);
    }
  }

  lemma WakesInv(s: Ring, s': Ring)
    requires Inv(s) && WakesOne(s, s')
    ensures Inv(s')
  {
    KeepsHandedOut(s, s');
  }

  lemma SleepsInv(s: Ring, s': Ring, c: nat)
    requires Inv(s) && ConsumerChecks(s, s', c) && Empty(s)
    ensures Inv(s')
  {
    EmptyFull(s);
    KeepsHandedOut(s, s');
  }

  /** What a consumer takes is the oldest log in the ring. */
  lemma TakesOldest(s: Ring)
    requires Inv(s) && !Empty(s)
    ensures s.taken < |s.produced| && s.slots[s.front] == s.produced[s.taken]
    ensures Next(s.front, |s.slots|) == SlotOf(s.taken + 1, |s.slots|)
  {
    EmptyFull(s);
  }

  lemma TakenHandedOut(s: Ring, c: nat)
    requires Inv(s) && !Empty(s) && c in s.consumers && !s.consumers[c].Returned?
    ensures HandedOut(Taken(s, c)) && Queued(Taken(s, c))
  {
    hide SlotOf;
    TakesOldest(s);
    var s' := Taken(s, c);
    forall k | 0 <= k < s'.taken
      ensures Held(s', k)
    {
      if k == s.taken {
        assert Holds(s', c, k);
      } else {
        assert Held(s, k);
        var d :| Holds(s, d, k);
        assert Holds(s', d, k);
      }
    }
  }

  /** When a consumer takes a log, the signal reaches the producer if that one needs it: no consumer can
      be asleep without having been notified, for the ring was not empty. */
  lemma TakesInv(s: Ring, s': Ring, c: nat)
    requires Inv(s) && ConsumerChecks(s, s', c) && !Empty(s)
    ensures Inv(s')
  {
    hide SlotOf, HandedOut, Queued;
    var t := Taken(s, c);
    TakenHandedOut(s, c);
    QueuedBounds(s);
    EmptyFull(s);
    if SomeAsleep(t) {
      assert t.producer == Sleeping(false);
      assert s' == t.(producer := Sleeping(true));
      SameQueue(t, s');
      KeepsHandedOut(t, s');
    }
  }

  lemma QueuedBounds(s: Ring)
    requires Queued(s)
    ensures Indices(s) && s.taken <= |s.produced| < s.taken + |s.slots|
  {
  }

  lemma SameQueue(s: Ring, s': Ring)
    requires Queued(s) && s'.slots == s.slots && s'.front == s.front && s'.back == s.back
    requires s'.produced == s.produced && s'.taken == s.taken
    ensures Queued(s')
  {
  }

  lemma StepInv(s: Ring, s': Ring)
    requires Inv(s) && Step(s, s')
    ensures Inv(s') && |s'.slots| == |s.slots|
  {
    hide Inv;
    if ProducerChecks(s, s') {
      ChecksInv(s, s');
    } else if ProducerFills(s, s') {
      FillsInv(s, s');
    } else if ProducerPublishes(s, s') {
      PublishesInv(s, s');
    } else if ConsumerCalls(s, s') {
      CallsInv(s, s');
    } else if WakesOne(s, s') {
      WakesInv(s, s');
    } else {
      var c :| ConsumerChecks(s, s', c);
      if Empty(s) {
        SleepsInv(s, s', c);
      } else {
        TakesInv(s, s', c);
      }
    }
  }

  /** Over every run: the k-th log that is handed out is the k-th that was published, it goes to
      exactly one consumer; the slot that is being filled cannot be read; nobody sleeps
      without reason and without having been notified. */
  lemma {:induction false} RunSafe(ss: seq<Ring>, i: nat)
    requires Run(ss) && |ss[0].slots| >= 2 && i < |ss|
    ensures Inv(ss[i])
    decreases i
  {
    hide Inv, Step;
    if i == 0 {
      InitInv(ss[0]);
    } else {
      RunSafe(ss, i - 1);
      StepInv(ss[i - 1], ss[i]);
    }
  }

  /** Steps from s on, each from where the last one ended. */
  ghost predicate Path(ss: seq<Ring>, s: Ring) {
    && ss != [] && ss[0] == s
    && forall i :: 0 <= i < |ss| - 1 ==> Step(ss[i], ss[i + 1])
  }

  lemma PathOn(ss: seq<Ring>, s: Ring, s': Ring)
    requires Path(ss, s) && Step(ss[|ss| - 1], s')
    ensures Path(ss + [s'], s)
  {
    hide Step;
  }

  /** Unless the ring is full, the producer goes on to publish a log, whatever its name, and nobody has
      to do anything for it. */
  lemma Publishes(s: Ring, x: Name) returns (ss: seq<Ring>)
    requires Inv(s) && !Full(s)
    ensures Path(ss, s) && Inv(ss[|ss| - 1])
    ensures var s' := ss[|ss| - 1];
            && s'.produced == s.produced + [x] && s'.taken == s.taken && s'.producer == Checking
            && s'.consumers.Keys == s.consumers.Keys
            && forall c :: c in s.consumers ==>
                             s'.consumers[c] == if Empty(s) then Woken(s.consumers[c]) else s.consumers[c]
  {
    hide Inv;
    var f := s;
    ss := [s];
    InvFacts(s);
    if s.producer != Filling {
      f := s.(producer := Filling);
      assert ProducerChecks(s, f);
      ss := [s, f];
      StepInv(s, f);
    }
    var g := f.(slots := f.slots[f.back := x]);
    assert Filled(f, g, x);
    assert ProducerFills(f, g);
    PathOn(ss, s, g);
    StepInv(f, g);
    ss := ss + [g];
    var b := Next(g.back, |g.slots|);
    var p := g.(back := b, producer := Checking, produced := g.produced + [g.slots[g.back]]);
    var h := if b == Next(g.front, |g.slots|) then Broadcast(p) else p;
    assert ProducerPublishes(g, h);
    PathOn(ss, s, h);
    StepInv(g, h);
    ss := ss + [h];
    NextOnce(g);
  }

  lemma InvFacts(s: Ring)
    requires Inv(s)
    ensures Indices(s) && |s.slots| >= 2 && s.taken <= |s.produced|
    ensures !Full(s) ==> s.producer != Sleeping(false)
    ensures Empty(s) <==> s.taken == |s.produced|
    ensures !Empty(s) ==> forall c :: c in s.consumers ==> s.consumers[c] != Asleep(false)
    ensures Empty(s) ==> !Full(s)
  {
    EmptyFull(s);
  }

  /** The slot after `back` is the slot after `front` if and only if these are the same. */
  lemma NextOnce(s: Ring)
    requires Indices(s)
    ensures Next(s.back, |s.slots|) == Next(s.front, |s.slots|) <==> Empty(s)
  {
  }

  /** A consumer that is not asleep gets the oldest log in the ring. */
  lemma Takes(s: Ring, c: nat) returns (s': Ring)
    requires Inv(s) && !Empty(s) && c in s.consumers && !s.consumers[c].Returned?
    ensures Step(s, s') && Inv(s') && s.taken < |s.produced|
    ensures s'.produced == s.produced && s'.taken == s.taken + 1
    ensures s'.consumers == s.consumers[c := Returned(s.produced[s.taken], s.taken)]
  {
    hide Inv;
    InvFacts(s);
    TakesOldest(s);
    var t := Taken(s, c);
    s' := if t.producer == Sleeping(false) then t.(producer := Sleeping(true)) else t;
    assert !SomeAsleep(t) || t.producer == Sleeping(false);
    assert Signalled(t, s');
    assert ConsumerChecks(s, s', c);
    StepInv(s, s');
  }

  /** Nobody waits in vain: from every reachable state some steps lead to the end of any call that has
      not ended. It gets the oldest log there is; if there is none, a new one is published, and
      a sleeping consumer is woken for it. */
  lemma Served(s: Ring, c: nat, x: Name) returns (ss: seq<Ring>)
    requires Inv(s) && c in s.consumers && !s.consumers[c].Returned?
    ensures Path(ss, s) && Inv(ss[|ss| - 1])
    ensures var s' := ss[|ss| - 1];
            && s'.produced == (if Empty(s) then s.produced + [x] else s.produced) && s'.taken == s.taken + 1 <= |s'.produced|
            && c in s'.consumers && s'.consumers[c] == Returned(s'.produced[s.taken], s.taken)
            && s'.consumers.Keys == s.consumers.Keys
            && forall d :: d in s.consumers && s.consumers[d].Returned? ==> s'.consumers[d] == s.consumers[d]
  {
    hide Inv;
    InvFacts(s);
    ss := [s];
    if Empty(s) {
      ss := Publishes(s, x);
    }
    var t := ss[|ss| - 1];
    InvFacts(t);
    var s' := Takes(t, c);
    PathOn(ss, s, s');
    ss := ss + [s'];
  }

  /** If the ring is full, the next call makes room, and the producer is woken for it if it sleeps. So
      from every reachable state a log can be published. */
  lemma Produces(s: Ring, c: nat, x: Name) returns (ss: seq<Ring>)
    requires Inv(s) && c !in s.consumers
    ensures Path(ss, s) && Inv(ss[|ss| - 1]) && ss[|ss| - 1].produced == s.produced + [x]
  {
    hide Inv;
    InvFacts(s);
    if Full(s) {
      var t := s.(consumers := s.consumers[c := Calling]);
      assert Called(s, t, c);
      StepInv(s, t);
      var u := Takes(t, c);
      PathOn([s], s, t);
      PathOn([s] + [t], s, u);
      FullOnce(s, t, u);
      var more := Publishes(u, x);
      ss := PathJoin([s] + [t] + [u], more, s);
    } else {
      ss := Publishes(s, x);
    }
  }

  lemma FullOnce(s: Ring, t: Ring, u: Ring)
    requires Inv(t) && Inv(u) && u.produced == t.produced && u.taken == t.taken + 1 && |u.slots| == |t.slots|
    ensures !Full(u)
  {
    EmptyFull(u);
    EmptyFull(t);
  }

  lemma PathJoin(ss: seq<Ring>, more: seq<Ring>, s: Ring) returns (all: seq<Ring>)
    requires Path(ss, s) && Path(more, ss[|ss| - 1])
    ensures Path(all, s) && all[|all| - 1] == more[|more| - 1]
  {
    hide Step;
    all := ss + more[1..];
    forall i | 0 <= i < |all| - 1
      ensures Step(all[i], all[i + 1])
    {
      if i >= |ss| - 1 {
        assert all[i] == more[i - (|ss| - 1)] && all[i + 1] == more[i + 1 - (|ss| - 1)];
      }
    }
  }

  /** As many calls as there are names have been made, and each has got the log of its name. */
  ghost predicate AllServed(s: Ring, names: seq<Name>) {
    && s.produced == names && s.taken == |names|
    && (forall k :: k in s.consumers ==> k < |names|)
    && forall k: nat :: k < |names| ==> k in s.consumers && s.consumers[k] == Returned(names[k], k)
  }

  /** Any number of calls can end, whatever the names of the logs are to be. */
  lemma {:induction false} RunTakes(n: nat, names: seq<Name>) returns (ss: seq<Ring>)
    requires n >= 2
    ensures Run(ss) && |ss[0].slots| == n && AllServed(ss[|ss| - 1], names)
    decreases |names|
  {
    hide Inv, Step, AllServed;
    if names == [] {
      ss := [Ring(seq(n, _ => 0), 0, 0, Checking, map[], [], 0)];
      NoneServed(ss[0]);
    } else {
      var k := |names| - 1;
      var first := RunTakes(n, names[..k]);
      RunSafe(first, |first| - 1);
      var more := OneMore(first[|first| - 1], names[..k], names[k]);
      assert names == names[..k] + [names[k]];
      ss := PathJoin(first, more, first[0]);
    }
  }

  lemma NoneServed(s: Ring)
    requires s.produced == [] && s.taken == 0 && s.consumers == map[]
    ensures AllServed(s, [])
  {
  }

  lemma OneMore(s: Ring, names: seq<Name>, x: Name) returns (ss: seq<Ring>)
    requires Inv(s) && AllServed(s, names)
    ensures Path(ss, s) && AllServed(ss[|ss| - 1], names + [x])
  {
    hide Inv, Step;
    InvFacts(s);
    var k := |names|;
    var t := s.(consumers := s.consumers[k := Calling]);
    assert Called(s, t, k);
    StepCall(s, t, k);
    StepInv(s, t);
    var more := Served(t, k, x);
    ss := PathJoin([s] + [t], more, s);
  }

  lemma StepCall(s: Ring, s': Ring, c: nat)
    requires Called(s, s', c)
    ensures Step(s, s')
  {
  }

  /** The producer takes its turn with the mutex. */
  ghost predicate Turn(s: Ring, s': Ring) {
    ProducerChecks(s, s') || ProducerPublishes(s, s')
  }

  /** What any step does to what was produced, and to a producer that is filling a slot. */
  lemma StepProduces(s: Ring, s': Ring)
    requires Inv(s) && Step(s, s')
    ensures s.produced <= s'.produced
    ensures s.producer == Filling && s'.produced == s.produced ==> s'.producer == Filling && !Turn(s, s')
    ensures Turn(s, s') && !Full(s) && s'.produced == s.produced ==> s'.producer == Filling
  {
  }

  /** In every run, two turns of the producer publish a log, unless it finds the ring full. */
  lemma {:induction false} TwoTurns(ss: seq<Ring>, i: nat, j: nat)
    requires ss != [] && Inv(ss[0]) && Path(ss, ss[0]) && i < j < |ss| - 1
    requires Turn(ss[i], ss[i + 1]) && Turn(ss[j], ss[j + 1]) && Indices(ss[i]) && !Full(ss[i])
    ensures |ss[i].produced| < |ss[j + 1].produced|
  {
    hide Inv, Step, Turn;
    PathInv(ss, i);
    PathInv(ss, j);
    StepProduces(ss[i], ss[i + 1]);
    StillFilling(ss, i + 1, j);
    StepProduces(ss[j], ss[j + 1]);
  }

  lemma {:induction false} PathInv(ss: seq<Ring>, i: nat)
    requires ss != [] && Inv(ss[0]) && Path(ss, ss[0]) && i < |ss|
    ensures Inv(ss[i])
    decreases i
  {
    hide Inv, Step;
    if i > 0 {
      PathInv(ss, i - 1);
      StepInv(ss[i - 1], ss[i]);
    }
  }

  /** A producer that is filling a slot goes on with it until it publishes. */
  lemma {:induction false} StillFilling(ss: seq<Ring>, i: nat, j: nat)
    requires ss != [] && Inv(ss[0]) && Path(ss, ss[0]) && i <= j < |ss|
    ensures ss[i].produced <= ss[j].produced
    ensures ss[i].producer == Filling && ss[j].produced == ss[i].produced ==> ss[j].producer == Filling
    decreases j - i
  {
    hide Inv, Step;
    if i < j {
      PathInv(ss, i);
      StepProduces(ss[i], ss[i + 1]);
      StillFilling(ss, i + 1, j);
    }
  }

  /** The producer and some consumer are asleep, and nobody is going to wake them. */
  ghost predicate Stuck(s: Ring) {
    s.producer == Sleeping(false) && exists c :: c in s.consumers && s.consumers[c] == Asleep(false)
  }

  lemma NeverStuck(ss: seq<Ring>, i: nat)
    requires Run(ss) && |ss[0].slots| >= 2 && i < |ss|
    ensures !Stuck(ss[i])
  {
    RunSafe(ss, i);
  }

  /** With one slot, the ring is full when it is empty, and all go to sleep. */
  lemma OneSlotGetsStuck() returns (ss: seq<Ring>)
    ensures Run(ss) && |ss[0].slots| == 1 && Stuck(ss[|ss| - 1])
  {
    var s0 := Ring([0], 0, 0, Checking, map[0 := Calling], [], 0);
    var s1 := s0.(producer := Sleeping(false));
    var s2 := s1.(consumers := map[0 := Asleep(false)]);
    assert ProducerChecks(s0, s1);
    assert s1.consumers[0 := Asleep(false)] == s2.consumers;
    assert ConsumerChecks(s1, s2, 0);
    ss := [s0, s1, s2];
    assert Step(s0, s1) && Step(s1, s2);
    assert s2.consumers[0] == Asleep(false);
  }

  /** Some run over n slots ends with everybody asleep. */
  ghost predicate CanGetStuck(n: nat) {
    exists ss: seq<Ring> :: Run(ss) && |ss[0].slots| == n && Stuck(ss[|ss| - 1])
  }

  /** Two slots are enough, and needed. */
  lemma TwoSlotsNeeded(n: nat)
    requires n > 0
    ensures CanGetStuck(n) <==> n < 2
  {
    if CanGetStuck(n) && n >= 2 {
      var ss: seq<Ring> :| Run(ss) && |ss[0].slots| == n && Stuck(ss[|ss| - 1]);
      NeverStuck(ss, |ss| - 1);
      assert false;
    }
    if n < 2 {
      var ss := OneSlotGetsStuck();
    }
  }
}
