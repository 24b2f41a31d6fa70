/** Open files, their reference counts and the list of recently closed files, which get a second
    chance (gdpfs_file.c). Every handler is one atomic step. */
module FileTable {

  const RC_CAP: nat := 256

  type Name = nat
  type FileId = nat
  type Ticket = nat

  /** gdpfs_file_t. Of its index, only whether the root has changed since it was last written:
      get_dirty finds nothing below a clean root. */
  datatype FileRec =
    FileRec(name: Name, refCount: int, outstandingReqs: int, indexFlushReqs: int, recentlyClosed: bool, rootDirty: bool)

  type Files = map<FileId, FileRec>
  type Tickets = map<Ticket, FileId>

  /** The tickets for file f. */
  ghost function HeldBy(m: Tickets, f: FileId): set<Ticket> {
    set t | t in m && m[t] == f
  }

  /** How many tickets are for file f. */
  ghost function Held(m: Tickets, f: FileId): nat {
    |HeldBy(m, f)|
  }

  lemma HeldAdd(m: Tickets, t: Ticket, f: FileId, g: FileId)
    requires t !in m
    ensures Held(m[t := f], g) == Held(m, g) + if f == g then 1 else 0
  {
    assert HeldBy(m[t := f], g) == if f == g then HeldBy(m, g) + {t} else HeldBy(m, g);
  }

  lemma HeldRemove(m: Tickets, t: Ticket, g: FileId)
    requires t in m
    ensures Held(m, g) == Held(m - {t}, g) + if m[t] == g then 1 else 0
  {
    assert HeldBy(m, g) == if m[t] == g then HeldBy(m - {t}, g) + {t} else HeldBy(m - {t}, g);
  }

  lemma HeldNone(m: Tickets, f: FileId)
    ensures Held(m, f) == 0 <==> f !in m.Values
  {
    if HeldBy(m, f) != {} {
      var t :| t in HeldBy(m, f);
      assert m[t] == f;
    }
    if f in m.Values {
      var t :| t in m && m[t] == f;
      assert t in HeldBy(m, f);
    }
  }

  ghost predicate Distinct(s: seq<FileId>) {
    forall i, j :: 0 <= i < j < |s| ==> s[i] != s[j]
  }

  /** The counts of file f, where `extra` references and `lag` outstanding appends are not yet taken off. */
  ghost predicate CountsOf(r: FileRec, f: FileId, handles: Tickets, appends: Tickets, flushes: Tickets, extra: int) {
    && r.refCount == Held(handles, f) + Held(appends, f) + extra
    && r.outstandingReqs == Held(appends, f)
    && r.indexFlushReqs == Held(flushes, f)
  }

  /** The reference count is the number of open handles and appends in flight; and so on. File x
      may have one reference too many. */
  ghost predicate Counted(files: Files, handles: Tickets, appends: Tickets, flushes: Tickets, x: FileId, extra: int) {
    forall f :: f in files ==> CountsOf(files[f], f, handles, appends, flushes, if f == x then extra else 0)
  }

  /** The files on the list are those with the flag, and nobody uses them. */
  ghost predicate Listed(files: Files, list: seq<FileId>) {
    && Distinct(list) && (forall f :: f in list ==> f in files)
    && (forall f :: f in files ==> (files[f].recentlyClosed <==> f in list))
    && (forall f :: f in files && files[f].recentlyClosed ==> files[f].refCount == 0)
  }

  ghost predicate Hashed(files: Files, fileHash: map<Name, FileId>) {
    && (forall f :: f in files ==> files[f].name in fileHash && fileHash[files[f].name] == f)
    && (forall n :: n in fileHash ==> fileHash[n] in files && files[fileHash[n]].name == n)
  }

  /** No ticket is for a file that has been freed. */
  ghost predicate Refers(files: Files, m: Tickets) {
    forall t :: t in m ==> m[t] in files
  }

  /** The list after a file has been put in front, with room for RC_CAP files. */
  function Fronted(list: seq<FileId>, f: FileId): seq<FileId> {
    if |list| < RC_CAP then [f] + list else [f] + list[..RC_CAP - 1]
  }

  /** The file that has to make room when one is put in front of the list. */
  function Evicted(list: seq<FileId>): set<FileId> {
    if |list| >= RC_CAP then {list[RC_CAP - 1]} else {}
  }

  /** The files whose index would give a checkpoint. */
  function Dirty(files: Files): set<FileId> {
    set f | f in files && files[f].rootDirty
  }

  /** The checkpoints on their way once a file has been put in front of the list: if another one had
      to go and has anything to checkpoint, that one's is among them. */
  function Flushed(list: seq<FileId>, flushes: Tickets, files: Files, flush: Ticket): Tickets {
    if |list| >= RC_CAP && list[RC_CAP - 1] in Dirty(files) then flushes[flush := list[RC_CAP - 1]] else flushes
  }

  /** What dropping a reference does to the list, to the checkpoints and to what there is to
      checkpoint: nothing, unless it was the last one. */
  ghost predicate Dropped(used: bool, list: seq<FileId>, list': seq<FileId>, flushes: Tickets, flushes': Tickets,
                          files: Files, files': Files, f: FileId, flush: Ticket) {
    if used then list' == list && flushes' == flushes && Dirty(files') == Dirty(files)
    else
      && list' == Fronted(list, f) && flushes' == Flushed(list, flushes, files, flush)
      && Dirty(files') == Dirty(files) - Evicted(list)
  }

  /** File x is in memory and in the table, but nothing refers to it any more: there is no handle
      to close, no append to be acknowledged, no checkpoint to finish, and it is not on the list. */
  ghost predicate Orphaned(files: Files, handles: Tickets, appends: Tickets, flushes: Tickets, list: seq<FileId>, x: FileId) {
    x in files && x !in handles.Values && x !in appends.Values && x !in flushes.Values && x !in list
  }

  /** The list without a file, in its old order. */
  ghost predicate Revived(list: seq<FileId>, list': seq<FileId>, f: FileId) {
    if f in list then exists k :: 0 <= k < |list| && list[k] == f && list' == list[..k] + list[k + 1..]
    else list' == list
  }

  lemma HashedSame(files: Files, fileHash: map<Name, FileId>, f: FileId, r: FileRec)
    requires Hashed(files, fileHash) && f in files && r.name == files[f].name
    ensures Hashed(files[f := r], fileHash)
  {
  }

  lemma RefersSame(files: Files, files': Files, m: Tickets)
    requires Refers(files, m) && files.Keys <= files'.Keys
    ensures Refers(files', m)
  {
    assert forall f :: f in files ==> f in files.Keys && f in files'.Keys && f in files';
  }

  lemma RefersAdd(files: Files, m: Tickets, t: Ticket, f: FileId)
    requires Refers(files, m) && f in files
    ensures Refers(files, m[t := f])
  {
  }

  lemma RefersRemove(files: Files, m: Tickets, t: Ticket)
    requires Refers(files, m)
    ensures Refers(files, m - {t})
  {
  }

  /** A record changes only in its counts; a file on the list must not get references. */
  lemma ListedSame(files: Files, list: seq<FileId>, f: FileId, r: FileRec)
    requires Listed(files, list) && f in files && r.recentlyClosed == files[f].recentlyClosed
    requires r.recentlyClosed ==> r.refCount == 0
    ensures Listed(files[f := r], list)
  {
  }

  lemma CountedRef(files: Files, handles: Tickets, appends: Tickets, flushes: Tickets, x: FileId, r: FileRec, extra: int)
    requires Counted(files, handles, appends, flushes, x, extra) && x in files
    requires r.outstandingReqs == files[x].outstandingReqs && r.indexFlushReqs == files[x].indexFlushReqs
    ensures Counted(files[x := r], handles, appends, flushes, x, extra + r.refCount - files[x].refCount)
  {
    hide Held;
  }

  /** No file has an extra reference: it does not matter which. */
  lemma CountedAny(files: Files, handles: Tickets, appends: Tickets, flushes: Tickets, x: FileId, y: FileId)
    requires Counted(files, handles, appends, flushes, x, 0)
    ensures Counted(files, handles, appends, flushes, y, 0)
  {
    hide CountsOf;
    forall f | f in files ensures CountsOf(files[f], f, handles, appends, flushes, 0) {
      assert (if f == x then 0 else 0) == 0;
    }
  }

  lemma CountedHandle(files: Files, handles: Tickets, appends: Tickets, flushes: Tickets, t: Ticket, x: FileId)
    requires Counted(files, handles, appends, flushes, x, 1) && t !in handles
    ensures Counted(files, handles[t := x], appends, flushes, x, 0)
  {
    hide Held;
    forall f | f in files
      ensures CountsOf(files[f], f, handles[t := x], appends, flushes, 0)
    {
      HeldAdd(handles, t, x, f);
    }
  }

  lemma CountedNoHandle(files: Files, handles: Tickets, appends: Tickets, flushes: Tickets, t: Ticket)
    requires t in handles && Counted(files, handles, appends, flushes, handles[t], 0)
    ensures Counted(files, handles - {t}, appends, flushes, handles[t], 1)
  {
    hide Held;
    forall f | f in files
      ensures CountsOf(files[f], f, handles - {t}, appends, flushes, if f == handles[t] then 1 else 0)
    {
      HeldRemove(handles, t, f);
    }
  }

  lemma CountedAppend(files: Files, handles: Tickets, appends: Tickets, flushes: Tickets, t: Ticket, x: FileId, r: FileRec)
    requires Counted(files, handles, appends, flushes, x, 0) && t !in appends && x in files
    requires r.refCount == files[x].refCount + 1 && r.outstandingReqs == files[x].outstandingReqs + 1
    requires r.indexFlushReqs == files[x].indexFlushReqs
    ensures Counted(files[x := r], handles, appends[t := x], flushes, x, 0)
  {
    hide Held;
    forall f ensures Held(appends[t := x], f) == Held(appends, f) + if f == x then 1 else 0 {
      HeldAdd(appends, t, x, f);
    }
  }

  lemma CountedNoAppend(files: Files, handles: Tickets, appends: Tickets, flushes: Tickets, t: Ticket)
    requires t in appends && appends[t] in files && Counted(files, handles, appends, flushes, appends[t], 0)
    ensures var x := appends[t];
            Counted(files[x := files[x].(outstandingReqs := files[x].outstandingReqs - 1)], handles, appends - {t}, flushes, x, 1)
  {
    hide Held;
    forall f ensures Held(appends, f) == Held(appends - {t}, f) + if f == appends[t] then 1 else 0 {
      HeldRemove(appends, t, f);
    }
  }

  lemma CountedFlush(files: Files, handles: Tickets, appends: Tickets, flushes: Tickets, t: Ticket, x: FileId, r: FileRec)
    requires Counted(files, handles, appends, flushes, x, 0) && t !in flushes && x in files
    requires r.refCount == files[x].refCount && r.outstandingReqs == files[x].outstandingReqs
    requires r.indexFlushReqs == files[x].indexFlushReqs + 1
    ensures Counted(files[x := r], handles, appends, flushes[t := x], x, 0)
  {
    hide Held;
    forall f ensures Held(flushes[t := x], f) == Held(flushes, f) + if f == x then 1 else 0 {
      HeldAdd(flushes, t, x, f);
    }
  }

  lemma CountedNoFlush(files: Files, handles: Tickets, appends: Tickets, flushes: Tickets, t: Ticket)
    requires t in flushes && flushes[t] in files && Counted(files, handles, appends, flushes, flushes[t], 0)
    ensures var x := flushes[t];
            Counted(files[x := files[x].(indexFlushReqs := files[x].indexFlushReqs - 1)], handles, appends, flushes - {t}, x, 0)
  {
    hide Held;
    forall f ensures Held(flushes, f) == Held(flushes - {t}, f) + if f == flushes[t] then 1 else 0 {
      HeldRemove(flushes, t, f);
    }
  }

  /** A file with all counts at 0 has no tickets. */
  lemma Unused(files: Files, handles: Tickets, appends: Tickets, flushes: Tickets, x: FileId)
    requires Counted(files, handles, appends, flushes, x, 0) && x in files
    ensures files[x].refCount == 0 <==> x !in handles.Values && x !in appends.Values
    ensures files[x].indexFlushReqs == 0 <==> x !in flushes.Values
    ensures files[x].refCount == 0 ==> files[x].outstandingReqs == 0
  {
    assert CountsOf(files[x], x, handles, appends, flushes, 0);
    HeldNone(handles, x);
    HeldNone(appends, x);
    HeldNone(flushes, x);
  }

  lemma CountedNew(files: Files, handles: Tickets, appends: Tickets, flushes: Tickets, x: FileId, name: Name, dirty: bool)
    requires Counted(files, handles, appends, flushes, x, 0) && x !in files
    requires Refers(files, handles) && Refers(files, appends) && Refers(files, flushes)
    ensures Counted(files[x := FileRec(name, 0, 0, 0, false, dirty)], handles, appends, flushes, x, 0)
  {
    HeldNone(handles, x);
    HeldNone(appends, x);
    HeldNone(flushes, x);
  }

  /** A file that nothing refers to can be freed. */
  lemma Freed(files: Files, handles: Tickets, appends: Tickets, flushes: Tickets, list: seq<FileId>, fileHash: map<Name, FileId>, x: FileId)
    requires Counted(files, handles, appends, flushes, x, 0) && Listed(files, list) && Hashed(files, fileHash) && x in files
    requires Refers(files, handles) && Refers(files, appends) && Refers(files, flushes)
    requires x !in handles.Values && x !in appends.Values && x !in flushes.Values && x !in list
    ensures var rest := files - {x};
            && Counted(rest, handles, appends, flushes, x, 0) && Listed(rest, list) && Hashed(rest, fileHash - {files[x].name})
            && Refers(rest, handles) && Refers(rest, appends) && Refers(rest, flushes)
  {
    hide CountsOf;
  }

  lemma DirtyWith(files: Files, f: FileId, r: FileRec)
    ensures Dirty(files[f := r]) == if r.rootDirty then Dirty(files) + {f} else Dirty(files) - {f}
    ensures f !in files ==> Dirty(files) - {f} == Dirty(files)
    ensures f in files && r.rootDirty == files[f].rootDirty ==> Dirty(files[f := r]) == Dirty(files)
  {
  }

  lemma ValuesAdd(m: Tickets, t: Ticket, f: FileId, x: FileId)
    requires t !in m
    ensures x in m[t := f].Values <==> x in m.Values || x == f
  {
    if x in m.Values {
      var u :| u in m && m[u] == x;
      assert m[t := f][u] == x;
    }
    assert m[t := f][t] == f;
  }

  lemma ValuesRemove(m: Tickets, t: Ticket, x: FileId)
    requires t in m
    ensures x in m.Values <==> x in (m - {t}).Values || x == m[t]
  {
    if x in m.Values && x != m[t] {
      var u :| u in m && m[u] == x;
      assert (m - {t})[u] == x;
    }
  }

  /** An open takes its file out of the orphans, and touches no other. */
  lemma OrphanedOpen(files: Files, files': Files, handles: Tickets, appends: Tickets, flushes: Tickets, list: seq<FileId>, list': seq<FileId>,
                     fh: Ticket, file: FileId, x: FileId)
    requires files'.Keys == files.Keys + {file} && Revived(list, list', file) && fh !in handles
    ensures Orphaned(files', handles[fh := file], appends, flushes, list', x) <==>
            Orphaned(files, handles, appends, flushes, list, x) && x != file
  {
    ValuesAdd(handles, fh, file, x);
    assert x in files' <==> x in files'.Keys;
    assert x in files <==> x in files.Keys;
  }

  lemma FrontedHas(list: seq<FileId>, f: FileId, x: FileId)
    requires Distinct(list) && |list| <= RC_CAP
    ensures x in Fronted(list, f) <==> x == f || (x in list && x !in Evicted(list))
    ensures x in Evicted(list) ==> x in list
  {
    if |list| == RC_CAP {
      assert list == list[..RC_CAP - 1] + [list[RC_CAP - 1]];
    }
  }

  lemma FlushedHas(list: seq<FileId>, flushes: Tickets, files: Files, flush: Ticket, x: FileId)
    requires |list| <= RC_CAP && flush !in flushes
    ensures x in Flushed(list, flushes, files, flush).Values <==> x in flushes.Values || (x in Evicted(list) && x in Dirty(files))
  {
    if |list| == RC_CAP {
      ValuesAdd(flushes, flush, list[RC_CAP - 1], x);
    }
  }

  /** Dropping a reference makes at most one orphan: the file that had to make room. */
  lemma OrphanedDropped(files: Files, files': Files, handles: Tickets, handles': Tickets, appends: Tickets, appends': Tickets,
                        flushes: Tickets, flushes': Tickets, list: seq<FileId>, list': seq<FileId>, file: FileId, flush: Ticket, x: FileId)
    requires files'.Keys == files.Keys && Listed(files, list) && |list| <= RC_CAP && flush !in flushes
    requires Dropped(file in handles'.Values || file in appends'.Values, list, list', flushes, flushes', files, files', file, flush)
    requires file in handles.Values || file in appends.Values
    requires forall y :: y in list ==> y !in handles.Values && y !in appends.Values
    requires x != file ==> (x in handles.Values <==> x in handles'.Values) && (x in appends.Values <==> x in appends'.Values)
    ensures Orphaned(files', handles', appends', flushes', list', x) <==>
            || Orphaned(files, handles, appends, flushes, list, x)
            || (file !in handles'.Values && file !in appends'.Values && x in Evicted(list) && x !in Dirty(files) && x !in flushes.Values)
  {
    hide Fronted, Flushed, Evicted, Distinct, Dirty;
    assert x in files' <==> x in files'.Keys;
    assert x in files <==> x in files.Keys;
    FrontedHas(list, file, x);
    FlushedHas(list, flushes, files, flush, x);
  }

  /** What can happen to the table. */
  datatype Event =
    | OpenFile(name: Name, fh: Ticket, newFile: FileId, dirty: bool)
    | AppendTo(fh: Ticket, req: Ticket, touched: bool)
    | CloseHandle(fh: Ticket, flush: Ticket)
    | AckAppend(req: Ticket, flush: Ticket)
    | FinishCheckpoint(flush: Ticket)
  {
    predicate Opens(n: Name) {
      OpenFile? && name == n
    }
  }

  /** The table at one moment. */
  datatype State = State(files: Files, fileHash: map<Name, FileId>, handles: Tickets, appends: Tickets, flushes: Tickets, list: seq<FileId>)

  /** The counts, the flags and the hash are right. */
  ghost predicate Good(s: State) {
    && Counted(s.files, s.handles, s.appends, s.flushes, 0, 0)
    && Refers(s.files, s.handles) && Refers(s.files, s.appends) && Refers(s.files, s.flushes)
    && Hashed(s.files, s.fileHash) && Listed(s.files, s.list) && |s.list| <= RC_CAP
  }

  ghost predicate IsOrphan(s: State, x: FileId) {
    Orphaned(s.files, s.handles, s.appends, s.flushes, s.list, x)
  }

  predicate CanHappen(s: State, ev: Event) {
    match ev
    case OpenFile(_, fh, newFile, _) => fh !in s.handles && newFile !in s.files
    case AppendTo(fh, req, _) => fh in s.handles && req !in s.appends
    case CloseHandle(fh, flush) => fh in s.handles && flush !in s.flushes
    case AckAppend(req, flush) => req in s.appends && flush !in s.flushes
    case FinishCheckpoint(flush) => flush in s.flushes
  }

  /** The file that an open of this name gets: the one in the table, or a new one. */
  function FileOf(s: State, name: Name, newFile: FileId): FileId {
    if name in s.fileHash then s.fileHash[name] else newFile
  }

  /** The file is not in use. */
  predicate Idle(s: State, f: FileId) {
    f !in s.handles.Values && f !in s.appends.Values
  }

  /** An open: the handle is for the file of that name, which leaves the list. */
  ghost predicate OpenDoes(s: State, name: Name, fh: Ticket, newFile: FileId, dirty: bool, s': State) {
    var f := FileOf(s, name, newFile);
    && s'.files.Keys == s.files.Keys + {f} && s'.fileHash == s.fileHash[name := f]
    && s'.handles == s.handles[fh := f] && s'.appends == s.appends && s'.flushes == s.flushes
    && Revived(s.list, s'.list, f)
    && Dirty(s'.files) == if name !in s.fileHash && dirty then Dirty(s.files) + {f} else Dirty(s.files)
  }

  ghost predicate AppendDoes(s: State, fh: Ticket, req: Ticket, touched: bool, s': State)
    requires fh in s.handles
  {
    && s'.files.Keys == s.files.Keys && s'.fileHash == s.fileHash
    && s'.handles == s.handles && s'.appends == s.appends[req := s.handles[fh]] && s'.flushes == s.flushes
    && s'.list == s.list
    && Dirty(s'.files) == if touched then Dirty(s.files) + {s.handles[fh]} else Dirty(s.files)
  }

  /** A reference to file f is dropped, and nothing else happens but what that leads to. */
  ghost predicate DropDoes(s: State, f: FileId, flush: Ticket, s': State) {
    && s'.files.Keys == s.files.Keys && s'.fileHash == s.fileHash
    && Dropped(!Idle(s', f), s.list, s'.list, s.flushes, s'.flushes, s.files, s'.files, f, flush)
  }

  /** The end of a checkpoint: with the last one, a file that is not in use goes. */
  ghost predicate FinishDoes(s: State, flush: Ticket, s': State)
    requires flush in s.flushes && s.flushes[flush] in s.files
  {
    var f := s.flushes[flush];
    var gone := f !in s'.flushes.Values && Idle(s, f) && f !in s.list;
    && s'.files.Keys == (if gone then s.files.Keys - {f} else s.files.Keys)
    && s'.fileHash == (if gone then s.fileHash - {s.files[f].name} else s.fileHash)
    && s'.handles == s.handles && s'.appends == s.appends && s'.flushes == s.flushes - {flush}
    && s'.list == s.list
    && Dirty(s'.files) == if gone then Dirty(s.files) - {f} else Dirty(s.files)
  }

  /** What an event does to the table. */
  ghost predicate Leads(s: State, ev: Event, s': State) {
    if !CanHappen(s, ev) then s' == s
    else
      match ev
      case OpenFile(name, fh, newFile, dirty) => OpenDoes(s, name, fh, newFile, dirty, s')
      case AppendTo(fh, req, touched) => AppendDoes(s, fh, req, touched, s')
      case CloseHandle(fh, flush) =>
        s'.handles == s.handles - {fh} && s'.appends == s.appends && DropDoes(s, s.handles[fh], flush, s')
      case AckAppend(req, flush) =>
        s'.handles == s.handles && s'.appends == s.appends - {req} && DropDoes(s, s.appends[req], flush, s')
      case FinishCheckpoint(flush) =>
        s.flushes[flush] in s.files && FinishDoes(s, flush, s')
  }

  /** The states of a run. */
  ghost predicate Follow(states: seq<State>, events: seq<Event>) {
    && |states| == |events| + 1 && (forall i :: 0 <= i < |states| ==> Good(states[i]))
    && forall i :: 0 <= i < |events| ==> Leads(states[i], events[i], states[i + 1])
  }

  lemma FollowOn(states: seq<State>, events: seq<Event>, ev: Event, s: State)
    requires Follow(states, events) && Leads(states[|events|], ev, s) && Good(s)
    ensures Follow(states + [s], events + [ev])
  {
    hide Good, Leads;
    var all, evs := states + [s], events + [ev];
    forall i | 0 <= i < |evs|
      ensures Leads(all[i], evs[i], all[i + 1])
    {
      if i < |events| {
        assert all[i] == states[i] && evs[i] == events[i] && all[i + 1] == states[i + 1];
      }
    }
  }

  /** An event makes file x an orphan: it is the one that has to make room, there is nothing to
      checkpoint, and no checkpoint of it is on its way. */
  ghost predicate Orphans(s: State, ev: Event, s': State, x: FileId) {
    && CanHappen(s, ev) && (ev.CloseHandle? || ev.AckAppend?)
    && Idle(s', if ev.CloseHandle? then s.handles[ev.fh] else s.appends[ev.req])
    && x in Evicted(s.list) && x !in Dirty(s.files) && x !in s.flushes.Values
  }

  lemma NoneInUse(s: State)
    requires Good(s)
    ensures forall y :: y in s.list ==> Idle(s, y)
    ensures forall y :: !Idle(s, y) ==> y in s.files
  {
    forall y | !Idle(s, y)
      ensures y !in s.list && y in s.files
    {
      CountedAny(s.files, s.handles, s.appends, s.flushes, 0, y);
      Unused(s.files, s.handles, s.appends, s.flushes, y);
    }
  }

  /** Which files are orphans after an event. */
  lemma LeadsOrphans(s: State, ev: Event, s': State, x: FileId)
    requires Good(s) && Leads(s, ev, s')
    ensures IsOrphan(s', x) <==>
            || Orphans(s, ev, s', x)
            || (IsOrphan(s, x) && !(CanHappen(s, ev) && ev.OpenFile? && x == FileOf(s, ev.name, ev.newFile)))
  {
    hide Counted, Listed, Refers, Hashed, Revived, Dropped, Evicted, Dirty;
    if CanHappen(s, ev) {
      NoneInUse(s);
      match ev
      case OpenFile(name, fh, newFile, dirty) =>
        OrphanedOpen(s.files, s'.files, s.handles, s.appends, s.flushes, s.list, s'.list, fh, FileOf(s, name, newFile), x);
      case AppendTo(fh, req, touched) =>
        ValuesAdd(s.appends, req, s.handles[fh], x);
        SameFiles(s, s', x);
      case CloseHandle(fh, flush) =>
        ValuesRemove(s.handles, fh, x);
        OrphanedDropped(s.files, s'.files, s.handles, s'.handles, s.appends, s'.appends, s.flushes, s'.flushes, s.list, s'.list,
                        s.handles[fh], flush, x);
      case AckAppend(req, flush) =>
        ValuesRemove(s.appends, req, x);
        OrphanedDropped(s.files, s'.files, s.handles, s'.handles, s.appends, s'.appends, s.flushes, s'.flushes, s.list, s'.list,
                        s.appends[req], flush, x);
      case FinishCheckpoint(flush) =>
        ValuesRemove(s.flushes, flush, x);
        SameFiles(s, s', x);
    }
  }

  lemma SameFiles(s: State, s': State, x: FileId)
    requires s'.files.Keys <= s.files.Keys
    ensures x in s'.files ==> x in s.files
    ensures s'.files.Keys == s.files.Keys ==> (x in s'.files <==> x in s.files)
    ensures forall y :: s'.files.Keys == s.files.Keys - {y} && x != y ==> (x in s'.files <==> x in s.files)
  {
    assert x in s'.files <==> x in s'.files.Keys;
    assert x in s.files <==> x in s.files.Keys;
  }

  /** Over every run that does not open its name, an orphan stays in memory and in the table. */
  lemma {:induction false} OrphanStays(states: seq<State>, events: seq<Event>, n: Name, i: nat)
    requires Follow(states, events) && i < |states|
    requires n in states[0].fileHash && IsOrphan(states[0], states[0].fileHash[n]) && forall ev :: ev in events ==> !ev.Opens(n)
    ensures n in states[i].fileHash && states[i].fileHash[n] == states[0].fileHash[n] && IsOrphan(states[i], states[i].fileHash[n])
    decreases i
  {
    hide Good, Leads, IsOrphan;
    if i > 0 {
      OrphanStays(states, events, n, i - 1);
      var ev := events[i - 1];
      assert ev in events;
      NameStays(states[i - 1], ev, states[i], n);
      LeadsOrphans(states[i - 1], ev, states[i], states[0].fileHash[n]);
    }
  }

  /** An event takes no name away but that of a file it frees, and gives a new file to none but the name
      it opens. */
  lemma NameStays(s: State, ev: Event, s': State, n: Name)
    requires Good(s) && Leads(s, ev, s') && n in s.fileHash && IsOrphan(s, s.fileHash[n]) && !ev.Opens(n)
    ensures n in s'.fileHash && s'.fileHash[n] == s.fileHash[n]
    ensures CanHappen(s, ev) && ev.OpenFile? ==> s.fileHash[n] != FileOf(s, ev.name, ev.newFile)
  {
    hide Counted, Listed, Refers, Revived, Dropped, Evicted, Dirty;
  }

  /** With the counts right, an event leads to one state only. */
  lemma LeadsOnce(s: State, ev: Event, s': State, s'': State)
    requires Good(s) && Good(s') && Good(s'') && Leads(s, ev, s') && Leads(s, ev, s'')
    ensures s' == s''
  {
    hide Counted, Refers, Hashed, Dropped, Dirty, Revived;
    ListOnce(s, ev, s', s'');
    FilesOnce(s', s'');
  }

  lemma ListOnce(s: State, ev: Event, s': State, s'': State)
    requires Good(s) && Leads(s, ev, s') && Leads(s, ev, s'')
    ensures s'.list == s''.list && s'.handles == s''.handles && s'.appends == s''.appends && s'.flushes == s''.flushes
    ensures s'.fileHash == s''.fileHash && s'.files.Keys == s''.files.Keys && Dirty(s'.files) == Dirty(s''.files)
  {
    hide Counted, Refers, Hashed, Dirty, Held;
  }

  /** What the tickets, the list, the hash and the dirty roots are says what the files are. */
  lemma FilesOnce(s: State, s': State)
    requires Good(s) && Good(s') && s.files.Keys == s'.files.Keys && Dirty(s.files) == Dirty(s'.files)
    requires s.handles == s'.handles && s.appends == s'.appends && s.flushes == s'.flushes && s.list == s'.list && s.fileHash == s'.fileHash
    ensures s == s'
  {
    hide Held;
    forall f | f in s.files
      ensures f in s'.files && s.files[f] == s'.files[f]
    {
      assert f in s'.files.Keys;
      assert f in Dirty(s.files) <==> s.files[f].rootDirty;
      assert f in Dirty(s'.files) <==> s'.files[f].rootDirty;
      assert CountsOf(s.files[f], f, s.handles, s.appends, s.flushes, 0);
      assert CountsOf(s'.files[f], f, s'.handles, s'.appends, s'.flushes, 0);
      assert s.fileHash[s.files[f].name] == f;
    }
    assert s.files == s'.files;
  }

  class Table {
    /** The allocated files. */
    var files: map<FileId, FileRec>
    /** The file table by log name. */
    var fileHash: map<Name, FileId>
    /** Open file handles, appends that were not acknowledged yet, checkpoints on their way to the
        log. */
    var handles: map<Ticket, FileId>
    var appends: map<Ticket, FileId>
    var flushes: map<Ticket, FileId>
    var recentlyClosed: seq<FileId>
    var recentlyClosedSize: int

    ghost function Now(): State
      reads this
    {
      State(files, fileHash, handles, appends, flushes, recentlyClosed)
    }

    ghost predicate Referred()
      reads this
    {
      Refers(files, handles) && Refers(files, appends) && Refers(files, flushes)
    }

    ghost predicate Valid()
      reads this
    {
      Good(Now()) && recentlyClosedSize == |recentlyClosed|
    }

    /** Valid, but for one reference too many to a file. */
    ghost predicate OneTooMany(file: FileId)
      reads this
    {
      && file in files && Counted(files, handles, appends, flushes, file, 1) && Referred() && Hashed(files, fileHash)
      && Listed(files, recentlyClosed) && recentlyClosedSize == |recentlyClosed| <= RC_CAP
      && !files[file].recentlyClosed
    }

    constructor ()
      ensures Valid() && files == map[] && fileHash == map[] && recentlyClosed == []
      ensures handles == map[] && appends == map[] && flushes == map[]
    {
      files, fileHash, handles, appends, flushes := map[], map[], map[], map[], map[];
      recentlyClosed, recentlyClosedSize := [], 0;
    }

    ghost predicate Orphan(x: FileId)
      reads this
    {
      IsOrphan(Now(), x)
    }

    /** open_file: the file is found, or made; a recently closed one is revived. `dirty` is said of a
        new one: an index read from a checkpoint is clean. */
    method Open(name: Name, fh: Ticket, newFile: FileId, dirty: bool) returns (file: FileId)
      requires Valid() && fh !in handles && newFile !in files
      modifies this
      ensures Valid() && file == FileOf(old(Now()), name, newFile) && files.Keys == old(files).Keys + {file}
      ensures file in files && files[file].name == name && file !in recentlyClosed
      ensures handles == old(handles)[fh := file] && appends == old(appends) && flushes == old(flushes)
      ensures fileHash == old(fileHash)[name := file] && Revived(old(recentlyClosed), recentlyClosed, file)
      ensures Dirty(files) == if name !in old(fileHash) && dirty then old(Dirty(files)) + {file} else old(Dirty(files))
      ensures forall x :: Orphan(x) <==> old(Orphan(x)) && x != file
    {
      hide Counted, Listed, Hashed, Refers, Dirty, Orphaned;
      file := FindOrMake(name, newFile, dirty);
      FlagListed(files, recentlyClosed, file);
      if files[file].recentlyClosed {
        DirtyWith(files, file, files[file].(recentlyClosed := false));
        Revive(file);
      }
      FlagListed(files, recentlyClosed, file);
      ghost var r := files[file].(refCount := files[file].refCount + 1);
      DirtyWith(files, file, r);
      CountedAny(files, handles, appends, flushes, 0, file);
      CountedRef(files, handles, appends, flushes, file, r, 0);
      ListedSame(files, recentlyClosed, file, r);
      HashedSame(files, fileHash, file, r);
      RefersSame(files, files[file := r], handles);
      RefersSame(files, files[file := r], appends);
      RefersSame(files, files[file := r], flushes);
      files := files[file := files[file].(refCount := files[file].refCount + 1)];
      CountedHandle(files, handles, appends, flushes, fh, file);
      RefersAdd(files, handles, fh, file);
      handles := handles[fh := file];
      CountedAny(files, handles, appends, flushes, file, 0);
      forall x ensures Orphan(x) <==> old(Orphan(x)) && x != file {
        OrphanedOpen(old(files), files, old(handles), appends, flushes, old(recentlyClosed), recentlyClosed, fh, file, x);
      }
    }

    method FindOrMake(name: Name, newFile: FileId, dirty: bool) returns (file: FileId)
      requires Valid() && newFile !in files
      modifies this`files, this`fileHash
      ensures Valid() && file == FileOf(old(Now()), name, newFile) && files.Keys == old(files).Keys + {file}
      ensures file in files && files[file].name == name && fileHash == old(fileHash)[name := file]
      ensures Dirty(files) == if name !in old(fileHash) && dirty then old(Dirty(files)) + {file} else old(Dirty(files))
    {
      hide Counted, Refers, Dirty;
      if name in fileHash {
        file := fileHash[name];
      } else {
        file := newFile;
        CountedAny(files, handles, appends, flushes, 0, file);
        DirtyWith(files, file, FileRec(name, 0, 0, 0, false, dirty));
        CountedNew(files, handles, appends, flushes, file, name, dirty);
        ghost var files' := files[file := FileRec(name, 0, 0, 0, false, dirty)];
        RefersSame(files, files', handles);
        RefersSame(files, files', appends);
        RefersSame(files, files', flushes);
        files := files[file := FileRec(name, 0, 0, 0, false, dirty)];
        fileHash := fileHash[name := file];
        CountedAny(files, handles, appends, flushes, file, 0);
      }
    }

    /** _recently_closed_revive */
    method Revive(file: FileId)
      requires Valid() && file in files && files[file].recentlyClosed
      modifies this`files, this`recentlyClosed, this`recentlyClosedSize
      ensures Valid() && files == old(files)[file := old(files)[file].(recentlyClosed := false)]
      ensures file in old(recentlyClosed) && file !in recentlyClosed && Revived(old(recentlyClosed), recentlyClosed, file)
    {
      hide Counted, Hashed, Refers;
      FlagListed(files, recentlyClosed, file);
      var k := FindClosed(file);
      ghost var r := files[file].(recentlyClosed := false);
      CountedAny(files, handles, appends, flushes, 0, file);
      CountedRef(files, handles, appends, flushes, file, r, 0);
      HashedSame(files, fileHash, file, r);
      RefersSame(files, files[file := r], handles);
      RefersSame(files, files[file := r], appends);
      RefersSame(files, files[file := r], flushes);
      ListedWithout(files, recentlyClosed, k);
      files := files[file := files[file].(recentlyClosed := false)];
      recentlyClosed := recentlyClosed[..k] + recentlyClosed[k + 1..];
      recentlyClosedSize := recentlyClosedSize - 1;
      CountedAny(files, handles, appends, flushes, file, 0);
    }

    /** The place of a file on the list. */
    method FindClosed(file: FileId) returns (k: nat)
      requires file in recentlyClosed
      ensures k < |recentlyClosed| && recentlyClosed[k] == file
    {
      k := 0;
      while recentlyClosed[k] != file
        invariant k < |recentlyClosed| && file !in recentlyClosed[..k]
        decreases |recentlyClosed| - k
      {
        k := k + 1;
      }
    }

    /** The append of do_write: one more reference, for the acknowledgement to come. `touched` says
        whether the write to the index has changed its root. */
    method Append(file: FileId, req: Ticket, touched: bool)
      requires Valid() && file in handles.Values && req !in appends
      modifies this`files, this`appends
      ensures Valid() && appends == old(appends)[req := file] && files.Keys == old(files).Keys
      ensures Dirty(files) == if touched then old(Dirty(files)) + {file} else old(Dirty(files))
      ensures forall x :: Orphan(x) <==> old(Orphan(x))
    {
      hide Counted, Listed, Hashed;
      InUse(file);
      ghost var r := files[file].(refCount := files[file].refCount + 1, outstandingReqs := files[file].outstandingReqs + 1,
      rootDirty := files[file].rootDirty || touched);
      CountedAny(files, handles, appends, flushes, 0, file);
      CountedAppend(files, handles, appends, flushes, req, file, r);
      ListedSame(files, recentlyClosed, file, r);
      HashedSame(files, fileHash, file, r);
      files := files[file := files[file].(refCount := files[file].refCount + 1, outstandingReqs := files[file].outstandingReqs + 1,
      rootDirty := files[file].rootDirty || touched)];
      appends := appends[req := file];
      CountedAny(files, handles, appends, flushes, file, 0);
      forall x ensures Orphan(x) <==> old(Orphan(x)) {
        ValuesAdd(old(appends), req, file, x);
      }
    }

    /** A file with an open handle or an append in flight is not on the list. */
    lemma InUse(file: FileId)
      requires Valid() && (file in handles.Values || file in appends.Values)
      ensures file in files && !files[file].recentlyClosed && file !in recentlyClosed
    {
      CountedAny(files, handles, appends, flushes, 0, file);
      Unused(files, handles, appends, flushes, file);
    }

    /** gdpfs_file_close. The file that has to make room, if there is one, is orphaned if and only if
        there is nothing to checkpoint and no other checkpoint of it on its way. */
    method Close(fh: Ticket, flush: Ticket)
      requires Valid() && fh in handles && flush !in flushes
      modifies this
      ensures Valid() && handles == old(handles) - {fh} && appends == old(appends) && files.Keys == old(files).Keys
      ensures fileHash == old(fileHash)
      ensures var file := old(handles)[fh];
              && Dropped(file in handles.Values || file in appends.Values, old(recentlyClosed), recentlyClosed,
                         old(flushes), flushes, old(files), files, file, flush)
              && forall x :: Orphan(x) <==> old(Orphan(x)) || (
                                              && file !in handles.Values && file !in appends.Values && x in Evicted(old(recentlyClosed))
                                              && x !in Dirty(old(files)) && x !in old(flushes).Values)
    {
      hide Counted, Listed, Hashed, Refers;
      var file := handles[fh];
      InUse(file);
      CountedAny(files, handles, appends, flushes, 0, file);
      CountedNoHandle(files, handles, appends, flushes, fh);
      RefersRemove(files, handles, fh);
      NoneInUse(Now());
      handles := handles - {fh};
      Unref(file, flush);
      forall x
        ensures Orphan(x) <==> old(Orphan(x)) || (
                                 && file !in handles.Values && file !in appends.Values && x in Evicted(old(recentlyClosed))
                                 && x !in Dirty(old(files)) && x !in old(flushes).Values)
      {
        ValuesRemove(old(handles), fh, x);
        OrphanedDropped(old(files), files, old(handles), handles, appends, appends, old(flushes), flushes,
                        old(recentlyClosed), recentlyClosed, file, flush, x);
      }
    }

    /** free_fileref: an append has been acknowledged. */
    method Acknowledge(req: Ticket, flush: Ticket)
      requires Valid() && req in appends && flush !in flushes
      modifies this
      ensures Valid() && appends == old(appends) - {req} && handles == old(handles) && files.Keys == old(files).Keys
      ensures fileHash == old(fileHash)
      ensures var file := old(appends)[req];
              && Dropped(file in handles.Values || file in appends.Values, old(recentlyClosed), recentlyClosed,
                         old(flushes), flushes, old(files), files, file, flush)
              && forall x :: Orphan(x) <==> old(Orphan(x)) || (
                                              && file !in handles.Values && file !in appends.Values && x in Evicted(old(recentlyClosed))
                                              && x !in Dirty(old(files)) && x !in old(flushes).Values)
    {
      hide Counted, Listed, Hashed, Refers;
      var file := appends[req];
      InUse(file);
      NoneInUse(Now());
      ghost var r := files[file].(outstandingReqs := files[file].outstandingReqs - 1);
      CountedAny(files, handles, appends, flushes, 0, file);
      CountedNoAppend(files, handles, appends, flushes, req);
      ListedSame(files, recentlyClosed, file, r);
      HashedSame(files, fileHash, file, r);
      RefersRemove(files, appends, req);
      RefersSame(files, files[file := r], handles);
      RefersSame(files, files[file := r], appends - {req});
      RefersSame(files, files[file := r], flushes);
      files := files[file := files[file].(outstandingReqs := files[file].outstandingReqs - 1)];
      appends := appends - {req};
      Unref(file, flush);
      forall x
        ensures Orphan(x) <==> old(Orphan(x)) || (
                                 && file !in handles.Values && file !in appends.Values && x in Evicted(old(recentlyClosed))
                                 && x !in Dirty(old(files)) && x !in old(flushes).Values)
      {
        ValuesRemove(old(appends), req, x);
        OrphanedDropped(old(files), files, handles, handles, old(appends), appends, old(flushes), flushes,
                        old(recentlyClosed), recentlyClosed, file, flush, x);
      }
    }

    /** _file_unref */
    method Unref(file: FileId, flush: Ticket)
      requires OneTooMany(file) && flush !in flushes
      modifies this`files, this`recentlyClosed, this`recentlyClosedSize, this`flushes
      ensures Valid() && files.Keys == old(files).Keys
      ensures Dropped(file in handles.Values || file in appends.Values, old(recentlyClosed), recentlyClosed,
                      old(flushes), flushes, old(files), files, file, flush)
    {
      hide Counted, Listed, Hashed, Refers;
      ghost var r := files[file].(refCount := files[file].refCount - 1);
      CountedRef(files, handles, appends, flushes, file, r, 1);
      ListedSame(files, recentlyClosed, file, r);
      HashedSame(files, fileHash, file, r);
      RefersSame(files, files[file := r], handles);
      RefersSame(files, files[file := r], appends);
      RefersSame(files, files[file := r], flushes);
      files := files[file := files[file].(refCount := files[file].refCount - 1)];
      Unused(files, handles, appends, flushes, file);
      CountedAny(files, handles, appends, flushes, file, 0);
      FlagListed(files, recentlyClosed, file);
      if files[file].refCount == 0 {
        Insert(file, flush);
      }
    }

    /** _recently_closed_insert: the file goes to the front; if the list was full, the one at the
        back is taken off and checkpointed (_file_dealloc). */
    method Insert(file: FileId, flush: Ticket)
      requires Valid() && file in files && files[file].refCount == 0 && !files[file].recentlyClosed && flush !in flushes
      modifies this`files, this`recentlyClosed, this`recentlyClosedSize, this`flushes
      ensures Valid() && files.Keys == old(files).Keys
      ensures recentlyClosed == Fronted(old(recentlyClosed), file)
      ensures flushes == Flushed(old(recentlyClosed), old(flushes), old(files), flush)
      ensures Dirty(files) == Dirty(old(files)) - Evicted(old(recentlyClosed))
    {
      hide Counted, Listed, Hashed, Refers;
      ghost var r := files[file].(recentlyClosed := true);
      CountedAny(files, handles, appends, flushes, 0, file);
      CountedRef(files, handles, appends, flushes, file, r, 0);
      HashedSame(files, fileHash, file, r);
      RefersSame(files, files[file := r], handles);
      RefersSame(files, files[file := r], appends);
      RefersSame(files, files[file := r], flushes);
      ListedWith(files, recentlyClosed, file);
      files := files[file := files[file].(recentlyClosed := true)];
      recentlyClosed := [file] + recentlyClosed;
      CountedAny(files, handles, appends, flushes, file, 0);
      if recentlyClosedSize == RC_CAP {
        Evict(flush);
        assert recentlyClosed == [file] + old(recentlyClosed)[..RC_CAP - 1];
      } else {
        recentlyClosedSize := recentlyClosedSize + 1;
      }
    }

    /** The file at the back of the list has to go: once its appends are acknowledged, which they are, its
        index is checkpointed. If there is nothing to write, nothing will free it. */
    method Evict(flush: Ticket)
      requires Counted(files, handles, appends, flushes, 0, 0) && Referred() && Hashed(files, fileHash)
      requires Listed(files, recentlyClosed) && recentlyClosedSize == RC_CAP && |recentlyClosed| == RC_CAP + 1 && flush !in flushes
      modifies this`files, this`recentlyClosed, this`flushes
      ensures Valid() && files.Keys == old(files).Keys
      ensures recentlyClosed == old(recentlyClosed)[..RC_CAP]
      ensures var oldfile := old(recentlyClosed)[RC_CAP];
              && flushes == (if oldfile in Dirty(old(files)) then old(flushes)[flush := oldfile] else old(flushes))
              && Dirty(files) == Dirty(old(files)) - {oldfile}
              && (Orphan(oldfile) <==> oldfile !in Dirty(old(files)) && oldfile !in old(flushes).Values)
    {
      hide Counted, Listed, Hashed, Refers;
      var oldfile := recentlyClosed[RC_CAP];
      FlagListed(files, recentlyClosed, oldfile);
      ghost var r := files[oldfile].(recentlyClosed := false);
      CountedAny(files, handles, appends, flushes, 0, oldfile);
      Unused(files, handles, appends, flushes, oldfile);
      assert files[oldfile].outstandingReqs == 0;
      CountedRef(files, handles, appends, flushes, oldfile, r, 0);
      HashedSame(files, fileHash, oldfile, r);
      ListedWithout(files, recentlyClosed, RC_CAP);
      assert recentlyClosed[..RC_CAP] + recentlyClosed[RC_CAP + 1..] == recentlyClosed[..RC_CAP];
      RefersSame(files, files[oldfile := r], handles);
      RefersSame(files, files[oldfile := r], appends);
      RefersSame(files, files[oldfile := r], flushes);
      recentlyClosed := recentlyClosed[..RC_CAP];
      files := files[oldfile := files[oldfile].(recentlyClosed := false)];
      ValuesAdd(flushes, flush, oldfile, oldfile);
      if files[oldfile].rootDirty {
        Checkpoint(oldfile, flush);
      }
      CountedAny(files, handles, appends, flushes, oldfile, 0);
    }

    /** _file_chkpt, where there is anything to write: get_dirty leaves the index clean. */
    method Checkpoint(file: FileId, flush: Ticket)
      requires file in files && Counted(files, handles, appends, flushes, file, 0) && Referred() && Hashed(files, fileHash)
      requires Listed(files, recentlyClosed) && flush !in flushes
      modifies this`files, this`flushes
      ensures Counted(files, handles, appends, flushes, file, 0) && Referred() && Hashed(files, fileHash)
      ensures Listed(files, recentlyClosed) && files.Keys == old(files).Keys && flushes == old(flushes)[flush := file]
      ensures Dirty(files) == Dirty(old(files)) - {file}
    {
      hide Counted, Listed, Hashed, Refers;
      ghost var r := files[file].(indexFlushReqs := files[file].indexFlushReqs + 1, rootDirty := false);
      FlagListed(files, recentlyClosed, file);
      CountedFlush(files, handles, appends, flushes, flush, file, r);
      ListedSame(files, recentlyClosed, file, r);
      HashedSame(files, fileHash, file, r);
      RefersAdd(files, flushes, flush, file);
      RefersSame(files, files[file := r], handles);
      RefersSame(files, files[file := r], appends);
      RefersSame(files, files[file := r], flushes[flush := file]);
      files := files[file := files[file].(indexFlushReqs := files[file].indexFlushReqs + 1, rootDirty := false)];
      flushes := flushes[flush := file];
    }

    /** _file_chkpt_finish: a checkpoint is in the log. With the last one the file is freed, if
        nobody uses it and it is not on the list; and only then. */
    method CheckpointFinish(flush: Ticket)
      requires Valid() && flush in flushes
      modifies this`files, this`fileHash, this`flushes
      ensures Valid() && flushes == old(flushes) - {flush}
      ensures var file := old(flushes)[flush];
              var unused := file !in flushes.Values && file !in handles.Values && file !in appends.Values && file !in recentlyClosed;
              && file in old(files)
              && files.Keys == (if unused then old(files).Keys - {file} else old(files).Keys)
              && fileHash == (if unused then old(fileHash) - {old(files)[file].name} else old(fileHash))
              && Dirty(files) == (if unused then Dirty(old(files)) - {file} else Dirty(old(files)))
      ensures forall x :: Orphan(x) <==> old(Orphan(x))
    {
      hide Counted, Listed, Hashed;
      var file := flushes[flush];
      ghost var r := files[file].(indexFlushReqs := files[file].indexFlushReqs - 1);
      CountedAny(files, handles, appends, flushes, 0, file);
      CountedNoFlush(files, handles, appends, flushes, flush);
      FlagListed(files, recentlyClosed, file);
      ListedSame(files, recentlyClosed, file, r);
      HashedSame(files, fileHash, file, r);
      files := files[file := files[file].(indexFlushReqs := files[file].indexFlushReqs - 1)];
      flushes := flushes - {flush};
      forall x ensures x in old(flushes).Values <==> x in flushes.Values || x == file {
        ValuesRemove(old(flushes), flush, x);
      }
      Unused(files, handles, appends, flushes, file);
      CountedAny(files, handles, appends, flushes, file, 0);
      FlagListed(files, recentlyClosed, file);
      if files[file].indexFlushReqs != 0 {
        return;
      }
      if files[file].refCount != 0 || files[file].recentlyClosed {
        return;
      }
      CountedAny(files, handles, appends, flushes, 0, file);
      Freed(files, handles, appends, flushes, recentlyClosed, fileHash, file);
      CountedAny(files - {file}, handles, appends, flushes, file, 0);
      fileHash := fileHash - {files[file].name};
      files := files - {file};
    }

    /** The files below i have been opened, read and closed. */
    ghost predicate ReadsDone(i: nat)
      reads this
    {
      && Valid() && handles == map[] && appends == map[] && flushes == map[]
      && (forall x: nat :: x in files <==> x < i) && (forall x: nat :: x in fileHash <==> x < i)
      && Dirty(files) == {} && LastOnes(recentlyClosed, i)
      && forall x: nat :: Orphan(x) <==> x + RC_CAP < i
    }

    lemma NoReads()
      requires Valid() && handles == map[] && appends == map[] && flushes == map[] && files == map[] && fileHash == map[]
      requires recentlyClosed == []
      ensures ReadsDone(0)
    {
    }

    method ReadOnce(i: nat)
      requires ReadsDone(i)
      modifies this
      ensures ReadsDone(i + 1)
    {
      hide Counted, Listed, Refers, Hashed, Orphaned, Fronted, Evicted, LastOnes;
      FrontedLast(recentlyClosed, i);
      var file := Open(i, i, i, false);
      assert file == i && recentlyClosed == old(recentlyClosed);
      assert handles - {i} == map[];
      Close(i, 0);
      assert forall x: nat :: x in files <==> x in files.Keys;
    }

    /** Any event, if it can happen. */
    method Step(ev: Event)
      requires Valid()
      modifies this
      ensures Valid() && Leads(old(Now()), ev, Now())
    {
      hide Counted, Listed, Refers, Hashed, Orphaned, Dropped, Revived;
      match ev
      case OpenFile(name, fh, newFile, dirty) =>
        if fh !in handles && newFile !in files {
          var file := Open(name, fh, newFile, dirty);
        }
      case AppendTo(fh, req, touched) =>
        if fh in handles && req !in appends {
          Append(handles[fh], req, touched);
        }
      case CloseHandle(fh, flush) =>
        if fh in handles && flush !in flushes {
          Close(fh, flush);
        }
      case AckAppend(req, flush) =>
        if req in appends && flush !in flushes {
          Acknowledge(req, flush);
        }
      case FinishCheckpoint(flush) =>
        if flush in flushes {
          CheckpointFinish(flush);
        }
    }

    /** Any run: from each state the next event leads to the next one. A file that has been orphaned stays
        in memory until its name is opened again. */
    method Run(events: seq<Event>) returns (ghost states: seq<State>)
      requires Valid()
      modifies this
      ensures Valid() && Follow(states, events) && states[0] == old(Now()) && states[|events|] == Now()
      ensures forall n :: n in old(fileHash) && old(Orphan(fileHash[n])) && (forall ev :: ev in events ==> !ev.Opens(n)) ==>
                            n in fileHash && fileHash[n] == old(fileHash[n]) && Orphan(fileHash[n])
    {
      hide Good, Leads, IsOrphan;
      states := [Now()];
      for i := 0 to |events|
        invariant Valid() && Follow(states, events[..i]) && states[0] == old(Now()) && states[i] == Now()
      {
        Step(events[i]);
        FollowOn(states, events[..i], events[i], Now());
        assert events[..i + 1] == events[..i] + [events[i]];
        states := states + [Now()];
      }
      assert events[..|events|] == events;
      forall n | n in old(fileHash) && old(Orphan(fileHash[n])) && (forall ev :: ev in events ==> !ev.Opens(n))
        ensures n in fileHash && fileHash[n] == old(fileHash[n]) && Orphan(fileHash[n])
      {
        OrphanStays(states, events, n, |events|);
      }
    }
  }

  /** The list holds the last files below i, the latest one first. */
  ghost predicate LastOnes(list: seq<FileId>, i: nat) {
    && |list| == (if i < RC_CAP then i else RC_CAP)
    && forall k :: 0 <= k < |list| ==> list[k] == i - 1 - k
  }

  lemma FrontedLast(list: seq<FileId>, i: nat)
    requires LastOnes(list, i)
    ensures LastOnes(Fronted(list, i), i + 1) && i !in list
    ensures Evicted(list) == if i < RC_CAP then {} else {i - RC_CAP}
  {
  }

  /** n files are opened, read and closed again, one after the other, and none is written to. All
      but the last RC_CAP of them are orphans. */
  method ReadAll(n: nat) returns (t: Table)
    ensures fresh(t) && t.ReadsDone(n)
  {
    hide Table.ReadsDone;
    t := new Table();
    t.NoReads();
    for i := 0 to n
      invariant fresh(t) && t.ReadsDone(i)
    {
      t.ReadOnce(i);
    }
  }

  lemma FlagListed(files: Files, list: seq<FileId>, f: FileId)
    requires Listed(files, list) && (f in files || f in list)
    ensures f in files && (files[f].recentlyClosed <==> f in list)
    ensures files[f].recentlyClosed ==> files[f].refCount == 0
  {
  }

  lemma ListedWith(files: Files, list: seq<FileId>, f: FileId)
    requires Listed(files, list) && f in files && !files[f].recentlyClosed && files[f].refCount == 0
    ensures Listed(files[f := files[f].(recentlyClosed := true)], [f] + list)
  {
  }

  lemma ListedWithout(files: Files, list: seq<FileId>, k: nat)
    requires Listed(files, list) && k < |list|
    ensures list[k] in files
    ensures Listed(files[list[k] := files[list[k]].(recentlyClosed := false)], list[..k] + list[k + 1..])
    ensures forall f :: f in list[..k] + list[k + 1..] <==> f in list && f != list[k]
  {
    var rest := list[..k] + list[k + 1..];
    forall i | 0 <= i < |list| && i != k
      ensures list[i] in rest && list[i] != list[k]
    {
      assert list[i] == if i < k then rest[i] else rest[i - 1];
    }
  }
}
