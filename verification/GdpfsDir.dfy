/** A directory as a file of fixed-size slots (gdpfs_dir.c), on top of a file that is a log with
    an index. */
module GdpfsDir {
  import opened Intervals
  import opened FileLog
  import opened FigRuns
  import opened GdpfsFile

  const NAME_MAX: nat := 255
  const GNAME_SIZE: nat := 32

  /** sizeof(gdpfs_dir_entry_phys_t): log name, flag, name with its terminator. */
  const SLOT_SIZE: nat := 289

  type Bytes = seq<Byte>

  /** A slot, with the name as a C string means it. */
  datatype Slot = Slot(gname: Bytes, inUse: bool, name: Bytes)

  /** The bytes before the first zero. */
  function CString(b: Bytes): (r: Bytes)
    ensures |r| <= |b| && 0 !in r
    ensures |r| < |b| ==> b[|r|] == 0
    ensures r == b[..|r|]
  {
    if b == [] || b[0] == 0 then [] else [b[0]] + CString(b[1..])
  }

  function Zeros(n: nat): (r: Bytes)
    ensures |r| == n && forall i :: 0 <= i < n ==> r[i] == 0
  {
    seq(n, _ => 0)
  }

  /** strncpy with room for NAME_MAX bytes, and a terminator. */
  function NameField(name: Bytes): (r: Bytes)
    ensures |r| == NAME_MAX + 1
  {
    if |name| <= NAME_MAX then name + Zeros(NAME_MAX + 1 - |name|) else name[..NAME_MAX] + [0]
  }

  function Encode(s: Slot): (r: Bytes)
    requires |s.gname| == GNAME_SIZE
    ensures |r| == SLOT_SIZE
  {
    s.gname + [if s.inUse then 1 else 0] + NameField(s.name)
  }

  function Decode(b: Bytes): Slot
    requires |b| == SLOT_SIZE
  {
    Slot(b[..GNAME_SIZE], b[GNAME_SIZE] != 0, CString(b[GNAME_SIZE + 1..]))
  }

  predicate SlotOk(s: Slot) {
    |s.gname| == GNAME_SIZE && |s.name| <= NAME_MAX && 0 !in s.name
  }

  lemma {:induction false} CStringAppend(name: Bytes, rest: Bytes)
    requires 0 !in name && (rest == [] || rest[0] == 0)
    ensures CString(name + rest) == name
    decreases |name|
  {
    if name == [] {
      assert name + rest == rest;
    } else {
      assert (name + rest)[1..] == name[1..] + rest;
      CStringAppend(name[1..], rest);
    }
  }

  /** What a slot keeps of a name. */
  function Cut(name: Bytes): (r: Bytes)
    ensures |r| <= NAME_MAX && (0 !in name ==> 0 !in r)
    ensures r == name <==> |name| <= NAME_MAX
  {
    if |name| <= NAME_MAX then name
    else
      assert forall i :: 0 <= i < NAME_MAX ==> name[..NAME_MAX][i] == name[i];
      name[..NAME_MAX]
  }

  /** A name comes back from its field if and only if it is not too long. */
  lemma NameRoundTrip(name: Bytes)
    requires 0 !in name
    ensures CString(NameField(name)) == Cut(name)
    ensures CString(NameField(name)) == name <==> |name| <= NAME_MAX
  {
    if |name| <= NAME_MAX {
      CStringAppend(name, Zeros(NAME_MAX + 1 - |name|));
    } else {
      CStringAppend(Cut(name), [0]);
    }
  }

  /** A slot written with a name that is too long is one written with the beginning of it. */
  lemma EncodeCut(s: Slot)
    requires |s.gname| == GNAME_SIZE
    ensures Encode(s) == Encode(s.(name := Cut(s.name)))
  {
    if |s.name| > NAME_MAX {
      assert Zeros(1) == [0];
    }
  }

  lemma SlotRoundTrip(s: Slot)
    requires SlotOk(s)
    ensures Decode(Encode(s)) == s
  {
    NameRoundTrip(s.name);
    assert Encode(s)[GNAME_SIZE + 1..] == NameField(s.name);
    assert Encode(s)[..GNAME_SIZE] == s.gname;
  }

  /** The file has these slots, one behind the other. */
  ghost predicate Laid(contents: Bytes, slots: seq<Slot>) {
    && |contents| == SLOT_SIZE * |slots|
    && forall k :: 0 <= k < |slots| ==> SlotOk(slots[k]) && contents[SLOT_SIZE * k..SLOT_SIZE * k + SLOT_SIZE] == Encode(slots[k])
  }

  /** The slots after slot k, or a new one, has been written. */
  function Put(slots: seq<Slot>, k: nat, s: Slot): seq<Slot>
    requires k <= |slots|
  {
    if k < |slots| then slots[k := s] else slots + [s]
  }

  /** Writing an encoded slot at its place. */
  lemma LaidPut(contents: Bytes, slots: seq<Slot>, k: nat, s: Slot)
    requires Laid(contents, slots) && k <= |slots| && SlotOk(s)
    ensures Laid(Overlaid(contents, SLOT_SIZE * k, Encode(s)), Put(slots, k, s))
  {
    hide Encode;
    var c, p := Overlaid(contents, SLOT_SIZE * k, Encode(s)), Put(slots, k, s);
    forall j | 0 <= j < |p|
      ensures SlotOk(p[j]) && SLOT_SIZE * j + SLOT_SIZE <= |c| && c[SLOT_SIZE * j..SLOT_SIZE * j + SLOT_SIZE] == Encode(p[j])
    {
      if j == k {
        assert c[SLOT_SIZE * j..SLOT_SIZE * j + SLOT_SIZE] == Encode(s);
      } else {
        assert c[SLOT_SIZE * j..SLOT_SIZE * j + SLOT_SIZE] == contents[SLOT_SIZE * j..SLOT_SIZE * j + SLOT_SIZE];
      }
    }
  }

  /** Slot k has this name and is in use. */
  predicate Names(slots: seq<Slot>, k: nat, name: Bytes) {
    k < |slots| && slots[k].inUse && slots[k].name == name
  }

  /** No two live slots have the same name. */
  ghost predicate Unique(slots: seq<Slot>) {
    forall i, j :: 0 <= i < j < |slots| && slots[i].inUse && slots[j].inUse ==> slots[i].name != slots[j].name
  }

  /** The first live slot with this name. */
  ghost predicate IsFirst(slots: seq<Slot>, k: nat, name: Bytes) {
    Names(slots, k, name) && forall j: nat :: j < k ==> !Names(slots, j, name)
  }

  /** The directory as a map: what a name stands for. */
  function Find(slots: seq<Slot>, name: Bytes): (r: Option<Bytes>)
    ensures r.None? <==> forall k: nat :: !Names(slots, k, name)
    ensures r.Some? ==> exists k: nat :: IsFirst(slots, k, name) && slots[k].gname == r.value
  {
    if slots == [] then None
    else if Names(slots, 0, name) then
      assert IsFirst(slots, 0, name);
      Some(slots[0].gname)
    else
      FindRest(slots, name);
      Find(slots[1..], name)
  }

  lemma FindRest(slots: seq<Slot>, name: Bytes)
    requires slots != [] && !Names(slots, 0, name)
    ensures (forall k: nat :: !Names(slots[1..], k, name)) <==> forall k: nat :: !Names(slots, k, name)
    ensures forall k: nat :: IsFirst(slots[1..], k, name) ==> IsFirst(slots, k + 1, name) && slots[k + 1] == slots[1..][k]
  {
    assert forall k: nat :: Names(slots[1..], k, name) <==> Names(slots, k + 1, name);
    assert forall k: nat :: k > 0 ==> (Names(slots, k, name) <==> Names(slots[1..], k - 1, name));
  }

  lemma FindIs(slots: seq<Slot>, k: nat, name: Bytes)
    requires IsFirst(slots, k, name) || (Unique(slots) && Names(slots, k, name))
    ensures Find(slots, name) == Some(slots[k].gname)
  {
    assert Find(slots, name).Some?;
    var j: nat :| IsFirst(slots, j, name) && slots[j].gname == Find(slots, name).value;
  }

  function LiveCount(slots: seq<Slot>): (n: nat)
    ensures n <= |slots|
    ensures n == |slots| ==> forall k :: 0 <= k < |slots| ==> slots[k].inUse
  {
    if slots == [] then 0
    else LiveCount(slots[..|slots| - 1]) + if slots[|slots| - 1].inUse then 1 else 0
  }

  /** The live names from slot k on, in the order of their slots. */
  function LiveNames(slots: seq<Slot>, k: nat): seq<Bytes>
    requires k <= |slots|
    decreases |slots| - k
  {
    if k == |slots| then [] else (if slots[k].inUse then [slots[k].name] else []) + LiveNames(slots, k + 1)
  }

  lemma {:induction false} LiveNamesAre(slots: seq<Slot>, k: nat, name: Bytes)
    requires k <= |slots|
    ensures name in LiveNames(slots, k) <==> exists j :: k <= j && Names(slots, j, name)
    decreases |slots| - k
  {
    if k < |slots| {
      LiveNamesAre(slots, k + 1, name);
      if Names(slots, k, name) {
        assert LiveNames(slots, k)[0] == name;
      }
    }
  }

  /** A scan lists every live name, and none of them twice. */
  lemma {:induction false} ScanListsAll(slots: seq<Slot>, k: nat)
    requires Unique(slots) && k <= |slots|
    ensures forall i, j :: 0 <= i < j < |LiveNames(slots, k)| ==> LiveNames(slots, k)[i] != LiveNames(slots, k)[j]
    ensures k == 0 ==> forall name :: name in LiveNames(slots, 0) <==> Find(slots, name).Some?
    decreases |slots| - k
  {
    if k < |slots| {
      ScanListsAll(slots, k + 1);
      LiveNamesAre(slots, k + 1, slots[k].name);
    }
    if k == 0 {
      forall name ensures name in LiveNames(slots, 0) <==> Find(slots, name).Some? {
        LiveNamesAre(slots, 0, name);
      }
    }
  }

  datatype Status = Ok | FileExists | Eof | Corrupt

  /** Where a new name goes: the first free slot, or the end. */
  predicate IsFree(slots: seq<Slot>, k: nat) {
    k <= |slots| && (k < |slots| ==> !slots[k].inUse) && forall j :: 0 <= j < k ==> slots[j].inUse
  }

  /** Slot k can be written with this name. */
  ghost predicate CanTake(slots: seq<Slot>, k: nat, name: Bytes) {
    k <= |slots| && (k < |slots| && slots[k].inUse ==> slots[k].name == name)
  }

  /** Writing a slot changes nothing for other names, also if names are not unique. */
  lemma PutOther(slots: seq<Slot>, k: nat, s: Slot, name: Bytes)
    requires CanTake(slots, k, s.name) && name != s.name
    ensures Find(Put(slots, k, s), name) == Find(slots, name)
  {
    var p := Put(slots, k, s);
    assert forall j: nat :: Names(p, j, name) <==> Names(slots, j, name);
    if Find(slots, name).Some? {
      var j: nat :| IsFirst(slots, j, name) && slots[j].gname == Find(slots, name).value;
      FindIs(p, j, name);
    }
  }

  /** A name that has no slot before, or gets its first one, stands for what is written. */
  lemma PutHas(slots: seq<Slot>, k: nat, s: Slot)
    requires CanTake(slots, k, s.name) && s.inUse
    ensures Find(Put(slots, k, s), s.name).Some?
    ensures Find(slots, s.name).None? || IsFirst(slots, k, s.name) ==> Find(Put(slots, k, s), s.name) == Some(s.gname)
  {
    var p := Put(slots, k, s);
    assert Names(p, k, s.name);
    if Find(slots, s.name).None? || IsFirst(slots, k, s.name) {
      assert forall j: nat :: j < k ==> (Names(p, j, s.name) <==> Names(slots, j, s.name));
      FindIs(p, k, s.name);
    }
  }

  /** Names stay unique if and only if the name gets the slot that it has already, or has none. */
  lemma PutUnique(slots: seq<Slot>, k: nat, s: Slot)
    requires Unique(slots) && CanTake(slots, k, s.name) && s.inUse
    ensures Unique(Put(slots, k, s)) <==> Find(slots, s.name).None? || Names(slots, k, s.name)
    ensures Find(Put(slots, k, s), s.name).Some?
    ensures Unique(Put(slots, k, s)) ==> Find(Put(slots, k, s), s.name) == Some(s.gname)
  {
    var p := Put(slots, k, s);
    assert Names(p, k, s.name);
    if Find(slots, s.name).None? || Names(slots, k, s.name) {
      assert forall j: nat :: j != k ==> (Names(p, j, s.name) <==> Names(slots, j, s.name));
      assert forall j: nat :: Names(slots, j, s.name) ==> j == k;
      forall i: nat, j: nat | i < j < |p| && p[i].inUse && p[j].inUse
        ensures p[i].name != p[j].name
      {
        if j == k {
          assert !Names(slots, i, s.name);
        } else if i == k {
          assert !Names(slots, j, s.name);
        }
      }
      FindIs(p, k, s.name);
    } else {
      var j: nat :| IsFirst(slots, j, s.name);
      assert j != k && p[j] == slots[j] && p[k] == s;
    }
  }

  /** A name gets a slot that is free, or that it has already. */
  lemma PutFinds(slots: seq<Slot>, k: nat, s: Slot, name: Bytes)
    requires Unique(slots) && k <= |slots| && s.inUse
    requires if Find(slots, s.name).Some? then Names(slots, k, s.name) else k < |slots| ==> !slots[k].inUse
    ensures Unique(Put(slots, k, s))
    ensures Find(Put(slots, k, s), name) == if name == s.name then Some(s.gname) else Find(slots, name)
  {
    PutUnique(slots, k, s);
    if name != s.name {
      PutOther(slots, k, s, name);
    }
  }

  /** A name that is too long is never found. */
  lemma TooLong(contents: Bytes, slots: seq<Slot>, name: Bytes)
    requires Laid(contents, slots) && |name| > NAME_MAX
    ensures Find(slots, name).None?
  {
    hide Encode;
  }

  /** Taking a slot out of use takes its name away, and no other. */
  lemma RemoveFinds(slots: seq<Slot>, k: nat, name: Bytes)
    requires k < |slots| && slots[k].inUse
    ensures var p := slots[k := slots[k].(inUse := false)];
            && (Unique(slots) ==> Unique(p))
            && (name != slots[k].name ==> Find(p, name) == Find(slots, name))
            && (Unique(slots) && name == slots[k].name ==> Find(p, name) == None)
  {
    var p := slots[k := slots[k].(inUse := false)];
    assert forall j: nat :: j != k ==> (Names(p, j, name) <==> Names(slots, j, name));
    if name != slots[k].name && Find(slots, name).Some? {
      var j: nat :| IsFirst(slots, j, name) && slots[j].gname == Find(slots, name).value;
      FindIs(p, j, name);
    } else if name == slots[k].name && Unique(slots) {
      assert forall j: nat :: !Names(p, j, name);
    }
  }

  lemma LiveCountLast(slots: seq<Slot>)
    requires slots != []
    ensures LiveCount(slots) == LiveCount(slots[..|slots| - 1]) + if slots[|slots| - 1].inUse then 1 else 0
  {
  }

  lemma {:induction false} LiveCountPut(slots: seq<Slot>, k: nat, s: Slot)
    requires k <= |slots|
    ensures LiveCount(Put(slots, k, s)) == LiveCount(slots) + (if s.inUse then 1 else 0) - (if k < |slots| && slots[k].inUse then 1 else 0)
    decreases |slots|
  {
    hide LiveCount;
    var n, p := |slots| - 1, Put(slots, k, s);
    LiveCountLast(p);
    if n >= 0 {
      LiveCountLast(slots);
    }
    if k < n {
      LiveCountPut(slots[..n], k, s);
      assert p[..n] == Put(slots[..n], k, s);
    } else if k == n {
      assert p[..n] == slots[..n];
    } else {
      assert p[..|slots|] == slots;
    }
  }

  /** The directory grows only when all its slots are live. */
  lemma {:induction false} AllLive(slots: seq<Slot>)
    requires forall j :: 0 <= j < |slots| ==> slots[j].inUse
    ensures LiveCount(slots) == |slots|
    decreases |slots|
  {
    if slots != [] {
      AllLive(slots[..|slots| - 1]);
    }
  }

  /** What an add does to a directory. Other names keep what they stand for. If the name is not too
      long, it stands for the new log. If it is too long, it is not found; its beginning is, and if
      that was a name already, names are not unique any more. */
  ghost predicate Added(slots: seq<Slot>, slots': seq<Slot>, name: Bytes, gname: Bytes) {
    && (forall n :: n != Cut(name) ==> Find(slots', n) == Find(slots, n))
    && Find(slots', Cut(name)).Some?
    && (|name| <= NAME_MAX || Find(slots, Cut(name)).None? ==> Find(slots', Cut(name)) == Some(gname))
    && (Unique(slots) ==> (Unique(slots') <==> |name| <= NAME_MAX || Find(slots, Cut(name)).None?))
    && (|name| > NAME_MAX ==> Find(slots', name).None?)
  }

  datatype DirEnt = DirEnt(status: Status, name: Bytes, offset: nat)

  /** What gdpfs_dir_read finds from any offset on. */
  function NextEnt(contents: Bytes, start: nat): DirEnt
    decreases if start < |contents| then |contents| - start else 0
  {
    if start >= |contents| then DirEnt(Eof, [], start)
    else if start + SLOT_SIZE > |contents| then DirEnt(Corrupt, [], start)
    else
      var ent := Decode(contents[start..start + SLOT_SIZE]);
      if ent.inUse then DirEnt(Ok, ent.name, start + SLOT_SIZE) else NextEnt(contents, start + SLOT_SIZE)
  }

  /** The first live slot from k on, or the end. */
  ghost predicate IsNext(slots: seq<Slot>, k: nat, j: nat) {
    && k <= j <= |slots| && (forall i :: k <= i < j ==> !slots[i].inUse)
    && (j < |slots| ==> slots[j].inUse)
  }

  /** From the offset of a slot on, it is the next live name, or the end. */
  lemma {:induction false} NextIsLive(contents: Bytes, slots: seq<Slot>, k: nat) returns (j: nat)
    requires Laid(contents, slots) && k <= |slots|
    ensures IsNext(slots, k, j)
    ensures NextEnt(contents, SLOT_SIZE * k) ==
            if j < |slots| then DirEnt(Ok, slots[j].name, SLOT_SIZE * (j + 1)) else DirEnt(Eof, [], |contents|)
    decreases |slots| - k
  {
    hide Encode, Decode;
    j := k;
    if k < |slots| {
      SlotRoundTrip(slots[k]);
      if !slots[k].inUse {
        j := NextIsLive(contents, slots, k + 1);
      }
    }
  }

  lemma {:induction false} SkipDead(slots: seq<Slot>, k: nat, j: nat)
    requires IsNext(slots, k, j)
    ensures LiveNames(slots, k) == if j < |slots| then [slots[j].name] + LiveNames(slots, j + 1) else []
    decreases j - k
  {
    if k < j {
      SkipDead(slots, k + 1, j);
    }
  }

  class Dir {
    const file: File
    ghost var slots: seq<Slot>
    /** The largest number of names that were ever live at once. */
    ghost var peak: nat

    /** The file has the slots, and was never truncated. */
    ghost predicate Stored()
      reads this, file, file.figtree, file.figtree.nodes
    {
      file.Valid() && NeverShrinks(file.log) && Laid(file.Contents(), slots) && peak == |slots|
    }

    /** Besides, no name has two live slots. */
    ghost predicate Valid()
      reads this, file, file.figtree, file.figtree.nodes
    {
      Stored() && Unique(slots)
    }

    /** A new directory. */
    constructor ()
      ensures Valid() && slots == [] && file.log == [LogEnt(0, 0, [])] && fresh(file) && fresh(file.figtree) && fresh(file.figtree.nodes)
    {
      file := new File.Create();
      slots := [];
      peak := 0;
    }

    /** gdpfs_file_read of one slot. */
    method ReadSlot(offset: nat) returns (size: nat, ent: Slot)
      requires Stored()
      ensures size == if offset >= |file.Contents()| then 0 else Min(SLOT_SIZE, |file.Contents()| - offset)
      ensures size == SLOT_SIZE ==> ent == Decode(file.Contents()[offset..offset + SLOT_SIZE])
    {
      hide Encode, Decode, Laid;
      var buf := new Byte[SLOT_SIZE];
      size := file.Read(buf, SLOT_SIZE, offset);
      ent := Decode(buf[..]);
      if size == SLOT_SIZE {
        assert buf[..] == file.Contents()[offset..offset + SLOT_SIZE];
      }
    }

    lemma SlotIsRead(k: nat)
      requires Stored() && k <= |slots|
      ensures k < |slots| <==> SLOT_SIZE * k < |file.Contents()|
      ensures k < |slots| ==> |file.Contents()| - SLOT_SIZE * k >= SLOT_SIZE
                              && Decode(file.Contents()[SLOT_SIZE * k..SLOT_SIZE * k + SLOT_SIZE]) == slots[k]
    {
      hide Encode, Decode;
      if k < |slots| {
        SlotRoundTrip(slots[k]);
      }
    }

    method ReadSlotAt(offset: nat, ghost k: nat) returns (size: nat, ent: Slot)
      requires Stored() && k <= |slots| && offset == SLOT_SIZE * k
      ensures size == if k < |slots| then SLOT_SIZE else 0
      ensures k < |slots| ==> ent == slots[k]
    {
      hide Laid, Decode;
      SlotIsRead(k);
      size, ent := ReadSlot(offset);
    }

    /** _find_insert_offset */
    method FindInsertOffset(name: Bytes) returns (status: Status, offset: nat, ent: Slot, ghost k: nat)
      requires Stored()
      ensures k <= |slots| && offset == SLOT_SIZE * k
      ensures status == if Find(slots, name).Some? then FileExists else Ok
      ensures status == FileExists ==> IsFirst(slots, k, name) && ent == slots[k]
      ensures status == Ok ==> IsFree(slots, k)
    {
      hide Laid, Unique, Find, LogOk, NeverShrinks, Reaches, WritesOf;
      var insertOffset: Option<nat> := None;
      ghost var free: nat := 0;
      offset, k, status := 0, 0, Ok;
      while true
        invariant k <= |slots| && offset == SLOT_SIZE * k
        invariant forall j: nat :: j < k ==> !Names(slots, j, name)
        invariant if insertOffset.Some? then free < k && IsFree(slots, free) && insertOffset.value == SLOT_SIZE * free
                  else forall j :: 0 <= j < k ==> slots[j].inUse
        decreases |slots| - k
      {
        var size: nat;
        size, ent := ReadSlotAt(offset, k);
        if size == 0 {
          break;
        } else if size != SLOT_SIZE {
          status := Corrupt;
          return;
        } else if ent.inUse {
          if ent.name == name {
            assert Names(slots, k, name);
            status := FileExists;
            return;
          }
        } else if insertOffset.None? {
          insertOffset, free := Some(offset), k;
        }
        offset, k := offset + size, k + 1;
      }
      if insertOffset.Some? {
        offset, k := insertOffset.value, free;
      }
    }

    /** A C string is added at slot k, which is the one that has the name, or is free. */
    ghost predicate CanAdd(name: Bytes, gname: Bytes, k: nat)
      reads this
    {
      && 0 !in name && |gname| == GNAME_SIZE && k <= |slots|
      && if Find(slots, name).Some? then IsFirst(slots, k, name) else IsFree(slots, k)
    }

    /** _add_at_offset. A name that is too long is stored without its end. */
    method AddAtOffset(offset: nat, name: Bytes, gname: Bytes, ghost k: nat)
      requires Stored() && CanAdd(name, gname, k) && offset == SLOT_SIZE * k && offset + SLOT_SIZE <= BYTE_INDEX_MAX
      modifies this, file, file.figtree, file.figtree.nodes
      ensures Stored() && slots == Put(old(slots), k, Slot(gname, true, Cut(name)))
      ensures Added(old(slots), slots, name, gname)
      ensures peak == if LiveCount(slots) > old(peak) then LiveCount(slots) else old(peak)
    {
      hide Encode, Laid, Unique, Names, IsFree, Find, LiveCount, Put, Reaches, LogOk, WritesOf, Added, CString, NameField;
      var ent := Slot(gname, true, name);
      ghost var stored := Slot(gname, true, Cut(name));
      EncodeCut(ent);
      LaidPut(file.Contents(), slots, k, stored);
      PutAdded(name, gname, k);
      var written := file.Write(Encode(ent), offset);
      slots := Put(slots, k, stored);
      peak := |slots|;
    }

    lemma PutAdded(name: Bytes, gname: Bytes, k: nat)
      requires Stored() && CanAdd(name, gname, k)
      ensures CanTake(slots, k, Cut(name)) && Added(slots, Put(slots, k, Slot(gname, true, Cut(name))), name, gname)
      ensures var p := Put(slots, k, Slot(gname, true, Cut(name)));
              |p| == if LiveCount(p) > |slots| then LiveCount(p) else |slots|
    {
      hide Unique, Laid, Find, Put, LiveCount;
      var s := Slot(gname, true, Cut(name));
      if |name| > NAME_MAX {
        TooLong(file.Contents(), slots, name);
      }
      forall n | n != s.name
        ensures Find(Put(slots, k, s), n) == Find(slots, n)
      {
        PutOther(slots, k, s, n);
      }
      Grows(slots, k, s);
      PutHas(slots, k, s);
      if Unique(slots) {
        PutUnique(slots, k, s);
        if |name| <= NAME_MAX {
          PutFinds(slots, k, s, name);
        } else {
          FreeIsNone(k, s.name);
        }
      }
    }

    lemma FreeIsNone(k: nat, name: Bytes)
      requires IsFree(slots, k)
      ensures !Names(slots, k, name)
    {
    }

    lemma Grows(slots: seq<Slot>, k: nat, s: Slot)
      requires s.inUse && CanTake(slots, k, s.name) && (k == |slots| ==> IsFree(slots, k))
      ensures |Put(slots, k, s)| == if LiveCount(Put(slots, k, s)) > |slots| then LiveCount(Put(slots, k, s)) else |slots|
    {
      LiveCountPut(slots, k, s);
      if k == |slots| {
        AllLive(slots);
      }
    }

    /** gdpfs_dir_create_file_at_path, in one directory. */
    method Add(name: Bytes, gname: Bytes) returns (status: Status)
      requires Stored() && 0 !in name && |gname| == GNAME_SIZE && SLOT_SIZE * (|slots| + 1) <= BYTE_INDEX_MAX
      modifies this, file, file.figtree, file.figtree.nodes
      ensures Stored() && status == if Find(old(slots), name).Some? then FileExists else Ok
      ensures status == FileExists ==> slots == old(slots) && peak == old(peak)
      ensures status == Ok ==> Added(old(slots), slots, name, gname)
      ensures status == Ok ==> exists k :: IsFree(old(slots), k) && slots == Put(old(slots), k, Slot(gname, true, Cut(name)))
      ensures peak == if LiveCount(slots) > old(peak) then LiveCount(slots) else old(peak)
    {
      hide Laid, Unique, Names, Added;
      var offset, ent;
      ghost var k;
      status, offset, ent, k := FindInsertOffset(name);
      if status != Ok {
        return;
      }
      AddAtOffset(offset, name, gname, k);
    }

    /** gdpfs_dir_replace_file_at_path, in one directory, once the types have been checked. */
    method Replace(name: Bytes, gname: Bytes)
      requires Stored() && 0 !in name && |gname| == GNAME_SIZE && SLOT_SIZE * (|slots| + 1) <= BYTE_INDEX_MAX
      modifies this, file, file.figtree, file.figtree.nodes
      ensures Stored() && Added(old(slots), slots, name, gname)
      ensures exists k :: old(CanAdd(name, gname, k)) && slots == Put(old(slots), k, Slot(gname, true, Cut(name)))
      ensures peak == if LiveCount(slots) > old(peak) then LiveCount(slots) else old(peak)
    {
      hide Laid, Unique, Added;
      var status, offset, ent;
      ghost var k;
      status, offset, ent, k := FindInsertOffset(name);
      AddAtOffset(offset, name, gname, k);
    }

    /** gdpfs_dir_remove, for a file of any type. A name that is not there is not reported. */
    method Remove(name: Bytes) returns (status: Status)
      requires Stored()
      modifies this, file, file.figtree, file.figtree.nodes
      ensures Stored() && status == Ok && peak == old(peak) && |slots| == |old(slots)|
      ensures if Find(old(slots), name).None? then slots == old(slots)
              else exists k: nat :: IsFirst(old(slots), k, name) && slots == old(slots)[k := old(slots)[k].(inUse := false)]
      ensures forall n :: n != name ==> Find(slots, n) == Find(old(slots), n)
      ensures Unique(old(slots)) ==> Unique(slots) && Find(slots, name).None?
    {
      hide Laid, Unique, Encode, LogOk, NeverShrinks, Reaches, WritesOf;
      var offset, ent;
      ghost var k;
      status, offset, ent, k := FindInsertOffset(name);
      if status != FileExists {
        return;
      }
      LaidSize(file.Contents(), slots, k);
      LaidPut(file.Contents(), slots, k, ent.(inUse := false));
      forall n
        ensures n != name ==> Find(slots[k := ent.(inUse := false)], n) == Find(slots, n)
        ensures Unique(slots) ==> Unique(slots[k := ent.(inUse := false)]) && (n == name ==> Find(slots[k := ent.(inUse := false)], n).None?)
      {
        RemoveFinds(slots, k, n);
      }
      file.SizeBound(file.log);
      var written := file.Write(Encode(ent.(inUse := false)), offset);
      slots := slots[k := ent.(inUse := false)];
      status := Ok;
    }

    lemma LaidSize(contents: Bytes, slots: seq<Slot>, k: nat)
      requires Laid(contents, slots) && k < |slots|
      ensures SlotOk(slots[k]) && SLOT_SIZE * k + SLOT_SIZE <= |contents|
    {
    }

    /** gdpfs_dir_read: the next live name, and where to go on. */
    method DirRead(start: nat) returns (status: Status, name: Bytes, offset: nat)
      requires Stored()
      ensures NextEnt(file.Contents(), start).status == status
      ensures status == Ok ==> NextEnt(file.Contents(), start) == DirEnt(Ok, name, offset)
    {
      hide Laid, Decode;
      offset, name := start, [];
      var ent, size;
      size, ent := ReadSlot(offset);
      while size == SLOT_SIZE && !ent.inUse
        invariant NextEnt(file.Contents(), start) == NextEnt(file.Contents(), offset)
        invariant size == if offset >= |file.Contents()| then 0 else Min(SLOT_SIZE, |file.Contents()| - offset)
        invariant size == SLOT_SIZE ==> ent == Decode(file.Contents()[offset..offset + SLOT_SIZE])
        decreases if offset < |file.Contents()| then |file.Contents()| - offset else 0
      {
        offset := offset + size;
        size, ent := ReadSlot(offset);
      }
      if size == 0 {
        status := Eof;
      } else if size != SLOT_SIZE {
        status := Corrupt;
      } else {
        status, name, offset := Ok, ent.name, offset + size;
      }
    }

    /** A scan with gdpfs_dir_read, each call going on where the last one stopped. */
    method Scan() returns (names: seq<Bytes>)
      requires Stored()
      ensures names == LiveNames(slots, 0)
    {
      hide Laid, NextEnt, LiveNames, LogOk, NeverShrinks, Reaches, WritesOf;
      names := [];
      var status, name, offset := Ok, [], 0;
      ghost var k: nat := 0;
      while status == Ok
        invariant k <= |slots| && offset == SLOT_SIZE * k
        invariant names + (if status == Ok then LiveNames(slots, k) else []) == LiveNames(slots, 0)
        invariant status == Ok || status == Eof
        decreases status == Ok, |slots| - k
      {
        ghost var j := NextIsLive(file.Contents(), slots, k);
        var next;
        status, name, next := DirRead(offset);
        SkipDead(slots, k, j);
        if status == Ok {
          names := names + [name];
          offset, k := next, j + 1;
        }
      }
    }

    /** gdpfs_dir_isempty */
    method IsEmpty() returns (empty: bool)
      requires Stored()
      ensures empty <==> forall name :: Find(slots, name).None?
    {
      hide Laid, NextEnt;
      ghost var j := NextIsLive(file.Contents(), slots, 0);
      var status, name, offset := DirRead(0);
      empty := status == Eof;
      if j < |slots| {
        assert Names(slots, j, slots[j].name);
        assert Find(slots, slots[j].name).Some?;
      } else {
        forall name ensures Find(slots, name).None? {
          assert forall i: nat :: !Names(slots, i, name);
        }
      }
    }
  }
}
