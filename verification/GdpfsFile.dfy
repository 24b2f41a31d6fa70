/** A file on a log: do_write, do_read and the replay in open_file of gdpfs_file.c, with the
    cache off. */
module GdpfsFile {
  import opened Intervals
  import opened FigTrees
  import opened FigCorrect
  import opened FigRuns
  import opened FigWidth
  import opened FigOutcome
  import opened FigAgree
  import opened FigMemory
  import opened FigScan
  import opened FigTreeImpl
  import opened FigIterImpl
  import opened FileLog

  /** The next record can be put into the index, and the index then stands for the longer log. */
  lemma NextWrite(log: seq<LogEnt>, e: LogEnt, t: Tree)
    requires LogOk(log) && LogOk(log + [e]) && e.data != []
    requires Reaches(Bits32, WritesOf(log), t)
    ensures t.Node? && Shape(t, t.height) && Proper(WriteOf(e, |log| + 1).range)
    ensures CanEnd(Bits32, t, WriteOf(e, |log| + 1))
    ensures forall t' :: Ends(Bits32, t, t.height, WriteOf(e, |log| + 1), t') ==> Reaches(Bits32, WritesOf(log + [e]), t')
  {
    hide Reaches, Written, WritesOf, AllIn, CanWrite, Ends, Shape;
    var w := WriteOf(e, |log| + 1);
    assert (log + [e])[|log|] == e;
    WritesOffTheEdge(log);
    RunWidth(WritesOf(log), t);
    RunCorrect(Bits32, WritesOf(log), t, BYTE_INDEX_MIN);
    RunStepWidth(WritesOf(log), t, w);
    WritesSnoc(log, e);
    RunOn(Bits32, WritesOf(log), t, w);
    WrittenEnds(t, t.height, w);
    forall t' | Ends(Bits32, t, t.height, w, t')
      ensures t' == Written(Bits32, t, t.height, w)
    {
      EndsOnce(t, t.height, w, t', Written(Bits32, t, t.height, w));
    }
  }

  /** Every mapping is one that a lookup finds. */
  ghost predicate Faithful(figs: seq<Entry>, t: Tree) {
    forall k, b :: 0 <= k < |figs| && Has(figs[k].range, b) ==> Lookup(t, b) == Some(figs[k].value)
  }

  ghost predicate Mapped(figs: seq<Entry>, b: int) {
    exists k :: 0 <= k < |figs| && Has(figs[k].range, b)
  }

  lemma FigsFaithful(t: Tree, h: int, lo: int, hi: int)
    requires Shape(t, h) && BYTE_INDEX_MIN <= lo <= hi
    ensures Listed(Figs(t, lo, hi), lo, hi) && Faithful(Figs(t, lo, hi), t)
    ensures forall b :: lo <= b <= hi && !Mapped(Figs(t, lo, hi), b) ==> Lookup(t, b) == None
  {
    hide Figs, Shape, Lookup;
    var figs := Figs(t, lo, hi);
    FigsListed(t, h, lo, hi);
    forall k, b | 0 <= k < |figs| && Has(figs[k].range, b)
      ensures Lookup(t, b) == Some(figs[k].value)
    {
      FigsAreLookups(t, h, lo, hi, b, figs[k].value);
      assert Names(figs, b, figs[k].value);
    }
    forall b | lo <= b <= hi && !Mapped(figs, b)
      ensures Lookup(t, b) == None
    {
      if Lookup(t, b).Some? {
        FigsAreLookups(t, h, lo, hi, b, Lookup(t, b).value);
      }
    }
  }

  class File {
    const figtree: FigTree
    /** The records in the log; record r is log[r - 1]. */
    var log: seq<LogEnt>
    var lastRecno: nat
    var fileSize: nat

    ghost predicate Valid()
      reads this, figtree, figtree.nodes
    {
      && figtree.Valid() && figtree.width == Bits32
      && LogOk(log) && lastRecno == |log| && fileSize == SizeOf(log)
      && Reaches(Bits32, WritesOf(log), figtree.tree)
    }

    /** The flat array that the file is. */
    ghost function Contents(): seq<Byte>
      reads this
    {
      Flat(log)
    }

    /** A new file: its log has one record, with the file information. */
    constructor Create()
      ensures Valid() && log == [LogEnt(0, 0, [])] && lastRecno == 1
      ensures Contents() == [] && NeverShrinks(log) && fresh(figtree) && fresh(figtree.nodes)
    {
      figtree := new FigTree.Init(Bits32);
      log := [LogEnt(0, 0, [])];
      lastRecno := 1;
      fileSize := 0;
      new;
      assert WritesOf([]) == [];
      WritesSnoc([], LogEnt(0, 0, []));
      assert [] + [LogEnt(0, 0, [])] == log;
    }

    /** Opening a log without a checkpoint: the records are collected from the last one back, and
        then written to an empty index from the first one on. */
    constructor Open(log: seq<LogEnt>)
      requires LogOk(log)
      ensures Valid() && this.log == log && fresh(figtree) && fresh(figtree.nodes)
    {
      figtree := new FigTree.Init(Bits32);
      this.log := log;
      lastRecno := |log|;
      fileSize := SizeOf(log);
      new;
      Replay();
    }

    method Replay()
      requires figtree.Valid() && figtree.width == Bits32 && figtree.tree == EMPTY_TREE && LogOk(log)
      modifies figtree, figtree.nodes
      ensures figtree.Valid() && Reaches(Bits32, WritesOf(log), figtree.tree)
    {
      hide Reaches, WritesOf, CanEnd, Ends, LogOk;
      var recno := |log|;
      var ents: seq<nat> := [];
      while recno > 0
        invariant 0 <= recno && recno + |ents| == |log|
        invariant forall k :: 0 <= k < |ents| ==> ents[k] == |log| - k
      {
        ents := ents + [recno];
        recno := recno - 1;
      }
      var enti := |ents| - 1;
      ReplayStart(log, figtree.tree);
      while enti >= 0
        invariant -1 <= enti < |ents| == |log| && figtree.Valid()
        invariant Reaches(Bits32, WritesOf(log[..|log| - 1 - enti]), figtree.tree)
      {
        var r := ents[enti];
        var entry := log[r - 1];
        assert log[..r] == log[..r - 1] + [entry];
        LogOkPrefix(log, r);
        LogOkPrefix(log, r - 1);
        WritesSnoc(log[..r - 1], entry);
        if |entry.data| > 0 {
          NextWrite(log[..r - 1], entry, figtree.tree);
          figtree.FtWrite(entry.entOffset, entry.entOffset + |entry.data| - 1, r);
        }
        enti := enti - 1;
      }
      assert log[..|log|] == log;
    }

    lemma ReplayStart(log: seq<LogEnt>, t: Tree)
      requires t == EMPTY_TREE
      ensures Reaches(Bits32, WritesOf(log[..0]), t)
    {
    }

    /** do_write: the record is put into the index and appended to the log. */
    method DoWrite(buf: seq<Byte>, offset: nat, newSize: nat)
      requires Valid() && newSize <= BYTE_INDEX_MAX && (buf != [] ==> offset + |buf| <= newSize)
      modifies this, figtree, figtree.nodes
      ensures Valid() && log == old(log) + [LogEnt(newSize, offset, buf)]
    {
      hide Reaches, WritesOf, CanEnd, Ends, LogOk;
      var entry := LogEnt(newSize, offset, buf);
      LogOkSnoc(log, entry);
      WritesSnoc(log, entry);
      lastRecno := lastRecno + 1;
      if |buf| > 0 {
        NextWrite(log, entry, figtree.tree);
        figtree.FtWrite(offset, offset + |buf| - 1, lastRecno);
      }
      log := log + [entry];
      fileSize := newSize;
    }

    /** gdpfs_file_write. Once the file has been truncated, old bytes may come back below the
        offset. */
    method Write(buf: seq<Byte>, offset: nat) returns (written: nat)
      requires Valid() && offset + |buf| <= BYTE_INDEX_MAX
      modifies this, figtree, figtree.nodes
      ensures Valid() && written == |buf| && |Contents()| == Max(|old(Contents())|, offset + |buf|)
      ensures log == old(log) + [LogEnt(|Contents()|, offset, buf)]
      ensures forall b :: 0 <= b < |Contents()| ==>
                            Contents()[b] == if offset <= b < offset + |buf| then buf[b - offset] else FlatByte(old(log), b)
      ensures Contents() == Overlaid(old(Contents()), offset, buf) <==> Blank(old(log), |old(Contents())|, offset)
      ensures NeverShrinks(old(log)) ==> NeverShrinks(log) && Contents() == Overlaid(old(Contents()), offset, buf)
    {
      hide Reaches, WritesOf, LogOk, NeverShrinks, Blank, FlatByte;
      var potential := offset + |buf|;
      SizeBound(log);
      DoWrite(buf, offset, if potential > fileSize then potential else fileSize);
      ghost var e := LogEnt(fileSize, offset, buf);
      assert log[|log| - 1] == e;
      FlatSnoc(old(log), e);
      forall b | 0 <= b < |Contents()|
        ensures Contents()[b] == if offset <= b < offset + |buf| then buf[b - offset] else FlatByte(old(log), b)
      {
        FlatByteSnoc(old(log), e, b);
      }
      if NeverShrinks(old(log)) {
        BlankBehind(old(log), offset);
        NeverShrinksSnoc(old(log), e);
      }
      written := |buf|;
    }

    /** gdpfs_file_set_info, gdpfs_file_set_perm: a record without data. */
    method SetInfo(newSize: nat)
      requires Valid() && newSize <= BYTE_INDEX_MAX
      modifies this, figtree, figtree.nodes
      ensures Valid() && log == old(log) + [LogEnt(newSize, 0, [])]
      ensures newSize <= |old(Contents())| ==> Contents() == old(Contents())[..newSize]
      ensures newSize >= |old(Contents())| ==>
                (Contents() == Overlaid(old(Contents()), newSize, []) <==> Blank(old(log), |old(Contents())|, newSize))
    {
      hide Reaches, WritesOf, LogOk, Blank;
      DoWrite([], 0, newSize);
      FlatInfo(old(log), LogEnt(newSize, 0, []));
    }

    /** gdpfs_file_ftruncate, which cuts off everything whatever size is asked for. */
    method Ftruncate(size: nat)
      requires Valid()
      modifies this, figtree, figtree.nodes
      ensures Valid() && log == old(log) + [LogEnt(0, 0, [])] && Contents() == []
      ensures size <= |old(Contents())| ==> (Contents() == old(Contents())[..size] <==> size == 0)
    {
      hide Reaches, WritesOf, LogOk, Blank;
      SetInfo(0);
    }

    lemma SizeBound(log: seq<LogEnt>)
      requires LogOk(log)
      ensures SizeOf(log) <= BYTE_INDEX_MAX
    {
      if log != [] {
        assert Inside(log[|log| - 1]);
      }
    }

    /** do_read: the bytes of the file from `offset` on, as many as there are. */
    method Read(buf: array<Byte>, size: nat, offset: nat) returns (n: nat)
      requires Valid() && size <= buf.Length
      modifies buf
      ensures n == if offset > |Contents()| then 0 else Min(size, |Contents()| - offset)
      ensures forall i :: 0 <= i < n ==> buf[i] == Contents()[offset + i]
      ensures forall i :: n <= i < buf.Length ==> buf[i] == old(buf[i])
    {
      hide Reaches, WritesOf, LogOk;
      n := size;
      if n + offset > fileSize {
        if offset > fileSize {
          return 0;
        }
        n := fileSize - offset;
      }
      forall i | 0 <= i < n { buf[i] := 0; }
      if n > 0 {
        SizeBound(log);
        ReadIndexed(buf, n, offset);
      }
    }

    /** All bytes but those that `figs` still has to bring are there. */
    ghost predicate Filled(buf: array<Byte>, n: nat, offset: nat, figs: seq<Entry>)
      requires n <= buf.Length
      reads this, buf
    {
      forall b :: offset <= b < offset + n && !Mapped(figs, b) ==> buf[b - offset] == FlatByte(log, b)
    }

    /** The bytes that the index has are fetched from the log. */
    method ReadIndexed(buf: array<Byte>, n: nat, offset: nat)
      requires Valid() && 0 < n <= buf.Length && offset + n <= fileSize && fileSize <= BYTE_INDEX_MAX
      requires forall i :: 0 <= i < n ==> buf[i] == 0
      modifies buf
      ensures forall i :: 0 <= i < n ==> buf[i] == Contents()[offset + i]
      ensures forall i :: n <= i < buf.Length ==> buf[i] == old(buf[i])
    {
      hide Reaches, WritesOf, LogOk, Figs, FlatByte, Mapped;
      var figterator := new FigIter.FtRead(figtree, offset, offset + n - 1);
      FigsFaithful(figtree.tree, figtree.tree.height, offset, offset + n - 1);
      HolesAreZero(buf, n, offset, figterator.Remaining());
      var more := true;
      while more
        invariant fresh(figterator) && fresh(figterator.states) && Reading(figterator, buf, n, offset)
        invariant forall i :: n <= i < buf.Length ==> buf[i] == old(buf[i])
        invariant !more ==> figterator.Remaining() == []
        decreases |figterator.Remaining()|, more
      {
        more := ReadNext(figterator, buf, n, offset);
      }
      AllFilled(buf, n, offset, figterator.Remaining());
    }

    /** In the middle of a read: what the iterator has yielded is in the buffer. */
    ghost predicate Reading(figterator: FigIter, buf: array<Byte>, n: nat, offset: nat)
      requires n <= buf.Length
      reads this, figtree, figtree.nodes, figterator, figterator.states, figterator.nodes, buf
    {
      && figterator.Valid() && figterator.nodes == figtree.nodes
      && Listed(figterator.Remaining(), offset, offset + n - 1) && Faithful(figterator.Remaining(), figtree.tree)
      && Filled(buf, n, offset, figterator.Remaining())
    }

    method ReadNext(figterator: FigIter, buf: array<Byte>, n: nat, offset: nat) returns (more: bool)
      requires Valid() && n <= buf.Length && offset + n <= fileSize && Reading(figterator, buf, n, offset)
      modifies figterator, figterator.states, buf
      ensures Reading(figterator, buf, n, offset)
      ensures forall i :: n <= i < buf.Length ==> buf[i] == old(buf[i])
      ensures if more then |figterator.Remaining()| < |old(figterator.Remaining())| else figterator.Remaining() == []
    {
      hide Reaches, WritesOf, LogOk, FlatByte, Mapped, Shape, Listed, Faithful, Filled, Stack, RestAll, Rep, NoAlias, Foot;
      ghost var figs := figterator.Remaining();
      var next := figterator.FtiNext();
      more := next.Some?;
      if more {
        CopyFig(buf, n, offset, next.value, figs);
      }
    }

    /** The bytes of one mapping are fetched from its record. */
    method CopyFig(buf: array<Byte>, n: nat, offset: nat, fig: Entry, ghost figs: seq<Entry>)
      requires Valid() && n <= buf.Length && offset + n <= fileSize
      requires figs != [] && fig == figs[0] && Listed(figs, offset, offset + n - 1) && Faithful(figs, figtree.tree)
      requires Filled(buf, n, offset, figs)
      modifies buf
      ensures Filled(buf, n, offset, figs[1..]) && Listed(figs[1..], offset, offset + n - 1) && Faithful(figs[1..], figtree.tree)
      ensures forall i :: n <= i < buf.Length ==> buf[i] == old(buf[i])
    {
      hide Reaches, WritesOf, LogOk, FlatByte, Shape;
      FigRecord(fig, figs);
      // Record numbers start at 1: the branches of do_read for other values are not taken.
      assert fig.value > 0;
      var entry := log[fig.value - 1];
      var drained, len := fig.range.left - entry.entOffset, fig.range.right - fig.range.left + 1;
      forall i | 0 <= i < len { buf[fig.range.left - offset + i] := entry.data[drained + i]; }
      forall b | offset <= b < offset + n && !Mapped(figs[1..], b)
        ensures buf[b - offset] == FlatByte(log, b)
      {
        if !Has(fig.range, b) {
          NotMapped(figs, b);
        }
      }
    }

    lemma NotMapped(figs: seq<Entry>, b: int)
      requires figs != [] && !Mapped(figs[1..], b) && !Has(figs[0].range, b)
      ensures !Mapped(figs, b)
    {
      forall k | 0 <= k < |figs| ensures !Has(figs[k].range, b) {
        if k > 0 {
          assert figs[k] == figs[1..][k - 1];
        }
      }
    }

    /** The record that a mapping names has all its bytes, and they are the last ones written. */
    lemma FigRecord(fig: Entry, figs: seq<Entry>)
      requires Valid() && figs != [] && fig == figs[0] && Sorted(figs) && Faithful(figs, figtree.tree)
      ensures 0 < fig.value <= |log|
      ensures var e := log[fig.value - 1];
              && e.entOffset <= fig.range.left <= fig.range.right < e.entOffset + |e.data|
              && forall b :: Has(fig.range, b) ==> FlatByte(log, b) == e.data[b - e.entOffset]
    {
      hide Reaches, WritesOf, LogOk, Lookup, Shape;
      forall b | Has(fig.range, b)
        ensures LastRecord(log, b) == fig.value != 0
      {
        IndexedBytes(log, figtree.tree, b);
      }
      assert Has(fig.range, fig.range.left) && Has(fig.range, fig.range.right);
    }

    lemma AllFilled(buf: array<Byte>, n: nat, offset: nat, figs: seq<Entry>)
      requires n <= buf.Length && Filled(buf, n, offset, figs) && figs == [] && offset + n <= SizeOf(log)
      ensures forall i :: 0 <= i < n ==> buf[i] == Contents()[offset + i]
    {
      forall i | 0 <= i < n
        ensures buf[i] == Contents()[offset + i]
      {
        assert !Mapped(figs, offset + i);
        assert buf[offset + i - offset] == FlatByte(log, offset + i);
      }
    }

    lemma HolesAreZero(buf: array<Byte>, n: nat, offset: nat, figs: seq<Entry>)
      requires Valid() && n <= buf.Length && offset + n <= fileSize && fileSize <= BYTE_INDEX_MAX
      requires forall i :: 0 <= i < n ==> buf[i] == 0
      requires forall b :: offset <= b < offset + n && !Mapped(figs, b) ==> Lookup(figtree.tree, b) == None
      ensures Filled(buf, n, offset, figs)
    {
      hide Reaches, WritesOf, Mapped;
      forall b | offset <= b < offset + n && !Mapped(figs, b)
        ensures FlatByte(log, b) == 0
      {
        IndexedBytes(log, figtree.tree, b);
      }
    }
  }
}
