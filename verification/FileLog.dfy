/** What the log of a file stands for: a flat array of bytes (gdpfs_file.c). */
module FileLog {
  import opened Intervals
  import opened FigTrees
  import opened FigRuns
  import opened FigWidth

  type Byte = x: int | 0 <= x < 256

  /** A data record: gdpfs_fmeta_t with the bytes that follow it. Records are numbered from 1. A
      record without bytes only carries file information. */
  datatype LogEnt = LogEnt(fileSize: nat, entOffset: nat, data: seq<Byte>)

  /** Every record lies inside the file as it was then, and the file ends before the last byte index. */
  ghost predicate LogOk(log: seq<LogEnt>) {
    forall r :: 0 <= r < |log| ==> Inside(log[r])
  }

  /** A log without truncation. */
  ghost predicate NeverShrinks(log: seq<LogEnt>) {
    forall r, s :: 0 <= r < s < |log| ==> log[r].fileSize <= log[s].fileSize
  }

  /** Between these bytes there is nothing but zeros, even behind the end of the file. */
  ghost predicate Blank(log: seq<LogEnt>, from: int, to: int) {
    forall b :: from <= b < to ==> FlatByte(log, b) == 0
  }

  predicate Inside(e: LogEnt) {
    && e.fileSize <= BYTE_INDEX_MAX
    && (e.data != [] ==> e.entOffset + |e.data| <= e.fileSize)
  }

  function SizeOf(log: seq<LogEnt>): nat {
    if log == [] then 0 else log[|log| - 1].fileSize
  }

  predicate Covers(e: LogEnt, b: int) {
    e.entOffset <= b < e.entOffset + |e.data|
  }

  /** The number of the last record that covers byte b. */
  function LastRecord(log: seq<LogEnt>, b: int): (r: nat)
    ensures r <= |log| && (r > 0 ==> Covers(log[r - 1], b))
    ensures forall s :: r <= s < |log| ==> !Covers(log[s], b)
    decreases |log|
  {
    if log == [] then 0
    else if Covers(log[|log| - 1], b) then |log|
    else
      assert log[..|log| - 1][..] == log[..|log| - 1];
      LastRecord(log[..|log| - 1], b)
  }

  /** The byte of the file at b: 0 where nothing was written. */
  function FlatByte(log: seq<LogEnt>, b: int): Byte {
    var r := LastRecord(log, b);
    if r == 0 then 0 else log[r - 1].data[b - log[r - 1].entOffset]
  }

  /** The file. */
  function Flat(log: seq<LogEnt>): (f: seq<Byte>)
    ensures |f| == SizeOf(log)
    ensures forall b :: 0 <= b < |f| ==> f[b] == FlatByte(log, b)
  {
    seq(SizeOf(log), b requires 0 <= b < SizeOf(log) => FlatByte(log, b))
  }

  /** Writing to a flat array, with zeros for what lies between its end and the offset. */
  function Overlaid(f: seq<Byte>, offset: nat, data: seq<Byte>): (g: seq<Byte>)
    ensures |g| == if offset + |data| > |f| then offset + |data| else |f|
    ensures forall b :: 0 <= b < |g| ==>
                          g[b] == if offset <= b < offset + |data| then data[b - offset] else if b < |f| then f[b] else 0
  {
    seq(if offset + |data| > |f| then offset + |data| else |f|,
    b requires 0 <= b < (if offset + |data| > |f| then offset + |data| else |f|) =>
      if offset <= b < offset + |data| then data[b - offset] else if b < |f| then f[b] else 0)
  }

  lemma LastRecordSnoc(log: seq<LogEnt>, e: LogEnt, b: int)
    ensures LastRecord(log + [e], b) == if Covers(e, b) then |log| + 1 else LastRecord(log, b)
  {
    assert (log + [e])[..|log|] == log;
  }

  lemma FlatByteSnoc(log: seq<LogEnt>, e: LogEnt, b: int)
    ensures FlatByte(log + [e], b) == if Covers(e, b) then e.data[b - e.entOffset] else FlatByte(log, b)
  {
    hide LastRecord;
    LastRecordSnoc(log, e, b);
    assert forall r :: 0 <= r < |log| ==> (log + [e])[r] == log[r];
    assert (log + [e])[|log|] == e;
  }

  /** Nothing is recorded behind the end of a file that was never truncated. */
  lemma {:induction false} NoRecordBehind(log: seq<LogEnt>, b: int)
    requires LogOk(log) && NeverShrinks(log) && b >= SizeOf(log)
    ensures LastRecord(log, b) == 0 && FlatByte(log, b) == 0
    decreases |log|
  {
    if log != [] {
      var n := |log| - 1;
      assert Inside(log[n]);
      assert n > 0 ==> log[n - 1].fileSize <= log[n].fileSize;
      NoRecordBehind(log[..n], b);
    }
  }

  /** A record at the end of the log does to the file what a write does to a flat array, if and only
      if no old bytes come back between the end of the file and the offset. */
  lemma FlatSnoc(log: seq<LogEnt>, e: LogEnt)
    requires e.fileSize == if e.entOffset + |e.data| > SizeOf(log) then e.entOffset + |e.data| else SizeOf(log)
    ensures Flat(log + [e]) == Overlaid(Flat(log), e.entOffset, e.data) <==> Blank(log, SizeOf(log), e.entOffset)
  {
    hide FlatByte;
    var f, g := Flat(log + [e]), Overlaid(Flat(log), e.entOffset, e.data);
    assert (log + [e])[|log|] == e;
    forall b | 0 <= b < |f|
      ensures f[b] == if Covers(e, b) then e.data[b - e.entOffset] else FlatByte(log, b)
    {
      FlatByteSnoc(log, e, b);
    }
    if !Blank(log, SizeOf(log), e.entOffset) {
      var b :| SizeOf(log) <= b < e.entOffset && FlatByte(log, b) != 0;
      assert f[b] != g[b];
    }
  }

  /** That never happens if the file was never truncated. */
  lemma BlankBehind(log: seq<LogEnt>, to: int)
    requires LogOk(log) && NeverShrinks(log)
    ensures Blank(log, SizeOf(log), to)
  {
    forall b | SizeOf(log) <= b < to
      ensures FlatByte(log, b) == 0
    {
      NoRecordBehind(log, b);
    }
  }

  /** A record that only carries file information cuts the file off at its new size, or makes it
      longer by what was once recorded there. */
  lemma FlatInfo(log: seq<LogEnt>, e: LogEnt)
    requires e.data == []
    ensures e.fileSize <= SizeOf(log) ==> Flat(log + [e]) == Flat(log)[..e.fileSize]
    ensures e.fileSize >= SizeOf(log) ==>
              (Flat(log + [e]) == Overlaid(Flat(log), e.fileSize, []) <==> Blank(log, SizeOf(log), e.fileSize))
  {
    hide FlatByte;
    assert (log + [e])[|log|] == e;
    var f := Flat(log + [e]);
    forall b | 0 <= b < |f|
      ensures f[b] == FlatByte(log, b)
    {
      FlatByteSnoc(log, e, b);
    }
    if e.fileSize > SizeOf(log) && !Blank(log, SizeOf(log), e.fileSize) {
      var b :| SizeOf(log) <= b < e.fileSize && FlatByte(log, b) != 0;
      assert f[b] != Overlaid(Flat(log), e.fileSize, [])[b];
    }
  }

  /** What was written to a new file, then cut off, comes back with the next write behind it. */
  lemma CutComesBack(log: seq<LogEnt>, data: seq<Byte>, more: seq<Byte>)
    requires more != []
    ensures var n, m := |data|, |data| + |more|;
            var cut := log + [LogEnt(n, 0, data), LogEnt(0, 0, [])];
            Flat(cut) == [] && Flat(cut + [LogEnt(m, n, more)]) == data + more
  {
    hide FlatByte;
    var n, m := |data|, |data| + |more|;
    var l1 := log + [LogEnt(n, 0, data)];
    var cut := l1 + [LogEnt(0, 0, [])];
    assert log + [LogEnt(n, 0, data), LogEnt(0, 0, [])] == cut;
    var f := Flat(cut + [LogEnt(m, n, more)]);
    forall b | 0 <= b < m
      ensures f[b] == (data + more)[b]
    {
      FlatByteSnoc(cut, LogEnt(m, n, more), b);
      FlatByteSnoc(l1, LogEnt(0, 0, []), b);
      FlatByteSnoc(log, LogEnt(n, 0, data), b);
    }
  }

  lemma LogOkSnoc(log: seq<LogEnt>, e: LogEnt)
    requires LogOk(log) && Inside(e)
    ensures LogOk(log + [e])
  {
  }

  lemma NeverShrinksSnoc(log: seq<LogEnt>, e: LogEnt)
    requires NeverShrinks(log) && SizeOf(log) <= e.fileSize
    ensures NeverShrinks(log + [e])
  {
    var l := log + [e];
    forall r, s | 0 <= r < s < |l|
      ensures l[r].fileSize <= l[s].fileSize
    {
      if s == |log| && r < |log| - 1 {
        assert log[r].fileSize <= log[|log| - 1].fileSize;
      }
    }
  }

  function WriteOf(e: LogEnt, recno: int): Entry {
    Entry(Span(e.entOffset, e.entOffset + |e.data| - 1), recno)
  }

  /** The writes to the index that a log stands for: record numbers as values, information
      records left out. */
  function WritesOf(log: seq<LogEnt>): seq<Entry>
    decreases |log|
  {
    if log == [] then []
    else
      var n := |log| - 1;
      WritesOf(log[..n]) + if log[n].data == [] then [] else [WriteOf(log[n], n + 1)]
  }

  lemma WritesSnoc(log: seq<LogEnt>, e: LogEnt)
    ensures WritesOf(log + [e]) == if e.data == [] then WritesOf(log) else WritesOf(log) + [WriteOf(e, |log| + 1)]
  {
    hide WritesOf;
    WritesLast(log + [e]);
    assert (log + [e])[..|log|] == log;
  }

  lemma WritesLast(log: seq<LogEnt>)
    requires log != []
    ensures var n := |log| - 1;
            WritesOf(log) == WritesOf(log[..n]) + if log[n].data == [] then [] else [WriteOf(log[n], n + 1)]
  {
  }

  lemma LogOkPrefix(log: seq<LogEnt>, n: nat)
    requires LogOk(log) && n <= |log|
    ensures LogOk(log[..n])
  {
  }

  lemma {:induction false} WritesOffTheEdge(log: seq<LogEnt>)
    requires LogOk(log)
    ensures OffTheEdge(WritesOf(log))
    decreases |log|
  {
    if log != [] {
      LogOkPrefix(log, |log| - 1);
      WritesOffTheEdge(log[..|log| - 1]);
      assert Inside(log[|log| - 1]);
    }
  }

  /** In the index, every byte has the number of the last record that covers it. */
  lemma {:induction false} LastWriterIsRecord(log: seq<LogEnt>, b: int)
    ensures LastWriter(WritesOf(log), b) == if LastRecord(log, b) == 0 then None else Some(LastRecord(log, b))
    decreases |log|
  {
    if log != [] {
      var n, ws := |log| - 1, WritesOf(log);
      LastWriterIsRecord(log[..n], b);
      if log[n].data != [] {
        assert ws[..|ws| - 1] == WritesOf(log[..n]);
      } else {
        assert ws == WritesOf(log[..n]);
      }
    }
  }

  /** The index of a run that wrote what the log says. */
  lemma IndexedBytes(log: seq<LogEnt>, t: Tree, b: int)
    requires LogOk(log) && Reaches(Bits32, WritesOf(log), t) && IsIndex(b)
    ensures Lookup(t, b) == if LastRecord(log, b) == 0 then None else Some(LastRecord(log, b))
  {
    RunCorrect(Bits32, WritesOf(log), t, b);
    LastWriterIsRecord(log, b);
  }

  predicate IsIndex(b: int) {
    BYTE_INDEX_MIN <= b <= BYTE_INDEX_MAX
  }
}
