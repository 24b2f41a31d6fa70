/** The local cache of a file: a sparse copy, and a bitmap file that says which of its bytes are
    valid (gdpfs_file.c with USE_BITMAP). */
module GdpfsCache {
  import opened Intervals
  import opened FileLog
  import opened FigRuns
  import opened GdpfsFile
  import opened BitmapFile

  const BOUNCE: nat := 1024

  /** A byte of the cache file; holes and what lies behind the end are zero. */
  function CacheByte(cache: seq<Byte>, b: nat): Byte {
    if b < |cache| then cache[b] else 0
  }

  /** Every byte that is marked valid is the byte of the file. */
  ghost predicate Agrees(cache: seq<Byte>, bits: seq<bv8>, contents: seq<Byte>) {
    forall b: nat :: BitAt(bits, b) ==> b < |cache| && b < |contents| && cache[b] == contents[b]
  }

  /** For a file that was made here, the cache is the file, but for zeros at its end. */
  ghost predicate Mirrors(cache: seq<Byte>, contents: seq<Byte>) {
    |cache| <= |contents| && forall b: nat :: b < |contents| ==> contents[b] == CacheByte(cache, b)
  }

  /** The cache file after a write at an offset. */
  function Cached(cache: seq<Byte>, offset: nat, buf: seq<Byte>): (r: seq<Byte>)
    ensures |r| == if buf != [] && offset + |buf| > |cache| then offset + |buf| else |cache|
    ensures forall b: nat :: CacheByte(r, b) == if offset <= b < offset + |buf| then buf[b - offset] else CacheByte(cache, b)
  {
    if buf == [] then cache else Overlaid(cache, offset, buf)
  }

  lemma AgreesWrite(cache: seq<Byte>, bits: seq<bv8>, bits': seq<bv8>, contents: seq<Byte>, offset: nat, buf: seq<Byte>)
    requires Agrees(cache, bits, contents)
    requires forall b: nat :: BitAt(bits', b) <==> BitAt(bits, b) || offset <= b < offset + |buf|
    ensures Agrees(Cached(cache, offset, buf), bits', Overlaid(contents, offset, buf))
  {
    hide BitAt;
    var cache', contents' := Cached(cache, offset, buf), Overlaid(contents, offset, buf);
    forall b: nat | BitAt(bits', b)
      ensures b < |cache'| && b < |contents'| && cache'[b] == contents'[b]
    {
      assert CacheByte(cache', b) == if offset <= b < offset + |buf| then buf[b - offset] else CacheByte(cache, b);
    }
  }

  lemma MirrorsWrite(cache: seq<Byte>, contents: seq<Byte>, offset: nat, buf: seq<Byte>)
    requires Mirrors(cache, contents)
    ensures Mirrors(Cached(cache, offset, buf), Overlaid(contents, offset, buf))
  {
    var cache', contents' := Cached(cache, offset, buf), Overlaid(contents, offset, buf);
    forall b: nat | b < |contents'|
      ensures contents'[b] == CacheByte(cache', b)
    {
      assert CacheByte(cache', b) == if offset <= b < offset + |buf| then buf[b - offset] else CacheByte(cache, b);
    }
  }

  /** Putting bytes of the file into the cache. */
  lemma AgreesFill(cache: seq<Byte>, bits: seq<bv8>, bits': seq<bv8>, contents: seq<Byte>, offset: nat, n: nat)
    requires Agrees(cache, bits, contents) && offset + n <= |contents|
    requires forall b: nat :: BitAt(bits', b) <==> BitAt(bits, b) || offset <= b < offset + n
    ensures Agrees(Cached(cache, offset, contents[offset..offset + n]), bits', contents)
  {
    AgreesWrite(cache, bits, bits', contents, offset, contents[offset..offset + n]);
    assert Overlaid(contents, offset, contents[offset..offset + n]) == contents;
  }

  lemma MirrorsFill(cache: seq<Byte>, contents: seq<Byte>, offset: nat, n: nat)
    requires Mirrors(cache, contents) && offset + n <= |contents|
    ensures Mirrors(Cached(cache, offset, contents[offset..offset + n]), contents)
  {
    MirrorsWrite(cache, contents, offset, contents[offset..offset + n]);
    assert Overlaid(contents, offset, contents[offset..offset + n]) == contents;
  }

  class CachedFile {
    const file: File
    const bitmap: PosixFile
    var cache: seq<Byte>
    /** The file was made here, and not opened. */
    var newFile: bool

    ghost predicate Valid()
      reads this, file, file.figtree, file.figtree.nodes, bitmap
    {
      && file.Valid() && NeverShrinks(file.log) && Agrees(cache, bitmap.data, file.Contents())
      && (newFile ==> Mirrors(cache, file.Contents()))
    }

    /** A file that is made here. */
    constructor Create()
      ensures Valid() && newFile && file.log == [LogEnt(0, 0, [])] && file.Contents() == [] && cache == [] && bitmap.data == []
      ensures fresh(file) && fresh(file.figtree) && fresh(file.figtree.nodes) && fresh(bitmap)
    {
      file := new File.Create();
      bitmap := new PosixFile([]);
      cache := [];
      newFile := true;
    }

    /** gdpfs_file_fill_cache, overwriting what is there. */
    method FillCache(buf: seq<Byte>, offset: nat)
      modifies this`cache, bitmap
      ensures cache == Cached(old(cache), offset, buf)
      ensures forall b: nat :: BitAt(bitmap.data, b) <==> BitAt(old(bitmap.data), b) || offset <= b < offset + |buf|
    {
      hide BitAt;
      cache := Cached(cache, offset, buf);
      if |buf| != 0 {
        var ok := SetRange(bitmap, offset, offset + |buf|);
      }
    }

    /** These bytes come from the cache: of a file that was made here, all that the cache file has; of an
        opened one, those that are marked. */
    ghost predicate Hit(size: nat, offset: nat)
      reads this, bitmap`data
    {
      if newFile then size == 0 || offset + size <= |cache|
      else forall b: nat :: offset <= b < offset + size ==> BitAt(bitmap.data, b)
    }

    /** gdpfs_file_get_cache */
    method GetCache(buf: array<Byte>, size: nat, offset: nat) returns (hit: bool)
      requires Valid() && size <= buf.Length && offset + size <= |file.Contents()|
      modifies buf, bitmap`pos
      ensures Valid()
      ensures hit ==> forall i :: 0 <= i < size ==> buf[i] == file.Contents()[offset + i]
      ensures hit == Hit(size, offset)
      ensures forall i :: size <= i < buf.Length ==> buf[i] == old(buf[i])
    {
      hide BitAt, LogOk, Reaches, WritesOf, Flat;
      if newFile {
        hit := true;
      } else if size == 0 {
        return true;
      } else {
        hit := IsSet(bitmap, offset, offset + size);
        assert hit ==> BitAt(bitmap.data, offset + size - 1);
      }
      if hit {
        var rv := if offset + size <= |cache| then size else if offset <= |cache| then |cache| - offset else 0;
        forall i | 0 <= i < rv { buf[i] := cache[offset + i]; }
        if rv != size {
          hit := false;
        }
      }
    }

    /** gdpfs_file_write with the cache on. */
    method Write(buf: seq<Byte>, offset: nat) returns (written: nat)
      requires Valid() && offset + |buf| <= BYTE_INDEX_MAX
      modifies this`cache, bitmap, file, file.figtree, file.figtree.nodes
      ensures Valid() && file.Contents() == Overlaid(old(file.Contents()), offset, buf) && written == |buf|
      ensures file.log == old(file.log) + [LogEnt(|file.Contents()|, offset, buf)]
      ensures cache == Cached(old(cache), offset, buf)
      ensures forall b: nat :: BitAt(bitmap.data, b) <==> BitAt(old(bitmap.data), b) || offset <= b < offset + |buf|
    {
      hide BitAt, LogOk, NeverShrinks, Reaches, WritesOf, Agrees, Mirrors, Flat;
      ghost var bits := bitmap.data;
      FillCache(buf, offset);
      AgreesWrite(old(cache), bits, bitmap.data, file.Contents(), offset, buf);
      if newFile {
        MirrorsWrite(old(cache), file.Contents(), offset, buf);
      }
      written := file.Write(buf, offset);
    }

    /** do_read with the cache on: the same bytes, from the cache or, on a miss, from the log; and
        then they are in the cache, so that the same read is a hit from then on. */
    method Read(buf: array<Byte>, size: nat, offset: nat) returns (n: nat)
      requires Valid() && size <= buf.Length
      modifies this`cache, bitmap, buf
      ensures Valid() && file.Contents() == old(file.Contents())
      ensures n == if offset > |file.Contents()| then 0 else Min(size, |file.Contents()| - offset)
      ensures forall i :: 0 <= i < n ==> buf[i] == file.Contents()[offset + i]
      ensures forall i :: n <= i < buf.Length ==> buf[i] == old(buf[i])
      ensures if n == 0 || old(Hit(n, offset)) then cache == old(cache) && bitmap.data == old(bitmap.data)
              else
                && cache == Cached(old(cache), offset, file.Contents()[offset..offset + n])
                && forall b: nat :: BitAt(bitmap.data, b) <==> BitAt(old(bitmap.data), b) || offset <= b < offset + n
      ensures n > 0 ==> Hit(n, offset)
    {
      hide Hit, Cached, BitAt, LogOk, NeverShrinks, Reaches, WritesOf, Agrees, Mirrors, Flat;
      n := size;
      if n + offset > file.fileSize {
        if offset > file.fileSize {
          return 0;
        }
        n := file.fileSize - offset;
      }
      var hit := GetCache(buf, n, offset);
      if hit || n == 0 {
        return;
      }
      ReadMiss(buf, n, offset);
    }

    /** On a miss the bytes are read from the log and put into the cache. */
    method ReadMiss(buf: array<Byte>, n: nat, offset: nat)
      requires Valid() && 0 < n <= buf.Length && offset + n <= |file.Contents()|
      modifies this`cache, bitmap, buf
      ensures Valid() && Hit(n, offset) && cache == Cached(old(cache), offset, file.Contents()[offset..offset + n])
      ensures forall b: nat :: BitAt(bitmap.data, b) <==> BitAt(old(bitmap.data), b) || offset <= b < offset + n
      ensures forall i :: 0 <= i < n ==> buf[i] == file.Contents()[offset + i]
      ensures forall i :: n <= i < buf.Length ==> buf[i] == old(buf[i])
    {
      hide BitAt, LogOk, NeverShrinks, Reaches, WritesOf, Agrees, Mirrors, Flat;
      ghost var bits, c := bitmap.data, file.Contents();
      var m := file.Read(buf, n, offset);
      assert buf[..n] == c[offset..offset + n];
      FillCache(buf[..n], offset);
      AgreesFill(old(cache), bits, bitmap.data, c, offset, n);
      if newFile {
        MirrorsFill(old(cache), c, offset, n);
      }
    }

    /** The file is opened. The cache files may be there from an earlier opening; the replay of the log
        fills them, record by record from the first one on. */
    constructor Open(log: seq<LogEnt>, cache: seq<Byte>, bits: seq<bv8>)
      requires LogOk(log) && NeverShrinks(log) && Usable(cache, bits, log)
      ensures Valid() && !newFile && file.log == log
      ensures forall b: nat :: BitAt(bitmap.data, b) <==> BitAt(bits, b) || LastRecord(log, b) > 0
      ensures forall b: nat :: b < |cache| && LastRecord(log, b) == 0 ==> b < |this.cache| && this.cache[b] == cache[b]
      ensures fresh(file) && fresh(file.figtree) && fresh(file.figtree.nodes) && fresh(bitmap)
    {
      file := new File.Open(log);
      bitmap := new PosixFile(bits);
      this.cache := cache;
      newFile := false;
      new;
      Populate();
    }

    method Populate()
      requires file.Valid() && NeverShrinks(file.log) && !newFile && Usable(cache, bitmap.data, file.log)
      modifies this`cache, bitmap
      ensures Valid()
      ensures forall b: nat :: BitAt(bitmap.data, b) <==> BitAt(old(bitmap.data), b) || LastRecord(file.log, b) > 0
      ensures forall b: nat :: b < |old(cache)| && LastRecord(file.log, b) == 0 ==> b < |cache| && cache[b] == old(cache)[b]
    {
      hide LogOk, NeverShrinks, Reaches, WritesOf, BitAt, Usable;
      ghost var log, cache0, bits0 := file.log, cache, bitmap.data;
      var r: nat := 0;
      HoldsStart(cache, bitmap.data, log);
      while r < |file.log|
        invariant r <= |log| && Holds(cache, bitmap.data, log, r, cache0, bits0)
      {
        var entry := file.log[r];
        ghost var c, b := cache, bitmap.data;
        FillRecord(entry);
        HoldsRecord(c, b, cache, bitmap.data, log, r, cache0, bits0);
        r := r + 1;
      }
      HoldsAll(cache, bitmap.data, log, cache0, bits0);
    }

    /** The data of one record, in pieces. */
    method FillRecord(entry: LogEnt)
      modifies this`cache, bitmap
      ensures forall b: nat :: CacheByte(cache, b) == if Covers(entry, b) then entry.data[b - entry.entOffset] else CacheByte(old(cache), b)
      ensures forall b: nat :: BitAt(bitmap.data, b) <==> BitAt(old(bitmap.data), b) || Covers(entry, b)
      ensures |cache| >= |old(cache)| && (entry.data != [] ==> |cache| >= entry.entOffset + |entry.data|)
    {
      hide BitAt, CacheByte, Cached;
      var read: nat := 0;
      while read < |entry.data|
        invariant read <= |entry.data| && |cache| >= |old(cache)| && (read > 0 ==> |cache| >= entry.entOffset + read)
        invariant forall b: nat :: CacheByte(cache, b) ==
                                   if entry.entOffset <= b < entry.entOffset + read then entry.data[b - entry.entOffset] else CacheByte(old(cache), b)
        invariant forall b: nat :: BitAt(bitmap.data, b) <==> BitAt(old(bitmap.data), b) || entry.entOffset <= b < entry.entOffset + read
      {
        var toread := if |entry.data| - read > BOUNCE then BOUNCE else |entry.data| - read;
        ghost var c0, b0 := cache, bitmap.data;
        FillCache(entry.data[read..read + toread], entry.entOffset + read);
        PieceAdded(entry, read, toread, c0, b0, cache, bitmap.data);
        read := read + toread;
      }
    }
  }

  lemma PieceAdded(entry: LogEnt, read: nat, toread: nat, c0: seq<Byte>, b0: seq<bv8>, c1: seq<Byte>, b1: seq<bv8>)
    requires 0 < toread && read + toread <= |entry.data|
    requires c1 == Cached(c0, entry.entOffset + read, entry.data[read..read + toread])
    requires forall b: nat :: BitAt(b1, b) <==> BitAt(b0, b) || entry.entOffset + read <= b < entry.entOffset + read + toread
    ensures |c1| >= |c0| && |c1| >= entry.entOffset + read + toread
    ensures forall b: nat :: CacheByte(c1, b) ==
                             if entry.entOffset + read <= b < entry.entOffset + read + toread then entry.data[b - entry.entOffset] else CacheByte(c0, b)
    ensures forall b: nat :: BitAt(b1, b) <==> BitAt(b0, b) || entry.entOffset + read <= b < entry.entOffset + read + toread
  {
    hide BitAt, CacheByte, Cached;
    CachedBytes(c0, entry.entOffset + read, entry.data[read..read + toread]);
  }

  lemma CachedBytes(cache: seq<Byte>, offset: nat, buf: seq<Byte>)
    ensures var r := Cached(cache, offset, buf);
            && |r| == (if buf != [] && offset + |buf| > |cache| then offset + |buf| else |cache|)
            && forall b: nat :: CacheByte(r, b) == if offset <= b < offset + |buf| then buf[b - offset] else CacheByte(cache, b)
  {
  }

  /** A cache that can be gone on with: where it claims to have a byte that no record of the log has,
      the byte is inside the file, and zero. */
  ghost predicate Usable(cache: seq<Byte>, bits: seq<bv8>, log: seq<LogEnt>) {
    forall b: nat :: BitAt(bits, b) && LastRecord(log, b) == 0 ==> b < |cache| && b < SizeOf(log) && cache[b] == 0
  }

  /** The cache of an earlier opening is usable, if the log has only grown since. */
  lemma LeftOverUsable(cache: seq<Byte>, bits: seq<bv8>, log0: seq<LogEnt>, log: seq<LogEnt>)
    requires Agrees(cache, bits, Flat(log0)) && log0 <= log && NeverShrinks(log)
    ensures Usable(cache, bits, log)
  {
    hide BitAt;
    assert forall r :: 0 <= r < |log0| ==> log0[r] == log[r];
    forall b: nat | BitAt(bits, b) && LastRecord(log, b) == 0
      ensures b < |cache| && b < SizeOf(log) && cache[b] == 0
    {
      assert LastRecord(log0, b) == 0;
    }
  }

  lemma EmptyUsable(log: seq<LogEnt>)
    ensures Usable([], [], log)
  {
    assert forall b: nat :: !BitAt([], b);
  }

  /** Exactly the bytes that the first r records have have been added, with what these say; all others
      are as they were. */
  ghost predicate Holds(cache: seq<Byte>, bits: seq<bv8>, log: seq<LogEnt>, r: nat, cache0: seq<Byte>, bits0: seq<bv8>)
    requires r <= |log|
  {
    && |cache| >= |cache0|
    && (forall b: nat :: BitAt(bits, b) <==> BitAt(bits0, b) || LastRecord(log[..r], b) > 0)
    && forall b: nat ::
         if LastRecord(log[..r], b) > 0 then b < |cache| && CacheByte(cache, b) == FlatByte(log[..r], b)
         else CacheByte(cache, b) == CacheByte(cache0, b)
  }

  lemma HoldsStart(cache: seq<Byte>, bits: seq<bv8>, log: seq<LogEnt>)
    ensures Holds(cache, bits, log, 0, cache, bits)
  {
  }

  lemma HoldsRecord(c0: seq<Byte>, b0: seq<bv8>, c1: seq<Byte>, b1: seq<bv8>, log: seq<LogEnt>, r: nat, cache0: seq<Byte>, bits0: seq<bv8>)
    requires r < |log| && Holds(c0, b0, log, r, cache0, bits0)
    requires |c1| >= |c0| && (log[r].data != [] ==> |c1| >= log[r].entOffset + |log[r].data|)
    requires forall b: nat :: CacheByte(c1, b) == if Covers(log[r], b) then log[r].data[b - log[r].entOffset] else CacheByte(c0, b)
    requires forall b: nat :: BitAt(b1, b) <==> BitAt(b0, b) || Covers(log[r], b)
    ensures Holds(c1, b1, log, r + 1, cache0, bits0)
  {
    hide BitAt, CacheByte, FlatByte, LastRecord;
    assert log[..r + 1] == log[..r] + [log[r]];
    forall b: nat
      ensures BitAt(b1, b) <==> BitAt(bits0, b) || LastRecord(log[..r + 1], b) > 0
      ensures if LastRecord(log[..r + 1], b) > 0 then b < |c1| && CacheByte(c1, b) == FlatByte(log[..r + 1], b)
              else CacheByte(c1, b) == CacheByte(cache0, b)
    {
      LastRecordSnoc(log[..r], log[r], b);
      FlatByteSnoc(log[..r], log[r], b);
    }
  }

  lemma HoldsAll(cache: seq<Byte>, bits: seq<bv8>, log: seq<LogEnt>, cache0: seq<Byte>, bits0: seq<bv8>)
    requires Holds(cache, bits, log, |log|, cache0, bits0) && LogOk(log) && NeverShrinks(log) && Usable(cache0, bits0, log)
    ensures Agrees(cache, bits, Flat(log))
    ensures forall b: nat :: BitAt(bits, b) <==> BitAt(bits0, b) || LastRecord(log, b) > 0
    ensures forall b: nat :: b < |cache0| && LastRecord(log, b) == 0 ==> b < |cache| && cache[b] == cache0[b]
  {
    hide BitAt;
    assert log[..|log|] == log;
    forall b: nat | BitAt(bits, b)
      ensures b < |cache| && b < SizeOf(log) && cache[b] == Flat(log)[b]
    {
      if b >= SizeOf(log) {
        NoRecordBehind(log, b);
      }
    }
  }
}
