/** A set of naturals as bits in a file, read and written through a moving file offset
    (bitmap_file.c). Input and output succeed, but reads come short at the end of the file. */
module BitmapFile {

  const CHUNKSIZE: nat := 4096

  /** Bytes behind the end of the file, and in holes, are zero. */
  function ByteAt(data: seq<bv8>, i: nat): bv8 {
    if i < |data| then data[i] else 0
  }

  /** Mask for bit k of a byte, from the most significant one. */
  function BitMask(k: nat): bv8 {
    if k == 0 then 0x80 else if k == 1 then 0x40 else if k == 2 then 0x20 else if k == 3 then 0x10
    else if k == 4 then 0x08 else if k == 5 then 0x04 else if k == 6 then 0x02 else 0x01
  }

  predicate BitOf(b: bv8, k: nat) {
    b & BitMask(k) != 0
  }

  /** The bits of a byte from bit l on. */
  function LeftMask(l: nat): bv8
    requires l < 8
  {
    0xFF >> l
  }

  /** The bits of a byte up to bit r. */
  function RightMask(r: nat): bv8
    requires r < 8
  {
    0xFF << (7 - r)
  }

  function Or(a: bv8, b: bv8): bv8 { a | b }

  function And(a: bv8, b: bv8): bv8 { a & b }

  predicate HasAll(b: bv8, mask: bv8) {
    b & mask == mask
  }

  /** i is in the set that the file stands for. */
  predicate BitAt(data: seq<bv8>, i: nat) {
    BitOf(ByteAt(data, i / 8), i % 8)
  }

  lemma OrBits(a: bv8, b: bv8, k: nat)
    ensures BitOf(Or(a, b), k) <==> BitOf(a, k) || BitOf(b, k)
  {
  }

  lemma AndBits(a: bv8, b: bv8, k: nat)
    ensures BitOf(And(a, b), k) <==> BitOf(a, k) && BitOf(b, k)
  {
  }

  /** The masks keep the bits from the first one on, or up to the last one. */
  lemma MaskBits(l: nat, k: nat)
    requires l < 8 && k < 8
    ensures BitOf(LeftMask(l), k) <==> l <= k
    ensures BitOf(RightMask(l), k) <==> k <= l
  {
    LeftMasks(l);
    RightMasks(l);
  }

  lemma LeftMasks(l: nat)
    requires l < 8
    ensures LeftMask(l) == if l == 0 then 0xFF else if l == 1 then 0x7F else if l == 2 then 0x3F else if l == 3 then 0x1F
                           else if l == 4 then 0x0F else if l == 5 then 0x07 else if l == 6 then 0x03 else 0x01
  {
  }

  lemma RightMasks(l: nat)
    requires l < 8
    ensures RightMask(l) == if l == 0 then 0x80 else if l == 1 then 0xC0 else if l == 2 then 0xE0 else if l == 3 then 0xF0
                            else if l == 4 then 0xF8 else if l == 5 then 0xFC else if l == 6 then 0xFE else 0xFF
  {
  }

  /** A byte has all bits of a mask. */
  lemma HasMask(b: bv8, mask: bv8)
    ensures HasAll(b, mask) <==> forall k :: 0 <= k < 8 && BitOf(mask, k) ==> BitOf(b, k)
  {
    forall k: nat | k < 8 ensures HasAll(b, mask) && BitOf(mask, k) ==> BitOf(b, k) {
      OneMask(b, mask, k);
    }
    if forall k :: 0 <= k < 8 && BitOf(mask, k) ==> BitOf(b, k) {
      EightMasks(b, mask);
    }
  }

  lemma OneMask(b: bv8, mask: bv8, k: nat)
    ensures HasAll(b, mask) && BitOf(mask, k) ==> BitOf(b, k)
  {
  }

  lemma EightMasks(b: bv8, mask: bv8)
    requires forall k :: 0 <= k < 8 && BitOf(mask, k) ==> BitOf(b, k)
    ensures HasAll(b, mask)
  {
    assert BitOf(mask, 0) ==> BitOf(b, 0);
    assert BitOf(mask, 1) ==> BitOf(b, 1);
    assert BitOf(mask, 2) ==> BitOf(b, 2);
    assert BitOf(mask, 3) ==> BitOf(b, 3);
    assert BitOf(mask, 4) ==> BitOf(b, 4);
    assert BitOf(mask, 5) ==> BitOf(b, 5);
    assert BitOf(mask, 6) ==> BitOf(b, 6);
    assert BitOf(mask, 7) ==> BitOf(b, 7);
  }

  /** An open file. */
  class PosixFile {
    var data: seq<bv8>
    var pos: nat

    constructor (data: seq<bv8>)
      ensures this.data == data && pos == 0
    {
      this.data := data;
      pos := 0;
    }

    method Seek(k: nat)
      modifies this`pos
      ensures pos == k
    {
      pos := k;
    }

    /** read: what is there, at most n bytes. */
    method Read(buf: array<bv8>, n: nat) returns (rv: nat)
      requires n <= buf.Length
      modifies this`pos, buf
      ensures rv <= n && (rv < n ==> |data| <= old(pos) + rv)
      ensures rv > 0 ==> old(pos) + rv <= |data|
      ensures pos == old(pos) + rv && forall i :: 0 <= i < rv ==> buf[i] == ByteAt(data, old(pos) + i)
      ensures forall i :: rv <= i < buf.Length ==> buf[i] == old(buf[i])
    {
      rv := if pos + n <= |data| then n else if pos <= |data| then |data| - pos else 0;
      forall i | 0 <= i < rv { buf[i] := data[pos + i]; }
      pos := pos + rv;
    }

    /** write: n bytes; a gap behind the old end of the file becomes a hole. */
    method Write(buf: array<bv8>, n: nat) returns (rv: nat)
      requires n <= buf.Length
      modifies this
      ensures rv == n && pos == old(pos) + n
      ensures |data| == if n > 0 && old(pos) + n > |old(data)| then old(pos) + n else |old(data)|
      ensures forall i :: 0 <= i ==> ByteAt(data, i) == if old(pos) <= i < old(pos) + n then buf[i - old(pos)] else ByteAt(old(data), i)
    {
      var size := if n > 0 && pos + n > |data| then pos + n else |data|;
      data := seq(size, i requires 0 <= i < size reads this, buf => if pos <= i < pos + n then buf[i - pos] else ByteAt(data, i));
      pos := pos + n;
      rv := n;
    }
  }

  /** The bits of the byte at x that lie in [left, right). */
  function MaskAt(x: nat, left: nat, right: nat): bv8
    requires left < right
  {
    var leftmask, rightmask := LeftMask(left % 8), RightMask((right - 1) % 8);
    if x < left / 8 || x > (right - 1) / 8 then 0
    else if x == left / 8 == (right - 1) / 8 then And(leftmask, rightmask)
    else if x == left / 8 then leftmask
    else if x == (right - 1) / 8 then rightmask
    else 0xFF
  }

  lemma MaskAtBits(x: nat, left: nat, right: nat, k: nat)
    requires left < right && k < 8
    ensures BitOf(MaskAt(x, left, right), k) <==> left <= 8 * x + k < right
  {
    hide BitOf;
    var l, r := left % 8, (right - 1) % 8;
    MaskBits(l, k);
    MaskBits(r, k);
    AndBits(LeftMask(l), RightMask(r), k);
    NoBit(k);
    WhichBits(x, left, right, k);
  }

  lemma NoBit(k: nat)
    ensures !BitOf(0, k) && BitOf(0xFF, k)
  {
  }

  /** The part of the range that falls into the byte at x. */
  lemma WhichBits(x: nat, left: nat, right: nat, k: nat)
    requires left < right && k < 8
    ensures left <= 8 * x + k < right <==>
            && left / 8 <= x <= (right - 1) / 8
            && (x == left / 8 ==> left % 8 <= k) && (x == (right - 1) / 8 ==> k <= (right - 1) % 8)
  {
    assert left == 8 * (left / 8) + left % 8 && right - 1 == 8 * ((right - 1) / 8) + (right - 1) % 8;
  }

  lemma MaskFacts(b: bv8)
    ensures Or(b, 0) == b && Or(b, 0xFF) == 0xFF
    ensures HasAll(b, 0) && (HasAll(b, 0xFF) <==> b == 0xFF) && (HasAll(0, b) <==> b == 0)
  {
  }

  /** bitmap_file_set_range */
  method SetRange(fd: PosixFile, left: nat, right: nat) returns (ok: bool)
    modifies fd
    ensures ok <==> left < right
    ensures forall i: nat :: BitAt(fd.data, i) <==> BitAt(old(fd.data), i) || left <= i < right
  {
    hide BitAt, LeftMask, RightMask, ByteAt, MaskAt, Or, And;
    if right <= left {
      return false;
    }
    ok := true;
    var last := right - 1;
    var leftbyte, rightbyte, leftbits, rightbits := left / 8, last / 8, left % 8, last % 8;
    var leftmask, rightmask := LeftMask(leftbits), RightMask(rightbits);
    var chunk := new bv8[CHUNKSIZE];
    fd.Seek(leftbyte);
    if leftbyte == rightbyte {
      OrByte(fd, chunk, And(leftmask, rightmask));
    } else {
      OrByte(fd, chunk, leftmask);
      FillBytes(fd, chunk, rightbyte - leftbyte);
      OrByte(fd, chunk, rightmask);
    }
    forall x: nat
      ensures ByteAt(fd.data, x) == Or(ByteAt(old(fd.data), x), MaskAt(x, left, right))
    {
      SetByte(ByteAt(old(fd.data), x), x, left, right);
    }
    RangeAdded(old(fd.data), fd.data, left, right);
  }

  /** What setting the range does to the byte at x. */
  lemma SetByte(b: bv8, x: nat, left: nat, right: nat)
    requires left < right
    ensures var first, last := left / 8, (right - 1) / 8;
            Or(b, MaskAt(x, left, right)) ==
            if x == first then Or(b, if first == last then And(LeftMask(left % 8), RightMask((right - 1) % 8)) else LeftMask(left % 8))
            else if x == last then Or(b, RightMask((right - 1) % 8))
            else if first < x < last then 0xFF
            else b
  {
    hide LeftMask, RightMask, Or, And;
    MaskFacts(b);
  }

  lemma RangeAdded(was: seq<bv8>, data: seq<bv8>, left: nat, right: nat)
    requires left < right && forall x: nat :: ByteAt(data, x) == Or(ByteAt(was, x), MaskAt(x, left, right))
    ensures forall i: nat :: BitAt(data, i) <==> BitAt(was, i) || left <= i < right
  {
    hide BitOf, MaskAt, Or;
    forall i: nat
      ensures BitAt(data, i) <==> BitAt(was, i) || left <= i < right
    {
      OrBits(ByteAt(was, i / 8), MaskAt(i / 8, left, right), i % 8);
      MaskAtBits(i / 8, left, right, i % 8);
      assert i == 8 * (i / 8) + i % 8;
    }
  }

  /** The bits of a mask are set in the byte at the file offset. */
  method OrByte(fd: PosixFile, chunk: array<bv8>, mask: bv8)
    requires chunk.Length == CHUNKSIZE
    modifies fd, chunk
    ensures fd.pos == old(fd.pos) + 1
    ensures forall i :: 0 <= i ==> ByteAt(fd.data, i) == if i == old(fd.pos) then Or(ByteAt(old(fd.data), i), mask) else ByteAt(old(fd.data), i)
  {
    var rv := fd.Read(chunk, 1);
    if rv == 0 {
      chunk[0] := 0x00;
    } else {
      fd.Seek(fd.pos - 1);
    }
    chunk[0] := Or(chunk[0], mask);
    rv := fd.Write(chunk, 1);
  }

  /** The bytes between the first and the last one, in chunks: one less than bytesleft. */
  method FillBytes(fd: PosixFile, chunk: array<bv8>, distance: nat)
    requires chunk.Length == CHUNKSIZE && distance > 0
    modifies fd, chunk
    ensures fd.pos == old(fd.pos) + distance - 1
    ensures forall i :: 0 <= i ==> ByteAt(fd.data, i) == if old(fd.pos) <= i < old(fd.pos) + distance - 1 then 0xFF else ByteAt(old(fd.data), i)
  {
    var bytesleft := distance;
    forall i | 0 <= i < (if bytesleft < CHUNKSIZE then bytesleft else CHUNKSIZE) { chunk[i] := 0xFF; }
    while bytesleft > CHUNKSIZE
      invariant 0 < bytesleft <= distance && fd.pos == old(fd.pos) + distance - bytesleft
      invariant forall i :: 0 <= i < bytesleft && i < CHUNKSIZE ==> chunk[i] == 0xFF
      invariant forall i :: 0 <= i ==> ByteAt(fd.data, i) == if old(fd.pos) <= i < fd.pos then 0xFF else ByteAt(old(fd.data), i)
    {
      var rv := fd.Write(chunk, CHUNKSIZE);
      bytesleft := bytesleft - CHUNKSIZE;
    }
    var rv := fd.Write(chunk, bytesleft - 1);
  }

  /** The byte at x has all bits that it should have. */
  predicate ByteHas(data: seq<bv8>, x: nat, left: nat, right: nat)
    requires left < right
  {
    HasAll(ByteAt(data, x), MaskAt(x, left, right))
  }

  /** All of the range is in the set if and only if every byte has what it should. */
  lemma AllBytesHave(data: seq<bv8>, left: nat, right: nat)
    requires left < right
    ensures (forall x: nat :: ByteHas(data, x, left, right)) <==> (forall i: nat :: left <= i < right ==> BitAt(data, i))
  {
    hide BitOf, MaskAt, ByteAt;
    if forall x: nat :: ByteHas(data, x, left, right) {
      forall i: nat | left <= i < right
        ensures BitAt(data, i)
      {
        assert i == 8 * (i / 8) + i % 8;
        assert ByteHas(data, i / 8, left, right);
        HasMask(ByteAt(data, i / 8), MaskAt(i / 8, left, right));
        MaskAtBits(i / 8, left, right, i % 8);
      }
    }
    if forall i: nat :: left <= i < right ==> BitAt(data, i) {
      forall x: nat
        ensures ByteHas(data, x, left, right)
      {
        HasMask(ByteAt(data, x), MaskAt(x, left, right));
        forall k | 0 <= k < 8 && BitOf(MaskAt(x, left, right), k)
          ensures BitOf(ByteAt(data, x), k)
        {
          MaskAtBits(x, left, right, k);
          assert (8 * x + k) / 8 == x && (8 * x + k) % 8 == k;
          assert BitAt(data, 8 * x + k);
        }
      }
    }
  }

  /** The first and the last byte of a range cannot be missing. */
  lemma MaskNotZero(left: nat, right: nat)
    requires left < right
    ensures MaskAt(left / 8, left, right) != 0 && MaskAt((right - 1) / 8, left, right) != 0
  {
    hide BitOf, MaskAt;
    MaskAtBits(left / 8, left, right, left % 8);
    MaskAtBits((right - 1) / 8, left, right, (right - 1) % 8);
    NoBit(left % 8);
    NoBit((right - 1) % 8);
    assert left == 8 * (left / 8) + left % 8 && right - 1 == 8 * ((right - 1) / 8) + (right - 1) % 8;
  }

  lemma BehindEnd(data: seq<bv8>, x: nat, left: nat, right: nat)
    requires left < right && |data| <= x && MaskAt(x, left, right) != 0
    ensures !ByteHas(data, x, left, right)
  {
    MaskFacts(MaskAt(x, left, right));
  }

  /** bitmap_file_isset */
  method IsSet(fd: PosixFile, left: nat, right: nat) returns (r: bool)
    modifies fd`pos
    ensures r <==> left < right && forall i: nat :: left <= i < right ==> BitAt(fd.data, i)
  {
    hide BitAt, BitOf, LeftMask, RightMask, HasAll, And, ByteAt;
    if right <= left {
      return false;
    }
    AllBytesHave(fd.data, left, right);
    MaskNotZero(left, right);
    var last := right - 1;
    var leftbyte, rightbyte, leftbits, rightbits := left / 8, last / 8, left % 8, last % 8;
    var leftmask, rightmask := LeftMask(leftbits), RightMask(rightbits);
    var chunk := new bv8[CHUNKSIZE];
    fd.Seek(leftbyte);
    var rv := fd.Read(chunk, 1);
    if rv != 1 {
      BehindEnd(fd.data, leftbyte, left, right);
      return false;
    }
    if leftbyte == rightbyte {
      var mask := And(leftmask, rightmask);
      r := HasAll(chunk[0], mask);
    } else if !HasAll(chunk[0], leftmask) {
      r := false;
    } else {
      r := CheckBytes(fd, chunk, rightbyte - leftbyte, rightmask);
    }
    BytesDecide(fd.data, left, right);
  }

  /** What the bytes of the range have to be. */
  lemma BytesDecide(data: seq<bv8>, left: nat, right: nat)
    requires left < right
    ensures var leftmask, rightmask := LeftMask(left % 8), RightMask((right - 1) % 8);
            (forall x: nat :: ByteHas(data, x, left, right)) <==>
            if left / 8 == (right - 1) / 8 then HasAll(ByteAt(data, left / 8), And(leftmask, rightmask))
            else
              && HasAll(ByteAt(data, left / 8), leftmask)
              && (forall x :: left / 8 < x < (right - 1) / 8 ==> ByteAt(data, x) == 0xFF)
              && HasAll(ByteAt(data, (right - 1) / 8), rightmask)
  {
    hide HasAll, LeftMask, RightMask, ByteAt, And;
    forall x: nat
      ensures ByteHas(data, x, left, right) <==> (left / 8 < x < (right - 1) / 8 ==> ByteAt(data, x) == 0xFF)
                                                 && (x == left / 8 || x == (right - 1) / 8 ==> ByteHas(data, x, left, right))
    {
      MaskFacts(ByteAt(data, x));
    }
    assert ByteHas(data, left / 8, left, right) || !ByteHas(data, left / 8, left, right);
    assert ByteHas(data, (right - 1) / 8, left, right) || !ByteHas(data, (right - 1) / 8, left, right);
  }

  /** The bytes behind the first one, in chunks; the last one has to have the mask. */
  method CheckBytes(fd: PosixFile, chunk: array<bv8>, distance: nat, mask: bv8) returns (r: bool)
    requires chunk.Length == CHUNKSIZE && distance > 0 && mask != 0
    modifies fd`pos, chunk
    ensures r <==> (forall x :: old(fd.pos) <= x < old(fd.pos) + distance - 1 ==> ByteAt(fd.data, x) == 0xFF)
                   && HasAll(ByteAt(fd.data, old(fd.pos) + distance - 1), mask)
  {
    hide HasAll;
    var bytesleft := distance;
    while bytesleft > CHUNKSIZE
      invariant 0 < bytesleft <= distance && fd.pos == old(fd.pos) + distance - bytesleft
      invariant forall x :: old(fd.pos) <= x < fd.pos ==> ByteAt(fd.data, x) == 0xFF
    {
      ghost var start := fd.pos;
      var rv := fd.Read(chunk, CHUNKSIZE);
      if rv != CHUNKSIZE {
        Missing(fd.data, start + rv, start + bytesleft - 1, mask);
        return false;
      }
      var ones := AllOnes(chunk, CHUNKSIZE);
      assert forall i :: 0 <= i < CHUNKSIZE ==> chunk[i] == ByteAt(fd.data, start + i);
      if !ones {
        return false;
      }
      assert forall x :: start <= x < start + CHUNKSIZE ==> ByteAt(fd.data, x) == chunk[x - start];
      bytesleft := bytesleft - CHUNKSIZE;
    }
    ghost var start := fd.pos;
    var rv := fd.Read(chunk, bytesleft);
    if rv != bytesleft {
      Missing(fd.data, start + rv, start + bytesleft - 1, mask);
      return false;
    }
    var ones := AllOnes(chunk, bytesleft - 1);
    assert forall x :: start <= x < start + bytesleft ==> ByteAt(fd.data, x) == chunk[x - start];
    r := ones && HasAll(chunk[bytesleft - 1], mask);
  }

  /** Behind the end of the file no bit is set. */
  lemma Missing(data: seq<bv8>, x: nat, last: nat, mask: bv8)
    requires |data| <= x <= last && mask != 0
    ensures ByteAt(data, x) != 0xFF && !HasAll(ByteAt(data, last), mask)
  {
    MaskFacts(mask);
  }

  method AllOnes(chunk: array<bv8>, n: nat) returns (r: bool)
    requires n <= chunk.Length
    ensures r <==> forall i :: 0 <= i < n ==> chunk[i] == 0xFF
  {
    var i := 0;
    while i < n
      invariant i <= n && forall j :: 0 <= j < i ==> chunk[j] == 0xFF
    {
      if chunk[i] != 0xFF {
        return false;
      }
      i := i + 1;
    }
    r := true;
  }
}
