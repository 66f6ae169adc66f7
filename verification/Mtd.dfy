/**
 The streaming flash writer of package/mtd/mtd.c: image_check_bcom and mtd_write, over an image that
 arrives in pieces of any size and NOR flash, where writing only clears bits.
 */
module Mtd {
  import opened CStrings

  const BUFSIZE := 16384
  const ERASED: Byte := 0xff
  /** sizeof(struct trx_header) */
  const HEADER_SIZE := 28
  const PREFIX_SIZE := 32

  /** An open image file or pipe. */
  class Input {
    const data: seq<Byte>
    var pos: nat

    ghost predicate Valid()
      reads this
    {
      pos <= |data|
    }

    constructor (data: seq<Byte>)
      ensures Valid() && this.data == data && pos == 0
    {
      this.data, pos := data, 0;
    }

    /** read(): some of the bytes left, at most n; none only at the end. */
    method Read(n: nat) returns (chunk: seq<Byte>)
      requires Valid()
      modifies this
      ensures Valid() && |chunk| <= n && pos == old(pos) + |chunk| && chunk == data[old(pos)..pos]
      ensures chunk == [] <==> n == 0 || old(pos) == |data|
    {
      if n == 0 || pos == |data| {
        return [];
      }
      var k: nat :| 1 <= k <= n && pos + k <= |data|;
      chunk := data[pos..pos + k];
      pos := pos + k;
    }
  }

  /** x is a multiple of the block size b. */
  predicate IsMultiple(x: nat, b: nat)
    requires b > 0
  {
    if x < b then x == 0 else IsMultiple(x - b, b)
  }

  /** Where block n starts. */
  function BlockStart(n: nat, b: nat): nat {
    if n == 0 then 0 else BlockStart(n - 1, b) + b
  }

  lemma {:induction false} StartIsMultiple(n: nat, b: nat)
    requires b > 0
    ensures IsMultiple(BlockStart(n, b), b)
  {
    if n > 0 {
      StartIsMultiple(n - 1, b);
    }
  }

  lemma {:induction false} MultipleFits(x: nat, size: nat, b: nat)
    requires b > 0 && IsMultiple(x, b) && IsMultiple(size, b) && x < size
    ensures x + b <= size
  {
    if x >= b {
      MultipleFits(x - b, size - b, b);
    }
  }

  /** One erasure: the first byte of the block, and how far the device had been written by then. */
  datatype Erasure = Erasure(start: nat, written: nat)

  /** An MTD partition, opened for writing at its beginning. */
  class Flash {
    const cells: array<Byte>
    const blockSize: nat
    var pos: nat
    ghost var erasures: seq<Erasure>

    ghost predicate Valid()
      reads this
    {
      0 < blockSize && IsMultiple(cells.Length, blockSize) && pos <= cells.Length
    }

    /** Up to where the device has been erased. */
    ghost function Erased(): nat
      reads this
    {
      BlockStart(|erasures|, blockSize)
    }

    /** These bytes have been written, with no more blocks erased than they need; the rest of the last
        block is erased, and behind it the device holds what it held before. */
    ghost predicate Holds(before: seq<Byte>, bytes: seq<Byte>)
      reads this, cells
    {
      && Valid() && pos == |bytes| && Erased() < |bytes| + blockSize
      && Filled(cells[..], before, bytes, Erased()) && EachOnce(erasures, blockSize)
    }

    /** ioctl MEMERASE: one block, which must lie on the device. */
    method Erase(start: nat) returns (ok: bool)
      requires Valid()
      modifies this`erasures, cells
      ensures ok <==> IsMultiple(start, blockSize) && start + blockSize <= cells.Length
      ensures !ok ==> cells[..] == old(cells[..]) && erasures == old(erasures)
      ensures ok ==> erasures == old(erasures) + [Erasure(start, pos)]
      ensures ok ==> forall i :: 0 <= i < cells.Length ==>
                cells[i] == if start <= i < start + blockSize then ERASED else old(cells[i])
    {
      if !IsMultiple(start, blockSize) || start + blockSize > cells.Length {
        return false;
      }
      forall i | start <= i < start + blockSize {
        cells[i] := ERASED;
      }
      erasures := erasures + [Erasure(start, pos)];
      ok := true;
    }

    /** write(): as many bytes as fit; a cell keeps the bits that were cleared before. */
    method Write(bytes: seq<Byte>) returns (n: nat)
      requires Valid()
      modifies this`pos, cells
      ensures Valid() && n <= |bytes| && pos == old(pos) + n
      ensures n < |bytes| ==> pos == cells.Length
      ensures forall i :: 0 <= i < cells.Length ==>
                cells[i] == if old(pos) <= i < pos then old(cells[i]) & bytes[i - old(pos)] else old(cells[i])
    {
      n := if |bytes| <= cells.Length - pos then |bytes| else cells.Length - pos;
      forall i | pos <= i < pos + n {
        cells[i] := cells[i] & bytes[i - pos];
      }
      pos := pos + n;
    }
  }

  function LittleEndian(s: seq<Byte>): nat {
    if s == [] then 0 else (s[0] as nat) + 0x100 * LittleEndian(s[1..])
  }

  /** A 32-bit number of the header. */
  function Word(s: seq<Byte>, at: nat): nat
    requires at + 4 <= |s|
  {
    LittleEndian(s[at..at + 4])
  }

  /** The first number of images that come with 32 more bytes in front: W54G, W54S, W54s, W54F, W54U. */
  predicate IsPrefix(magic: nat) {
    magic == 0x47343557 || magic == 0x53343557 || magic == 0x73343557 || magic == 0x46343557 || magic == 0x55343557
  }

  const TRX_MAGIC := 0x30524448

  /** The header of an image that fits a device of this size. */
  predicate HeaderFits(header: seq<Byte>, size: nat)
    requires |header| >= 8
  {
    Word(header, 0) == TRX_MAGIC && 28 <= Word(header, 4) <= size
  }

  lemma SameHeader(s: seq<Byte>, t: seq<Byte>, size: nat)
    requires |s| >= 8 && |t| >= 8 && s[..8] == t[..8]
    ensures HeaderFits(s, size) == HeaderFits(t, size)
  {
    assert s[0..4] == s[..8][0..4] == t[0..4] && s[4..8] == s[..8][4..8] == t[4..8];
  }

  /** What of the image is to be written. */
  function Payload(data: seq<Byte>): seq<Byte> {
    if |data| >= PREFIX_SIZE && IsPrefix(Word(data, 0)) then data[PREFIX_SIZE..] else data
  }

  predicate Prefixed(data: seq<Byte>)
    requires |data| >= PREFIX_SIZE
  {
    IsPrefix(Word(data, 0))
  }

  /** The bytes image_check_bcom looks at when it tests the header: if there is a prefix, those that
      its second read has delivered, and behind them what is left of the prefix. */
  function Seen(data: seq<Byte>, second: nat): (s: seq<Byte>)
    requires |data| >= PREFIX_SIZE && second <= HEADER_SIZE && (Prefixed(data) ==> PREFIX_SIZE + second <= |data|)
    ensures |s| == PREFIX_SIZE
  {
    if Prefixed(data) then data[PREFIX_SIZE..PREFIX_SIZE + second] + data[second..PREFIX_SIZE] else data[..PREFIX_SIZE]
  }

  /** What the two reads may deliver: nothing only at the end of the image. */
  predicate Delivered(data: seq<Byte>, first: nat, second: nat) {
    && first <= PREFIX_SIZE && first <= |data| && (first == 0 <==> data == [])
    && second <= HEADER_SIZE
    && if first == PREFIX_SIZE && Prefixed(data)
       then PREFIX_SIZE + second <= |data| && (second == 0 <==> |data| == PREFIX_SIZE)
       else second == 0
  }

  /** The image is accepted when its first read has delivered first and its second read second bytes. */
  predicate Accepted(data: seq<Byte>, first: nat, second: nat, size: nat) {
    && first == PREFIX_SIZE <= |data| && second <= HEADER_SIZE
    && (Prefixed(data) ==> PREFIX_SIZE + second <= |data|)
    && HeaderFits(Seen(data, second), size)
  }

  /** With eight bytes or without a prefix, what has been tested is the header of the payload. */
  lemma AcceptedHeader(data: seq<Byte>, first: nat, second: nat, size: nat)
    requires first == PREFIX_SIZE <= |data| && second <= HEADER_SIZE
    requires Prefixed(data) ==> 8 <= second && PREFIX_SIZE + second <= |data|
    ensures Accepted(data, first, second, size) <==> HeaderFits(Payload(data), size)
  {
    var seen := Seen(data, second);
    assert seen[..8] == Payload(data)[..8];
    SameHeader(seen, Payload(data), size);
  }

  /** With less of it, the image is never accepted if the first number was not read completely; otherwise
      the first number is that of the payload, and bytes of the prefix stand for the rest of its length. */
  lemma AcceptedShort(data: seq<Byte>, first: nat, second: nat, size: nat)
    requires first == PREFIX_SIZE <= |data| && second < 8 && Prefixed(data) && PREFIX_SIZE + second <= |data|
    ensures var length := LittleEndian(data[PREFIX_SIZE..PREFIX_SIZE + second][if second < 4 then second else 4..]
                                       + data[if second < 4 then 4 else second..8]);
      Accepted(data, first, second, size)
      <==> second >= 4 && Word(Payload(data), 0) == TRX_MAGIC && 28 <= length <= size
  {
    var seen := Seen(data, second);
    if second < 4 {
      assert seen[3] == data[3];
      LastByte(seen[0..4]);
      LastByte(data[0..4]);
    } else {
      assert seen[0..4] == Payload(data)[0..4];
      assert seen[4..8] == data[PREFIX_SIZE..PREFIX_SIZE + second][4..] + data[second..8];
    }
  }

  /** The most significant byte of a number. */
  lemma LastByte(s: seq<Byte>)
    requires |s| == 4
    ensures LittleEndian(s) / 0x1000000 == s[3] as nat
  {
    assert s[1..][1..] == s[2..] && s[2..][1..] == s[3..] && s[3..][1..] == [];
    assert LittleEndian(s[3..]) == s[3] as nat;
    assert LittleEndian(s[2..]) == s[2] as nat + 0x100 * (s[3] as nat);
    assert LittleEndian(s[1..]) == s[1] as nat + 0x100 * LittleEndian(s[2..]);
  }

  /** A header that says 65536 bytes, behind a prefix that has 64 at the place of the length. */
  const StalePrefix: seq<Byte> := [0x57, 0x35, 0x34, 0x47, 64, 0, 0, 0] + seq(24, _ => 0)
  const LongHeader: seq<Byte> := [0x48, 0x44, 0x52, 0x30, 0, 0, 1, 0] + seq(20, _ => 0)

  /** On a device of 64 bytes this image does not fit, but a second read of four bytes accepts it. */
  lemma ShortReadAccepts()
    ensures !HeaderFits(Payload(StalePrefix + LongHeader), 64)
    ensures Accepted(StalePrefix + LongHeader, 32, 4, 64)
  {
    Number(0x57, 0x35, 0x34, 0x47);
    Number(0x48, 0x44, 0x52, 0x30);
    Number(64, 0, 0, 0);
    Number(0, 0, 1, 0);
    var data := StalePrefix + LongHeader;
    assert data[0..4] == [0x57, 0x35, 0x34, 0x47];
    assert Payload(data) == LongHeader;
    assert LongHeader[0..4] == [0x48, 0x44, 0x52, 0x30] && LongHeader[4..8] == [0, 0, 1, 0];
    var seen := Seen(data, 4);
    assert seen[0..4] == [0x48, 0x44, 0x52, 0x30];
    assert data[4..PREFIX_SIZE][..4] == [64, 0, 0, 0];
    Behind(data[PREFIX_SIZE..PREFIX_SIZE + 4], data[4..PREFIX_SIZE], [64, 0, 0, 0]);
  }

  lemma Behind(front: seq<Byte>, s: seq<Byte>, t: seq<Byte>)
    requires |t| <= |s| && s[..|t|] == t
    ensures (front + s)[|front|..|front| + |t|] == t
  {
  }

  /** New bytes over the beginning of old ones. */
  lemma Overlaid(new1: seq<Byte>, old1: seq<Byte>, n: nat)
    requires |new1| <= n <= |old1|
    ensures (new1 + old1[|new1|..])[..n] == new1 + old1[..n][|new1|..]
  {
  }

  lemma Number(a: Byte, b: Byte, c: Byte, d: Byte)
    ensures LittleEndian([a, b, c, d]) == a as nat + 0x100 * (b as nat + 0x100 * (c as nat + 0x100 * (d as nat)))
  {
    assert [a, b, c, d][1..] == [b, c, d] && [b, c, d][1..] == [c, d] && [c, d][1..] == [d] && [d][1..] == [];
    assert LittleEndian([d]) == d as nat;
    assert LittleEndian([c, d]) == c as nat + 0x100 * LittleEndian([d]);
    assert LittleEndian([b, c, d]) == b as nat + 0x100 * LittleEndian([c, d]);
  }

  /** The running program, with the buffer both functions share. */
  class Tool {
    const buf: array<Byte>
    var buflen: nat

    ghost predicate Valid()
      reads this
    {
      buf.Length == BUFSIZE && buflen <= BUFSIZE
    }

    constructor ()
      ensures Valid() && fresh(buf) && buflen == 0
    {
      buf := new Byte[BUFSIZE](_ => 0);
      buflen := 0;
    }

    /** Put a chunk into the buffer. */
    method Fill(at: nat, chunk: seq<Byte>)
      requires Valid() && at + |chunk| <= BUFSIZE
      modifies buf
      ensures buf[..at] == old(buf[..at]) && buf[at..at + |chunk|] == chunk
      ensures buf[at + |chunk|..] == old(buf[at + |chunk|..])
    {
      forall i | at <= i < at + |chunk| {
        buf[i] := chunk[i - at];
      }
    }

    /** image_check_bcom on a device of this size: what stays in the buffer and what is still to be
        read make up the payload, and the header has been tested as far as it was read in one piece. */
    method ImageCheckBcom(image: Input, size: nat) returns (ok: bool, ghost first: nat, ghost second: nat)
      requires Valid() && image.Valid() && image.pos == 0
      modifies this, buf, image
      ensures Valid() && image.Valid() && Delivered(image.data, first, second) && image.pos == first + second
      ensures ok == Accepted(image.data, first, second, size)
      ensures ok ==> Pending(image) == Payload(image.data)
    {
      ok, first, second := ReadHeader(image);
      if !ok {
        return;
      }
      ok := CheckHeader(size);
      SameHeader(buf[..], Seen(image.data, second), size);
    }

    /** Its reading: the header, behind the prefix if there is one. */
    method ReadHeader(image: Input) returns (ok: bool, ghost first: nat, ghost second: nat)
      requires Valid() && image.Valid() && image.pos == 0
      modifies this, buf, image
      ensures Valid() && image.Valid() && Delivered(image.data, first, second)
      ensures image.pos == first + second && ok == (first == PREFIX_SIZE)
      ensures ok ==> Pending(image) == Payload(image.data) && buf[..8] == Seen(image.data, second)[..8]
    {
      ReadInto(image, PREFIX_SIZE);
      first, second := buflen, 0;
      if buflen < PREFIX_SIZE {
        return false, first, second;
      }
      ghost var whole := buf[..];
      ghost var prefix := whole[..PREFIX_SIZE];
      assert prefix == image.data[..PREFIX_SIZE] && Pending(image) == image.data;
      assert buf[..][0..4] == image.data[0..4];
      if IsPrefix(Word(buf[..], 0)) {
        ReadInto(image, HEADER_SIZE);
        second := buflen;
        Overlaid(buf[..second], whole, PREFIX_SIZE);
      }
      assert buf[..PREFIX_SIZE] == Seen(image.data, second);
      assert buf[..8] == buf[..PREFIX_SIZE][..8];
      ok := true;
    }

    /** buflen = read(imagefd, buf, n) */
    method ReadInto(image: Input, n: nat)
      requires Valid() && image.Valid() && n <= BUFSIZE
      modifies this, buf, image
      ensures Valid() && image.Valid() && buflen <= n && image.pos == old(image.pos) + buflen
      ensures buf[..buflen] == image.data[old(image.pos)..image.pos]
      ensures buf[..] == buf[..buflen] + old(buf[..])[buflen..]
      ensures buflen == 0 <==> n == 0 || old(image.pos) == |image.data|
      ensures Pending(image) == image.data[old(image.pos)..]
    {
      var chunk := image.Read(n);
      ghost var whole := buf[..];
      Fill(0, chunk);
      assert buf[..] == buf[..|chunk|] + buf[|chunk|..] && buf[|chunk|..] == whole[|chunk|..];
      buflen := |chunk|;
    }

    /** Its tests of the header in the buffer. */
    method CheckHeader(size: nat) returns (ok: bool)
      requires Valid()
      ensures ok == HeaderFits(buf[..], size)
    {
      var header := buf[..];
      if Word(header, 0) != TRX_MAGIC || Word(header, 4) < 28 {
        return false;
      }
      ok := size >= Word(header, 4);
    }

    /** What mtd_write will write: what is in the buffer, then the rest of the image. */
    ghost function Pending(image: Input): seq<Byte>
      requires Valid() && image.Valid()
      reads this, buf, image
    {
      buf[..buflen] + image.data[image.pos..]
    }

    /** mtd_write.  It succeeds exactly if everything fits the device. */
    method MtdWrite(image: Input, flash: Flash) returns (ok: bool)
      requires Valid() && image.Valid() && flash.Valid() && flash.pos == 0 && flash.erasures == []
      requires buf != flash.cells
      modifies this, buf, image, flash, flash.cells
      ensures image.Valid() && old(image.pos) <= image.pos
      ensures ok <==> |old(Pending(image))| <= flash.cells.Length
      ensures ok ==> flash.Holds(old(flash.cells[..]), old(Pending(image)))
      ensures EachOnce(flash.erasures, flash.blockSize)
    {
      var w, e := 0, 0;
      ghost var stream, before, bytes := Pending(image), flash.cells[..], [];
      while true
        invariant Valid() && image.Valid() && old(image.pos) <= image.pos && stream == bytes + Pending(image)
        invariant flash.Holds(before, bytes) && w == |bytes| && e == flash.Erased()
        decreases |Pending(image)|
      {
        var r := FillUp(image);
        w := w + r;
        if r == 0 {
          break;
        }
        ghost var more, left := buf[..r], image.data[image.pos..];
        MoreBytes(stream, bytes, more, left);
        ok, e := Store(flash, r, w, e, before, bytes);
        if !ok {
          return false;
        }
        bytes := bytes + more;
        buflen := 0;
        assert Pending(image) == left;
      }
      ok := true;
    }

    /** The write command on a system where images are checked. */
    method WriteImage(image: Input, flash: Flash) returns (ok: bool, ghost first: nat, ghost second: nat)
      requires Valid() && image.Valid() && image.pos == 0
      requires flash.Valid() && flash.pos == 0 && flash.erasures == [] && buf != flash.cells
      modifies this, buf, image, flash, flash.cells
      ensures Delivered(image.data, first, second) && image.Valid() && first + second <= image.pos
      ensures !Accepted(image.data, first, second, flash.cells.Length) ==> image.pos == first + second
      ensures ok <==> Accepted(image.data, first, second, flash.cells.Length)
                      && |Payload(image.data)| <= flash.cells.Length
      ensures ok ==> flash.Holds(old(flash.cells[..]), Payload(image.data))
      ensures EachOnce(flash.erasures, flash.blockSize)
    {
      ok, first, second := ImageCheckBcom(image, flash.cells.Length);
      if ok {
        ok := MtdWrite(image, flash);
      }
    }

    /** The part of the loop after reading: erase ahead, then write the first r bytes of the buffer. */
    method Store(flash: Flash, r: nat, w: nat, e0: nat, ghost before: seq<Byte>, ghost bytes: seq<Byte>)
      returns (ok: bool, e: nat)
      requires Valid() && r <= BUFSIZE && w == |bytes| + r && buf != flash.cells
      requires flash.Holds(before, bytes) && e0 == flash.Erased()
      modifies flash, flash.cells
      ensures EachOnce(flash.erasures, flash.blockSize) && ok == (w <= flash.cells.Length)
      ensures ok ==> flash.Holds(before, bytes + buf[..r]) && e == flash.Erased()
    {
      ok, e := EraseAhead(flash, w, e0, before, bytes);
      if !ok {
        return;
      }
      ghost var cells1 := flash.cells[..];
      var result := flash.Write(buf[..r]);
      if result < r {
        ok := false;
        return;
      }
      FilledMore(cells1, flash.cells[..], before, bytes, buf[..r], e);
    }

    /** Reading as much as the buffer has room for. */
    method FillUp(image: Input) returns (r: nat)
      requires Valid() && image.Valid()
      modifies buf, image
      ensures Valid() && image.Valid() && old(image.pos) <= image.pos && buflen <= r <= BUFSIZE
      ensures buf[..r] + image.data[image.pos..] == old(Pending(image))
      ensures r == 0 ==> old(Pending(image)) == []
    {
      r := buflen;
      var chunk := image.Read(BUFSIZE - buflen);
      Fill(buflen, chunk);
      r := r + |chunk|;
      assert buf[..r] == buf[..buflen] + chunk;
    }
  }

  /** The inner loop of mtd_write: erase blocks until there is room for w bytes. */
  method EraseAhead(flash: Flash, w: nat, e0: nat, ghost before: seq<Byte>, ghost bytes: seq<Byte>)
    returns (ok: bool, e: nat)
    requires flash.Holds(before, bytes) && e0 == flash.Erased() && |bytes| <= w
    modifies flash`erasures, flash.cells
    ensures flash.Valid() && EachOnce(flash.erasures, flash.blockSize) && ok == (w <= flash.cells.Length)
    ensures ok ==> w <= e < w + flash.blockSize && e == flash.Erased() && Filled(flash.cells[..], before, bytes, e)
  {
    e := e0;
    while w > e
      invariant flash.Valid() && e == flash.Erased() && e < w + flash.blockSize
      invariant Filled(flash.cells[..], before, bytes, e) && EachOnce(flash.erasures, flash.blockSize)
      decreases w - e
    {
      StartIsMultiple(|flash.erasures|, flash.blockSize);
      if e < flash.cells.Length {
        MultipleFits(e, flash.cells.Length, flash.blockSize);
      }
      ghost var cells1, erasures1 := flash.cells[..], flash.erasures;
      ok := flash.Erase(e);
      if !ok {
        return;
      }
      FilledErase(cells1, flash.cells[..], before, bytes, e, flash.blockSize);
      EachOnceMore(erasures1, flash.blockSize, flash.pos);
      e := e + flash.blockSize;
    }
    ok := true;
  }

  lemma EachOnceMore(erasures: seq<Erasure>, blockSize: nat, pos: nat)
    requires EachOnce(erasures, blockSize) && pos <= BlockStart(|erasures|, blockSize)
    ensures EachOnce(erasures + [Erasure(BlockStart(|erasures|, blockSize), pos)], blockSize)
  {
  }

  lemma FilledErase(cells: seq<Byte>, cells': seq<Byte>, before: seq<Byte>, bytes: seq<Byte>, e: nat, b: nat)
    requires Filled(cells, before, bytes, e) && |cells'| == |cells| && e + b <= |cells|
    requires forall i :: 0 <= i < |cells| ==> cells'[i] == if e <= i < e + b then ERASED else cells[i]
    ensures Filled(cells', before, bytes, e + b)
  {
    assert cells'[..|bytes|] == cells[..|bytes|];
    assert forall i :: e <= i < |cells| ==> cells[i] == cells[e..][i - e] == before[e..][i - e];
  }

  /** Writing to erased cells stores what is written. */
  lemma FilledMore(cells: seq<Byte>, cells': seq<Byte>, before: seq<Byte>, bytes: seq<Byte>, more: seq<Byte>, e: nat)
    requires Filled(cells, before, bytes, e) && |bytes| + |more| <= e && |cells'| == |cells|
    requires forall i :: 0 <= i < |cells| ==>
               cells'[i] == if |bytes| <= i < |bytes| + |more| then cells[i] & more[i - |bytes|] else cells[i]
    ensures Filled(cells', before, bytes + more, e)
  {
    forall i | 0 <= i < |bytes + more| ensures cells'[i] == (bytes + more)[i] {
      if i < |bytes| {
        assert cells[..|bytes|][i] == bytes[i];
      } else {
        AndErased(more[i - |bytes|]);
      }
    }
    assert cells'[..|bytes + more|] == bytes + more;
    assert cells'[e..] == cells[e..];
  }

  lemma MoreBytes(stream: seq<Byte>, bytes: seq<Byte>, more: seq<Byte>, left: seq<Byte>)
    requires stream == bytes + (more + left)
    ensures stream == (bytes + more) + left && |bytes| + |more| <= |stream|
  {
  }

  lemma AndErased(b: Byte)
    ensures ERASED & b == b
  {
  }

  /** The blocks have been erased in order, each once, and none of them after any of it was written. */
  ghost predicate EachOnce(erasures: seq<Erasure>, blockSize: nat) {
    forall i :: 0 <= i < |erasures| ==>
      erasures[i].start == BlockStart(i, blockSize) && erasures[i].written <= erasures[i].start
  }

  /** The device holds these bytes, then erased cells up to e, then what it held before. */
  ghost predicate Filled(cells: seq<Byte>, before: seq<Byte>, bytes: seq<Byte>, e: nat) {
    && |bytes| <= e <= |cells| == |before|
    && cells[..|bytes|] == bytes
    && (forall i :: |bytes| <= i < e ==> cells[i] == ERASED)
    && cells[e..] == before[e..]
  }
}
