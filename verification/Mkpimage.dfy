/** The boot images of mkpimage.c: a header with a byte sum, an ARM branch to the
    program, and a CRC at the end, all written into one buffer. */
module Mkpimage {
  import opened Crc

  type Bytes = seq<Byte>

  function LowByte(x: int): Byte {
    x % 256
  }

  function Le16(s: Bytes, at: nat): nat
    requires at + 2 <= |s|
  {
    s[at] as int + 256 * s[at + 1] as int
  }

  function Le32(s: Bytes, at: nat): nat
    requires at + 4 <= |s|
  {
    s[at] as int + 256 * s[at + 1] as int + 65536 * s[at + 2] as int + 16777216 * s[at + 3] as int
  }

  // ----- the branch -----

  /** The bytes of a branch instruction placed at `at` that leads to `dest`; the
      shifts of negative offsets round down. */
  predicate IsBranch(s: Bytes, at: nat, dest: int)
    requires at + 4 <= |s|
  {
    var offset := dest - at - 8;
    && s[at] == LowByte(offset / 4) && s[at + 1] == LowByte(offset / 1024) && s[at + 2] == LowByte(offset / 262144)
    && s[at + 3] == 0xea
  }

  /** Where the processor goes: the 24-bit word offset is extended by its sign and
      counted from two instructions ahead. */
  function BranchTarget(s: Bytes, at: nat): int
    requires at + 4 <= |s|
  {
    var word: int := s[at] as int + 256 * s[at + 1] as int + 65536 * s[at + 2] as int;
    at + 8 + 4 * (if word < 0x800000 then word else word - 0x1000000)
  }

  predicate InReach(at: nat, dest: int) {
    (dest - at) % 4 == 0 && -0x2000000 <= dest - at - 8 < 0x2000000
  }

  lemma Quotients(offset: int, q: int)
    requires q == offset / 4
    ensures offset / 1024 == q / 256 && offset / 262144 == q / 65536
  {
  }

  /** A number by its last digit to the base 256 and the rest. */
  lemma LastDigit(q: int)
    ensures q == 256 * (q / 256) + q % 256 && 0 <= q % 256 < 256
  {
  }

  lemma Divided16(q: int, a: int, r: int)
    requires q == 0x10000 * a + r && 0 <= r < 0x10000
    ensures q / 0x10000 == a && q % 0x10000 == r
  {
  }

  lemma Divided24(q: int, a: int, r: int)
    requires q == 0x1000000 * a + r && 0 <= r < 0x1000000
    ensures q / 0x1000000 == a && q % 0x1000000 == r
  {
  }

  lemma Divided32(q: int, a: int, r: int)
    requires q == 0x100000000 * a + r && 0 <= r < 0x100000000
    ensures q % 0x100000000 == r
  {
  }

  lemma TwoDigits(q: int)
    ensures q / 0x10000 == q / 256 / 256
    ensures q % 256 + 256 * ((q / 256) % 256) == q % 0x10000
  {
    var a := q / 256;
    LastDigit(q);
    LastDigit(a);
    Divided16(q, a / 256, q % 256 + 256 * (a % 256));
  }

  lemma ThreeDigits(q: int)
    ensures q / 0x1000000 == q / 0x10000 / 256
    ensures q % 256 + 256 * ((q / 256) % 256) + 65536 * ((q / 65536) % 256) == q % 0x1000000
  {
    var b := q / 0x10000;
    TwoDigits(q);
    LastDigit(b);
    Divided24(q, b / 256, q % 0x10000 + 0x10000 * (b % 256));
  }

  lemma SignExtended(offset: int, word: int)
    requires word == (offset / 4) % 0x1000000
    ensures 4 * (if word < 0x800000 then word else word - 0x1000000) == offset
       <==> offset % 4 == 0 && -0x2000000 <= offset < 0x2000000
  {
  }

  /** The instruction leads to its destination exactly if the destination is a
      whole number of instructions away and within 32 megabytes. */
  lemma BranchDecodes(at: nat, dest: int, s: Bytes)
    requires at + 4 <= |s| && IsBranch(s, at, dest)
    ensures BranchTarget(s, at) == dest <==> InReach(at, dest)
  {
    var offset := dest - at - 8;
    var word := s[at] as int + 256 * s[at + 1] as int + 65536 * s[at + 2] as int;
    BranchWord(offset, s[at], s[at + 1], s[at + 2]);
    SignExtended(offset, word);
  }

  lemma BranchWord(offset: int, b0: Byte, b1: Byte, b2: Byte)
    requires b0 == LowByte(offset / 4) && b1 == LowByte(offset / 1024) && b2 == LowByte(offset / 262144)
    ensures b0 as int + 256 * b1 as int + 65536 * b2 as int == (offset / 4) % 0x1000000
  {
    Quotients(offset, offset / 4);
    ThreeDigits(offset / 4);
  }

  // ----- the header -----

  const HEADER: nat := 0x40
  const TRAMPOLINE: nat := 0x54

  /** Where the header ends, with the branch behind it that version 1 needs for an
      entry point before the header. */
  function HeaderEnd(version: nat, start: nat): nat {
    if version == 0 then 0x50 else if start < HEADER then 0x58 else TRAMPOLINE
  }

  function ByteSum(s: Bytes): nat {
    if s == [] then 0 else ByteSum(s[..|s| - 1]) + s[|s| - 1]
  }

  lemma ByteSumBound(s: Bytes)
    ensures ByteSum(s) <= 255 * |s|
  {
  }

  function LowOf(c: bv32): Byte {
    WordByte(c & 0xff);
    (c & 0xff) as int
  }

  lemma WordByte(x: bv32)
    requires x <= 0xff
    ensures 0 <= x as int < 256
  {
  }

  /** The four bytes are those of the word, the lowest first. */
  predicate HoldsWord(s: Bytes, at: nat, c: bv32)
    requires at + 4 <= |s|
  {
    s[at] == LowOf(c) && s[at + 1] == LowOf(c >> 8) && s[at + 2] == LowOf(c >> 16) && s[at + 3] == LowOf(c >> 24)
  }

  /** The validation word, the version and the flags. */
  predicate Started(s: Bytes, version: nat)
    requires 0x46 <= |s|
  {
    && s[0x40] == 0x41 && s[0x41] == 0x53 && s[0x42] == 0x30 && s[0x43] == 0x31
    && s[0x44] == LowByte(version) && s[0x45] == 0
  }

  /** The header of version 1, without the branch that may follow it: its own length,
      the size of the image and the entry point. */
  ghost predicate Fields1(s: Bytes, size: nat, start: nat)
    requires TRAMPOLINE <= |s|
  {
    && Started(s, 1) && Le16(s, 0x46) == 20 && Le32(s, 0x48) == size % 0x100000000 && s[0x50] == 0 && s[0x51] == 0
    && Le32(s, 0x4c) == (if start < HEADER then TRAMPOLINE else start) - HEADER
  }

  /** The fields before the sum say what they have to say. */
  ghost predicate Fields(s: Bytes, size: nat, start: nat, version: nat)
    requires version <= 1 && HeaderEnd(version, start) <= |s|
  {
    if version == 0 then
      && Started(s, 0) && Le16(s, 0x46) == (size / 4) % 0x10000 && s[0x48] == 0 && s[0x49] == 0
      && IsBranch(s, 0x4c, start)
    else
      Fields1(s, size, start) && (start < HEADER ==> IsBranch(s, TRAMPOLINE, start))
  }

  function SumField(version: nat): nat {
    if version == 0 then 0x4a else 0x52
  }

  ghost predicate SumStored(s: Bytes, version: nat)
    requires SumField(version) + 2 <= |s|
  {
    Le16(s, SumField(version)) == ByteSum(s[HEADER..SumField(version)])
  }

  /** The complemented remainder of a message: what a CRC word has to be. */
  ghost predicate IsCrc(c: bv32, message: Bytes) {
    PolyOf(c) == Plus(Divide(PolyOf(0xffffffff), Bits(message)), PolyOf(0xffffffff))
  }

  /** The word at the end is the CRC of everything before it. */
  ghost predicate CrcStored(s: Bytes, size: nat)
    requires 4 <= size <= |s|
  {
    exists c {:trigger IsCrc(c, s[..size - 4])} :: IsCrc(c, s[..size - 4]) && HoldsWord(s, size - 4, c)
  }

  /** There is only one such word. */
  lemma CrcUnique(c: bv32, d: bv32, message: Bytes)
    requires IsCrc(c, message) && IsCrc(d, message)
    ensures c == d
  {
    PolyDeterminesWord(c, d);
  }

  lemma FourDigits(q: nat)
    ensures q % 256 + 256 * ((q / 256) % 256) + 65536 * ((q / 65536) % 256) + 16777216 * ((q / 16777216) % 256)
            == q % 0x100000000
  {
    var c := q / 0x1000000;
    ThreeDigits(q);
    LastDigit(c);
    Divided32(q, c / 256, q % 0x1000000 + 0x1000000 * (c % 256));
  }

  lemma Le16Value(s: Bytes, at: nat, q: nat)
    requires at + 2 <= |s| && s[at] == LowByte(q) && s[at + 1] == LowByte(q / 256)
    ensures Le16(s, at) == q % 0x10000 && (q < 0x10000 ==> Le16(s, at) == q)
  {
    TwoDigits(q);
  }

  lemma Le32Value(s: Bytes, at: nat, q: nat)
    requires at + 4 <= |s| && s[at] == LowByte(q) && s[at + 1] == LowByte(q / 256)
    requires s[at + 2] == LowByte(q / 65536) && s[at + 3] == LowByte(q / 16777216)
    ensures Le32(s, at) == q % 0x100000000
  {
    FourDigits(q);
  }

  /** branch: the instruction at `at`, which leads to `dest`. */
  method Branch(buf: array<Byte>, at: nat, dest: nat)
    requires at + 4 <= buf.Length
    modifies buf
    ensures IsBranch(buf[..], at, dest)
    ensures forall k | 0 <= k < buf.Length && !(at <= k < at + 4) :: buf[k] == old(buf[k])
  {
    var offset := dest - at - 8;
    buf[at] := LowByte(offset / 4);
    buf[at + 1] := LowByte(offset / 1024);
    buf[at + 2] := LowByte(offset / 262144);
    buf[at + 3] := 0xea;
  }

  /** The first fields, common to both versions. */
  method PutStart(buf: array<Byte>, version: nat)
    requires 0x46 <= buf.Length
    modifies buf
    ensures Started(buf[..], version)
    ensures forall k | 0 <= k < buf.Length && !(0x40 <= k < 0x46) :: buf[k] == old(buf[k])
  {
    buf[0x40] := 0x41;
    buf[0x41] := 0x53;
    buf[0x42] := 0x30;
    buf[0x43] := 0x31;
    buf[0x44] := LowByte(version);
    buf[0x45] := 0;
  }

  method PutFields0(buf: array<Byte>, size: nat, start: nat)
    requires 0x50 <= buf.Length
    modifies buf
    ensures Fields(buf[..], size, start, 0)
    ensures forall k | 0 <= k < buf.Length && !(0x40 <= k < 0x50) :: buf[k] == old(buf[k])
  {
    PutStart(buf, 0);
    buf[0x46] := LowByte(size / 4);
    buf[0x47] := LowByte(size / 1024);
    buf[0x48] := 0;
    buf[0x49] := 0;
    Branch(buf, 0x4c, start);
    Le16Value(buf[..], 0x46, size / 4);
  }

  method PutLe32(buf: array<Byte>, at: nat, x: nat)
    requires at + 4 <= buf.Length
    modifies buf
    ensures Le32(buf[..], at) == x % 0x100000000
    ensures forall k | 0 <= k < buf.Length && !(at <= k < at + 4) :: buf[k] == old(buf[k])
  {
    buf[at] := LowByte(x);
    buf[at + 1] := LowByte(x / 256);
    buf[at + 2] := LowByte(x / 65536);
    buf[at + 3] := LowByte(x / 16777216);
    Le32Value(buf[..], at, x);
  }

  /** The length of the header, the program length in bytes and the entry point. */
  method PutLengths1(buf: array<Byte>, size: nat, offset: nat)
    requires 0x52 <= buf.Length
    modifies buf
    ensures Le16(buf[..], 0x46) == 20 && Le32(buf[..], 0x48) == size % 0x100000000
    ensures Le32(buf[..], 0x4c) == offset % 0x100000000 && buf[0x50] == 0 && buf[0x51] == 0
    ensures forall k | 0 <= k < buf.Length && !(0x46 <= k < 0x52) :: buf[k] == old(buf[k])
  {
    buf[0x46] := 20;
    buf[0x47] := 0;
    PutLe32(buf, 0x48, size);
    ghost var length := Le32(buf[..], 0x48);
    PutLe32(buf, 0x4c, offset);
    buf[0x50] := 0;
    buf[0x51] := 0;
    assert Le32(buf[..], 0x48) == length;
  }

  method PutFields1(buf: array<Byte>, size: nat, start: nat)
    requires HeaderEnd(1, start) <= buf.Length && start < 0x100000000
    modifies buf
    ensures Fields(buf[..], size, start, 1)
    ensures forall k | 0 <= k < buf.Length && !(0x40 <= k < HeaderEnd(1, start)) :: buf[k] == old(buf[k])
  {
    var entry := start;
    if entry < HEADER {
      Branch(buf, TRAMPOLINE, entry);
      entry := TRAMPOLINE;
    }
    var offset := entry - HEADER;
    PutStart(buf, 1);
    PutLengths1(buf, size, offset);
  }

  /** The sum of the bytes between two places. */
  method SumBytes(buf: array<Byte>, from: nat, to: nat) returns (sum: nat)
    requires from <= to <= buf.Length
    ensures sum == ByteSum(buf[from..to])
  {
    sum := 0;
    var p := from;
    while p < to
      invariant from <= p <= to && sum == ByteSum(buf[from..p])
    {
      assert buf[from..p + 1][..p - from] == buf[from..p];
      sum := sum + buf[p];
      p := p + 1;
    }
  }

  lemma SumIsSmall(s: Bytes, version: nat)
    requires SumField(version) + 2 <= |s|
    ensures ByteSum(s[HEADER..SumField(version)]) < 0x10000
  {
    ByteSumBound(s[HEADER..SumField(version)]);
  }

  method PutSum(buf: array<Byte>, version: nat)
    requires SumField(version) + 2 <= buf.Length
    modifies buf
    ensures SumStored(buf[..], version)
    ensures forall k | 0 <= k < buf.Length && !(SumField(version) <= k < SumField(version) + 2) :: buf[k] == old(buf[k])
  {
    var at := SumField(version);
    var checksum := SumBytes(buf, HEADER, at);
    ghost var summed := buf[HEADER..at];
    buf[at] := LowByte(checksum);
    buf[at + 1] := LowByte(checksum / 256);
    assert buf[..][HEADER..at] == summed;
    SumIsSmall(buf[..], version);
    Le16Value(buf[..], at, checksum);
  }

  method Complement(crc: bv32, ghost message: Bytes) returns (c: bv32)
    requires PolyOf(crc) == Divide(PolyOf(0xffffffff), Bits(message))
    ensures IsCrc(c, message)
  {
    c := crc ^ 0xffffffff;
    PolyXor(crc, 0xffffffff, c);
  }

  /** The CRC of everything before the last word, complemented, little endian. */
  method PutCrc(buf: array<Byte>, size: nat)
    requires 4 <= size <= buf.Length
    modifies buf
    ensures CrcStored(buf[..], size)
    ensures forall k | 0 <= k < buf.Length && !(size - 4 <= k < size) :: buf[k] == old(buf[k])
  {
    ghost var message := buf[..size - 4];
    var crc := CrcOf(buf, size - 4);
    PutWord(buf, size - 4, crc);
    assert buf[..][..size - 4] == message;
  }

  method CrcOf(buf: array<Byte>, size: nat) returns (crc: bv32)
    requires size <= buf.Length
    ensures IsCrc(crc, buf[..size])
  {
    crc := Crc32(0xffffffff, buf, size);
    crc := Complement(crc, buf[..size]);
  }

  method PutWord(buf: array<Byte>, at: nat, c: bv32)
    requires at + 4 <= buf.Length
    modifies buf
    ensures HoldsWord(buf[..], at, c)
    ensures forall k | 0 <= k < buf.Length && !(at <= k < at + 4) :: buf[k] == old(buf[k])
  {
    buf[at] := LowOf(c);
    buf[at + 1] := LowOf(c >> 8);
    buf[at + 2] := LowOf(c >> 16);
    buf[at + 3] := LowOf(c >> 24);
  }

  /** add_socfpga_header: `start` is where the program begins in the buffer.  The
      image is only written if its size is a multiple of four. */
  method AddHeader(buf: array<Byte>, size: nat, start: nat, version: nat) returns (ok: bool)
    requires version <= 1 && 4 <= size <= buf.Length && start < 0x100000000
    requires HeaderEnd(version, start) <= buf.Length
    modifies buf
    ensures ok <==> size % 4 == 0
    ensures !ok ==> buf[..] == old(buf[..])
    ensures ok ==> CrcStored(buf[..], size)
    ensures ok && HeaderEnd(version, start) + 4 <= size ==>
              Fields(buf[..], size, start, version) && SumStored(buf[..], version)
    ensures ok && version == 1 && TRAMPOLINE + 4 <= size ==> Fields1(buf[..], size, start) && SumStored(buf[..], 1)
    ensures forall k | 0 <= k < buf.Length && !(HEADER <= k < HeaderEnd(version, start)) && !(size - 4 <= k < size) ::
              buf[k] == old(buf[k])
  {
    ok := size % 4 == 0;
    if !ok {
      return;
    }
    PutHeader(buf, size, start, version);
    ghost var s := buf[..];
    PutCrc(buf, size);
    if HeaderEnd(version, start) + 4 <= size {
      FieldsKept(s, buf[..], size, start, version);
      SumKept(s, buf[..], version);
    } else if version == 1 && TRAMPOLINE + 4 <= size {
      SumKept(s, buf[..], 1);
    }
  }

  method PutHeader(buf: array<Byte>, size: nat, start: nat, version: nat)
    requires version <= 1 && HeaderEnd(version, start) <= buf.Length && start < 0x100000000
    modifies buf
    ensures Fields(buf[..], size, start, version) && SumStored(buf[..], version)
    ensures forall k | 0 <= k < buf.Length && !(HEADER <= k < HeaderEnd(version, start)) :: buf[k] == old(buf[k])
  {
    if version == 0 {
      PutFields0(buf, size, start);
    } else {
      PutFields1(buf, size, start);
    }
    ghost var s := buf[..];
    PutSum(buf, version);
    FieldsKept(s, buf[..], size, start, version);
  }

  /** The fields outlast the sum and the CRC, which are written elsewhere. */
  lemma FieldsKept(s: Bytes, s': Bytes, size: nat, start: nat, version: nat)
    requires version <= 1 && HeaderEnd(version, start) <= |s| == |s'| && Fields(s, size, start, version)
    requires forall k | HEADER <= k < HeaderEnd(version, start) && !(SumField(version) <= k < SumField(version) + 2) ::
               s'[k] == s[k]
    ensures Fields(s', size, start, version)
  {
  }

  lemma SumKept(s: Bytes, s': Bytes, version: nat)
    requires SumField(version) + 2 <= |s| == |s'| && SumStored(s, version)
    requires forall k | HEADER <= k < SumField(version) + 2 :: s'[k] == s[k]
    ensures SumStored(s', version)
  {
    assert s'[HEADER..SumField(version)] == s[HEADER..SumField(version)];
  }

  lemma {:induction false} ByteSumChanged(s: Bytes, k: nat, x: Byte)
    requires k < |s|
    ensures ByteSum(s[k := x]) == ByteSum(s) - s[k] + x
  {
    var n, t := |s| - 1, s[k := x];
    if k < n {
      assert t[..n] == s[..n][k := x];
      ByteSumChanged(s[..n], k, x);
    } else {
      assert t[..n] == s[..n];
    }
  }

  /** The sum covers every byte from the start of the header up to the sum itself: it tells
      when one of them is changed. */
  lemma SumDetects(s: Bytes, version: nat, k: nat, x: Byte)
    requires SumField(version) + 2 <= |s| && SumStored(s, version)
    requires HEADER <= k < SumField(version) && x != s[k]
    ensures !SumStored(s[k := x], version)
  {
    var n := SumField(version);
    assert s[k := x][HEADER..n] == s[HEADER..n][k - HEADER := x];
    ByteSumChanged(s[HEADER..n], k - HEADER, x);
  }

  // ----- the program -----

  /** The header of a barebox image: a branch and seven loops, the name, and a branch
      where the header of the boot image has its entry point. */
  const BAREBOX_START: Bytes :=
    [0x7e, 0, 0, 0xea, 0xfe, 0xff, 0xff, 0xea, 0xfe, 0xff, 0xff, 0xea, 0xfe, 0xff, 0xff, 0xea]
  const BAREBOX_LOOPS: Bytes :=
    [0xfe, 0xff, 0xff, 0xea, 0xfe, 0xff, 0xff, 0xea, 0xfe, 0xff, 0xff, 0xea, 0xfe, 0xff, 0xff, 0xea]
  const BAREBOX_NAME: Bytes := [0x62, 0x61, 0x72, 0x65, 0x62, 0x6f, 0x78, 0, 0, 0, 0, 0, 0, 0, 0, 0]
  const PADDING: Bytes := [0, 0, 0, 0, 0, 0, 0, 0, 0, 0, 0, 0, 0, 0, 0, 0]
  const BAREBOX_ENTRY: Bytes := [0, 0, 0, 0, 0, 0, 0, 0, 0, 0, 0, 0, 0x6b, 0, 0, 0xea]
  const BAREBOX: Bytes := BAREBOX_START + BAREBOX_LOOPS + BAREBOX_NAME + PADDING + BAREBOX_ENTRY

  function AddSize(barebox: bool): nat {
    if barebox then 512 else 0
  }

  predicate Accepted(length: nat, version: nat, barebox: bool) {
    && version <= 1
    && (if barebox then 0 else 80) <= length
    && length <= (if version == 0 then 60 * 1024 - 4 else 224 * 1024 - 4) - AddSize(barebox)
  }

  /** The barebox header branches over itself, at its beginning and at its end, to where
      the program is put; its other vectors are loops, and the name follows them. */
  lemma BareboxBranches()
    ensures |BAREBOX| == 80 && BAREBOX[3] == BAREBOX[79] == 0xea
    ensures BranchTarget(BAREBOX, 0) == BranchTarget(BAREBOX, 76) == AddSize(true)
    ensures forall i | 1 <= i < 8 :: IsBranch(BAREBOX, 4 * i, 4 * i)
  {
    assert BAREBOX[0] == 0x7e && BAREBOX[1] == 0 && BAREBOX[2] == 0;
    assert BAREBOX[76] == 0x6b && BAREBOX[77] == 0 && BAREBOX[78] == 0;
    forall i | 1 <= i < 8 ensures IsBranch(BAREBOX, 4 * i, 4 * i) {
      BareboxLoop(i);
      SelfBranch(BAREBOX, 4 * i);
    }
  }

  lemma BareboxLoop(i: nat)
    requires 1 <= i < 8
    ensures BAREBOX[4 * i] == 0xfe && BAREBOX[4 * i + 1] == 0xff && BAREBOX[4 * i + 2] == 0xff
    ensures BAREBOX[4 * i + 3] == 0xea
  {
    assert i == 1 || i == 2 || i == 3 || i == 4 || i == 5 || i == 6 || i == 7;
  }

  lemma SelfBranch(s: Bytes, at: nat)
    requires at + 4 <= |s| && s[at] == 0xfe && s[at + 1] == 0xff && s[at + 2] == 0xff && s[at + 3] == 0xea
    ensures IsBranch(s, at, at)
  {
  }

  /** The size of the image: the program, the word of the CRC, the added header,
      and the padding to a multiple of four. */
  function ImageSize(length: nat, barebox: bool): nat {
    length + 4 + AddSize(barebox) + (if length % 4 == 0 then 0 else 4 - length % 4)
  }

  /** A program is accepted exactly if the image fills no more than the memory it is
      loaded to, and a program without the barebox header has room for a header. */
  lemma AcceptedIff(length: nat, version: nat, barebox: bool)
    requires version <= 1
    ensures Accepted(length, version, barebox)
       <==> && ImageSize(length, barebox) <= (if version == 0 then 0xf000 else 0x38000)
            && (barebox || TRAMPOLINE <= length + 4)
  {
  }

  /** The header and the branch behind it do not reach into the CRC. */
  predicate Fits(length: nat, version: nat, barebox: bool) {
    HeaderEnd(version, AddSize(barebox)) + 4 <= ImageSize(length, barebox)
  }

  /** An accepted program fits exactly if it is not one of the shortest of version
      1 without the barebox header, whose branch ends behind the CRC. */
  lemma FitsExactly(length: nat, version: nat, barebox: bool)
    requires Accepted(length, version, barebox)
    ensures Fits(length, version, barebox) <==> version == 0 || barebox || length > 84
    ensures ImageSize(length, barebox) < HeaderEnd(version, AddSize(barebox))
       <==> version == 1 && !barebox && length == 80
    ensures Fits(length, version, barebox) || length == 80 || ImageSize(length, barebox) == TRAMPOLINE + 4
  {
  }

  /** What becomes of such a program: the CRC is written over the branch, all else is
      in place. */
  ghost predicate Overwritten(s: Bytes) {
    |s| == TRAMPOLINE + 4 && Fields1(s, |s|, 0) && SumStored(s, 1) && CrcStored(s, |s|)
  }

  /** The instruction at the entry point of version 1 that leads to the beginning. */
  const ENTRY_BRANCH: bv32 := 0xeaffffe9

  lemma EntryBranchBytes(s: Bytes, c: bv32)
    requires |s| == TRAMPOLINE + 4 && HoldsWord(s, TRAMPOLINE, c)
    ensures s[TRAMPOLINE + 3] == 0xea && BranchTarget(s, TRAMPOLINE) == 0 <==> c == ENTRY_BRANCH
  {
  }

  /** The entry point of such an image leads to the program exactly if the CRC happens
      to be that branch. */
  lemma OverwrittenBranch(s: Bytes)
    requires Overwritten(s)
    ensures s[TRAMPOLINE + 3] == 0xea && BranchTarget(s, TRAMPOLINE) == 0 <==> IsCrc(ENTRY_BRANCH, s[..TRAMPOLINE])
  {
    var c :| IsCrc(c, s[..|s| - 4]) && HoldsWord(s, |s| - 4, c);
    EntryBranchBytes(s, c);
    if IsCrc(ENTRY_BRANCH, s[..TRAMPOLINE]) {
      CrcUnique(c, ENTRY_BRANCH, s[..TRAMPOLINE]);
    }
  }

  /** What the loader finds in an image: the size, the entry point, the sum and the
      CRC agree with the bytes. */
  ghost predicate Consistent(s: Bytes, start: nat, version: nat)
    requires version <= 1 && HeaderEnd(version, start) + 4 <= |s|
  {
    && Started(s, version) && SumStored(s, version) && CrcStored(s, |s|)
    && if version == 0 then
         4 * Le16(s, 0x46) == |s| && BranchTarget(s, 0x4c) == start
       else
         && Le16(s, 0x46) == TRAMPOLINE - HEADER && Le32(s, 0x48) == |s|
         && var entry := HEADER + Le32(s, 0x4c);
            if start < HEADER then entry == TRAMPOLINE && BranchTarget(s, TRAMPOLINE) == start else entry == start
  }

  lemma WordLength(le: nat, n: nat)
    requires le == (n / 4) % 0x10000 && n % 4 == 0 && n < 0x40000
    ensures 4 * le == n
  {
  }

  lemma ByteLength(le: nat, n: nat)
    requires le == n % 0x100000000 && n < 0x100000000
    ensures le == n
  {
  }

  lemma Near(at: nat, dest: nat)
    requires at % 4 == 0 && dest % 4 == 0 && at < 0x1000000 && dest < 0x1000000
    ensures InReach(at, dest)
  {
  }

  lemma FieldsConsistent0(s: Bytes, start: nat)
    requires 0x54 <= |s| < 0x40000 && |s| % 4 == 0 && start % 4 == 0 && start < 0x1000000
    requires Fields(s, |s|, start, 0) && SumStored(s, 0) && CrcStored(s, |s|)
    ensures Consistent(s, start, 0)
  {
    WordLength(Le16(s, 0x46), |s|);
    Near(0x4c, start);
    BranchDecodes(0x4c, start, s);
  }

  lemma FieldsConsistent1(s: Bytes, start: nat)
    requires HeaderEnd(1, start) + 4 <= |s| < 0x100000000 && start % 4 == 0 && start < 0x1000000
    requires Fields(s, |s|, start, 1) && SumStored(s, 1) && CrcStored(s, |s|)
    ensures Consistent(s, start, 1)
  {
    ByteLength(Le32(s, 0x48), |s|);
    if start < HEADER {
      Near(TRAMPOLINE, start);
      BranchDecodes(TRAMPOLINE, start, s);
    }
  }

  /** The outcome of a run.  Overrun: the branch behind the header would be written
      past the end of the buffer, and C does not define what happens then. */
  datatype Result = Image(bytes: Bytes) | Refused | Overrun

  /** The buffer before the header is added: the barebox header, the program, and
      zeros up to the end. */
  method Load(program: Bytes, barebox: bool) returns (buf: array<Byte>)
    requires barebox || 80 <= |program|
    ensures fresh(buf) && buf.Length == ImageSize(|program|, barebox)
    ensures Loaded(buf[..], program, barebox)
  {
    var addsize := AddSize(barebox);
    buf := new Byte[ImageSize(|program|, barebox)](_ => 0);
    var i := 0;
    while i < |program|
      invariant 0 <= i <= |program|
      invariant forall k | 0 <= k < i :: buf[k + addsize] == program[k]
      invariant forall k | i + addsize <= k < buf.Length :: buf[k] == 0
    {
      buf[i + addsize] := program[i];
      i := i + 1;
    }
    if barebox {
      CopyBarebox(buf);
    }
  }

  ghost predicate Loaded(s: Bytes, program: Bytes, barebox: bool) {
    && |s| == ImageSize(|program|, barebox)
    && (forall k | 0 <= k < |program| :: s[k + AddSize(barebox)] == program[k])
    && (forall k | |program| + AddSize(barebox) <= k < |s| :: s[k] == 0)
    && (barebox ==> 80 <= |s| && s[..80] == BAREBOX)
  }

  /** The image is what was loaded, outside the added header and the CRC. */
  ghost predicate Kept(s: Bytes, s': Bytes, version: nat, start: nat) {
    |s'| == |s| && forall k | 0 <= k < |s| - 4 && !(HEADER <= k < HeaderEnd(version, start)) :: s'[k] == s[k]
  }

  /** An image with the barebox header starts with the branch to the program. */
  lemma BareboxStarts(loaded: Bytes, s: Bytes, program: Bytes, version: nat)
    requires version <= 1 && Loaded(loaded, program, true) && Kept(loaded, s, version, AddSize(true))
    ensures 4 <= |s| && s[3] == 0xea && BranchTarget(s, 0) == AddSize(true)
    ensures forall k | 0 <= k < |program| :: s[AddSize(true) + k] == program[k]
  {
    BareboxBranches();
    assert forall i | 0 <= i < 4 :: loaded[i] == loaded[..80][i];
  }

  /** The header and the CRC of a loaded buffer. */
  method Finish(buf: array<Byte>, start: nat, version: nat)
    requires version <= 1 && start % 4 == 0 && start < 0x1000000
    requires HeaderEnd(version, start) <= buf.Length && buf.Length % 4 == 0
    requires 4 <= buf.Length < (if version == 0 then 0x40000 else 0x100000000)
    modifies buf
    ensures Kept(old(buf[..]), buf[..], version, start) && CrcStored(buf[..], buf.Length)
    ensures HeaderEnd(version, start) + 4 <= buf.Length ==> Consistent(buf[..], start, version)
    ensures version == 1 && start == 0 && buf.Length == TRAMPOLINE + 4 ==> Overwritten(buf[..])
  {
    var ok := AddHeader(buf, buf.Length, start, version);
    if HeaderEnd(version, start) + 4 <= buf.Length {
      ghost var s := buf[..];
      if version == 0 {
        FieldsConsistent0(s, start);
      } else {
        assert version == 1;
        FieldsConsistent1(s, start);
      }
    }
  }

  lemma AcceptedSize(length: nat, version: nat, barebox: bool)
    requires Accepted(length, version, barebox)
    ensures var size := ImageSize(length, barebox);
            size % 4 == 0 && 4 <= size < (if version == 0 then 0x40000 else 0x100000000)
  {
  }

  /** The image that is written for a program, unless it is refused. */
  method Build(program: Bytes, version: nat, barebox: bool) returns (r: Result, ghost loaded: Bytes)
    ensures r.Refused? <==> !Accepted(|program|, version, barebox)
    ensures r.Overrun? <==> version == 1 && !barebox && |program| == 80
    ensures r.Image? ==> Loaded(loaded, program, barebox) && Kept(loaded, r.bytes, version, AddSize(barebox))
    ensures r.Image? ==> |r.bytes| % 4 == 0 && CrcStored(r.bytes, |r.bytes|)
    ensures r.Image? && Fits(|program|, version, barebox) ==> Consistent(r.bytes, AddSize(barebox), version)
    ensures r.Image? && !Fits(|program|, version, barebox) ==> Overwritten(r.bytes)
  {
    if !Accepted(|program|, version, barebox) {
      return Refused, [];
    }
    AcceptedSize(|program|, version, barebox);
    FitsExactly(|program|, version, barebox);
    var buf := Load(program, barebox);
    if buf.Length < HeaderEnd(version, AddSize(barebox)) {
      return Overrun, [];
    }
    loaded := buf[..];
    Finish(buf, AddSize(barebox), version);
    return Image(buf[..]), loaded;
  }

  method CopyBarebox(buf: array<Byte>)
    requires 80 <= buf.Length
    modifies buf
    ensures buf[..80] == BAREBOX
    ensures forall k | 80 <= k < buf.Length :: buf[k] == old(buf[k])
  {
    assert |BAREBOX| == 80;
    var i := 0;
    while i < 80
      invariant 0 <= i <= 80
      invariant buf[..i] == BAREBOX[..i]
      invariant forall k | 80 <= k < buf.Length :: buf[k] == old(buf[k])
    {
      buf[i] := BAREBOX[i];
      i := i + 1;
    }
  }
}
