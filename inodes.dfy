/** The inode record and its fixed-layout binary codec (emufs/inode.py).

    A record is the little-endian `struct` layout "<IH3d" — a u32 size, a u16
    mode and three 8-byte timestamps, 30 bytes in all with no padding —
    followed by the ASCII bytes of `data_id`, which runs to the end of the
    record with no length prefix.  Timestamps are carried as the opaque 64-bit
    pattern of the float that holds them: the codec copies those eight bytes
    and never looks inside them. */
module Inodes {
  import opened Wrappers

  type Byte = b: int | 0 <= b < 256

  /** The eight bytes of a float64 timestamp, read as an unsigned number. */
  type Time = t: int | 0 <= t < 0x1_0000_0000_0000_0000

  const TWO_16: nat := 0x1_0000
  const TWO_32: nat := 0x1_0000_0000
  const TWO_64: nat := 0x1_0000_0000_0000_0000

  /** Kind tags held in the top nibble of the 16-bit mode. */
  const TYPE_DIR: nat := 0x4000
  const TYPE_FILE: nat := 0x8000
  const KIND_MASK: nat := 0xF000

  /** struct.calcsize("<IH3d"): 4 + 2 + 3 * 8. */
  const HEADER_SIZE: nat := 30

  /** `struct.error` from pack/unpack, `UnicodeError` from the ASCII step. */
  datatype CodecError = StructError | AsciiError

  /** `mode & 0xF000` for a non-negative mode. */
  function Kind(mode: nat): (k: nat)
    ensures k % 0x1000 == 0 && k <= KIND_MASK
  {
    ((mode / 0x1000) % 16) * 0x1000
  }


  datatype Inode = Inode(dataId: string, size: nat, mode: nat, atime: Time, mtime: Time, ctime: Time)
  {
    /** is_dir: the type bits are TYPE_DIR. */
    predicate IsDir() {
      Kind(mode) == TYPE_DIR
    }

    /** is_file: the type bits are TYPE_FILE. */
    predicate IsFile() {
      Kind(mode) == TYPE_FILE
    }

    /** update_modified_time: `ctime` always takes `now`; `mtime` takes it
        only when file data changed.  Nothing else moves. */
    function UpdateModifiedTime(fileData: bool, now: Time): (r: Inode)
      ensures r.ctime == now
      ensures fileData ==> r.mtime == r.ctime
      ensures !fileData ==> r.mtime == mtime
      ensures r.dataId == dataId && r.size == size && r.mode == mode && r.atime == atime
    {
      if fileData then this.(mtime := now, ctime := now) else this.(ctime := now)
    }

    /** update_accessed_time: only `atime` moves. */
    function UpdateAccessedTime(now: Time): (r: Inode)
      ensures r.atime == now
      ensures r.dataId == dataId && r.size == size && r.mode == mode
      ensures r.mtime == mtime && r.ctime == ctime
    {
      this.(atime := now)
    }
  }

  /** new_empty: a record whose three timestamps are one instant. */
  function NewEmpty(dataId: string, size: nat, mode: nat, now: Time): (r: Inode)
    ensures r.atime == r.mtime == r.ctime == now
    ensures r.dataId == dataId && r.size == size && r.mode == mode
  {
    Inode(dataId, size, mode, now, now, now)
  }

  /** On the 16 bits of a mode, `Kind` is the bitwise `mode & 0xF000`. */
  lemma KindIsMask(mode: nat, bits: bv16)
    requires bits as int == mode
    ensures Kind(mode) == (bits & 0xF000) as int
  {
    assert bits & 0xF000 == (bits >> 12) << 12;
    assert (bits >> 12) as int == mode / 0x1000;
    assert mode / 0x1000 < 16;
  }

  /** is_dir and is_file test the top nibble of the 16-bit mode bitwise. */
  lemma KindTests(i: Inode, bits: bv16)
    requires bits as int == i.mode
    ensures i.IsDir() <==> bits & 0xF000 == 0x4000
    ensures i.IsFile() <==> bits & 0xF000 == 0x8000
  {
    KindIsMask(i.mode, bits);
  }

  /** A record is never both a directory and a file. */
  lemma KindsExclusive(i: Inode)
    ensures !(i.IsDir() && i.IsFile())
  {
  }

  // ---------------------------------------------------------------------
  // Little-endian integers and ASCII text

  function Pow256(k: nat): (p: nat)
    ensures p > 0
  {
    if k == 0 then 1 else 256 * Pow256(k - 1)
  }

  /** The `width` little-endian bytes of `n`. */
  function LE(n: nat, width: nat): (r: seq<Byte>)
    requires n < Pow256(width)
    ensures |r| == width
  {
    if width == 0 then [] else [n % 256] + LE(n / 256, width - 1)
  }

  /** The number whose little-endian bytes are `b`. */
  function UnLE(b: seq<Byte>): (n: nat)
    ensures n < Pow256(|b|)
  {
    if b == [] then 0 else b[0] + 256 * UnLE(b[1..])
  }

  lemma {:induction false} UnLEOfLE(n: nat, width: nat)
    requires n < Pow256(width)
    ensures UnLE(LE(n, width)) == n
  {
    if width > 0 {
      UnLEOfLE(n / 256, width - 1);
      assert LE(n, width)[1..] == LE(n / 256, width - 1);
    }
  }

  lemma {:induction false} LEOfUnLE(b: seq<Byte>)
    ensures LE(UnLE(b), |b|) == b
  {
    if b != [] {
      var m := UnLE(b[1..]);
      LEOfUnLE(b[1..]);
      DivMod256(b[0] as nat, m);
      assert LE(UnLE(b), |b|) == [b[0]] + LE(m, |b| - 1);
      assert b == [b[0]] + b[1..];
    }
  }

  /** A low byte and a high part are recovered by `% 256` and `/ 256`. */
  lemma DivMod256(lo: nat, hi: nat)
    requires lo < 256
    ensures (lo + 256 * hi) % 256 == lo && (lo + 256 * hi) / 256 == hi
  {
  }

  predicate IsAscii(s: string) {
    forall i :: 0 <= i < |s| ==> s[i] as int < 128
  }

  predicate IsAsciiBytes(b: seq<Byte>) {
    forall i :: 0 <= i < |b| ==> b[i] < 128
  }

  function AsciiEncode(s: string): (r: seq<Byte>)
    requires IsAscii(s)
    ensures |r| == |s| && IsAsciiBytes(r)
    ensures forall i :: 0 <= i < |s| ==> r[i] == s[i] as int
  {
    seq(|s|, i requires 0 <= i < |s| => s[i] as int)
  }

  function AsciiDecode(b: seq<Byte>): (r: string)
    requires IsAsciiBytes(b)
    ensures |r| == |b| && IsAscii(r)
    ensures forall i :: 0 <= i < |b| ==> r[i] as int == b[i]
  {
    seq(|b|, i requires 0 <= i < |b| => b[i] as char)
  }

  // ---------------------------------------------------------------------
  // The record codec

  /** Whether `to_bytes` succeeds: `struct.pack` refuses a size or mode out of
      range, and `str.encode("ascii")` a non-ASCII `data_id`. */
  predicate Encodable(i: Inode) {
    i.size < TWO_32 && i.mode < TWO_16 && IsAscii(i.dataId)
  }

  function Header(i: Inode): seq<Byte>
    requires i.size < TWO_32 && i.mode < TWO_16
  {
    LE(i.size, 4) + LE(i.mode, 2) + LE(i.atime, 8) + LE(i.mtime, 8) + LE(i.ctime, 8)
  }

  /** to_bytes: the packed header followed by the ASCII `data_id`; packing
      fails before encoding is tried. */
  function ToBytes(i: Inode): (r: Result<seq<Byte>, CodecError>)
    ensures r.Ok? <==> Encodable(i)
    ensures (i.size >= TWO_32 || i.mode >= TWO_16) ==> r == Err(StructError)
    ensures r.Ok? ==> |r.value| == HEADER_SIZE + |i.dataId|
    ensures r.Ok? ==> UnLE(r.value[0..4]) == i.size && UnLE(r.value[4..6]) == i.mode
    ensures r.Ok? ==> UnLE(r.value[6..14]) == i.atime && UnLE(r.value[14..22]) == i.mtime
    ensures r.Ok? ==> UnLE(r.value[22..30]) == i.ctime
    ensures r.Ok? ==> r.value[HEADER_SIZE..] == AsciiEncode(i.dataId)
  {
    if i.size >= TWO_32 || i.mode >= TWO_16 then Err(StructError)
    else if !IsAscii(i.dataId) then Err(AsciiError)
    else
      var b := Header(i) + AsciiEncode(i.dataId);
      assert b[0..4] == LE(i.size, 4);
      assert b[4..6] == LE(i.mode, 2);
      assert b[6..14] == LE(i.atime, 8);
      assert b[14..22] == LE(i.mtime, 8);
      assert b[22..30] == LE(i.ctime, 8);
      UnLEOfLE(i.size, 4);
      UnLEOfLE(i.mode, 2);
      UnLEOfLE(i.atime, 8);
      UnLEOfLE(i.mtime, 8);
      UnLEOfLE(i.ctime, 8);
      Ok(b)
  }

  /** The 64-bit field of the eight bytes `b`: the timestamp that packs
      back into exactly those bytes. */
  function Field64(b: seq<Byte>): (t: Time)
    requires |b| == 8
    ensures t < Pow256(8) && LE(t, 8) == b
  {
    assert Pow256(8) == TWO_64;
    LEOfUnLE(b);
    UnLE(b)
  }

  /** from_bytes: unpack the first 30 bytes (a shorter buffer makes
      `struct.unpack` fail) and decode the rest as ASCII. */
  function FromBytes(b: seq<Byte>): (r: Result<Inode, CodecError>)
    ensures |b| < HEADER_SIZE ==> r == Err(StructError)
    ensures r.Ok? ==> |r.value.dataId| == |b| - HEADER_SIZE
    ensures r.Ok? ==> Encodable(r.value)
    ensures r.Ok? ==> AsciiEncode(r.value.dataId) == b[HEADER_SIZE..]
  {
    if |b| < HEADER_SIZE then Err(StructError)
    else
      var tail := b[HEADER_SIZE..];
      if !IsAsciiBytes(tail) then Err(AsciiError)
      else
        Ok(Inode(AsciiDecode(tail), UnLE(b[0..4]), UnLE(b[4..6]),
                 Field64(b[6..14]), Field64(b[14..22]), Field64(b[22..30])))
  }

  /** Decoding an encoded record gives the record back. */
  lemma RoundTrip(i: Inode)
    requires Encodable(i)
    ensures ToBytes(i).Ok? && FromBytes(ToBytes(i).value) == Ok(i)
  {
    var b := ToBytes(i).value;
    var d := AsciiDecode(b[HEADER_SIZE..]);
    assert d == i.dataId;
  }

  /** A record whose fields are read from the first 30 bytes of `b` packs
      back into those bytes. */
  lemma HeaderOfFields(b: seq<Byte>, i: Inode)
    requires |b| >= HEADER_SIZE
    requires i.size == UnLE(b[0..4]) && i.mode == UnLE(b[4..6])
    requires i.atime == UnLE(b[6..14]) && i.mtime == UnLE(b[14..22]) && i.ctime == UnLE(b[22..30])
    ensures i.size < TWO_32 && i.mode < TWO_16
    ensures Header(i) == b[..HEADER_SIZE]
  {
    assert Pow256(4) == TWO_32 && Pow256(2) == TWO_16;
    LEOfUnLE(b[0..4]);
    LEOfUnLE(b[4..6]);
    LEOfUnLE(b[6..14]);
    LEOfUnLE(b[14..22]);
    LEOfUnLE(b[22..30]);
    assert b[..HEADER_SIZE] == b[0..4] + b[4..6] + b[6..14] + b[14..22] + b[22..30];
  }

  /** Encoding a decoded record gives the same bytes back. */
  lemma EncodeOfDecode(b: seq<Byte>)
    requires FromBytes(b).Ok?
    ensures ToBytes(FromBytes(b).value) == Ok(b)
  {
    var i := FromBytes(b).value;
    HeaderOfFields(b, i);
    assert AsciiEncode(i.dataId) == b[HEADER_SIZE..];
    assert b == b[..HEADER_SIZE] + b[HEADER_SIZE..];
  }
}
