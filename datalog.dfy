/**
 * The records of the data log.  A record is a 64-bit version, a 32-bit key
 * size, the key bytes and then the value: a 32-bit count of buffers, each
 * buffer a 32-bit length followed by its bytes.  Integers are stored
 * little-endian, as the host writes them.
 */
module DataLog {
  import opened Layout

  /** The contents of one record of the data log. */
  datatype Record = Record(version: uint64, key: seq<byte>, value: seq<seq<byte>>)

  /** Size of the version field. */
  const VersionSize: nat := 8
  /** Size of the key-size field. */
  const KeySizeSize: nat := 4
  /** Size of the buffer-count field and of each buffer-length field. */
  const LengthSize: nat := 4
  /** Bytes a deletion appends to the data log. */
  const TombstoneSize: nat := 8

  // ---------------------------------------------------------------------
  // Little-endian integers
  // ---------------------------------------------------------------------

  function EncodeU16(x: nat): (bs: seq<byte>)
    requires x < 0x1_0000
    ensures |bs| == 2
  {
    [x % 0x100, x / 0x100]
  }

  function DecodeU16(bs: seq<byte>): (x: nat)
    requires |bs| == 2
    ensures x < 0x1_0000
  {
    bs[0] as int + 0x100 * bs[1] as int
  }

  function EncodeU32(x: uint32): (bs: seq<byte>)
    ensures |bs| == 4
  {
    EncodeU16(x % 0x1_0000) + EncodeU16(x / 0x1_0000)
  }

  function DecodeU32(bs: seq<byte>): (x: uint32)
    requires |bs| == 4
  {
    DecodeU16(bs[..2]) + 0x1_0000 * DecodeU16(bs[2..])
  }

  function EncodeU64(x: uint64): (bs: seq<byte>)
    ensures |bs| == 8
  {
    EncodeU32(x % Half) + EncodeU32(x / Half)
  }

  function DecodeU64(bs: seq<byte>): (x: uint64)
    requires |bs| == 8
  {
    DecodeU32(bs[..4]) + Half * DecodeU32(bs[4..])
  }

  lemma U16RoundTrip(x: nat)
    requires x < 0x1_0000
    ensures DecodeU16(EncodeU16(x)) == x
  {
  }

  lemma U16Bytes(bs: seq<byte>)
    requires |bs| == 2
    ensures EncodeU16(DecodeU16(bs)) == bs
  {
  }

  /** Decoding a stored 32-bit integer gives back the integer. */
  lemma U32RoundTrip(x: uint32)
    ensures DecodeU32(EncodeU32(x)) == x
  {
    var bs := EncodeU32(x);
    assert bs[..2] == EncodeU16(x % 0x1_0000);
    assert bs[2..] == EncodeU16(x / 0x1_0000);
    U16RoundTrip(x % 0x1_0000);
    U16RoundTrip(x / 0x1_0000);
  }

  /** Four bytes are the encoding of the integer they decode to. */
  lemma U32Bytes(bs: seq<byte>)
    requires |bs| == 4
    ensures EncodeU32(DecodeU32(bs)) == bs
  {
    var lo, hi := DecodeU16(bs[..2]), DecodeU16(bs[2..]);
    var x := DecodeU32(bs);
    assert x % 0x1_0000 == lo && x / 0x1_0000 == hi;
    U16Bytes(bs[..2]);
    U16Bytes(bs[2..]);
    assert bs == bs[..2] + bs[2..];
  }

  /** Decoding a stored 64-bit integer gives back the integer. */
  lemma U64RoundTrip(x: uint64)
    ensures DecodeU64(EncodeU64(x)) == x
  {
    var bs := EncodeU64(x);
    assert bs[..4] == EncodeU32(x % Half);
    assert bs[4..] == EncodeU32(x / Half);
    U32RoundTrip(x % Half);
    U32RoundTrip(x / Half);
  }

  /** Eight bytes are the encoding of the integer they decode to. */
  lemma U64Bytes(bs: seq<byte>)
    requires |bs| == 8
    ensures EncodeU64(DecodeU64(bs)) == bs
  {
    var lo, hi := DecodeU32(bs[..4]), DecodeU32(bs[4..]);
    var x := DecodeU64(bs);
    assert x % Half == lo && x / Half == hi;
    U32Bytes(bs[..4]);
    U32Bytes(bs[4..]);
    assert bs == bs[..4] + bs[4..];
  }

  // ---------------------------------------------------------------------
  // Slices
  // ---------------------------------------------------------------------

  /** The three parts of a concatenation are found at their offsets. */
  lemma SliceMiddle(a: seq<byte>, b: seq<byte>, c: seq<byte>)
    ensures (a + b + c)[..|a|] == a
    ensures (a + b + c)[|a|..|a| + |b|] == b
    ensures (a + b + c)[|a| + |b|..] == c
  {
  }

  /** A slice of a slice is a slice of the whole. */
  lemma SliceOfSlice(s: seq<byte>, i: nat, j: nat, a: nat, b: nat)
    requires i <= j <= |s| && a <= b <= j - i
    ensures s[i..j][a..b] == s[i + a..i + b]
  {
    forall x | 0 <= x < b - a
      ensures s[i..j][a..b][x] == s[i + a..i + b][x]
    {
      assert s[i..j][a..b][x] == s[i..j][a + x] == s[i + a + x];
    }
  }

  // ---------------------------------------------------------------------
  // Records
  // ---------------------------------------------------------------------

  /** Every length fits the 32-bit field that stores it. */
  predicate Encodable(r: Record) {
    && |r.key| < Half
    && |r.value| < Half
    && forall i | 0 <= i < |r.value| :: |r.value[i]| < Half
  }

  predicate BuffersEncodable(vs: seq<seq<byte>>) {
    forall i | 0 <= i < |vs| :: |vs[i]| < Half
  }

  function EncodeBuffers(vs: seq<seq<byte>>): seq<byte>
    requires BuffersEncodable(vs)
  {
    if vs == [] then []
    else EncodeU32(|vs[0]|) + vs[0] + EncodeBuffers(vs[1..])
  }

  /** The bytes of a record as put writes them at the end of the data log. */
  function EncodeRecord(r: Record): seq<byte>
    requires Encodable(r)
  {
    EncodeU64(r.version) + EncodeU32(|r.key|) + r.key + EncodeU32(|r.value|) + EncodeBuffers(r.value)
  }

  /** Bytes taken by the value buffers: a length field and the bytes of each. */
  function BuffersSize(vs: seq<seq<byte>>): (n: nat)
    ensures n >= LengthSize * |vs|
    ensures forall i | 0 <= i < |vs| :: n >= |vs[i]|
    ensures BuffersEncodable(vs) ==> n == |EncodeBuffers(vs)|
  {
    if vs == [] then 0
    else LengthSize + |vs[0]| + BuffersSize(vs[1..])
  }

  /**
   * The number of bytes a record for key and value takes in the data log
   * (data_size): version, key size, key, buffer count and buffers.
   */
  function DataSize(key: seq<byte>, value: seq<seq<byte>>): (n: nat)
    ensures n > VersionSize + KeySizeSize + |key|
    ensures n >= LengthSize * |value|
  {
    VersionSize + KeySizeSize + |key| + LengthSize + BuffersSize(value)
  }

  /** DataSize is the length of the bytes put writes, and a record that fits is encodable. */
  lemma DataSizeIsLength(r: Record)
    ensures Encodable(r) ==> DataSize(r.key, r.value) == |EncodeRecord(r)|
    ensures DataSize(r.key, r.value) < Half ==> Encodable(r)
  {
  }

  /** The position of the key of the record at offset (data_key_offset). */
  function DataKeyOffset(offset: nat): nat {
    offset + VersionSize + KeySizeSize
  }

  function DecodeBuffers(s: seq<byte>, n: nat): Option<seq<seq<byte>>>
    decreases n
  {
    if n == 0 then Some([])
    else if |s| < LengthSize then None
    else
      var len := DecodeU32(s[..LengthSize]);
      if |s| < LengthSize + len then None
      else
        match DecodeBuffers(s[LengthSize + len..], n - 1)
        case None => None
        case Some(rest) => Some([s[LengthSize..LengthSize + len]] + rest)
  }

  /** Reads the record at the front of s, if s begins with a whole record. */
  function DecodeRecord(s: seq<byte>): Option<Record> {
    if |s| < VersionSize + KeySizeSize then None
    else
      var version := DecodeU64(s[..VersionSize]);
      var keySize := DecodeU32(s[VersionSize..VersionSize + KeySizeSize]);
      var k := DataKeyOffset(0);
      if |s| < k + keySize + LengthSize then None
      else
        var count := DecodeU32(s[k + keySize..k + keySize + LengthSize]);
        match DecodeBuffers(s[k + keySize + LengthSize..], count)
        case None => None
        case Some(vs) => Some(Record(version, s[k..k + keySize], vs))
  }

  // ---------------------------------------------------------------------
  // Round trips
  // ---------------------------------------------------------------------

  lemma {:induction false} BuffersRoundTrip(vs: seq<seq<byte>>, rest: seq<byte>)
    requires BuffersEncodable(vs)
    ensures DecodeBuffers(EncodeBuffers(vs) + rest, |vs|) == Some(vs)
  {
    if vs != [] {
      var s := EncodeBuffers(vs) + rest;
      var len := |vs[0]|;
      var tail := EncodeBuffers(vs[1..]) + rest;
      assert s == EncodeU32(len) + vs[0] + tail;
      assert s[..LengthSize] == EncodeU32(len);
      U32RoundTrip(len);
      assert s[LengthSize..LengthSize + len] == vs[0];
      assert s[LengthSize + len..] == tail;
      BuffersRoundTrip(vs[1..], rest);
      assert [vs[0]] + vs[1..] == vs;
    }
  }

  /** A record written at the front of s is read back unchanged. */
  lemma RecordRoundTrip(r: Record, rest: seq<byte>)
    requires Encodable(r)
    ensures DecodeRecord(EncodeRecord(r) + rest) == Some(r)
  {
    var s := EncodeRecord(r) + rest;
    var ks := |r.key|;
    var k := VersionSize + KeySizeSize;
    var tail := EncodeBuffers(r.value) + rest;
    assert s == EncodeU64(r.version) + EncodeU32(ks) + r.key + EncodeU32(|r.value|) + tail;
    assert s[..VersionSize] == EncodeU64(r.version);
    U64RoundTrip(r.version);
    assert s[VersionSize..k] == EncodeU32(ks);
    U32RoundTrip(ks);
    assert s == (EncodeU64(r.version) + EncodeU32(ks)) + r.key + (EncodeU32(|r.value|) + tail);
    SliceMiddle(EncodeU64(r.version) + EncodeU32(ks), r.key, EncodeU32(|r.value|) + tail);
    assert s[k..k + ks] == r.key;
    assert s[k + ks..k + ks + LengthSize] == EncodeU32(|r.value|);
    U32RoundTrip(|r.value|);
    assert s[k + ks + LengthSize..] == tail;
    BuffersRoundTrip(r.value, rest);
  }

  lemma {:induction false} BuffersBytes(s: seq<byte>, n: nat)
    requires DecodeBuffers(s, n).Some?
    ensures var vs := DecodeBuffers(s, n).value;
      && |vs| == n && BuffersEncodable(vs)
      && BuffersSize(vs) <= |s| && s[..BuffersSize(vs)] == EncodeBuffers(vs)
  {
    if n > 0 {
      var len := DecodeU32(s[..LengthSize]);
      var tail := s[LengthSize + len..];
      BuffersBytes(tail, n - 1);
      var rest := DecodeBuffers(tail, n - 1).value;
      var vs := DecodeBuffers(s, n).value;
      assert vs == [s[LengthSize..LengthSize + len]] + rest;
      assert vs[1..] == rest;
      U32Bytes(s[..LengthSize]);
      assert s[..BuffersSize(vs)] == s[..LengthSize] + s[LengthSize..LengthSize + len] + tail[..BuffersSize(rest)];
    }
  }

  /** The fixed-size fields at the front of s are the encodings of the numbers read from them. */
  lemma HeaderBytes(s: seq<byte>, ks: nat)
    requires VersionSize + KeySizeSize + ks + LengthSize <= |s|
    requires ks == DecodeU32(s[VersionSize..VersionSize + KeySizeSize])
    ensures var k := VersionSize + KeySizeSize;
      s[..k + ks + LengthSize]
      == EncodeU64(DecodeU64(s[..VersionSize])) + EncodeU32(ks) + s[k..k + ks]
         + EncodeU32(DecodeU32(s[k + ks..k + ks + LengthSize]))
  {
    var k := VersionSize + KeySizeSize;
    var c := k + ks + LengthSize;
    U64Bytes(s[..VersionSize]);
    U32Bytes(s[VersionSize..k]);
    U32Bytes(s[k + ks..c]);
    assert s[..c] == s[..VersionSize] + s[VersionSize..k] + s[k..k + ks] + s[k + ks..c];
  }

  /** The record read from a header and the buffers after it is encodable and lies within the bytes. */
  lemma FieldsEncodable(s: seq<byte>, ks: nat, count: uint32, vs: seq<seq<byte>>)
    requires VersionSize + KeySizeSize + ks + LengthSize <= |s|
    requires ks == DecodeU32(s[VersionSize..VersionSize + KeySizeSize])
    requires DecodeBuffers(s[VersionSize + KeySizeSize + ks + LengthSize..], count) == Some(vs)
    ensures Encodable(Record(DecodeU64(s[..VersionSize]), s[VersionSize + KeySizeSize..VersionSize + KeySizeSize + ks], vs))
    ensures |vs| == count
    ensures VersionSize + KeySizeSize + ks + LengthSize + BuffersSize(vs) <= |s|
    ensures s[VersionSize + KeySizeSize + ks + LengthSize..][..BuffersSize(vs)] == EncodeBuffers(vs)
  {
    BuffersBytes(s[VersionSize + KeySizeSize + ks + LengthSize..], count);
  }

  /** The first c + m bytes are the first c bytes followed by the m bytes after them. */
  lemma PrefixSplit(s: seq<byte>, c: nat, m: nat)
    requires c + m <= |s|
    ensures s[..c + m] == s[..c] + s[c..][..m]
  {
  }

  /**
   * Bytes holding a header whose buffer count is followed by that many
   * decodable buffers begin with the encoding of the record they describe.
   */
  lemma FieldsBytes(s: seq<byte>, ks: nat, count: uint32, vs: seq<seq<byte>>)
    requires VersionSize + KeySizeSize + ks + LengthSize <= |s|
    requires ks == DecodeU32(s[VersionSize..VersionSize + KeySizeSize])
    requires count == DecodeU32(s[VersionSize + KeySizeSize + ks..VersionSize + KeySizeSize + ks + LengthSize])
    requires DecodeBuffers(s[VersionSize + KeySizeSize + ks + LengthSize..], count) == Some(vs)
    ensures var r := Record(DecodeU64(s[..VersionSize]), s[VersionSize + KeySizeSize..VersionSize + KeySizeSize + ks], vs);
      && Encodable(r)
      && DataSize(r.key, r.value) <= |s|
      && s[..DataSize(r.key, r.value)] == EncodeRecord(r)
  {
    var k := VersionSize + KeySizeSize;
    var c := k + ks + LengthSize;
    var r := Record(DecodeU64(s[..VersionSize]), s[k..k + ks], vs);
    var m := BuffersSize(vs);
    FieldsEncodable(s, ks, count, vs);
    assert s[..c] == EncodeU64(r.version) + EncodeU32(|r.key|) + r.key + EncodeU32(|r.value|) by {
      HeaderBytes(s, ks);
    }
    PrefixSplit(s, c, m);
  }

  /** Bytes that decode to a record begin with exactly that record's encoding. */
  lemma RecordBytes(s: seq<byte>)
    requires DecodeRecord(s).Some?
    ensures var r := DecodeRecord(s).value;
      && Encodable(r)
      && DataSize(r.key, r.value) <= |s|
      && s[..DataSize(r.key, r.value)] == EncodeRecord(r)
  {
    var k := VersionSize + KeySizeSize;
    var ks := DecodeU32(s[VersionSize..k]);
    var c := k + ks + LengthSize;
    var count := DecodeU32(s[k + ks..c]);
    var vs := DecodeBuffers(s[c..], count).value;
    assert DecodeRecord(s).value == Record(DecodeU64(s[..VersionSize]), s[k..k + ks], vs);
    FieldsBytes(s, ks, count, vs);
  }

  /**
   * The record at an offset depends only on its own bytes: a log that agrees
   * on them reads the same record there.
   */
  lemma RecordFrame(d1: seq<byte>, d2: seq<byte>, offset: nat)
    requires offset <= |d1| && offset <= |d2|
    requires DecodeRecord(d1[offset..]).Some?
    requires var r := DecodeRecord(d1[offset..]).value;
      offset + DataSize(r.key, r.value) <= |d1|
      && offset + DataSize(r.key, r.value) <= |d2|
      && d2[offset..offset + DataSize(r.key, r.value)] == d1[offset..offset + DataSize(r.key, r.value)]
    ensures DecodeRecord(d2[offset..]) == DecodeRecord(d1[offset..])
  {
    var r := DecodeRecord(d1[offset..]).value;
    var n := DataSize(r.key, r.value);
    RecordBytes(d1[offset..]);
    assert d1[offset..][..n] == d1[offset..offset + n];
    var e := EncodeRecord(r);
    assert d2[offset..offset + n] == e;
    assert d2[offset..] == d2[offset..offset + n] + d2[offset + n..];
    RecordRoundTrip(r, d2[offset + n..]);
  }

  /**
   * In a log holding record r at offset, the key begins at DataKeyOffset:
   * after the 64-bit version and the 32-bit key size.
   */
  lemma KeyAtKeyOffset(log: seq<byte>, offset: nat, r: Record)
    requires Encodable(r)
    requires offset + DataSize(r.key, r.value) <= |log|
    requires log[offset..offset + DataSize(r.key, r.value)] == EncodeRecord(r)
    ensures DataKeyOffset(offset) + |r.key| <= |log|
    ensures log[DataKeyOffset(offset)..DataKeyOffset(offset) + |r.key|] == r.key
  {
    var k := VersionSize + KeySizeSize;
    var e := EncodeRecord(r);
    assert e[k..k + |r.key|] == r.key;
    var n := DataSize(r.key, r.value);
    SliceOfSlice(log, offset, offset + n, k, k + |r.key|);
  }

  /**
   * The value of the record at offset in a log: its buffer count lies right
   * after the key and the buffers follow it.
   */
  lemma ValueAt(log: seq<byte>, offset: nat)
    requires offset <= |log| && DecodeRecord(log[offset..]).Some?
    ensures var r := DecodeRecord(log[offset..]).value;
      var p := DataKeyOffset(offset) + |r.key|;
      && p + LengthSize <= |log|
      && DecodeU32(log[p..p + LengthSize]) == |r.value|
      && DecodeBuffers(log[p + LengthSize..], |r.value|) == Some(r.value)
  {
    var s := log[offset..];
    var r := DecodeRecord(s).value;
    var k := DataKeyOffset(0);
    var ks := DecodeU32(s[VersionSize..VersionSize + KeySizeSize]);
    var count := DecodeU32(s[k + ks..k + ks + LengthSize]);
    BuffersBytes(s[k + ks + LengthSize..], count);
    assert r.key == s[k..k + ks] && r.value == DecodeBuffers(s[k + ks + LengthSize..], count).value;
    var p := DataKeyOffset(offset) + |r.key|;
    assert p == offset + k + ks;
    assert s[k + ks..k + ks + LengthSize] == log[p..p + LengthSize];
    assert s[k + ks + LengthSize..] == log[p + LengthSize..];
  }

  /** The buffer at the front of log[pos..] and the buffers after it. */
  lemma BufferAt(log: seq<byte>, pos: nat, n: nat)
    requires pos <= |log| && n > 0 && DecodeBuffers(log[pos..], n).Some?
    ensures pos + LengthSize <= |log|
    ensures var len := DecodeU32(log[pos..pos + LengthSize]);
      var vs := DecodeBuffers(log[pos..], n).value;
      && pos + LengthSize + len <= |log|
      && |vs| == n
      && vs[0] == log[pos + LengthSize..pos + LengthSize + len]
      && DecodeBuffers(log[pos + LengthSize + len..], n - 1) == Some(vs[1..])
  {
    var t := log[pos..];
    BuffersBytes(t, n);
    assert t[..LengthSize] == log[pos..pos + LengthSize];
    var len := DecodeU32(log[pos..pos + LengthSize]);
    assert t[LengthSize..LengthSize + len] == log[pos + LengthSize..pos + LengthSize + len];
    assert t[LengthSize + len..] == log[pos + LengthSize + len..];
  }
}
