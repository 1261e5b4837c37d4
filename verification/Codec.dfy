/** The value frame written into a table file (encoding/v1) and the two-field metadata record
    that is stored through it for an incremental table. */
module Codec {
  import opened Bytes

  /** types.Decoded without its always-zero Length field. Panics is make([]byte, n) called with
      an unsigned n of 2^63 or more. */
  datatype Decoded = Decoded(version: int, start: int, end: int, data: seq<byte>) | Panics

  /** The smallest pointer width that can hold end. */
  function PointerWidth(end: nat): nat {
    if end < 0x100 then 1 else if end < 0x1_0000 then 2 else if end < 0x1_0000_0000 then 4 else 8
  }

  /** The frame format: version, width, start pointer, end pointer, data. */
  ghost function Frame(d: seq<byte>): (f: seq<byte>)
    requires |d| + 2 < TWO_63
    ensures |f| == 3 + PointerWidth(|d| + 2) + |d|
  {
    [1, PointerWidth(|d| + 2), 2] + LE(|d| + 2, PointerWidth(|d| + 2)) + d
  }

  /** An unsigned field of w bytes at pos; a field that the input cuts short reads as zero. */
  function Field(b: seq<byte>, pos: nat, w: nat): nat {
    if pos + w <= |b| then FromLE(b[pos..pos + w]) else 0
  }

  function After(b: seq<byte>, pos: nat, w: nat): nat {
    if pos + w <= |b| then pos + w else |b|
  }

  /** What decoding yields for any input. Width 8 reads the start pointer but never assigns it. */
  ghost function Unframe(b: seq<byte>): Decoded {
    var w := Field(b, 1, 1);
    if w !in {1, 2, 4, 8} then Decoded(Field(b, 0, 1), 0, 0, [])
    else
      var start := if w == 8 then 0 else Field(b, 2, 1);
      var end := Field(b, 3, w);
      if end < start || end - start >= TWO_63 then Panics
      else
        FieldBound(b, 3, w);
        Decoded(Field(b, 0, 1), start, ToInt64(end), Fill(b[After(b, 3, w)..], end - start))
  }

  lemma FieldBound(b: seq<byte>, pos: nat, w: nat)
    ensures Field(b, pos, w) < Pow256(w)
    ensures w <= 8 ==> Field(b, pos, w) < TWO_64
  {
    if pos + w <= |b| {
      FromLEBound(b[pos..pos + w]);
    }
    if w <= 8 {
      Widths();
      PowMonotone(w, 8);
    }
  }

  lemma {:induction false} PowMonotone(v: nat, w: nat)
    requires v <= w
    ensures Pow256(v) <= Pow256(w)
    decreases w
  {
    if v < w {
      PowMonotone(v, w - 1);
    }
  }

  method Encode(data: seq<byte>) returns (out: seq<byte>, start: nat, end: nat)
    requires |data| + 2 < TWO_63
    ensures out == Frame(data)
    ensures start == 2 && end == 2 + |data|
  {
    var buf: seq<byte> := [];
    buf := buf + [1];
    start := 1 + 1;
    end := start + |data|;
    var pointerSize: byte;
    if end < 256 {
      pointerSize := 1;
    } else if end < 65536 {
      pointerSize := 2;
    } else if end < 4294967296 {
      pointerSize := 4;
    } else {
      pointerSize := 8;
    }
    buf := buf + [pointerSize];
    buf := buf + [start];
    buf := buf + LE(end, pointerSize);
    buf := buf + data;
    out := buf;
  }

  method Decode(data: seq<byte>) returns (decoded: Decoded)
    ensures decoded == Unframe(data)
  {
    var pos := 0;
    var version := Field(data, pos, 1);
    pos := After(data, pos, 1);
    var pointerSize := Field(data, pos, 1);
    pos := After(data, pos, 1);
    var startPos, endPos := 0, 0;
    if pointerSize == 1 || pointerSize == 2 || pointerSize == 4 {
      startPos := Field(data, pos, 1);
      pos := After(data, pos, 1);
      endPos := Field(data, pos, pointerSize);
      pos := After(data, pos, pointerSize);
    } else if pointerSize == 8 {
      pos := After(data, pos, 1);
      endPos := Field(data, pos, 8);
      pos := After(data, pos, 8);
    } else {
      return Decoded(version, 0, 0, []);
    }
    FieldBound(data, 2, 1);
    FieldBound(data, 3, pointerSize);
    var dataLen := if endPos >= startPos then endPos - startPos else endPos - startPos + TWO_64;
    if dataLen >= TWO_63 {
      return Panics;
    }
    decoded := Decoded(version, startPos, ToInt64(endPos), Fill(data[pos..], dataLen));
  }

  lemma ByteField(b: seq<byte>, pos: nat)
    requires pos < |b|
    ensures Field(b, pos, 1) == b[pos]
  {
    assert b[pos..pos + 1] == [b[pos]];
    assert FromLE([b[pos]]) == b[pos] + 256 * FromLE([]);
  }

  lemma FrameFields(d: seq<byte>)
    requires |d| + 2 < TWO_63
    ensures var f, w := Frame(d), PointerWidth(|d| + 2);
            Field(f, 0, 1) == 1 && Field(f, 1, 1) == w && Field(f, 2, 1) == 2 && Field(f, 3, w) == |d| + 2
            && After(f, 3, w) == 3 + w && f[3 + w..] == d
  {
    var f, w := Frame(d), PointerWidth(|d| + 2);
    ByteField(f, 0);
    ByteField(f, 1);
    ByteField(f, 2);
    assert f[3..3 + w] == LE(|d| + 2, w);
    Widths();
    LERoundTrip(|d| + 2, w);
  }

  /** Decoding a frame: exact below 4 GiB; from there on the payload comes back with two zero
      bytes behind it, because the start pointer 2 is not subtracted. */
  lemma UnframeFrame(d: seq<byte>)
    requires |d| + 2 < TWO_63
    ensures Unframe(Frame(d)) == Decoded(1, if |d| + 2 < 0x1_0000_0000 then 2 else 0, |d| + 2, Recovered(d))
  {
    FrameFields(d);
    if |d| + 2 >= 0x1_0000_0000 {
      assert Fill(d, |d| + 2) == d + [0, 0];
    } else {
      assert Fill(d, |d|) == d;
    }
  }

  /** The bytes of a frame: version 1, the smallest of the four widths that can hold the end pointer,
      start pointer 2, the end pointer from its lowest byte on, the payload. */
  lemma FrameLayout(d: seq<byte>)
    requires |d| + 2 < TWO_63
    ensures var f := Frame(d);
            && f[0] == 1 && f[1] in {1, 2, 4, 8} && f[2] == 2
            && |d| + 2 < Pow256(f[1])
            && (forall w :: w in {1, 2, 4, 8} && |d| + 2 < Pow256(w) ==> f[1] <= w)
            && |f| == 3 + f[1] + |d|
            && (forall i: nat :: i < f[1] ==> f[3 + i] == (|d| + 2) / Pow256(i) % 256)
            && f[3 + f[1]..] == d
  {
    var f, w := Frame(d), PointerWidth(|d| + 2);
    Widths();
    forall i: nat | i < w ensures f[3 + i] == (|d| + 2) / Pow256(i) % 256 {
      LEByte(|d| + 2, w, i);
      assert f[3 + i] == LE(|d| + 2, w)[i];
    }
  }

  /** The payload that a reader gets back for d. */
  ghost function Recovered(d: seq<byte>): seq<byte> {
    if |d| + 2 < 0x1_0000_0000 then d else d + [0, 0]
  }

  lemma RoundTripExactly(d: seq<byte>)
    requires |d| + 2 < TWO_63
    ensures Unframe(Frame(d)).Decoded?
    ensures Unframe(Frame(d)).data == d <==> |d| + 2 < 0x1_0000_0000
  {
    UnframeFrame(d);
  }

  /** The pointer that an input holds at position 3, zero if it is cut short. */
  ghost function EndPointer(b: seq<byte>, w: nat): nat {
    if |b| >= 3 + w then FromLE(b[3..3 + w]) else 0
  }

  /** Decoding panics exactly when the end pointer is smaller than the start pointer, which only the
      three narrow widths have, or is 2^63 or more behind it. */
  lemma UnframePanicsExactly(b: seq<byte>)
    ensures Unframe(b).Panics? <==>
            || (|b| >= 3 && b[1] in {1, 2, 4} && EndPointer(b, b[1]) < b[2])
            || (|b| >= 3 && b[1] == 8 && EndPointer(b, 8) >= 0x8000_0000_0000_0000)
  {
    if |b| >= 2 {
      ByteField(b, 1);
      FieldBound(b, 3, b[1]);
      Widths();
    }
    if |b| >= 3 {
      ByteField(b, 2);
    }
  }

  /** An input that is too short for a width, or has another width than the four, has no data. */
  lemma UnknownWidth(b: seq<byte>)
    requires |b| < 2 || b[1] !in {1, 2, 4, 8}
    ensures Unframe(b) == Decoded(if b == [] then 0 else b[0], 0, 0, [])
  {
    if b != [] {
      ByteField(b, 0);
    }
    if |b| >= 2 {
      ByteField(b, 1);
    }
  }

  /** What comes out of a frame of which only n bytes arrived: nothing of the width; a panic without
      the whole end pointer, if there is a start pointer to subtract; otherwise the payload filled
      with zeros. */
  lemma CutFrame(d: seq<byte>, n: nat)
    requires |d| + 2 < TWO_63 && n <= |Frame(d)|
    ensures var f, wide := Frame(d), |d| + 2 >= 0x1_0000_0000;
            Unframe(f[..n]) ==
            if n < 3 then Decoded(if n == 0 then 0 else 1, 0, 0, [])
            else if n < 3 + f[1] then if wide then Decoded(1, 0, 0, []) else Panics
            else Decoded(1, if wide then 0 else 2, |d| + 2, Fill(f[3 + f[1]..n], if wide then |d| + 2 else |d|))
  {
    var f, w := Frame(d), PointerWidth(|d| + 2);
    var b := f[..n];
    if n > 0 {
      ByteField(b, 0);
    }
    if n > 1 {
      ByteField(b, 1);
    }
    if n > 2 {
      ByteField(b, 2);
    }
    if n >= 3 + w {
      assert b[3..3 + w] == f[3..3 + w] == LE(|d| + 2, w);
      Widths();
      LERoundTrip(|d| + 2, w);
      assert b[3 + w..] == f[3 + w..n];
    }
  }

  // ---- The metadata record of an incremental table ----

  datatype TableMeta = TableMeta(entrySize: uint64, fileName: seq<byte>)
  datatype MetaError = NameTooLong | ShortRead | NameExceedsBuffer

  method StructToBytes(s: TableMeta) returns (r: Result<seq<byte>, MetaError>)
    ensures r == if |s.fileName| > 0xffff_ffff then Err(NameTooLong) else Ok(MetaBytes(s))
  {
    var buf: seq<byte> := [];
    buf := buf + LE(s.entrySize, 8);
    if |s.fileName| > 0xffff_ffff {
      return Err(NameTooLong);
    }
    buf := buf + LE(|s.fileName|, 4);
    buf := buf + s.fileName;
    assert buf == MetaBytes(s);
    r := Ok(buf);
  }

  ghost function MetaBytes(s: TableMeta): (b: seq<byte>)
    requires |s.fileName| <= 0xffff_ffff
    ensures |b| == 12 + |s.fileName|
  {
    LE(s.entrySize, SIZE_WIDTH) + LE(|s.fileName|, LENGTH_WIDTH) + s.fileName
  }

  /** The widths of the two fixed fields. */
  const SIZE_WIDTH: nat := 8
  const LENGTH_WIDTH: nat := 4

  /** Parsing for any input. The length check truncates the remaining length to 32 bits, and a
      read at the end of the input is an error even when it asks for nothing. */
  ghost function ParseMeta(b: seq<byte>): Result<TableMeta, MetaError> {
    if |b| < 12 then Err(ShortRead)
    else if FromLE(b[8..12]) > (|b| - 12) % 0x1_0000_0000 then Err(NameExceedsBuffer)
    else if |b| == 12 then Err(ShortRead)
    else
      FieldBound(b, 0, 8);
      Ok(TableMeta(FromLE(b[..8]), b[12..12 + FromLE(b[8..12])]))
  }

  method BytesToStruct(b: seq<byte>) returns (r: Result<TableMeta, MetaError>)
    ensures r == ParseMeta(b)
  {
    var pos := 0;
    if |b| - pos < 8 {
      return Err(ShortRead);
    }
    FieldBound(b, 0, 8);
    var entrySize := FromLE(b[pos..pos + 8]);
    assert b[0..8] == b[..8];
    pos := pos + 8;
    if |b| - pos < 4 {
      return Err(ShortRead);
    }
    var nameLen := FromLE(b[pos..pos + 4]);
    pos := pos + 4;
    if nameLen > (|b| - pos) % 0x1_0000_0000 {
      return Err(NameExceedsBuffer);
    }
    if pos >= |b| {
      return Err(ShortRead);
    }
    r := Ok(TableMeta(entrySize, b[pos..pos + nameLen]));
  }

  lemma MetaFields(s: TableMeta, tail: seq<byte>)
    requires |s.fileName| <= 0xffff_ffff
    ensures var b := MetaBytes(s) + tail;
            FromLE(b[..8]) == s.entrySize && FromLE(b[8..12]) == |s.fileName| && b[12..12 + |s.fileName|] == s.fileName
  {
    var b := MetaBytes(s) + tail;
    assert b[..8] == LE(s.entrySize, 8);
    assert b[8..12] == LE(|s.fileName|, 4);
    Widths();
    LERoundTrip(s.entrySize, 8);
    LERoundTrip(|s.fileName|, 4);
  }

  /** The bytes of a record: eight of the entry size and four of the name's length, lowest byte first,
      then the name. */
  lemma MetaLayout(s: TableMeta)
    requires |s.fileName| <= 0xffff_ffff
    ensures var b := MetaBytes(s);
            && (forall i: nat :: i < 8 ==> b[i] == s.entrySize / Pow256(i) % 256)
            && (forall i: nat :: i < 4 ==> b[8 + i] == |s.fileName| / Pow256(i) % 256)
            && b[12..] == s.fileName
  {
    var b := MetaBytes(s);
    forall i: nat | i < 8 ensures b[i] == s.entrySize / Pow256(i) % 256 {
      LEByte(s.entrySize, SIZE_WIDTH, i);
    }
    forall i: nat | i < 4 ensures b[8 + i] == |s.fileName| / Pow256(i) % 256 {
      LEByte(|s.fileName|, LENGTH_WIDTH, i);
    }
  }

  lemma ParsedIsPrefix(b: seq<byte>, s: TableMeta)
    requires ParseMeta(b) == Ok(s)
    ensures |s.fileName| <= 0xffff_ffff && MetaBytes(s) <= b
  {
    FromLEBound(b[8..12]);
    Widths();
    LEOfFromLE(b[..8]);
    LEOfFromLE(b[8..12]);
    assert |s.fileName| == FromLE(b[8..12]);
    var n := |s.fileName|;
    assert MetaBytes(s) == b[..8] + b[8..12] + b[12..12 + n] == b[..12 + n];
  }

  /** Parsing any input gives s exactly when the input begins with the record of s, has more than the
      twelve bytes of an empty name, and passes the truncated check of the length. */
  lemma ParseMetaExactly(b: seq<byte>, s: TableMeta)
    ensures ParseMeta(b) == Ok(s) <==>
            |s.fileName| <= 0xffff_ffff && MetaBytes(s) <= b && |b| > 12 && |s.fileName| <= (|b| - 12) % 0x1_0000_0000
  {
    if ParseMeta(b) == Ok(s) {
      ParsedIsPrefix(b, s);
    }
    if |s.fileName| <= 0xffff_ffff && MetaBytes(s) <= b {
      var tail := b[12 + |s.fileName|..];
      MetaFields(s, tail);
      assert MetaBytes(s) + tail == b;
    }
  }

  /** The two refusals: an input that ends too early, and a name longer than what follows. */
  lemma ParseMetaRefuses(b: seq<byte>)
    ensures ParseMeta(b) == Err(ShortRead) <==> |b| < 12 || (|b| == 12 && FromLE(b[8..12]) == 0)
    ensures ParseMeta(b) == Err(NameExceedsBuffer) <==>
              |b| >= 12 && FromLE(b[8..12]) > (|b| - 12) % 0x1_0000_0000
  {
  }

  lemma MetaRoundTripExactly(s: TableMeta)
    requires |s.fileName| <= 0xffff_ffff
    ensures ParseMeta(MetaBytes(s)) == Ok(s) <==> s.fileName != []
  {
    MetaFields(s, []);
    assert MetaBytes(s) + [] == MetaBytes(s);
  }

  lemma MetaWithTwoZeros(s: TableMeta)
    requires |s.fileName| <= 0xffff_ffff
    ensures ParseMeta(MetaBytes(s) + [0, 0]) == Ok(s) <==> |s.fileName| < 0xffff_fffe
  {
    MetaFields(s, [0, 0]);
    assert |MetaBytes(s) + [0, 0]| - 12 == |s.fileName| + 2;
  }

  /** The path a table's metadata takes through the value frame and back. It survives the two
      stray zero bytes of a wide frame, except that for the two longest names the truncated
      length check then fails. */
  lemma MetaThroughFrameExactly(s: TableMeta)
    requires |s.fileName| <= 0xffff_ffff
    ensures Unframe(Frame(MetaBytes(s))).Decoded?
    ensures ParseMeta(Unframe(Frame(MetaBytes(s))).data) == Ok(s) <==> 0 < |s.fileName| < 0xffff_fffe
  {
    var b := MetaBytes(s);
    assert Unframe(Frame(b)).Decoded? && Unframe(Frame(b)).data == Recovered(b) by {
      UnframeFrame(b);
    }
    if |b| + 2 < 0x1_0000_0000 {
      MetaRoundTripExactly(s);
    } else {
      MetaWithTwoZeros(s);
    }
  }
}
