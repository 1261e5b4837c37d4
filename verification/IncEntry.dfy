/** Fixed-size records of incremental tables: a control byte, zero padding, a marker byte 1 and
    the payload, right-aligned in entrySize + 3 bytes. */
module IncEntry {
  import opened Bytes

  /** int(entrySize) + 3 in 64-bit arithmetic. The three sizes below 2^64 wrap around to 0, 1 and
      2; from 2^63 - 3 to 2^64 - 4 the result is negative. */
  function RecordSize(entrySize: uint64): (r: int)
    ensures -0x8000_0000_0000_0000 <= r < 0x8000_0000_0000_0000
    ensures (entrySize + 3 - r) % 0x1_0000_0000_0000_0000 == 0
  {
    var n := ToInt64(entrySize) + 3;
    if n >= TWO_63 then n - TWO_64 else n
  }

  /** Up to here a record has entrySize + 3 bytes. */
  const MAX_ENTRY_SIZE := TWO_63 - 4

  type EntrySize = n: nat | n <= MAX_ENTRY_SIZE

  /** types.IncTableBody without the echoed entry size. */
  datatype Body = Body(data: seq<byte>, skip: bool, next: uint64)
  datatype DecodeError = InvalidLength | IndexPanics

  /** The record format for a present payload. */
  ghost function Record(entrySize: nat, body: seq<byte>): (r: seq<byte>)
    requires |body| <= entrySize
    ensures |r| == entrySize + 3
  {
    Zeros(entrySize + 2 - |body|) + [1] + body
  }

  predicate SkipBit(control: byte) { control % 2 == 1 }
  predicate NextBit(control: byte) { (control / 2) % 2 == 1 }

  function SetSkipBit(control: byte): (c: byte)
    ensures SkipBit(c) && c / 2 == control / 2
  {
    if SkipBit(control) then control else control + 1
  }

  function SetNextBit(control: byte): (c: byte)
    ensures NextBit(c) && c % 2 == control % 2 && c / 4 == control / 4
  {
    if NextBit(control) then control else control + 2
  }

  /** The record after it was marked as skipped. */
  ghost function Skipped(entry: seq<byte>, next: uint64): (r: seq<byte>)
    ensures |r| == |entry|
  {
    if entry == [] then []
    else if next == 0 then [SetSkipBit(entry[0])] + entry[1..]
    else [SetNextBit(SetSkipBit(entry[0]))] + if |entry| >= 9 then LE(next, 8) + entry[9..] else entry[1..]
  }

  /** The bytes behind the first marker at or after position i; none when there is no marker. */
  ghost function Payload(raw: seq<byte>, i: nat): seq<byte>
    decreases |raw| - i
  {
    if i >= |raw| then [] else if raw[i] == 1 then raw[i + 1..] else Payload(raw, i + 1)
  }

  /** What decoding yields for any input. */
  ghost function Parse(entrySize: uint64, raw: seq<byte>): Result<Body, DecodeError> {
    if |raw| != RecordSize(entrySize) then Err(InvalidLength)
    else if raw == [] then Err(IndexPanics)
    else if SkipBit(raw[0]) then
      Ok(Body([], true, if NextBit(raw[0]) && |raw| >= 9 then Pointer(raw) else 0))
    else Ok(Body(Payload(raw, 1), false, 0))
  }

  ghost function Pointer(raw: seq<byte>): uint64
    requires |raw| >= 9
  {
    FromLEBound(raw[1..9]);
    Widths();
    FromLE(raw[1..9])
  }

  /** nil for a payload that does not fit, which in a record that wrapped around is every one but
      the empty one in two bytes; a negative length panics in make. */
  method EncodeIncEntry(entrySize: uint64, body: seq<byte>) returns (buf: array?<byte>, panics: bool)
    ensures panics <==> MAX_ENTRY_SIZE < entrySize < TWO_64 - 3
    ensures buf != null <==> |body| <= entrySize && |body| + 2 <= RecordSize(entrySize)
    ensures buf != null ==> fresh(buf) && buf[..] == Zeros(RecordSize(entrySize) - 1 - |body|) + [1] + body
  {
    var total := RecordSize(entrySize);
    if total < 0 {
      return null, true;
    }
    buf, panics := new byte[total](i => 0), false;
    if |body| > entrySize {
      return null, false;
    }
    var pos := total - |body| - 1;
    if pos < 1 {
      return null, false;
    }
    buf[pos] := 1;
    forall i | 0 <= i < |body| {
      buf[pos + 1 + i] := body[i];
    }
  }

  method SetSkipIncEntry(entry: array<byte>, next: uint64)
    modifies entry
    ensures entry[..] == Skipped(old(entry[..]), next)
  {
    if entry.Length == 0 {
      return;
    }
    entry[0] := SetSkipBit(entry[0]);
    if next > 0 {
      entry[0] := SetNextBit(entry[0]);
      if entry.Length >= 9 {
        var le := LE(next, 8);
        forall i | 0 <= i < 8 {
          entry[1 + i] := le[i];
        }
      }
    }
  }

  method DecodeIncEntry(entrySize: uint64, raw: seq<byte>) returns (r: Result<Body, DecodeError>)
    ensures r == Parse(entrySize, raw)
  {
    var total := RecordSize(entrySize);
    if |raw| != total {
      return Err(InvalidLength);
    }
    if |raw| == 0 {
      return Err(IndexPanics);
    }
    var first := raw[0];
    var skip := SkipBit(first);
    var nextPtrBit := NextBit(first);
    if skip {
      var ptr := 0;
      if nextPtrBit && |raw| >= 9 {
        assert FromLE(raw[1..9]) == Pointer(raw);
        ptr := FromLE(raw[1..9]);
      }
      return Ok(Body([], true, ptr));
    }
    var pos := -1;
    var i := 1;
    while i < total
      invariant 1 <= i <= total
      invariant pos == -1
      invariant Payload(raw, 1) == Payload(raw, i)
    {
      if raw[i] == 1 {
        pos := i;
        break;
      }
      i := i + 1;
    }
    if pos == -1 {
      return Ok(Body([], false, 0));
    }
    r := Ok(Body(raw[pos + 1..], false, 0));
  }

  lemma {:induction false} PayloadBehindZeros(n: nat, i: nat, body: seq<byte>)
    requires i <= n
    ensures Payload(Zeros(n) + [1] + body, i) == body
    decreases n - i
  {
    var raw := Zeros(n) + [1] + body;
    if i < n {
      PayloadBehindZeros(n, i + 1, body);
    } else {
      assert raw[n + 1..] == body;
    }
  }

  /** Every payload that fits comes back unchanged, marker-valued bytes included. */
  lemma RecordRoundTrip(entrySize: EntrySize, body: seq<byte>)
    requires |body| <= entrySize
    ensures Parse(entrySize, Record(entrySize, body)) == Ok(Body(body, false, 0))
  {
    PayloadBehindZeros(entrySize + 2 - |body|, 1, body);
  }

  lemma RecordInjective(entrySize: EntrySize, a: seq<byte>, b: seq<byte>)
    requires |a| <= entrySize && |b| <= entrySize
    requires Record(entrySize, a) == Record(entrySize, b)
    ensures a == b
  {
    RecordRoundTrip(entrySize, a);
    RecordRoundTrip(entrySize, b);
  }

  /** The payload of any input is what follows its first byte 1 at or behind position i. */
  lemma {:induction false} FirstMarker(raw: seq<byte>, i: nat, p: nat)
    requires i <= p < |raw| && raw[p] == 1 && forall q :: i <= q < p ==> raw[q] != 1
    ensures Payload(raw, i) == raw[p + 1..]
    decreases p - i
  {
    if i < p {
      FirstMarker(raw, i + 1, p);
    }
  }

  /** It is empty if there is none. */
  lemma {:induction false} NoMarker(raw: seq<byte>, i: nat)
    requires forall q :: i <= q < |raw| ==> raw[q] != 1
    ensures Payload(raw, i) == []
    decreases |raw| - i
  {
    if i < |raw| {
      NoMarker(raw, i + 1);
    }
  }

  /** Which bytes a mark changes: the two lowest bits of the control byte, and with nine bytes and more
      the pointer, lowest byte first. */
  lemma SkipLayout(entry: seq<byte>, next: uint64)
    requires entry != []
    ensures var s := Skipped(entry, next);
            && s[0] % 2 == 1 && s[0] / 4 == entry[0] / 4
            && (s[0] / 2) % 2 == (if next > 0 then 1 else (entry[0] / 2) % 2)
            && (forall i :: 1 <= i < |entry| && !(next > 0 && |entry| >= 9 && i < 9) ==> s[i] == entry[i])
            && (next > 0 && |entry| >= 9 ==> forall i: nat :: i < 8 ==> s[1 + i] == next / Pow256(i) % 256)
  {
    var s := Skipped(entry, next);
    if next > 0 && |entry| >= 9 {
      forall i: nat | i < 8 ensures s[1 + i] == next / Pow256(i) % 256 {
        LEByte(next, 8, i);
        assert s[1 + i] == LE(next, 8)[i];
      }
    }
  }

  /** How any input of the right length decodes: bit 0 of the control byte skips it; the pointer counts
      if bit 1 is set as well and there are nine bytes. */
  lemma ParseAny(entrySize: uint64, raw: seq<byte>)
    ensures Parse(entrySize, raw).Ok? <==> raw != [] && |raw| == RecordSize(entrySize)
    ensures Parse(entrySize, raw) == Err(IndexPanics) <==> raw == [] && entrySize == 0xffff_ffff_ffff_fffd
    ensures Parse(entrySize, raw).Ok? ==>
              var body := Parse(entrySize, raw).value;
              && (body.skip <==> raw[0] % 2 == 1)
              && (body.skip ==> body.data == [])
              && (!body.skip ==> body.data == Payload(raw, 1))
              && body.next == if body.skip && (raw[0] / 2) % 2 == 1 && |raw| >= 9 then FromLE(raw[1..9]) else 0
  {
  }

  lemma SkippedPointer(entry: seq<byte>, next: uint64)
    requires |entry| >= 9
    ensures var raw := Skipped(entry, next);
            SkipBit(raw[0]) && Pointer(raw) == if next > 0 then next else Pointer(entry)
  {
    var raw := Skipped(entry, next);
    if next > 0 {
      assert raw[1..9] == LE(next, 8);
      Widths();
      LERoundTrip(next, 8);
    } else {
      assert raw[1..9] == entry[1..9];
    }
  }

  /** A record that was encoded and then marked decodes as skipped; the pointer comes back
      exactly when it is zero or the record has the nine bytes to hold it. */
  lemma SkipRoundTripExactly(entrySize: EntrySize, body: seq<byte>, next: uint64)
    requires |body| <= entrySize
    ensures var r := Parse(entrySize, Skipped(Record(entrySize, body), next));
            r.Ok? && r.value.skip && r.value.data == [] && (r.value.next == next <==> next == 0 || entrySize >= 6)
  {
    var entry := Record(entrySize, body);
    if |entry| >= 9 {
      SkippedPointer(entry, next);
    }
  }

  /** An unmarked, all-zero row (padding of a damaged file) reads as an empty payload. */
  lemma {:induction false} ZerosAreEmpty(n: nat, i: nat)
    requires i <= n
    ensures Payload(Zeros(n), i) == []
    decreases n - i
  {
    if i < n {
      ZerosAreEmpty(n, i + 1);
    }
  }
}
