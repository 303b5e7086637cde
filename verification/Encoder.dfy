/** The encoder (pb_encode.c), writing into a stream. */
module Encoder {
  import opened Wrappers
  import opened Bits
  import opened Descriptor
  import opened Varint
  import opened FieldIter
  import opened EncodeSpec
  import opened OStream

  lemma {:induction false} NextDigit(digits: seq<byte>, v: nat, rest: seq<byte>)
    ensures digits + ([v % 128 + 128] + rest) == (digits + [v % 128 + 128]) + rest
    ensures v < 128 ==> v / 128 == 0 && (v % 128 + 128) % 128 == v && (digits + [v % 128 + 128])[..|digits|] == digits
    ensures v >= 128 ==> v / 128 > 0
  {
  }

  /** pb_encode_varint */
  method EncodeVarint(s: Stream, value: nat) returns (ok: bool)
    requires s.Now().Valid() && value < U64 && s.bytesWritten + |EncVarint(value)| < U64
    modifies s, s.buf
    ensures Emitted(old(s.Now()), s.Now(), ok, true, EncVarint(value))
  {
    hide Emitted, EncVarint;
    VarintStep(value);
    if value <= 0x7F {
      ok := s.Write([value]);
      return;
    }
    EncVarintLengths(value);
    var buffer, i := Base128Digits(value);
    ok := s.Write(buffer[..i]);
  }

  /** Its loop over the ten-byte buffer. */
  method Base128Digits(value: nat) returns (buffer: array<byte>, i: nat)
    requires value >= 128 && |EncVarint(value)| <= 10
    ensures fresh(buffer) && i <= buffer.Length && buffer[..i] == EncVarint(value)
  {
    hide EncVarint;
    buffer, i := new byte[10], 0;
    var v := value;
    ghost var digits: seq<byte> := [];
    while v != 0
      invariant fresh(buffer) && buffer.Length == 10 && |digits| == i <= 10 && buffer[..i] == digits
      invariant v != 0 ==> EncVarint(value) == digits + EncVarint(v)
      invariant v == 0 ==> i > 0 && EncVarint(value) == digits[..i - 1] + [digits[i - 1] % 128]
    {
      assert i + |EncVarint(v)| == |EncVarint(value)|;
      VarintStep(v);
      NextDigit(digits, v, EncVarint(v / 128));
      buffer[i] := v % 128 + 128;
      digits := digits + [v % 128 + 128];
      v := v / 128;
      i := i + 1;
    }
    buffer[i - 1] := buffer[i - 1] % 128;
    assert buffer[..i] == digits[..i - 1] + [digits[i - 1] % 128];
  }

  /** pb_encode_svarint */
  method EncodeSVarint(s: Stream, value: int) returns (ok: bool)
    requires s.Now().Valid() && s.bytesWritten + |EncVarint(ZigZag(value))| < U64
    modifies s, s.buf
    ensures Emitted(old(s.Now()), s.Now(), ok, true, EncVarint(ZigZag(value)))
  {
    var zigzagged: nat;
    if value < 0 {
      zigzagged := U64 - 1 - Shl(ToU64(value), 1) % U64;
    } else {
      zigzagged := Shl(ToU64(value), 1) % U64;
    }
    ok := EncodeVarint(s, zigzagged);
  }

  /** pb_encode_fixed32 */
  method EncodeFixed32(s: Stream, value: nat) returns (ok: bool)
    requires s.Now().Valid() && s.bytesWritten + |LittleEndian(value, 4)| < U64
    modifies s, s.buf
    ensures Emitted(old(s.Now()), s.Now(), ok, true, LittleEndian(value, 4))
  {
    var bytes: seq<byte> := [value % 256, value / 0x100 % 256, value / 0x1_0000 % 256, value / 0x100_0000 % 256];
    FourBytes(value);
    ok := s.Write(bytes);
  }

  /** pb_encode_fixed64 */
  method EncodeFixed64(s: Stream, value: nat) returns (ok: bool)
    requires s.Now().Valid() && s.bytesWritten + |LittleEndian(value, 8)| < U64
    modifies s, s.buf
    ensures Emitted(old(s.Now()), s.Now(), ok, true, LittleEndian(value, 8))
  {
    var bytes: seq<byte> := [value % 256, value / 0x100 % 256, value / 0x1_0000 % 256, value / 0x100_0000 % 256,
      value / 0x1_0000_0000 % 256, value / 0x100_0000_0000 % 256,
      value / 0x1_0000_0000_0000 % 256, value / 0x100_0000_0000_0000 % 256];
    AllEightBytes(value);
    ok := s.Write(bytes);
  }

  lemma {:induction false} FourBytes(v: nat)
    ensures LittleEndian(v, 4) == [v % 256, v / 0x100 % 256, v / 0x1_0000 % 256, v / 0x100_0000 % 256]
  {
    assert LittleEndian(v / 0x100_0000, 1) == [v / 0x100_0000 % 256];
    assert LittleEndian(v / 0x1_0000, 2) == [v / 0x1_0000 % 256] + LittleEndian(v / 0x100_0000, 1);
    assert LittleEndian(v / 0x100, 3) == [v / 0x100 % 256] + LittleEndian(v / 0x1_0000, 2);
  }

  lemma {:induction false} EightBytes(v: nat)
    ensures LittleEndian(v, 8) == LittleEndian(v, 4) + LittleEndian(v / 0x1_0000_0000, 4)
  {
    var v1 := v / 256;
    var v2 := v1 / 256;
    var v3 := v2 / 256;
    assert v3 / 256 == v / 0x1_0000_0000;
    hide LittleEndian;
    LittleEndianNext(v, 7);
    LittleEndianNext(v1, 6);
    LittleEndianNext(v2, 5);
    LittleEndianNext(v3, 4);
    LittleEndianNext(v, 3);
    LittleEndianNext(v1, 2);
    LittleEndianNext(v2, 1);
    LittleEndianNext(v3, 0);
  }

  lemma {:induction false} AllEightBytes(v: nat)
    ensures LittleEndian(v, 8) ==
            [v % 256, v / 0x100 % 256, v / 0x1_0000 % 256, v / 0x100_0000 % 256,
             v / 0x1_0000_0000 % 256, v / 0x100_0000_0000 % 256,
             v / 0x1_0000_0000_0000 % 256, v / 0x100_0000_0000_0000 % 256]
  {
    hide LittleEndian;
    var h := v / 0x1_0000_0000;
    assert h / 0x100 == v / 0x100_0000_0000 && h / 0x1_0000 == v / 0x1_0000_0000_0000;
    assert h / 0x100_0000 == v / 0x100_0000_0000_0000;
    FourBytes(v);
    FourBytes(h);
    EightBytes(v);
  }

  lemma {:induction false} LittleEndianNext(v: nat, k: nat)
    ensures LittleEndian(v, k + 1) == [v % 256] + LittleEndian(v / 256, k)
    ensures k == 0 ==> LittleEndian(v / 256, k) == []
  {
  }

  /** pb_encode_tag */
  method EncodeTag(s: Stream, wiretype: nat, fieldNumber: nat) returns (ok: bool)
    requires s.Now().Valid() && wiretype < 8 && fieldNumber < U32
    requires s.bytesWritten + |EncTag(wiretype, fieldNumber)| < U64
    modifies s, s.buf
    ensures Emitted(old(s.Now()), s.Now(), ok, true, EncTag(wiretype, fieldNumber))
  {
    var tag := BitOr(Shl(fieldNumber, 3), wiretype);
    TagKey(wiretype, fieldNumber);
    ok := EncodeVarint(s, tag);
  }

  /** pb_encode_string */
  method EncodeString(s: Stream, bytes: seq<byte>) returns (ok: bool)
    requires s.Now().Valid() && s.bytesWritten + |EncString(bytes)| < U64
    modifies s, s.buf
    ensures Emitted(old(s.Now()), s.Now(), ok, true, EncString(bytes))
  {
    ghost var a, n := s.Now(), EncVarint(|bytes|);
    ok := EncodeVarint(s, |bytes|);
    ghost var b := s.Now();
    if !ok {
      EmittedFailure(a, b, true, n, true, bytes);
      return;
    }
    ok := s.Write(bytes);
    EmittedThen(a, b, s.Now(), n, ok, true, bytes);
  }

  /** pb_enc_bool, pb_enc_varint, pb_enc_uvarint, pb_enc_svarint, pb_enc_fixed32, pb_enc_fixed64,
      pb_enc_bytes, pb_enc_string and pb_enc_fixed_length_bytes */
  method EncodeScalar(s: Stream, f: Field, v: Value) returns (ok: bool)
    requires s.Now().Valid() && f.ltype != Submessage && f.ltype != Extension
    requires s.bytesWritten + |EncScalar(f, v)| < U64
    modifies s, s.buf
    ensures Emitted(old(s.Now()), s.Now(), ok, EncodableScalar(f, v), EncScalar(f, v))
  {
    hide Emitted, EncVarint, LittleEndian, ZigZag, EncString, CString, IntegerSize;
    EmittedRefused(s.Now(), EncScalar(f, v));
    match f.ltype {
      case Bool =>
        var value := if NumOf(v) != 0 then 1 else 0;
        ok := EncodeVarint(s, value);
      case Varint =>
        if !IntegerSize(f.dataSize) { return false; }
        ok := EncodeVarint(s, ToU64(NumOf(v)));
      case UVarint =>
        if !IntegerSize(f.dataSize) { return false; }
        ok := EncodeVarint(s, ToU64(NumOf(v)));
      case SVarint =>
        if !IntegerSize(f.dataSize) { return false; }
        ok := EncodeSVarint(s, NumOf(v));
      case Fixed32 =>
        ok := EncodeFixed32(s, ToU64(NumOf(v)));
      case Fixed64 =>
        ok := EncodeFixed64(s, ToU64(NumOf(v)));
      case Bytes =>
        var bytes := BytesOf(v);
        if |bytes| + BYTES_HEADER > f.dataSize { return false; }
        ok := EncodeString(s, bytes);
      case String =>
        var src := BytesOf(v);
        var size := 0;
        while size < |src| && src[size] != 0
          invariant 0 <= size <= |src| && 0 !in src[..size]
        {
          size := size + 1;
        }
        CStringIs(src, size);
        ok := EncodeString(s, src[..size]);
      case FixedLengthBytes =>
        ok := EncodeString(s, BytesOf(v));
    }
  }

  /** The C string is the longest prefix without NUL. */
  lemma {:induction false} CStringIs(b: seq<byte>, n: nat)
    requires n <= |b| && 0 !in b[..n] && (n < |b| ==> b[n] == 0)
    ensures CString(b) == b[..n]
  {
    if n > 0 { CStringIs(b[1..], n - 1); }
  }

  /** pb_encode_tag_for_field */
  method EncodeTagForField(s: Stream, f: Field) returns (ok: bool)
    requires s.Now().Valid() && f.tag < U32 && f.ltype != Extension
    requires s.bytesWritten + |EncTag(WireType(f.ltype), f.tag)| < U64
    modifies s, s.buf
    ensures Emitted(old(s.Now()), s.Now(), ok, true, EncTag(WireType(f.ltype), f.tag))
  {
    ok := EncodeTag(s, WireType(f.ltype), f.tag);
  }

  lemma {:induction false} FixedItemsSize(f: Field, items: seq<Value>)
    requires f.ltype == Fixed32 || f.ltype == Fixed64
    ensures |EncItems(f, items)| == (if f.ltype == Fixed32 then 4 else 8) * |items|
  {
    if items != [] {
      FixedItemsSize(f, items[1..]);
      FourBytes(ToU64(NumOf(items[0])));
      AllEightBytes(ToU64(NumOf(items[0])));
    }
  }

  /** The loop that writes packed entries, and the one that counts them. */
  method EncodeItems(s: Stream, f: Field, items: seq<Value>) returns (ok: bool)
    requires s.Now().Valid() && f.ltype.Packable() && s.bytesWritten + |EncItems(f, items)| < U64
    modifies s, s.buf
    ensures Emitted(old(s.Now()), s.Now(), ok, EncodableItems(f, items), EncItems(f, items))
  {
    hide Emitted, EncItems, EncScalar, EncodableItems, EncodableScalar;
    ghost var a, done: seq<byte> := s.Now(), [];
    ghost var good := EncodableItems(f, items);
    EmittedNothing(a);
    var i := 0;
    assert items[0..] == items;
    while i < |items|
      invariant 0 <= i <= |items|
      invariant EncItems(f, items) == done + EncItems(f, items[i..])
      invariant EncodableItems(f, items[i..]) <==> good
      invariant Emitted(a, s.Now(), true, true, done)
    {
      ghost var e, more, b := EncScalar(f, items[i]), EncItems(f, items[i + 1..]), s.Now();
      ItemsStep(f, items, i);
      EmittedState(a, b, true, true, done);
      assert EncItems(f, items) == (done + e) + more;
      ok := EncodeScalar(s, f, items[i]);
      EmittedThen(a, b, s.Now(), done, ok, EncodableScalar(f, items[i]), e);
      if !ok {
        EmittedFailure(a, s.Now(), EncodableScalar(f, items[i]), done + e, good, more);
        return;
      }
      EmittedState(b, s.Now(), ok, EncodableScalar(f, items[i]), e);
      done := done + e;
      i := i + 1;
    }
    NoItems(f, items[i..]);
    assert done + [] == done;
    ok := true;
  }

  lemma {:induction false} ItemsStep(f: Field, items: seq<Value>, i: nat)
    requires i < |items| && f.ltype.Packable()
    ensures EncItems(f, items[i..]) == EncScalar(f, items[i]) + EncItems(f, items[i + 1..])
    ensures EncodableItems(f, items[i..]) <==> EncodableScalar(f, items[i]) && EncodableItems(f, items[i + 1..])
  {
    hide EncScalar, EncodableScalar;
    var t := items[i..];
    assert t[1..] == items[i + 1..] && t[0] == items[i];
    assert forall k :: 0 <= k < |t[1..]| ==> t[1..][k] == t[k + 1];
    assert forall k :: 1 <= k < |t| ==> t[k] == t[1..][k - 1];
  }

  lemma {:induction false} NoItems(f: Field, items: seq<Value>)
    requires items == []
    ensures EncItems(f, items) == [] && EncodableItems(f, items)
  {
  }

  /** One encoding function of PB_ENCODERS */
  method EncodeValue(s: Stream, f: Field, v: Value) returns (ok: bool)
    requires s.Now().Valid() && StaticRow(f) && ConformsVal(f, v)
    requires s.bytesWritten + |EncVal(f, v)| < U64
    modifies s, s.buf
    ensures Emitted(old(s.Now()), s.Now(), ok, EncodableVal(f, v), EncVal(f, v))
    decreases v, 1
  {
    hide Emitted, EncScalar, EncodableScalar, ConformsScalar, EncMsg, Encodable, Conforms, EncString;
    if f.ltype == Submessage {
      if f.ptr.SubFields? {
        ok := EncodeSubmessage(s, f.ptr.fields, v.msg);
      } else {
        EmittedRefused(s.Now(), EncVal(f, v));
        ok := false;
      }
    } else {
      ok := EncodeScalar(s, f, v);
    }
  }

  method EncodeTagged(s: Stream, f: Field, v: Value) returns (ok: bool)
    requires s.Now().Valid() && StaticRow(f) && ConformsVal(f, v)
    requires s.bytesWritten + |EncTagged(f, v)| < U64
    modifies s, s.buf
    ensures Emitted(old(s.Now()), s.Now(), ok, EncodableVal(f, v), EncTagged(f, v))
    decreases v, 2
  {
    hide Emitted, EncVal, EncodableVal, ConformsVal, EncTag;
    ghost var a, t := s.Now(), EncTag(WireType(f.ltype), f.tag);
    ok := EncodeTagForField(s, f);
    ghost var b := s.Now();
    if !ok {
      EmittedFailure(a, b, true, t, EncodableVal(f, v), EncVal(f, v));
      return;
    }
    EmittedState(a, b, true, true, t);
    ok := EncodeValue(s, f, v);
    EmittedThen(a, b, s.Now(), t, ok, EncodableVal(f, v), EncVal(f, v));
  }

  lemma {:induction false} TaggedItemsStep(f: Field, items: seq<Value>, i: nat)
    requires i < |items|
    ensures EncTaggedItems(f, items[i..]) == EncTagged(f, items[i]) + EncTaggedItems(f, items[i + 1..])
    ensures EncodableItems(f, items[i..]) <==>
            EncodableVal(f, items[i]) && EncodableItems(f, items[i + 1..])
  {
    hide EncTagged, EncodableVal;
    var t := items[i..];
    assert t[1..] == items[i + 1..] && t[0] == items[i];
    assert forall k :: 0 <= k < |t[1..]| ==> t[1..][k] == t[k + 1];
    assert forall k :: 1 <= k < |t| ==> t[k] == t[1..][k - 1];
  }

  lemma {:induction false} NoTaggedItems(f: Field, items: seq<Value>)
    requires items == []
    ensures EncTaggedItems(f, items) == [] && EncodableItems(f, items)
  {
  }

  /** encode_array, entry by entry */
  method EncodeTaggedItems(s: Stream, f: Field, items: seq<Value>) returns (ok: bool)
    requires s.Now().Valid() && StaticRow(f) && ConformsItems(f, items)
    requires s.bytesWritten + |EncTaggedItems(f, items)| < U64
    modifies s, s.buf
    ensures Emitted(old(s.Now()), s.Now(), ok, EncodableItems(f, items), EncTaggedItems(f, items))
    decreases items, 3
  {
    hide Emitted, EncTaggedItems, EncTagged, EncodableItems, EncodableVal, ConformsItems, ConformsVal, StaticRow;
    ghost var a, done: seq<byte> := s.Now(), [];
    ghost var good := EncodableItems(f, items);
    EmittedNothing(a);
    var i := 0;
    assert items[0..] == items;
    while i < |items|
      invariant 0 <= i <= |items|
      invariant EncTaggedItems(f, items) == done + EncTaggedItems(f, items[i..])
      invariant EncodableItems(f, items[i..]) <==> good
      invariant Emitted(a, s.Now(), true, true, done)
    {
      ghost var e, more, b := EncTagged(f, items[i]), EncTaggedItems(f, items[i + 1..]), s.Now();
      TaggedItemsStep(f, items, i);
      ItemConforms(f, items, i);
      EmittedState(a, b, true, true, done);
      assert EncTaggedItems(f, items) == (done + e) + more;
      ok := EncodeTagged(s, f, items[i]);
      EmittedThen(a, b, s.Now(), done, ok, EncodableVal(f, items[i]), e);
      if !ok {
        EmittedFailure(a, s.Now(), EncodableVal(f, items[i]), done + e, good, more);
        return;
      }
      EmittedState(b, s.Now(), ok, EncodableVal(f, items[i]), e);
      done := done + e;
      i := i + 1;
    }
    NoTaggedItems(f, items[i..]);
    assert done + [] == done;
    ok := true;
  }

  /** The byte count of a packed run: computed for fixed-size entries, found on a sizing stream
      otherwise. */
  method PackedSize(f: Field, items: seq<Value>) returns (ok: bool, size: nat)
    requires f.ltype.Packable() && |EncItems(f, items)| < U64
    ensures ok <==> EncodableItems(f, items)
    ensures ok ==> size == |EncItems(f, items)|
  {
    hide EncItems, EncodableItems, Emitted;
    FixedItemsEncodable(f, items);
    if f.ltype == Fixed32 {
      FixedItemsSize(f, items);
      return true, 4 * |items|;
    } else if f.ltype == Fixed64 {
      FixedItemsSize(f, items);
      return true, 8 * |items|;
    }
    var sizestream := new Stream.Sizing();
    ghost var z := sizestream.Now();
    ok := EncodeItems(sizestream, f, items);
    SizingSucceeds(z, sizestream.Now(), ok, EncodableItems(f, items), EncItems(f, items));
    size := sizestream.bytesWritten;
  }

  /** The packed form: tag, byte count, entries. */
  method EncodePacked(s: Stream, f: Field, items: seq<Value>) returns (ok: bool)
    requires s.Now().Valid() && StaticRow(f) && f.ltype.Packable()
    requires s.bytesWritten + |EncTag(WT_STRING, f.tag) + EncString(EncItems(f, items))| < U64
    modifies s, s.buf
    ensures Emitted(old(s.Now()), s.Now(), ok, EncodableItems(f, items),
                    EncTag(WT_STRING, f.tag) + EncString(EncItems(f, items)))
  {
    hide Emitted, EncTag, EncItems, EncodableItems, EncodableScalar, EncVarint, EncScalar;
    ghost var a, t, e := s.Now(), EncTag(WT_STRING, f.tag), EncItems(f, items);
    ghost var n, good := EncVarint(|e|), EncodableItems(f, items);
    ok := EncodeTag(s, WT_STRING, f.tag);
    ghost var b := s.Now();
    if !ok {
      EmittedFailure(a, b, true, t, good, n + e);
      return;
    }
    EmittedState(a, b, true, true, t);
    var size;
    ok, size := PackedSize(f, items);
    if !ok {
      EmittedRefused(b, n + e);
      EmittedThen(a, b, s.Now(), t, false, false, n + e);
      return;
    }
    assert size == |e|;
    ok := EncodeVarint(s, size);
    ghost var c := s.Now();
    EmittedThen(a, b, c, t, ok, true, n);
    assert t + (n + e) == (t + n) + e;
    if !ok {
      EmittedFailure(a, c, true, t + n, good, e);
      return;
    }
    EmittedState(b, c, true, true, n);
    if s.sizing {
      s.Count(size);
      FixedItemsEncodable(f, items);
      EmittedCount(c, e, good);
      EmittedThen(a, c, s.Now(), t + n, true, good, e);
      ok := true;
      return;
    }
    ok := EncodeItems(s, f, items);
    EmittedThen(a, c, s.Now(), t + n, ok, good, e);
  }

  lemma {:induction false} FixedItemsEncodable(f: Field, items: seq<Value>)
    ensures f.ltype == Fixed32 || f.ltype == Fixed64 ==> EncodableItems(f, items)
  {
  }

  /** encode_array: arrays of numbers are always packed. */
  method EncodeArray(s: Stream, f: Field, slot: Slot) returns (ok: bool)
    requires s.Now().Valid() && StaticRow(f) && slot.Many?
    requires |slot.entries| == f.arraySize && ConformsItems(f, slot.entries)
    requires s.bytesWritten + |EncArray(f, Items(f, slot))| < U64
    modifies s, s.buf
    ensures Emitted(old(s.Now()), s.Now(), ok, EncodableArray(f, slot), EncArray(f, Items(f, slot)))
    decreases slot, 4
  {
    hide Emitted, EncTag, EncItems, EncString, EncTaggedItems, EncodableItems, StaticRow, ConformsVal;
    EmittedNothing(s.Now());
    EmittedRefused(s.Now(), EncArray(f, Items(f, slot)));
    var count := if f.sizeOffset != 0 then slot.count else f.arraySize;
    if count == 0 { return true; }
    if count > f.arraySize { return false; }
    var items := Items(f, slot);
    if f.ltype.Packable() {
      ok := EncodePacked(s, f, items);
    } else {
      ok := EncodeTaggedItems(s, f, items);
    }
  }

  lemma {:induction false} NothingToEncode(f: Field, items: seq<Value>)
    ensures items == [] ==> EncArray(f, items) == []
  {
  }

  /** Row i of a message that fits its table. */
  ghost predicate RowReady(fields: seq<Field>, m: Msg, i: nat) {
    i < |fields| && |m| == |fields| && StaticRow(fields[i]) && ConformsRow(fields, m, i)
  }

  /** pb_check_proto3_default_value on a row. */
  method CheckProto3Default(fields: seq<Field>, m: Msg, i: nat) returns (zero: bool)
    requires RowReady(fields, m, i)
    ensures zero == IsZeroRow(fields, m, i)
    decreases m
  {
    hide StaticTable, Conforms, IsZeroMsg;
    var f, slot := fields[i], m[UnionHead(fields, i)];
    assert m decreases to slot;
    if f.htype == Required {
      return false;
    } else if f.htype == Repeated {
      return f.sizeOffset != 0 && slot.count == 0;
    } else if f.htype == Oneof {
      return slot.which == 0;
    } else if f.sizeOffset != 0 {
      return !slot.has;
    }
    var v := slot.v;
    match f.ltype {
      case Bytes => zero := |BytesOf(v)| == 0;
      case String => zero := BytesOf(v) == [] || BytesOf(v)[0] == 0;
      case FixedLengthBytes => zero := f.dataSize == 0;
      case Submessage => zero := CheckSubmessageDefault(f, v);
      case _ => zero := NumOf(v) == 0;
    }
  }

  /** Its loop over the rows of a submessage. */
  method CheckSubmessageDefault(f: Field, v: Value) returns (zero: bool)
    requires StaticRow(f) && f.ltype == Submessage && ConformsVal(f, v)
    ensures zero == IsZeroMsg(SubTable(f), v.msg)
    decreases v
  {
    hide StaticTable, StaticRow, Conforms, IsZeroRow, ConformsRow;
    var fields, m := SubTable(f), v.msg;
    SubTableIsStatic(f);
    TableIsTagged(fields);
    ConformsLength(fields, m);
    if fields == [] { return true; }
    var iter := new Iter(fields);
    while true
      invariant fresh(iter) && iter.Valid() && iter.fields == fields
      invariant forall k :: 0 <= k < iter.pos ==> IsZeroRow(fields, m, k)
      decreases |fields| - iter.pos
    {
      ghost var i := iter.pos;
      RowConforms(fields, m, i);
      zero := CheckProto3Default(fields, m, iter.pos);
      if !zero { return; }
      var more := iter.Next();
      if !more { return; }
    }
  }

  /** encode_field, encode_basic_field */
  method EncodeRow(s: Stream, fields: seq<Field>, m: Msg, i: nat) returns (ok: bool)
    requires s.Now().Valid() && RowReady(fields, m, i)
    requires s.bytesWritten + |EncRow(fields, m, i)| < U64
    modifies s, s.buf
    ensures Emitted(old(s.Now()), s.Now(), ok, EncodableRow(fields, m, i), EncRow(fields, m, i))
    decreases m, 5
  {
    hide Emitted, EncArray, EncTagged, EncodableVal, EncodableArray, ConformsItems, Items, Count, ConformsVal,
      StaticRow, IsZero;
    var f, slot := fields[i], m[UnionHead(fields, i)];
    assert m decreases to slot;
    EmittedNothing(s.Now());
    match f.htype {
      case Required =>
        ok := EncodeTagged(s, f, slot.v);
      case Optional =>
        var absent := false;
        if f.sizeOffset != 0 {
          absent := !slot.has;
        } else {
          absent := CheckProto3Default(fields, m, i);
        }
        if absent { return true; }
        ok := EncodeTagged(s, f, slot.v);
      case Repeated =>
        NothingToEncode(f, Items(f, slot));
        ok := EncodeArray(s, f, slot);
      case Oneof =>
        if slot.which != f.tag { return true; }
        ok := EncodeTagged(s, f, slot.v);
    }
  }

  ghost predicate EncodableFrom(fields: seq<Field>, m: Msg, i: nat)
    requires |m| == |fields|
  {
    forall k :: i <= k < |fields| ==> EncodableRow(fields, m, k)
  }

  lemma {:induction false} EncFromStep(fields: seq<Field>, m: Msg, i: nat)
    requires i < |fields| && |m| == |fields|
    ensures EncFrom(fields, m, i) == EncRow(fields, m, i) + EncFrom(fields, m, i + 1)
    ensures EncodableFrom(fields, m, i) <==> EncodableRow(fields, m, i) && EncodableFrom(fields, m, i + 1)
  {
    hide EncRow, EncodableRow;
  }

  lemma {:induction false} EncFromEnds(fields: seq<Field>, m: Msg)
    requires |m| == |fields|
    ensures EncFrom(fields, m, 0) == EncMsg(fields, m)
    ensures EncodableFrom(fields, m, 0) <==> Encodable(fields, m)
    ensures EncFrom(fields, m, |fields|) == [] && EncodableFrom(fields, m, |fields|)
  {
    hide EncRow, EncodableRow;
  }

  /** pb_encode: succeeds exactly when the message is encodable and its encoding fits the stream;
      then it has appended exactly the encoding. */
  method PbEncode(s: Stream, fields: seq<Field>, m: Msg) returns (ok: bool)
    requires s.Now().Valid() && StaticTable(fields) && Conforms(fields, m)
    requires s.bytesWritten + |EncMsg(fields, m)| < U64
    modifies s, s.buf
    ensures Emitted(old(s.Now()), s.Now(), ok, Encodable(fields, m), EncMsg(fields, m))
    decreases m, 6
  {
    hide Emitted, EncMsg, EncFrom, EncRow, Encodable, EncodableRow, EncodableFrom, ConformsRow, StaticTable, StaticRow;
    assert |m| == |fields|;
    TableIsTagged(fields);
    ghost var a, done: seq<byte> := s.Now(), [];
    EncFromEnds(fields, m);
    EmittedNothing(a);
    var iter := new Iter(fields);
    if fields == [] { return true; }
    while true
      invariant fresh(iter) && iter.Valid() && iter.fields == fields
      invariant EncMsg(fields, m) == done + EncFrom(fields, m, iter.pos)
      invariant EncodableFrom(fields, m, iter.pos) <==> Encodable(fields, m)
      invariant Emitted(a, s.Now(), true, true, done)
      decreases |fields| - iter.pos
    {
      ghost var i, b := iter.pos, s.Now();
      ghost var e, more, good := EncRow(fields, m, i), EncFrom(fields, m, i + 1), EncodableRow(fields, m, i);
      EncFromStep(fields, m, i);
      RowConforms(fields, m, i);
      EmittedState(a, b, true, true, done);
      assert EncMsg(fields, m) == (done + e) + more;
      ok := EncodeRow(s, fields, m, iter.pos);
      EmittedThen(a, b, s.Now(), done, ok, good, e);
      if !ok {
        EmittedFailure(a, s.Now(), good, done + e, Encodable(fields, m), more);
        return;
      }
      EmittedState(b, s.Now(), ok, good, e);
      done := done + e;
      var again := iter.Next();
      if !again {
        assert i + 1 == |fields| && done + [] == done;
        return true;
      }
    }
  }

  /** pb_encode_submessage, pb_encode_delimited: the length found on a sizing stream is the length
      written, so the "submsg size changed" failure never happens. */
  method EncodeSubmessage(s: Stream, fields: seq<Field>, m: Msg) returns (ok: bool)
    requires s.Now().Valid() && StaticTable(fields) && Conforms(fields, m)
    requires s.bytesWritten + |EncString(EncMsg(fields, m))| < U64
    modifies s, s.buf
    ensures Emitted(old(s.Now()), s.Now(), ok, Encodable(fields, m), EncString(EncMsg(fields, m)))
    decreases m, 7
  {
    hide Emitted, EncMsg, Encodable, Conforms, StaticTable, EncVarint;
    ghost var e, good, a := EncMsg(fields, m), Encodable(fields, m), s.Now();
    ghost var n := EncVarint(|e|);
    var sizestream := new Stream.Sizing();
    ghost var z := sizestream.Now();
    ok := PbEncode(sizestream, fields, m);
    SizingSucceeds(z, sizestream.Now(), ok, good, e);
    if !ok {
      EmittedRefused(a, n + e);
      return;
    }
    var size := sizestream.bytesWritten;
    ok := EncodeVarint(s, size);
    ghost var c := s.Now();
    if !ok {
      EmittedFailure(a, c, true, n, true, e);
      return;
    }
    EmittedState(a, c, true, true, n);
    if s.sizing {
      s.Count(size);
      EmittedCount(c, e, true);
      EmittedThen(a, c, s.Now(), n, true, true, e);
      return;
    }
    if (s.bytesWritten + size) % U64 > s.maxSize {
      EmittedFull(c, e);
      EmittedThen(a, c, s.Now(), n, false, true, e);
      return false;
    }
    var substream := new Stream.OnBuffer(s.buf, s.state, size);
    ghost var sub := substream.Now();
    var status := PbEncode(substream, fields, m);
    SubstreamFilled(sub, substream.Now(), status, e);
    s.bytesWritten := s.bytesWritten + substream.bytesWritten;
    s.state := substream.state;
    EmittedInside(c, sub, substream.Now(), s.Now(), e);
    EmittedThen(a, c, s.Now(), n, true, true, e);
    if substream.bytesWritten != size { return false; }
    ok := status;
  }

  /** pb_get_encoded_size */
  method GetEncodedSize(fields: seq<Field>, m: Msg) returns (size: Option<nat>)
    requires StaticTable(fields) && Conforms(fields, m) && |EncMsg(fields, m)| < U64
    ensures size == if Encodable(fields, m) then Some(|EncMsg(fields, m)|) else None
  {
    var stream := new Stream.Sizing();
    var ok := PbEncode(stream, fields, m);
    size := if ok then Some(stream.bytesWritten) else None;
  }

  /** pb_encode_nullterminated */
  method EncodeNullTerminated(s: Stream, fields: seq<Field>, m: Msg) returns (ok: bool)
    requires s.Now().Valid() && StaticTable(fields) && Conforms(fields, m)
    requires s.bytesWritten + |EncMsg(fields, m)| + 1 < U64
    modifies s, s.buf
    ensures Emitted(old(s.Now()), s.Now(), ok, Encodable(fields, m), EncMsg(fields, m) + [0])
  {
    hide Emitted, EncMsg, Encodable, Conforms, StaticTable;
    ghost var a, e := s.Now(), EncMsg(fields, m);
    ok := PbEncode(s, fields, m);
    ghost var b := s.Now();
    if !ok {
      EmittedFailure(a, b, Encodable(fields, m), e, Encodable(fields, m), [0]);
      return;
    }
    EmittedState(a, b, true, Encodable(fields, m), e);
    ok := s.Write([0]);
    EmittedThen(a, b, s.Now(), e, ok, true, [0]);
  }
}
