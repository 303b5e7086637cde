/** What pb_encode emits for a message, as a function (pb_encode.c).  Emitting and checking are two
    functions: EncMsg gives the bytes, Encodable says whether the encoder raises no error on the way. */
module EncodeSpec {
  import opened Wrappers
  import opened Bits
  import opened Descriptor
  import opened Varint

  const WT_VARINT: nat := 0
  const WT_64BIT: nat := 1
  const WT_STRING: nat := 2
  const WT_32BIT: nat := 5

  /** offsetof(pb_bytes_array_t, bytes): a bytes member starts with its pb_size_t length. */
  const BYTES_HEADER: nat := 4

  function WireType(ltype: LType): nat {
    match ltype
    case Bool | Varint | UVarint | SVarint => WT_VARINT
    case Fixed32 => WT_32BIT
    case Fixed64 => WT_64BIT
    case _ => WT_STRING
  }

  function EncTag(wiretype: nat, tag: nat): seq<byte> {
    EncVarint(BitOr(Shl(tag, 3), wiretype))
  }

  /** A key is eight times the field number, plus the wire type. */
  lemma {:induction false} TagKey(wiretype: nat, tag: nat)
    requires wiretype < 8
    ensures BitOr(Shl(tag, 3), wiretype) == 8 * tag + wiretype
  {
    OrDisjoint(wiretype, tag, 3);
    OrCommutes(wiretype, tag * Pow2(3));
    ShlIsTimes(tag, 3);
    assert Pow2(3) == 8;
  }

  /** A length prefix and the bytes it counts. */
  function EncString(b: seq<byte>): seq<byte> { EncVarint(|b|) + b }

  /** (uint64_t)value */
  function ToU64(n: int): nat { n % U64 }

  /** pb_encode_svarint: the sign goes to bit 0. */
  function ZigZag(n: int): nat {
    if n < 0 then U64 - 1 - Shl(ToU64(n), 1) % U64 else Shl(ToU64(n), 1) % U64
  }

  /** The k low bytes of v, least significant first. */
  function LittleEndian(v: nat, k: nat): seq<byte> {
    if k == 0 then [] else [v % 256] + LittleEndian(v / 256, k - 1)
  }

  /** The C string in a buffer: the bytes before the first NUL. */
  function CString(b: seq<byte>): (s: seq<byte>)
    ensures |s| <= |b| && s == b[..|s|] && 0 !in s
    ensures |s| < |b| ==> b[|s|] == 0
  {
    if b == [] || b[0] == 0 then [] else [b[0]] + CString(b[1..])
  }

  function NumOf(v: Value): int { if v.Num? then v.n else 0 }
  function BytesOf(v: Value): seq<byte> { if v.Blob? then v.bytes else [] }

  /** PB_ENCODERS for the types that hold no message. */
  function EncScalar(f: Field, v: Value): seq<byte> {
    match f.ltype
    case Bool => EncVarint(if NumOf(v) != 0 then 1 else 0)
    case Varint => EncVarint(ToU64(NumOf(v)))
    case UVarint => EncVarint(ToU64(NumOf(v)))
    case SVarint => EncVarint(ZigZag(NumOf(v)))
    case Fixed32 => LittleEndian(ToU64(NumOf(v)), 4)
    case Fixed64 => LittleEndian(ToU64(NumOf(v)), 8)
    case Bytes => EncString(BytesOf(v))
    case String => EncString(CString(BytesOf(v)))
    case FixedLengthBytes => EncString(BytesOf(v))
    case _ => []
  }

  function EncVal(f: Field, v: Value): seq<byte>
    decreases v, 0
  {
    if f.ltype == Submessage then
      if v.Sub? then EncString(EncMsg(SubTable(f), v.msg)) else []
    else EncScalar(f, v)
  }

  function EncTagged(f: Field, v: Value): seq<byte>
    decreases v, 1
  {
    EncTag(WireType(f.ltype), f.tag) + EncVal(f, v)
  }

  /** The entries of a packed array. */
  function EncItems(f: Field, items: seq<Value>): seq<byte> {
    if items == [] then [] else EncScalar(f, items[0]) + EncItems(f, items[1..])
  }

  /** The entries of an array that cannot be packed, each with its tag. */
  function EncTaggedItems(f: Field, items: seq<Value>): seq<byte>
    decreases items, 2
  {
    if items == [] then [] else EncTagged(f, items[0]) + EncTaggedItems(f, items[1..])
  }

  function EncArray(f: Field, items: seq<Value>): seq<byte>
    decreases items, 3
  {
    if items == [] then []
    else if f.ltype.Packable() then EncTag(WT_STRING, f.tag) + EncString(EncItems(f, items))
    else EncTaggedItems(f, items)
  }

  /** pb_check_proto3_default_value on a singular value. */
  predicate IsZero(f: Field, v: Value)
    decreases v, 0
  {
    match f.ltype
    case Bytes => BytesOf(v) == []
    case String => BytesOf(v) == [] || BytesOf(v)[0] == 0
    case FixedLengthBytes => f.dataSize == 0
    case Submessage => v.Sub? && IsZeroMsg(SubTable(f), v.msg)
    case _ => NumOf(v) == 0
  }

  predicate IsZeroMsg(fields: seq<Field>, m: Msg)
    decreases m, 1
  {
    forall i :: 0 <= i < |fields| && i < |m| ==> IsZeroRow(fields, m, i)
  }

  /** pb_check_proto3_default_value on a row of a submessage. */
  predicate IsZeroRow(fields: seq<Field>, m: Msg, i: nat)
    requires i < |fields| && i < |m|
    decreases m, 0
  {
    var f, slot := fields[i], m[UnionHead(fields, i)];
    assert m decreases to slot;
    match f.htype
    case Required => false
    case Repeated => f.sizeOffset != 0 && slot.Many? && slot.count == 0
    case Oneof => slot.Pick? && slot.which == 0
    case Optional =>
      if f.sizeOffset != 0 then slot.Opt? && !slot.has
      else slot.One? && IsZero(f, slot.v)
  }

  /** The value a row has to emit, if its has_ flag, count, which_ or zero check says so. */
  function Present(fields: seq<Field>, m: Msg, i: nat): (r: Option<Value>)
    requires i < |fields| && |m| == |fields|
    ensures r.Some? ==> (m decreases to r.value)
  {
    var f, slot := fields[i], m[UnionHead(fields, i)];
    assert m decreases to slot;
    match slot
    case One(v) =>
      if f.htype == Required || (f.htype == Optional && f.sizeOffset == 0 && !IsZero(f, v)) then Some(v) else None
    case Opt(has, v) => if f.htype == Optional && has then Some(v) else None
    case Pick(which, v) => if f.htype == Oneof && which == f.tag then Some(v) else None
    case _ => None
  }

  function EncRow(fields: seq<Field>, m: Msg, i: nat): seq<byte>
    requires i < |fields| && |m| == |fields|
    decreases m, 4
  {
    if fields[i].htype == Repeated then
      if m[i].Many? && Items(fields[i], m[i]) != [] then
        assert m decreases to m[i];
        EncArray(fields[i], Items(fields[i], m[i]))
      else []
    else
      match Present(fields, m, i)
      case Some(v) => EncTagged(fields[i], v)
      case None => []
  }

  function EncFrom(fields: seq<Field>, m: Msg, i: nat): seq<byte>
    requires i <= |fields| && |m| == |fields|
    decreases m, 5, |fields| - i
  {
    if i == |fields| then [] else EncRow(fields, m, i) + EncFrom(fields, m, i + 1)
  }

  /** The encoding of a message. */
  function EncMsg(fields: seq<Field>, m: Msg): seq<byte>
    decreases m, 6
  {
    if |m| == |fields| then EncFrom(fields, m, 0) else []
  }

  // ---------- When the encoder raises no error ----------

  predicate EncodableScalar(f: Field, v: Value) {
    match f.ltype
    case Varint | UVarint | SVarint => IntegerSize(f.dataSize)
    case Bytes => |BytesOf(v)| + BYTES_HEADER <= f.dataSize
    case Submessage | Extension => false
    case _ => true
  }

  predicate EncodableVal(f: Field, v: Value)
    decreases v, 0
  {
    if f.ltype == Submessage then f.ptr.SubFields? && v.Sub? && Encodable(SubTable(f), v.msg)
    else EncodableScalar(f, v)
  }

  predicate EncodableItems(f: Field, items: seq<Value>)
    decreases items, 1
  {
    forall k :: 0 <= k < |items| ==> EncodableVal(f, items[k])
  }

  /** An array that is empty, or within its bound and of encodable entries. */
  predicate EncodableArray(f: Field, slot: Slot)
    requires slot.Many?
    decreases slot, 2
  {
    Count(f, slot) == 0
    || (Count(f, slot) <= f.arraySize && (Items(f, slot) == [] || EncodableItems(f, Items(f, slot))))
  }

  predicate EncodableRow(fields: seq<Field>, m: Msg, i: nat)
    requires i < |fields| && |m| == |fields|
    decreases m, 2
  {
    if fields[i].htype == Repeated then
      assert m decreases to m[i];
      m[i].Many? ==> EncodableArray(fields[i], m[i])
    else
      match Present(fields, m, i)
      case Some(v) => EncodableVal(fields[i], v)
      case None => true
  }

  /** No bytes or array member is over its bound, and every table is complete. */
  predicate Encodable(fields: seq<Field>, m: Msg)
    decreases m, 3
  {
    |m| == |fields| && forall i :: 0 <= i < |fields| ==> EncodableRow(fields, m, i)
  }
}
