/** pb_field_t descriptor tables (pb.h:148-252) and the message structures they describe. */
module Descriptor {
  import opened Wrappers

  datatype LType = Bool | Varint | UVarint | SVarint | Fixed32 | Fixed64
                 | Bytes | String | Submessage | Extension | FixedLengthBytes
  {
    /** PB_LTYPE(type) <= PB_LTYPE_LAST_PACKABLE */
    predicate Packable() {
      Bool? || Varint? || UVarint? || SVarint? || Fixed32? || Fixed64?
    }
  }

  datatype HType = Required | Optional | Repeated | Oneof
  datatype AType = Static | Pointer | Callback

  /** One row of a descriptor table.  dataOffset is relative to the end of the previous member,
      sizeOffset relative to the member itself; a zero sizeOffset means there is no has_/_count
      member. */
  datatype Field = Field(tag: nat, ltype: LType, htype: HType, atype: AType,
                         dataOffset: nat, sizeOffset: int, dataSize: nat, arraySize: nat, ptr: Ptr)

  /** The row's `ptr`: the submessage's table, or the default value, or NULL. */
  datatype Ptr = NoPtr | SubFields(fields: seq<Field>) | DefaultValue(value: Value)

  /** A stored value: a number (two's complement already applied), the bytes of a bytes or string
      member, or a nested message. */
  datatype Value = Num(n: int) | Blob(bytes: seq<byte>) | Sub(msg: Msg)

  /** A message structure, one slot per row of its table. */
  type Msg = seq<Slot>

  /** What a row's members hold.  The members of a union share one storage: the slot of the first
      holds it, and the slots of the others are Shared.  The entries of an array are all it has room
      for, also those past its count.  A fixed-count array has no count member; its `count` here is
      bookkeeping, the number of entries received since the structure was last set to defaults. */
  datatype Slot = One(v: Value) | Opt(has: bool, v: Value) | Many(count: nat, entries: seq<Value>)
                | Pick(which: nat, v: Value) | Shared

  /** pb_size_t is 32 bits wide in this build (PB_FIELD_32BIT). */
  const PB_SIZE_MAX: nat := 0xFFFF_FFFF
  const SIZEOF_POINTER: nat := 8

  /** How many entries an array row has to emit. */
  function Count(f: Field, slot: Slot): nat
    requires slot.Many?
  {
    if f.sizeOffset == 0 then f.arraySize else slot.count
  }

  /** The entries an array row holds, when its count is within its array. */
  function Items(f: Field, slot: Slot): (items: seq<Value>)
    requires slot.Many?
    ensures Count(f, slot) <= |slot.entries| ==> items == slot.entries[..Count(f, slot)]
    ensures slot decreases to items
  {
    var n := Count(f, slot);
    assert slot.entries[..0] == [];
    if n > |slot.entries| then []
    else if n == |slot.entries| then
      assert slot.entries[..n] == slot.entries;
      slot.entries
    else slot.entries[..n]
  }

  /** The table of the submessage a row refers to. */
  function SubTable(f: Field): seq<Field> {
    match f.ptr
    case SubFields(fields) => fields
    case _ => []
  }

  /** Row i continues the union of the row before it. */
  predicate JoinsUnion(fields: seq<Field>, i: nat)
    requires i < |fields|
  {
    i > 0 && fields[i - 1].htype == Oneof && fields[i].htype == Oneof && fields[i].dataOffset == PB_SIZE_MAX
  }

  /** The row whose slot holds row i's storage. */
  function UnionHead(fields: seq<Field>, i: nat): (h: nat)
    requires i < |fields|
    ensures h <= i && !JoinsUnion(fields, h)
    ensures fields[i].htype == Oneof ==> fields[h].htype == Oneof
  {
    if JoinsUnion(fields, i) then UnionHead(fields, i - 1) else i
  }

  /** A which_ member that names a field of row i's union, or none. */
  ghost predicate WhichKnown(fields: seq<Field>, which: nat, i: nat)
    requires i < |fields|
  {
    which == 0 ||
    exists j :: 0 <= j < |fields| && UnionHead(fields, j) == UnionHead(fields, i) && fields[j].tag == which
  }

  /** A table the iterator can walk: the terminating row is the only one with tag 0. */
  predicate Tagged(fields: seq<Field>) {
    forall i :: 0 <= i < |fields| ==> fields[i].tag != 0
  }

  /** No two rows have the same tag. */
  predicate DistinctTags(fields: seq<Field>) {
    forall i, j :: 0 <= i < j < |fields| ==> fields[i].tag != fields[j].tag
  }

  /** A complete table of statically allocated members: the terminating row is the only one with
      tag 0, no two rows have the same tag, there are no extensions, and submessages have tables of
      the same kind.  Tags and sizes are pb_size_t. */
  predicate StaticTable(fields: seq<Field>)
    decreases fields, 0
  {
    DistinctTags(fields) && forall i :: 0 <= i < |fields| ==> StaticRow(fields[i])
  }

  predicate StaticRow(f: Field)
    decreases f, 1
  {
    && 1 <= f.tag <= PB_SIZE_MAX && f.dataSize <= PB_SIZE_MAX && f.arraySize <= PB_SIZE_MAX
    && f.atype == Static && f.ltype != Extension
    && (f.ltype == Submessage ==> match f.ptr
        case SubFields(sub) => StaticTable(sub)
        case _ => true)
  }

  lemma {:induction false} TableIsTagged(fields: seq<Field>)
    requires StaticTable(fields)
    ensures Tagged(fields) && DistinctTags(fields)
  {
    assert forall i :: 0 <= i < |fields| ==> StaticRow(fields[i]);
  }

  lemma {:induction false} RowIsStatic(fields: seq<Field>, i: nat)
    requires StaticTable(fields) && i < |fields|
    ensures StaticRow(fields[i])
  {
  }

  lemma {:induction false} SubTableIsStatic(f: Field)
    requires StaticRow(f) && f.ltype == Submessage
    ensures StaticTable(SubTable(f))
  {
  }

  // ---------- Messages that fit a table, as the C types guarantee ----------

  predicate IntegerSize(n: nat) { n == 1 || n == 2 || n == 4 || n == 8 }

  /** Half the number of values an n-byte integer has. */
  function HalfRange(n: nat): int {
    match n
    case 1 => 0x80
    case 2 => 0x8000
    case 4 => 0x8000_0000
    case _ => 0x8000_0000_0000_0000
  }

  ghost predicate ConformsScalar(f: Field, v: Value) {
    match f.ltype
    case Bool => v.Num? && 0 <= v.n < 256
    case Varint | SVarint => v.Num? && -HalfRange(f.dataSize) <= v.n < HalfRange(f.dataSize)
    case UVarint => v.Num? && 0 <= v.n < 2 * HalfRange(f.dataSize)
    case Fixed32 => v.Num? && 0 <= v.n < 0x1_0000_0000
    case Fixed64 => v.Num? && 0 <= v.n < 0x1_0000_0000_0000_0000
    case Bytes => v.Blob? && |v.bytes| <= PB_SIZE_MAX
    case String => v.Blob? && |v.bytes| <= f.dataSize <= PB_SIZE_MAX
    case FixedLengthBytes => v.Blob? && |v.bytes| == f.dataSize <= PB_SIZE_MAX
    case _ => false
  }

  ghost predicate ConformsVal(f: Field, v: Value)
    decreases v, 0
  {
    if f.ltype == Submessage then v.Sub? && Conforms(SubTable(f), v.msg) else ConformsScalar(f, v)
  }

  ghost predicate ConformsItems(f: Field, items: seq<Value>)
    decreases items, 1
  {
    forall k :: 0 <= k < |items| ==> ConformsVal(f, items[k])
  }

  ghost predicate ConformsRow(fields: seq<Field>, m: Msg, i: nat)
    requires i < |fields| && |m| == |fields|
    decreases m, 2
  {
    var f, slot := fields[i], m[UnionHead(fields, i)];
    assert m decreases to slot;
    match f.htype
    case Required => slot.One? && ConformsVal(f, slot.v)
    case Optional => (if f.sizeOffset != 0 then slot.Opt? else slot.One?) && ConformsVal(f, slot.v)
    case Repeated => slot.Many? && |slot.entries| == f.arraySize && ConformsItems(f, slot.entries)
    case Oneof => slot.Pick? && (slot.which == f.tag ==> ConformsVal(f, slot.v))
  }

  ghost predicate Conforms(fields: seq<Field>, m: Msg)
    decreases m, 3
  {
    |m| == |fields| && forall i :: 0 <= i < |fields| ==> ConformsRow(fields, m, i)
  }

  lemma {:induction false} ConformsLength(fields: seq<Field>, m: Msg)
    requires Conforms(fields, m)
    ensures |m| == |fields|
  {
  }

  lemma {:induction false} RowConforms(fields: seq<Field>, m: Msg, i: nat)
    requires StaticTable(fields) && Conforms(fields, m) && i < |fields|
    ensures |m| == |fields| && StaticRow(fields[i]) && ConformsRow(fields, m, i)
  {
  }

  lemma {:induction false} ItemConforms(f: Field, items: seq<Value>, i: nat)
    requires ConformsItems(f, items) && i < |items|
    ensures ConformsVal(f, items[i]) && (items decreases to items[i])
  {
  }
}
