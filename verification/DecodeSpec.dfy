/** What pb_decode makes of a byte sequence, as functions (pb_decode.c).  A decoder returns the value
    and the bytes it left, or a failure. */
module DecodeSpec {
  import opened Wrappers
  import opened Bits
  import opened Descriptor
  import opened Varint
  import opened FieldIter
  import opened EncodeSpec

  /** PB_MAX_REQUIRED_FIELDS */
  const MAX_REQUIRED: nat := 64

  /** sizeof(pb_size_t) */
  const SIZEOF_PB_SIZE: nat := 4

  // ---------- Reading ----------

  function ReadBytes(s: seq<byte>, n: nat): Parsed<seq<byte>> {
    if |s| < n then Fail else Got(s[..n], s[n..])
  }

  /** pb_make_string_substream, then everything of it (pb_close_string_substream). */
  function DecString(s: seq<byte>): Parsed<seq<byte>> {
    match DecVarint32(s)
    case Fail => Fail
    case Got(n, rest) => ReadBytes(rest, n)
  }

  datatype Key = BadKey | EndOfMessage(rest: seq<byte>) | KeyOf(wiretype: nat, tag: nat, rest: seq<byte>)

  /** pb_decode_tag on a nonempty stream: a zero key ends the message. */
  function DecKey(s: seq<byte>): Key {
    match DecVarint32(s)
    case Fail => BadKey
    case Got(k, rest) => if k == 0 then EndOfMessage(rest) else KeyOf(k % 8, k / 8, rest)
  }

  /** pb_skip_field: what is left after the payload. */
  function SkipField(wiretype: nat, s: seq<byte>): Option<seq<byte>> {
    match wiretype
    case 0 => if TakeVarint(s).Got? then Some(TakeVarint(s).rest) else None
    case 1 => if |s| >= 8 then Some(s[8..]) else None
    case 2 => if DecString(s).Got? then Some(DecString(s).rest) else None
    case 5 => if |s| >= 4 then Some(s[4..]) else None
    case _ => None
  }

  // ---------- Values without messages ----------

  /** (int64_t)value */
  function ToI64(v: nat): int { if v < 0x8000_0000_0000_0000 then v else v - U64 }

  /** (int32_t)value */
  function ToI32(v: nat): int { if v % U32 < 0x8000_0000 then v % U32 else v % U32 - U32 }

  function FromZigZag(v: nat): int {
    if v % 2 == 1 then ToI64(U64 - 1 - v / 2 % U64) else ToI64(v / 2)
  }

  function FromLittleEndian(s: seq<byte>): nat {
    if s == [] then 0 else s[0] + 256 * FromLittleEndian(s[1..])
  }

  /** The cast to the member's size must not change the number. */
  function Clamped(n: int, signed: bool, dataSize: nat, rest: seq<byte>): Parsed<Value> {
    if !IntegerSize(dataSize) then Fail
    else if signed && -HalfRange(dataSize) <= n < HalfRange(dataSize) then Got(Num(n), rest)
    else if !signed && 0 <= n < 2 * HalfRange(dataSize) then Got(Num(n), rest)
    else Fail
  }

  function Zeros(n: nat): seq<byte> { seq(n, _ => 0) }

  /** PB_DECODERS for the types that hold no message. */
  function DecScalar(f: Field, s: seq<byte>): Parsed<Value> {
    match f.ltype
    case Bool =>
      (match DecVarint32(s)
       case Fail => Fail
       case Got(v, rest) => Got(Num(if v != 0 then 1 else 0), rest))
    case Varint =>
      (match DecVarint(s)
       case Fail => Fail
       case Got(v, rest) => Clamped(if f.dataSize == 8 then ToI64(v) else ToI32(v), true, f.dataSize, rest))
    case UVarint =>
      (match DecVarint(s)
       case Fail => Fail
       case Got(v, rest) => Clamped(v, false, f.dataSize, rest))
    case SVarint =>
      (match DecVarint(s)
       case Fail => Fail
       case Got(v, rest) => Clamped(FromZigZag(v), true, f.dataSize, rest))
    case Fixed32 =>
      (match ReadBytes(s, 4)
       case Fail => Fail
       case Got(b, rest) => Got(Num(FromLittleEndian(b)), rest))
    case Fixed64 =>
      (match ReadBytes(s, 8)
       case Fail => Fail
       case Got(b, rest) => Got(Num(FromLittleEndian(b)), rest))
    case Bytes =>
      (match DecVarint32(s)
       case Fail => Fail
       case Got(n, rest) =>
         if n > PB_SIZE_MAX || n + BYTES_HEADER > f.dataSize || |rest| < n then Fail
         else Got(Blob(rest[..n]), rest[n..]))
    case String =>
      (match DecVarint32(s)
       case Fail => Fail
       case Got(n, rest) =>
         if (n + 1) % U32 < n || n + 1 > f.dataSize || |rest| < n then Fail
         else Got(Blob(rest[..n]), rest[n..]))
    case FixedLengthBytes =>
      (match DecVarint32(s)
       case Fail => Fail
       case Got(n, rest) =>
         if n == 0 then Got(Blob(Zeros(f.dataSize)), rest)
         else if n > PB_SIZE_MAX || n != f.dataSize || |rest| < n then Fail
         else Got(Blob(rest[..n]), rest[n..]))
    case _ => Fail
  }

  lemma {:induction false} VarintShrinks(s: seq<byte>)
    ensures DecVarint(s).Got? ==> |DecVarint(s).rest| < |s|
    ensures DecVarint32(s).Got? ==> |DecVarint32(s).rest| < |s|
    ensures TakeVarint(s).Got? ==> |TakeVarint(s).rest| < |s|
  {
    if TakeVarint(s).Got? { TakeVarintSplits(s); }
    DecVarintMeaning(s);
    if DecVarint32(s).Got? { DecVarint32Meaning(s); }
  }

  /** Every decoder consumes something. */
  lemma {:induction false} ScalarShrinks(f: Field, s: seq<byte>)
    ensures DecScalar(f, s).Got? ==> |DecScalar(f, s).rest| < |s|
  {
    hide DecVarint, DecVarint32, TakeVarint, FromLittleEndian;
    VarintShrinks(s);
  }

  /** The packed form: entries to the end of the payload, at most `room` of them. */
  function DecItems(f: Field, s: seq<byte>, room: nat): Option<seq<Value>>
    decreases |s|
  {
    if s == [] then Some([])
    else if room == 0 then None
    else
      ScalarShrinks(f, s);
      match DecScalar(f, s)
      case Fail => None
      case Got(v, rest) =>
        match DecItems(f, rest, room - 1)
        case None => None
        case Some(items) => Some([v] + items)
  }

  /** A packed run never yields more entries than there is room for. */
  lemma {:induction false} ItemsFit(f: Field, s: seq<byte>, room: nat)
    ensures DecItems(f, s, room).Some? ==> |DecItems(f, s, room).value| <= room
    decreases room
  {
    hide DecScalar;
    ScalarShrinks(f, s);
    if s != [] && room > 0 && DecScalar(f, s).Got? { ItemsFit(f, DecScalar(f, s).rest, room - 1); }
  }

  // ---------- Memory ----------

  function Copies(v: Value, n: nat): seq<Value> { seq(n, _ => v) }

  /** A member whose bytes are all zero. */
  function ZeroVal(f: Field): Value
    decreases f, 0
  {
    match f.ltype
    case Bytes | String => Blob([])
    case FixedLengthBytes => Blob(Zeros(f.dataSize))
    case Submessage =>
      (match f.ptr
       case SubFields(sub) => Sub(ZeroMsg(sub))
       case _ => Sub([]))
    case _ => Num(0)
  }

  function ZeroSlot(fields: seq<Field>, i: nat): Slot
    requires i < |fields|
    decreases fields, 1
  {
    var f := fields[i];
    match f.htype
    case Required => One(ZeroVal(f))
    case Optional => if f.sizeOffset != 0 then Opt(false, ZeroVal(f)) else One(ZeroVal(f))
    case Repeated => Many(0, Copies(ZeroVal(f), f.arraySize))
    case Oneof => if JoinsUnion(fields, i) then Shared else Pick(0, Num(0))
  }

  /** A structure whose bytes are all zero. */
  function ZeroMsg(fields: seq<Field>): (m: Msg)
    ensures |m| == |fields|
    decreases fields, 2
  {
    seq(|fields|, i requires 0 <= i < |fields| => ZeroSlot(fields, i))
  }

  /** How many of the n bytes at an offset lie below `limit`, counted from the offset. */
  function Lead(limit: nat, offset: int): nat { if offset < limit then limit - offset else 0 }

  /** A member after its first k bytes were set to zero.  Numbers are stored least significant byte
      first; a size, a count or a which_ member is aligned, so it is cleared as a whole or not at all. */
  function WipedVal(f: Field, v: Value, k: nat): Value
    decreases v, 0
  {
    if k == 0 then v
    else
      match v
      case Num(n) => Num(if k >= f.dataSize then 0 else n - n % Pow2(8 * k))
      case Blob(b) =>
        if f.ltype == Bytes then Blob([])
        else if k >= |b| then Blob(Zeros(|b|)) else Blob(Zeros(k) + b[k..])
      case Sub(m) => Sub(WipedMsg(SubTable(f), m, k))
  }

  /** Array entries after the first k bytes of the array were set to zero. */
  function WipedEntries(f: Field, entries: seq<Value>, k: nat): (r: seq<Value>)
    ensures |r| == |entries|
    decreases entries, 1
  {
    if k == 0 || entries == [] || f.dataSize == 0 then entries
    else
      var here := if k < f.dataSize then k else f.dataSize;
      [WipedVal(f, entries[0], here)] + WipedEntries(f, entries[1..], k - here)
  }

  function WipedSlot(fields: seq<Field>, m: Msg, i: nat, k: nat): Slot
    requires i < |fields| && i < |m|
    decreases m, 1
  {
    var f, data, size := fields[i], Lead(k, DataAt(fields, i)), Lead(k, SizeAt(fields, i));
    assert m decreases to m[i];
    match m[i]
    case One(v) => One(WipedVal(f, v, data))
    case Opt(has, v) => Opt(has && size == 0, WipedVal(f, v, data))
    case Many(count, entries) =>
      Many(if f.sizeOffset == 0 || size == 0 then count else 0, WipedEntries(f, entries, data))
    case Pick(which, v) =>
      var chosen := FieldIndex(fields, which);
      Pick(if size == 0 then which else 0, if chosen.Some? then WipedVal(fields[chosen.value], v, data) else v)
    case Shared => Shared
  }

  /** A structure after its first k bytes were set to zero. */
  function WipedMsg(fields: seq<Field>, m: Msg, k: nat): (r: Msg)
    ensures |r| == |m|
    decreases m, 2
  {
    seq(|m|, i requires 0 <= i < |m| => if i < |fields| then WipedSlot(fields, m, i, k) else m[i])
  }

  // ---------- Defaults ----------

  function ValueOf(slot: Slot): Value { if slot.One? || slot.Opt? || slot.Pick? then slot.v else Num(0) }

  function EntriesOf(slot: Slot): seq<Value> { if slot.Many? then slot.entries else [] }

  /** What pb_message_set_to_defaults leaves in one member that held `was`. */
  function DefaultVal(f: Field, was: Value): Value
    decreases f, 0
  {
    if f.ltype == Submessage then
      match f.ptr
      case SubFields(sub) => Sub(Defaults(sub, if was.Sub? then was.msg else []))
      case _ => Sub([])
    else if f.ptr.DefaultValue? then f.ptr.value
    else ZeroVal(f)
  }

  /** An array keeps its entries: only its count is set to zero.  A fixed-count array has no count
      member, and the zero goes over its first bytes. */
  function DefaultSlot(fields: seq<Field>, was: Msg, i: nat): Slot
    requires i < |fields|
    decreases fields, 1
  {
    var f, slot := fields[i], if i < |was| then was[i] else Shared;
    match f.htype
    case Required => One(DefaultVal(f, ValueOf(slot)))
    case Optional =>
      if f.sizeOffset != 0 then Opt(false, DefaultVal(f, ValueOf(slot))) else One(DefaultVal(f, ValueOf(slot)))
    case Repeated =>
      Many(0, if f.sizeOffset != 0 then EntriesOf(slot) else WipedEntries(f, EntriesOf(slot), SIZEOF_PB_SIZE))
    case Oneof => if JoinsUnion(fields, i) then Shared else Pick(0, ValueOf(slot))
  }

  /** pb_message_set_to_defaults, on a structure that held `was`. */
  function Defaults(fields: seq<Field>, was: Msg): (m: Msg)
    ensures |m| == |fields|
    decreases fields, 2
  {
    seq(|fields|, i requires 0 <= i < |fields| => DefaultSlot(fields, was, i))
  }

  // ---------- Messages ----------

  /** The loop state of pb_decode_noinit: the message, which of the first 64 required rows were seen,
      and the fixed-count row being received with the number of entries it has. */
  datatype DecState = DecState(msg: Msg, seen: set<nat>, fixed: Option<nat>, fixedCount: nat)

  /** How the loop of pb_decode_noinit ends. */
  datatype Outcome = Failed | Stopped(st: DecState, rest: seq<byte>, atZero: bool)

  function Start(m: Msg): DecState { DecState(m, {}, None, 0) }

  /** The last fixed-count row received all its entries. */
  predicate FixedComplete(fields: seq<Field>, st: DecState) {
    st.fixed.Some? && st.fixed.value < |fields| ==> st.fixedCount == fields[st.fixed.value].arraySize
  }

  /** Bookkeeping done before a row is decoded. */
  function Enter(fields: seq<Field>, i: nat, st: DecState): Option<DecState>
    requires i < |fields|
  {
    var f := fields[i];
    if f.htype == Repeated && f.sizeOffset == 0 then
      if st.fixed == Some(i) then Some(st)
      else if !FixedComplete(fields, st) then None
      else Some(st.(fixed := Some(i), fixedCount := 0))
    else if f.htype == Required && RequiredBefore(fields, i) < MAX_REQUIRED then
      Some(st.(seen := st.seen + {i}))
    else Some(st)
  }

  /** How many entries of an array row have been received. */
  function Received(f: Field, st: DecState, i: nat): nat
    requires i < |st.msg|
  {
    if f.sizeOffset == 0 then st.fixedCount else if st.msg[i].Many? then st.msg[i].count else 0
  }

  /** What is in the array at index n. */
  function EntryAt(slot: Slot, n: nat): Value {
    if slot.Many? && n < |slot.entries| then slot.entries[n] else Num(0)
  }

  /** Decoded entries go into their array, from the first one not received on. */
  function Store(f: Field, st: DecState, i: nat, items: seq<Value>): (r: Option<DecState>)
    requires i < |st.msg|
    ensures r.Some? ==> |r.value.msg| == |st.msg|
  {
    if !st.msg[i].Many? then None
    else
      var n, have := Received(f, st, i), st.msg[i].entries;
      var end := n + |items|;
      if end > |have| then None
      else
        var entries := have[..n] + items + have[end..];
        if f.sizeOffset != 0 then
          Some(st.(msg := st.msg[i := Many(end, entries)]))
        else
          var count := if items != [] && end > st.msg[i].count then end else st.msg[i].count;
          Some(st.(msg := st.msg[i := Many(count, entries)], fixedCount := end))
  }

  /** The value a submessage is decoded onto: what is there, or in a union that held another member
      the defaults of a structure of zeros. */
  function BaseOf(f: Field, slot: Slot): Value {
    match slot
    case One(v) => v
    case Opt(_, v) => v
    case Pick(which, v) => if f.ltype == Submessage && which != f.tag then DefaultVal(f, ZeroVal(f)) else v
    case _ => ZeroVal(f)
  }

  function StoreOne(f: Field, slot: Slot, v: Value): Slot {
    match slot
    case One(_) => One(v)
    case Opt(_, _) => Opt(true, v)
    case Pick(_, _) => Pick(f.tag, v)
    case _ => slot
  }

  /** PB_DECODERS */
  function DecVal(f: Field, base: Value, s: seq<byte>): (r: Parsed<Value>)
    ensures r.Got? ==> |r.rest| < |s|
    decreases |s|, 0
  {
    VarintShrinks(s);
    ScalarShrinks(f, s);
    if f.ltype == Submessage then
      match DecString(s)
      case Fail => Fail
      case Got(payload, rest) =>
        if !f.ptr.SubFields? || !base.Sub? then Fail
        else
          match DecMsg(f.ptr.fields, base.msg, payload)
          case None => Fail
          case Some(m) => Got(Sub(m), rest)
    else DecScalar(f, s)
  }

  /** The entries one occurrence of an array row brings: a packed run, or a single one, which is
      decoded onto the defaults of `entry`. */
  function DecEntries(f: Field, wiretype: nat, s: seq<byte>, count: nat, entry: Value): (r: Parsed<seq<Value>>)
    ensures r.Got? ==> |r.rest| < |s|
    decreases |s|, 1
  {
    VarintShrinks(s);
    if wiretype == WT_STRING && f.ltype.Packable() then
      match DecString(s)
      case Fail => Fail
      case Got(payload, rest) =>
        match DecItems(f, payload, if count < f.arraySize then f.arraySize - count else 0)
        case None => Fail
        case Some(items) => Got(items, rest)
    else if count >= f.arraySize then Fail
    else
      match DecVal(f, DefaultVal(f, entry), s)
      case Fail => Fail
      case Got(v, rest) => Got([v], rest)
  }

  /** decode_static_field */
  function DecRow(fields: seq<Field>, i: nat, wiretype: nat, s: seq<byte>,
                  st: DecState): (r: Option<(DecState, seq<byte>)>)
    requires i < |fields| && |st.msg| == |fields|
    ensures r.Some? ==> |r.value.1| < |s| && |r.value.0.msg| == |fields|
    decreases |s|, 2
  {
    VarintShrinks(s);
    var f := fields[i];
    if f.htype == Repeated then
      match DecEntries(f, wiretype, s, Received(f, st, i), EntryAt(st.msg[i], Received(f, st, i)))
      case Fail => None
      case Got(items, rest) =>
        match Store(f, st, i, items)
        case None => None
        case Some(st') => Some((st', rest))
    else
      var h := UnionHead(fields, i);
      match DecVal(f, BaseOf(f, st.msg[h]), s)
      case Fail => None
      case Got(v, rest) => Some((st.(msg := st.msg[h := StoreOne(f, st.msg[h], v)]), rest))
  }

  /** The loop of pb_decode_noinit. */
  function DecLoop(fields: seq<Field>, s: seq<byte>, st: DecState): Outcome
    requires |st.msg| == |fields|
    decreases |s|, 4
  {
    if s == [] then Stopped(st, [], false)
    else
      VarintShrinks(s);
      match DecKey(s)
      case BadKey => Failed
      case EndOfMessage(rest) => Stopped(st, rest, true)
      case KeyOf(wiretype, tag, rest) =>
        match DecField(fields, wiretype, tag, rest, st)
        case None => Failed
        case Some((st', rest')) =>
          DecLoop(fields, rest', st')
  }

  /** One field after its key. */
  function DecField(fields: seq<Field>, wiretype: nat, tag: nat, s: seq<byte>,
                    st: DecState): (r: Option<(DecState, seq<byte>)>)
    requires |st.msg| == |fields|
    ensures r.Some? ==> |r.value.1| <= |s| && |r.value.0.msg| == |fields|
    decreases |s|, 3
  {
    VarintShrinks(s);
    if fields == [] && tag == 0 then
      // pb_field_iter_find stops at the terminating row, which reads as a required bool
      match DecVarint32(s)
      case Fail => None
      case Got(_, rest) => Some((st, rest))
    else
      match FieldIndex(fields, tag)
      case None =>
        (match SkipField(wiretype, s)
         case None => None
         case Some(rest) => Some((st, rest)))
      case Some(i) =>
        match Enter(fields, i, st)
        case None => None
        case Some(st') => DecRow(fields, i, wiretype, s, st')
  }

  /** Every one of the first 64 required rows was seen. */
  predicate RequiredSeen(fields: seq<Field>, seen: set<nat>) {
    forall i :: 0 <= i < |fields| && fields[i].htype == Required && RequiredBefore(fields, i) < MAX_REQUIRED ==>
        i in seen
  }

  /** The checks at the end of pb_decode_noinit. */
  predicate Accepts(fields: seq<Field>, st: DecState) {
    FixedComplete(fields, st) && RequiredSeen(fields, st.seen)
  }

  /** pb_decode_noinit */
  function DecMsg(fields: seq<Field>, m: Msg, s: seq<byte>): Option<Msg>
    decreases |s|, 5
  {
    if |m| != |fields| then None
    else
      match DecLoop(fields, s, Start(m))
      case Failed => None
      case Stopped(st, _, _) => if Accepts(fields, st) then Some(st.msg) else None
  }

  // ---------- The definitions, one step at a time ----------

  lemma {:induction false} KeyShrinks(s: seq<byte>)
    ensures DecKey(s).KeyOf? ==> |DecKey(s).rest| < |s|
  {
    hide DecVarint32;
    VarintShrinks(s);
  }

  /** One round of the loop. */
  lemma {:induction false} LoopStep(fields: seq<Field>, s: seq<byte>, st: DecState)
    requires |st.msg| == |fields|
    ensures s == [] ==> DecLoop(fields, s, st) == Stopped(st, [], false)
    ensures s != [] ==>
              var key := DecKey(s);
              && (key.BadKey? ==> DecLoop(fields, s, st) == Failed)
              && (key.EndOfMessage? ==> DecLoop(fields, s, st) == Stopped(st, key.rest, true))
              && (key.KeyOf? ==>
                   var r := DecField(fields, key.wiretype, key.tag, key.rest, st);
                   && (r.None? ==> DecLoop(fields, s, st) == Failed)
                   && (r.Some? ==> DecLoop(fields, s, st) == DecLoop(fields, r.value.1, r.value.0)))
  {
    hide DecKey, DecField;
  }

  lemma {:induction false} FieldStep(fields: seq<Field>, wiretype: nat, tag: nat, s: seq<byte>, st: DecState)
    requires |st.msg| == |fields|
    ensures fields == [] && tag == 0 ==>
              DecField(fields, wiretype, tag, s, st) ==
              if DecVarint32(s).Got? then Some((st, DecVarint32(s).rest)) else None
    ensures (tag > 0 || fields != []) && FieldIndex(fields, tag).None? ==>
              DecField(fields, wiretype, tag, s, st) ==
              if SkipField(wiretype, s).Some? then Some((st, SkipField(wiretype, s).value)) else None
    ensures (tag > 0 || fields != []) && FieldIndex(fields, tag).Some? ==>
              var i := FieldIndex(fields, tag).value;
              DecField(fields, wiretype, tag, s, st) ==
              if Enter(fields, i, st).Some? then DecRow(fields, i, wiretype, s, Enter(fields, i, st).value) else None
  {
    hide DecRow, Enter, SkipField, DecVarint32;
  }

  lemma {:induction false} MessageEnds(fields: seq<Field>, m: Msg, s: seq<byte>)
    ensures |m| != |fields| ==> DecMsg(fields, m, s) == None
    ensures |m| == |fields| ==>
              var end := DecLoop(fields, s, Start(m));
              DecMsg(fields, m, s) == if end.Stopped? && Accepts(fields, end.st) then Some(end.st.msg) else None
  {
    hide DecLoop, Accepts;
  }
}
