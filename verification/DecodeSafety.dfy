/** Whatever bytes the decoder is given, the message it accepts keeps to the structure's bounds, and the
    encoder takes it but for what an array that was not received still holds (pb_decode.c:406-483,
    839-922, 928-1090, pb_encode.c:115-160, 776-860). */
module DecodeSafety {
  import opened Wrappers
  import opened Bits
  import opened Descriptor
  import opened Varint
  import opened FieldIter
  import opened EncodeSpec
  import opened DecodeSpec
  import opened Memory
  import opened Merge
  import Decoder

  // ---------- Tables and messages within bounds ----------

  ghost predicate SafeScalar(f: Field, v: Value) {
    ConformsScalar(f, v) && EncodableScalar(f, v) && (f.ltype == String ==> |v.bytes| < f.dataSize)
  }

  /** The members are of the types the decoder knows, and defaults fit them. */
  ghost predicate SaneTable(fields: seq<Field>)
    decreases fields, 0
  {
    forall i :: 0 <= i < |fields| ==> SaneRow(fields[i])
  }

  ghost predicate SaneRow(f: Field)
    decreases f, 1
  {
    match f.ltype
    case Extension => false
    case Submessage =>
      (match f.ptr
       case SubFields(sub) => SaneTable(sub)
       case _ => false)
    case _ => SafeScalar(f, ZeroVal(f)) && (f.ptr.DefaultValue? ==> SafeScalar(f, f.ptr.value))
  }

  /** How much of a message's memory is meant: what it holds; or also array entries past the count and
      entries of fixed-count arrays that were not received; or all that with which_ members that name a
      field or none, as those do that the message holds. */
  datatype Scope = Live | Whole | Known

  /** Values, entries, rows and messages within bounds. */
  ghost predicate SafeVal(scope: Scope, f: Field, v: Value)
    decreases v, 0
  {
    if f.ltype == Submessage then f.ptr.SubFields? && v.Sub? && SafeMsg(scope, SubTable(f), v.msg)
    else SafeScalar(f, v)
  }

  ghost predicate SafeItems(scope: Scope, f: Field, items: seq<Value>)
    decreases items, 1
  {
    forall k :: 0 <= k < |items| ==> SafeVal(scope, f, items[k])
  }

  ghost predicate SafeArray(scope: Scope, f: Field, slot: Slot)
    requires slot.Many?
    decreases slot, 2
  {
    && slot.count <= f.arraySize == |slot.entries| && ConformsItems(f, slot.entries)
    && (forall k :: 0 <= k < |slot.entries| && (!scope.Live? || k < slot.count) ==> SafeVal(scope, f, slot.entries[k]))
  }

  ghost predicate SafeRow(scope: Scope, fields: seq<Field>, m: Msg, i: nat)
    requires i < |fields| && |m| == |fields|
    decreases m, 2
  {
    var f, slot := fields[i], m[UnionHead(fields, i)];
    assert m decreases to slot;
    match f.htype
    case Required => slot.One? && SafeVal(scope, f, slot.v)
    case Optional => (if f.sizeOffset != 0 then slot.Opt? else slot.One?) && SafeVal(scope, f, slot.v)
    case Repeated => slot.Many? && SafeArray(scope, f, slot)
    case Oneof =>
      && slot.Pick? && (slot.which == f.tag ==> SafeVal(scope, f, slot.v))
      && (!scope.Whole? ==> WhichKnown(fields, slot.which, i))
  }

  ghost predicate SafeMsg(scope: Scope, fields: seq<Field>, m: Msg)
    decreases m, 3
  {
    |m| == |fields| && forall i :: 0 <= i < |fields| ==> SafeRow(scope, fields, m, i)
  }

  // ---------- A message within bounds fits its table ----------

  lemma {:induction false} SafeValConforms(scope: Scope, f: Field, v: Value)
    requires SafeVal(scope, f, v)
    ensures ConformsVal(f, v)
    decreases v, 0
  {
    hide ConformsScalar, EncodableScalar;
    if f.ltype == Submessage { SafeConforms(scope, SubTable(f), v.msg); }
  }

  lemma {:induction false} SafeRowConforms(scope: Scope, fields: seq<Field>, m: Msg, i: nat)
    requires i < |fields| && |m| == |fields| && SafeRow(scope, fields, m, i)
    ensures ConformsRow(fields, m, i)
    decreases m, 2
  {
    hide ConformsVal, SafeVal, ConformsItems;
    var f, slot := fields[i], m[UnionHead(fields, i)];
    assert m decreases to slot;
    if slot.Many? {
      assert SafeArray(scope, f, slot);
    } else if slot.One? || slot.Opt? || (slot.Pick? && slot.which == f.tag) {
      SafeValConforms(scope, f, slot.v);
    }
  }

  lemma {:induction false} SafeConforms(scope: Scope, fields: seq<Field>, m: Msg)
    requires SafeMsg(scope, fields, m)
    ensures Conforms(fields, m)
    decreases m, 3
  {
    hide SafeRow, ConformsRow;
    forall i | 0 <= i < |fields| ensures ConformsRow(fields, m, i) { SafeRowConforms(scope, fields, m, i); }
  }

  // ---------- What the encoder may still refuse ----------

  /** Entries that carry a length, a count or a which_. */
  predicate Carries(f: Field) { f.ltype == Bytes || f.ltype == Submessage }

  /** An array whose entries are all received, or of which those that are not received and carry a
      length are ones the encoder takes; and so in every message inside it. */
  predicate HarmlessArray(f: Field, slot: Slot)
    requires slot.Many?
    decreases slot, 2
  {
    forall k :: 0 <= k < |slot.entries| ==>
      if k < slot.count then HarmlessVal(f, slot.entries[k])
      else f.sizeOffset == 0 && Carries(f) ==> EncodableVal(f, slot.entries[k])
  }

  predicate HarmlessVal(f: Field, v: Value)
    decreases v, 0
  {
    f.ltype == Submessage && v.Sub? ==> HarmlessMsg(SubTable(f), v.msg)
  }

  predicate HarmlessRow(fields: seq<Field>, m: Msg, i: nat)
    requires i < |fields| && |m| == |fields|
    decreases m, 2
  {
    if fields[i].htype == Repeated then
      assert m decreases to m[i];
      m[i].Many? ==> HarmlessArray(fields[i], m[i])
    else
      match Present(fields, m, i)
      case Some(v) => HarmlessVal(fields[i], v)
      case None => true
  }

  predicate HarmlessMsg(fields: seq<Field>, m: Msg)
    decreases m, 3
  {
    |m| == |fields| ==> forall i :: 0 <= i < |fields| ==> HarmlessRow(fields, m, i)
  }

  /** Entries that carry nothing are encodable whatever they hold. */
  lemma {:induction false} PlainEntry(f: Field, v: Value)
    requires SaneRow(f) && !Carries(f)
    ensures EncodableVal(f, v)
  {
  }

  lemma {:induction false} ValEncodable(scope: Scope, f: Field, v: Value)
    requires SaneRow(f) && SafeVal(scope, f, v)
    ensures EncodableVal(f, v) <==> HarmlessVal(f, v)
    ensures !scope.Live? ==> EncodableVal(f, v)
    decreases v, 0
  {
    hide ConformsScalar, EncodableScalar, SaneTable, SafeMsg, HarmlessMsg, Encodable, ZeroVal;
    if f.ltype == Submessage { MsgEncodable(scope, SubTable(f), v.msg); }
  }

  lemma {:induction false} ArrayEncodable(scope: Scope, f: Field, slot: Slot)
    requires SaneRow(f) && slot.Many? && SafeArray(scope, f, slot)
    ensures EncodableArray(f, slot) <==> HarmlessArray(f, slot)
    ensures !scope.Live? ==> EncodableArray(f, slot)
    decreases slot, 2
  {
    hide SaneRow, SafeVal, HarmlessVal, EncodableVal, ConformsItems;
    forall k | 0 <= k < |slot.entries|
      ensures !scope.Live? || k < slot.count ==>
                (EncodableVal(f, slot.entries[k]) <==> HarmlessVal(f, slot.entries[k]))
                && (!scope.Live? ==> EncodableVal(f, slot.entries[k]))
      ensures !Carries(f) ==> EncodableVal(f, slot.entries[k])
    {
      assert slot decreases to slot.entries[k];
      if !scope.Live? || k < slot.count { ValEncodable(scope, f, slot.entries[k]); }
      if !Carries(f) { PlainEntry(f, slot.entries[k]); }
    }
    ArrayOfEncodable(f, slot);
  }

  lemma {:induction false} ArrayOfEncodable(f: Field, slot: Slot)
    requires slot.Many? && slot.count <= f.arraySize == |slot.entries|
    ensures EncodableArray(f, slot) <==>
            forall k :: 0 <= k < |slot.entries| && (f.sizeOffset == 0 || k < slot.count) ==>
                EncodableVal(f, slot.entries[k])
  {
    hide EncodableVal;
    var items := Items(f, slot);
    assert forall k :: 0 <= k < |items| ==> items[k] == slot.entries[k];
  }

  lemma {:induction false} RowEncodable(scope: Scope, fields: seq<Field>, m: Msg, i: nat)
    requires i < |fields| && |m| == |fields| && SaneRow(fields[i]) && SafeRow(scope, fields, m, i)
    ensures EncodableRow(fields, m, i) <==> HarmlessRow(fields, m, i)
    ensures !scope.Live? ==> EncodableRow(fields, m, i)
    decreases m, 2
  {
    hide SaneRow, SafeVal, SafeArray, HarmlessVal, HarmlessArray, EncodableVal, EncodableArray, IsZero;
    var f, slot := fields[i], m[UnionHead(fields, i)];
    assert m decreases to slot;
    if f.htype == Repeated {
      ArrayEncodable(scope, f, m[i]);
    } else if Present(fields, m, i).Some? {
      ValEncodable(scope, f, Present(fields, m, i).value);
    }
  }

  /** A message within bounds is encodable exactly when its leftovers are harmless. */
  lemma {:induction false} MsgEncodable(scope: Scope, fields: seq<Field>, m: Msg)
    requires SaneTable(fields) && SafeMsg(scope, fields, m)
    ensures Encodable(fields, m) <==> HarmlessMsg(fields, m)
    ensures !scope.Live? ==> Encodable(fields, m)
    decreases m, 3
  {
    hide SaneRow, SafeRow, HarmlessRow, EncodableRow;
    forall i | 0 <= i < |fields|
      ensures EncodableRow(fields, m, i) <==> HarmlessRow(fields, m, i)
      ensures !scope.Live? ==> EncodableRow(fields, m, i)
    {
      RowEncodable(scope, fields, m, i);
    }
  }

  // ---------- Zeros, and first bytes set to zero ----------

  lemma {:induction false} ZeroValSafe(scope: Scope, f: Field)
    requires SaneRow(f) && StaticRow(f)
    ensures SafeVal(scope, f, ZeroVal(f))
    decreases f, 0
  {
    hide SaneTable, StaticTable, SafeMsg, ZeroMsg, SafeScalar;
    if f.ltype == Submessage { ZerosAreSafe(scope, f.ptr.fields); }
  }

  /** A structure of zeros is within bounds. */
  lemma {:induction false} ZerosAreSafe(scope: Scope, fields: seq<Field>)
    requires SaneTable(fields) && StaticTable(fields)
    ensures SafeMsg(scope, fields, ZeroMsg(fields))
    decreases fields, 1
  {
    hide SaneRow, StaticRow, SafeVal, ZeroVal, ConformsVal;
    forall i | 0 <= i < |fields| ensures SafeRow(scope, fields, ZeroMsg(fields), i) {
      var f := fields[i];
      assert SaneRow(f) && StaticRow(f) && (fields decreases to f);
      assert ZeroMsg(fields)[UnionHead(fields, i)] == ZeroSlot(fields, UnionHead(fields, i));
      TagIsPositive(f);
      ZeroValSafe(scope, f);
      SafeValConforms(scope, f, ZeroVal(f));
    }
  }

  lemma {:induction false} WipedScalarSafe(f: Field, v: Value, k: nat)
    requires SafeScalar(f, v) && SafeScalar(f, ZeroVal(f)) && k <= 4 && f.ltype != Submessage
    ensures SafeScalar(f, WipedVal(f, v, k))
  {
    hide HalfRange, Pow2;
    WipedScalarConforms(f, v, k);
  }

  lemma {:induction false} WipedValSafe(scope: Scope, f: Field, v: Value, k: nat)
    requires !scope.Live? && SaneRow(f) && StaticRow(f) && SafeVal(scope, f, v) && k <= 4
    ensures SafeVal(scope, f, WipedVal(f, v, k))
    decreases v, 0
  {
    hide SaneTable, StaticTable, SafeMsg, WipedMsg, SafeScalar, ZeroVal;
    if f.ltype == Submessage { WipedIsSafe(scope, SubTable(f), v.msg, k); } else { WipedScalarSafe(f, v, k); }
  }

  lemma {:induction false} WipedEntriesSafe(scope: Scope, f: Field, entries: seq<Value>, k: nat)
    requires !scope.Live? && SaneRow(f) && StaticRow(f) && SafeItems(scope, f, entries) && k <= 4
    ensures SafeItems(scope, f, WipedEntries(f, entries, k))
    decreases entries, 1
  {
    hide SaneRow, StaticRow, SafeVal, WipedVal;
    if k > 0 && entries != [] && f.dataSize > 0 {
      var here := if k < f.dataSize then k else f.dataSize;
      WipedValSafe(scope, f, entries[0], here);
      WipedEntriesSafe(scope, f, entries[1..], k - here);
    }
  }

  lemma {:induction false} WipedArraySafe(scope: Scope, f: Field, slot: Slot, count: nat, k: nat)
    requires !scope.Live? && SaneRow(f) && StaticRow(f) && slot.Many? && SafeArray(scope, f, slot) && k <= 4
             && count <= slot.count
    ensures SafeArray(scope, f, Many(count, WipedEntries(f, slot.entries, k)))
    decreases slot, 1
  {
    hide SaneRow, StaticRow, SafeVal, WipedEntries, ConformsItems;
    WipedEntriesSafe(scope, f, slot.entries, k);
    WipedEntriesConform(f, slot.entries, k);
  }

  lemma {:induction false} WipedRowSafe(scope: Scope, fields: seq<Field>, m: Msg, i: nat, k: nat)
    requires !scope.Live? && StaticTable(fields) && |m| == |fields| && i < |fields| && SaneRow(fields[i])
    requires SafeRow(scope, fields, m, i) && k <= 4
    ensures SafeRow(scope, fields, WipedMsg(fields, m, k), i)
    decreases m, 1
  {
    hide StaticTable, StaticRow, SaneRow, SafeVal, SafeArray, WipedVal, WipedEntries, DataAt, SizeAt, FieldIndex;
    var f, h := fields[i], UnionHead(fields, i);
    assert m decreases to m[h];
    RowIsStatic(fields, i);
    TagIsPositive(f);
    IndexOfTag(fields, i);
    DataIsInside(fields, h);
    var data := Lead(k, DataAt(fields, h));
    assert WipedMsg(fields, m, k)[h] == WipedSlot(fields, m, h, k);
    match f.htype {
      case Required => WipedValSafe(scope, f, m[h].v, data);
      case Optional => WipedValSafe(scope, f, m[h].v, data);
      case Repeated => WipedArraySafe(scope, f, m[h], WipedSlot(fields, m, h, k).count, data);
      case Oneof => if m[h].which == f.tag { WipedValSafe(scope, f, m[h].v, data); }
    }
  }

  /** Memory within bounds is so after its first bytes were set to zero. */
  lemma {:induction false} WipedIsSafe(scope: Scope, fields: seq<Field>, m: Msg, k: nat)
    requires !scope.Live? && SaneTable(fields) && StaticTable(fields) && SafeMsg(scope, fields, m) && k <= 4
    ensures SafeMsg(scope, fields, WipedMsg(fields, m, k))
    decreases m, 2
  {
    hide SaneRow, StaticTable, SafeRow, WipedSlot;
    forall i | 0 <= i < |fields| ensures SafeRow(scope, fields, WipedMsg(fields, m, k), i) {
      WipedRowSafe(scope, fields, m, i, k);
    }
  }

  // ---------- Defaults ----------

  /** Memory to decode into: any structure of the type, or one within bounds. */
  ghost predicate Usable(scope: Scope, fields: seq<Field>, was: Msg) {
    Conforms(fields, was) && (!scope.Live? ==> SafeMsg(scope, fields, was))
  }

  ghost predicate UsableVal(scope: Scope, f: Field, was: Value) {
    ConformsVal(f, was) && (!scope.Live? ==> SafeVal(scope, f, was))
  }

  lemma {:induction false} DefaultValSafe(scope: Scope, f: Field, was: Value)
    requires SaneRow(f) && StaticRow(f) && UsableVal(scope, f, was)
    ensures SafeVal(scope, f, DefaultVal(f, was))
    decreases f, 1
  {
    hide SafeScalar, ZeroVal, SafeMsg, SaneTable, StaticTable, Defaults, Conforms;
    if f.ltype == Submessage { DefaultsSafe(scope, f.ptr.fields, was.msg); }
  }

  lemma {:induction false} DefaultArraySafe(scope: Scope, fields: seq<Field>, was: Msg, i: nat)
    requires SaneTable(fields) && StaticTable(fields) && Usable(scope, fields, was)
    requires i < |fields| && fields[i].htype == Repeated
    ensures DefaultSlot(fields, was, i).Many? && SafeArray(scope, fields[i], DefaultSlot(fields, was, i))
  {
    hide SaneRow, StaticRow, SafeVal, ConformsVal, WipedEntries;
    var f := fields[i];
    assert SaneRow(f) && StaticRow(f) && ConformsRow(fields, was, i) && UnionHead(fields, i) == i;
    WipedEntriesConform(f, was[i].entries, SIZEOF_PB_SIZE);
    if !scope.Live? {
      assert SafeRow(scope, fields, was, i);
      ArrayWithin(scope, fields, was, i);
      EntriesWithin(scope, f, was[i]);
      WipedEntriesSafe(scope, f, was[i].entries, SIZEOF_PB_SIZE);
    }
  }

  lemma {:induction false} EntriesWithin(scope: Scope, f: Field, slot: Slot)
    requires slot.Many? && SafeArray(scope, f, slot) && !scope.Live?
    ensures SafeItems(scope, f, slot.entries)
  {
    hide SafeVal, ConformsItems;
  }

  lemma {:induction false} DefaultRowSafe(scope: Scope, fields: seq<Field>, was: Msg, i: nat)
    requires SaneTable(fields) && StaticTable(fields) && Usable(scope, fields, was) && i < |fields|
    ensures SafeRow(scope, fields, Defaults(fields, was), i)
    decreases fields, 1
  {
    hide SaneTable, StaticTable, SaneRow, StaticRow, SafeVal, ConformsVal, DefaultVal, SafeArray, WipedEntries,
      ConformsItems;
    var f, h := fields[i], UnionHead(fields, i);
    SaneAt(fields, i);
    TagIsPositive(f);
    assert fields decreases to f;
    assert Defaults(fields, was)[h] == DefaultSlot(fields, was, h);
    assert ConformsRow(fields, was, i) && (!scope.Live? ==> SafeRow(scope, fields, was, i));
    if f.htype == Repeated {
      DefaultArraySafe(scope, fields, was, i);
    } else if f.htype != Oneof {
      DefaultValSafe(scope, f, was[i].v);
    }
  }

  lemma {:induction false} SaneAt(fields: seq<Field>, i: nat)
    requires SaneTable(fields) && StaticTable(fields) && i < |fields|
    ensures SaneRow(fields[i]) && StaticRow(fields[i])
  {
  }

  lemma {:induction false} DefaultsSafe(scope: Scope, fields: seq<Field>, was: Msg)
    requires SaneTable(fields) && StaticTable(fields) && Usable(scope, fields, was)
    ensures SafeMsg(scope, fields, Defaults(fields, was))
    decreases fields, 2
  {
    hide SaneTable, StaticTable, SafeRow, DefaultSlot, Usable;
    forall i | 0 <= i < |fields| ensures SafeRow(scope, fields, Defaults(fields, was), i) {
      DefaultRowSafe(scope, fields, was, i);
    }
  }

  // ---------- Decoding ----------

  lemma {:induction false} FixedBound(s: seq<byte>, n: nat)
    requires n == 4 || n == 8
    ensures ReadBytes(s, n).Got? ==> FromLittleEndian(ReadBytes(s, n).value) < if n == 4 then U32 else U64
  {
    hide FromLittleEndian, Decoder.OrBytes;
    Widths();
    if n <= |s| { Decoder.OrBytesMeans(s[..n]); }
  }

  /** A decoded scalar fits its member. */
  lemma {:induction false} ScalarSafe(f: Field, s: seq<byte>)
    requires SaneRow(f) && f.ltype != Submessage && DecScalar(f, s).Got?
    ensures SafeScalar(f, DecScalar(f, s).value)
  {
    hide DecVarint, DecVarint32, FromLittleEndian, FromZigZag, ToI64, ToI32, SaneTable, HalfRange, IntegerSize,
      ReadBytes;
    FixedBound(s, 4);
    FixedBound(s, 8);
  }

  /** So do the entries of a packed run. */
  lemma {:induction false} ItemsSafe(scope: Scope, f: Field, s: seq<byte>, room: nat)
    requires SaneRow(f) && f.ltype != Submessage && DecItems(f, s, room).Some?
    ensures SafeItems(scope, f, DecItems(f, s, room).value)
    decreases room
  {
    hide DecScalar, SafeScalar, SaneRow;
    ScalarShrinks(f, s);
    if s != [] {
      ScalarSafe(f, s);
      ItemsSafe(scope, f, DecScalar(f, s).rest, room - 1);
    }
  }

  lemma {:induction false} ValSafe(scope: Scope, f: Field, base: Value, s: seq<byte>)
    requires SaneRow(f) && StaticRow(f) && DecVal(f, base, s).Got?
    requires f.ltype == Submessage ==> SafeVal(scope, f, base)
    ensures SafeVal(scope, f, DecVal(f, base, s).value)
    decreases |s|, 0
  {
    hide DecScalar, DecMsg, SafeScalar, SafeMsg, SaneTable, StaticTable, DecString, ZeroVal;
    if f.ltype == Submessage {
      PayloadShorter(s);
      MsgSafe(scope, f.ptr.fields, base.msg, DecString(s).value);
    } else {
      ScalarSafe(f, s);
    }
  }

  lemma {:induction false} PayloadShorter(s: seq<byte>)
    requires DecString(s).Got?
    ensures |DecString(s).value| < |s|
  {
    hide DecVarint32;
    VarintShrinks(s);
  }

  lemma {:induction false} EntriesSafe(scope: Scope, f: Field, wiretype: nat, s: seq<byte>, count: nat, entry: Value)
    requires SaneRow(f) && StaticRow(f) && DecEntries(f, wiretype, s, count, entry).Got? && count <= f.arraySize
    requires count < f.arraySize ==> UsableVal(scope, f, entry)
    ensures SafeItems(scope, f, DecEntries(f, wiretype, s, count, entry).value)
    ensures count + |DecEntries(f, wiretype, s, count, entry).value| <= f.arraySize
    decreases |s|, 1
  {
    hide DecVal, DecItems, DecString, SafeVal, SaneRow, StaticRow, DefaultVal, UsableVal;
    if wiretype == WT_STRING && f.ltype.Packable() {
      var room := if count < f.arraySize then f.arraySize - count else 0;
      ItemsFit(f, DecString(s).value, room);
      ItemsSafe(scope, f, DecString(s).value, room);
    } else {
      DefaultValSafe(scope, f, entry);
      ValSafe(scope, f, DefaultVal(f, entry), s);
    }
  }

  /** The fixed-count row's counter is within its array, and counts received entries. */
  ghost predicate SafeState(scope: Scope, fields: seq<Field>, st: DecState) {
    && SafeMsg(scope, fields, st.msg)
    && (st.fixed.Some? && st.fixed.value < |fields| ==>
         st.msg[st.fixed.value].Many? && st.fixedCount <= st.msg[st.fixed.value].count)
  }

  lemma {:induction false} RowSafe(scope: Scope, fields: seq<Field>, i: nat, wiretype: nat, s: seq<byte>, st: DecState)
    requires SaneTable(fields) && StaticTable(fields) && i < |fields| && SafeState(scope, fields, st)
    requires fields[i].htype == Repeated && fields[i].sizeOffset == 0 ==> st.fixed == Some(i)
    requires st.fixed.Some? ==> IsFixed(fields, st.fixed)
    requires DecRow(fields, i, wiretype, s, st).Some?
    ensures SafeState(scope, fields, DecRow(fields, i, wiretype, s, st).value.0)
    decreases |s|, 2
  {
    hide DecVal, DecEntries, SafeVal, SaneRow, StaticRow, SafeRow, DefaultVal, Store, Received, StoreOne, BaseOf,
      EntryAt,
      UsableVal, ZeroVal;
    var f, h := fields[i], UnionHead(fields, i);
    assert SaneRow(f) && StaticRow(f) && SafeRow(scope, fields, st.msg, i);
    if f.htype == Repeated {
      ReceivedSafe(scope, fields, i, st);
      var n := Received(f, st, i);
      var entry := EntryAt(st.msg[i], n);
      EntriesSafe(scope, f, wiretype, s, n, entry);
      StoreSafe(scope, fields, i, st, DecEntries(f, wiretype, s, n, entry).value);
    } else {
      BaseSafe(scope, fields, i, st.msg);
      var v := DecVal(f, BaseOf(f, st.msg[h]), s).value;
      ValSafe(scope, f, BaseOf(f, st.msg[h]), s);
      TableIsTagged(fields);
      StoredSafe(scope, fields, i, st, v);
    }
  }

  lemma {:induction false} ReceivedSafe(scope: Scope, fields: seq<Field>, i: nat, st: DecState)
    requires i < |fields| && SafeState(scope, fields, st) && fields[i].htype == Repeated
    requires fields[i].sizeOffset == 0 ==> st.fixed == Some(i)
    ensures st.msg[i].Many?
    ensures var n := Received(fields[i], st, i);
            && n <= st.msg[i].count <= fields[i].arraySize
            && (n < fields[i].arraySize ==> UsableVal(scope, fields[i], EntryAt(st.msg[i], n)))
  {
    hide SafeVal, ConformsVal;
    assert SafeRow(scope, fields, st.msg, i);
    ArrayWithin(scope, fields, st.msg, i);
    EntryUsable(scope, fields[i], st.msg[i], Received(fields[i], st, i));
  }

  lemma {:induction false} ArrayWithin(scope: Scope, fields: seq<Field>, m: Msg, i: nat)
    requires i < |fields| && |m| == |fields| && SafeRow(scope, fields, m, i) && fields[i].htype == Repeated
    ensures m[i].Many? && SafeArray(scope, fields[i], m[i])
  {
    hide SafeArray;
    assert UnionHead(fields, i) == i;
  }

  lemma {:induction false} EntryUsable(scope: Scope, f: Field, slot: Slot, n: nat)
    requires slot.Many? && SafeArray(scope, f, slot)
    ensures slot.count <= f.arraySize
    ensures n < f.arraySize ==> UsableVal(scope, f, EntryAt(slot, n))
  {
    hide SafeVal, ConformsVal;
  }

  lemma {:induction false} StoreSafe(scope: Scope, fields: seq<Field>, i: nat, st: DecState, items: seq<Value>)
    requires i < |fields| && SafeState(scope, fields, st) && fields[i].htype == Repeated
    requires fields[i].sizeOffset == 0 ==> st.fixed == Some(i)
    requires st.fixed.Some? ==> IsFixed(fields, st.fixed)
    requires SafeItems(scope, fields[i], items) && Received(fields[i], st, i) + |items| <= fields[i].arraySize
    requires Store(fields[i], st, i, items).Some?
    ensures SafeState(scope, fields, Store(fields[i], st, i, items).value)
  {
    hide SafeVal, SafeArray;
    var st' := Store(fields[i], st, i, items).value;
    assert SafeRow(scope, fields, st.msg, i);
    ReceivedSafe(scope, fields, i, st);
    StoredEntriesSafe(scope, fields[i], st.msg[i], Received(fields[i], st, i), items, st'.msg[i].count);
    forall j | 0 <= j < |fields| ensures SafeRow(scope, fields, st'.msg, j) {
      assert SafeRow(scope, fields, st.msg, j);
      assert UnionHead(fields, i) == i && (UnionHead(fields, j) == i ==> j == i);
    }
    assert SafeMsg(scope, fields, st'.msg);
  }

  lemma {:induction false} StoredEntriesSafe(scope: Scope, f: Field, slot: Slot, n: nat, items: seq<Value>, count: nat)
    requires slot.Many? && SafeArray(scope, f, slot) && SafeItems(scope, f, items)
    requires n <= slot.count && n + |items| <= f.arraySize
    requires count == n + |items| || (count == slot.count && n + |items| <= count)
             || (count == slot.count && items == [])
    ensures SafeArray(scope, f, Many(count, slot.entries[..n] + items + slot.entries[n + |items|..]))
  {
    hide SafeVal, ConformsVal;
    var entries := slot.entries[..n] + items + slot.entries[n + |items|..];
    forall k | 0 <= k < |entries|
      ensures ConformsVal(f, entries[k]) && (!scope.Live? || k < count ==> SafeVal(scope, f, entries[k]))
    {
      if n <= k < n + |items| {
        assert entries[k] == items[k - n];
        SafeValConforms(scope, f, items[k - n]);
      } else {
        assert entries[k] == slot.entries[k];
      }
    }
  }

  lemma {:induction false} BaseSafe(scope: Scope, fields: seq<Field>, i: nat, m: Msg)
    requires i < |fields| && SafeMsg(scope, fields, m) && SaneRow(fields[i]) && StaticRow(fields[i])
    requires fields[i].htype != Repeated
    ensures fields[i].ltype == Submessage ==> SafeVal(scope, fields[i], BaseOf(fields[i], m[UnionHead(fields, i)]))
  {
    hide SafeVal, SaneRow, StaticRow, DefaultVal, ZeroVal, ConformsVal;
    var f := fields[i];
    assert SafeRow(scope, fields, m, i);
    ZeroValSafe(scope, f);
    SafeValConforms(scope, f, ZeroVal(f));
    DefaultValSafe(scope, f, ZeroVal(f));
  }

  lemma {:induction false} OwnTagKnown(fields: seq<Field>, i: nat, j: nat)
    requires i < |fields| && j < |fields| && UnionHead(fields, i) == UnionHead(fields, j)
    ensures WhichKnown(fields, fields[i].tag, j)
  {
  }

  lemma {:induction false} StoredSafe(scope: Scope, fields: seq<Field>, i: nat, st: DecState, v: Value)
    requires i < |fields| && SafeState(scope, fields, st) && DistinctTags(fields) && fields[i].htype != Repeated
    requires SafeVal(scope, fields[i], v)
    requires st.fixed.Some? ==> IsFixed(fields, st.fixed)
    ensures var h := UnionHead(fields, i);
            SafeState(scope, fields, st.(msg := st.msg[h := StoreOne(fields[i], st.msg[h], v)]))
  {
    hide SafeVal, SafeArray, WhichKnown;
    var m, h := st.msg, UnionHead(fields, i);
    var m' := m[h := StoreOne(fields[i], m[h], v)];
    assert SafeRow(scope, fields, m, i);
    assert fields[i].htype != Oneof ==> h == i;
    forall j | 0 <= j < |fields| ensures SafeRow(scope, fields, m', j) {
      assert SafeRow(scope, fields, m, j);
      assert fields[j].htype != Oneof ==> UnionHead(fields, j) == j;
      if i < j { assert fields[i].tag != fields[j].tag; }
      if j < i { assert fields[j].tag != fields[i].tag; }
      if UnionHead(fields, j) == h { OwnTagKnown(fields, i, j); }
    }
    assert SafeMsg(scope, fields, m');
    assert fields[h].htype != Repeated;
  }

  lemma {:induction false} EnterSafe(scope: Scope, fields: seq<Field>, i: nat, st: DecState)
    requires i < |fields| && SafeState(scope, fields, st) && Enter(fields, i, st).Some?
    requires st.fixed.Some? ==> IsFixed(fields, st.fixed)
    ensures var st' := Enter(fields, i, st).value;
            && SafeState(scope, fields, st') && st'.msg == st.msg
            && (st'.fixed.Some? ==> IsFixed(fields, st'.fixed))
            && (IsFixed(fields, Some(i)) ==> st'.fixed == Some(i))
  {
    hide SafeArray, SafeVal;
    assert SafeRow(scope, fields, st.msg, i);
  }

  lemma {:induction false} LoopSafe(scope: Scope, fields: seq<Field>, s: seq<byte>, st: DecState)
    requires SaneTable(fields) && StaticTable(fields) && SafeState(scope, fields, st) && |st.msg| == |fields|
    requires st.fixed.Some? ==> IsFixed(fields, st.fixed)
    ensures DecLoop(fields, s, st).Stopped? ==> SafeState(scope, fields, DecLoop(fields, s, st).st)
    decreases |s|, 4
  {
    hide DecLoop, DecField, DecKey, DecRow, SaneTable, StaticTable, SafeState, Enter, FieldIndex, SkipField,
      DecVarint32;
    LoopStep(fields, s, st);
    KeyShrinks(s);
    if s != [] && DecKey(s).KeyOf? {
      var key := DecKey(s);
      FieldStep(fields, key.wiretype, key.tag, key.rest, st);
      var index := FieldIndex(fields, key.tag);
      var r := DecField(fields, key.wiretype, key.tag, key.rest, st);
      if r.Some? {
        EntersFixed(fields, key.wiretype, key.tag, key.rest, st);
        if (fields != [] || key.tag > 0) && index.Some? {
          EnterSafe(scope, fields, index.value, st);
          RowSafe(scope, fields, index.value, key.wiretype, key.rest, Enter(fields, index.value, st).value);
        }
        LoopSafe(scope, fields, r.value.1, r.value.0);
      }
    }
  }

  /** Decoding keeps a message within bounds. */
  lemma {:induction false} MsgSafe(scope: Scope, fields: seq<Field>, m: Msg, s: seq<byte>)
    requires SaneTable(fields) && StaticTable(fields) && SafeMsg(scope, fields, m) && DecMsg(fields, m, s).Some?
    ensures SafeMsg(scope, fields, DecMsg(fields, m, s).value)
    decreases |s|, 5
  {
    hide DecLoop, SaneTable, StaticTable, SafeRow, Accepts;
    MessageEnds(fields, m, s);
    LoopSafe(scope, fields, s, Start(m));
  }

  /** What pb_decode accepts, whatever the bytes and whatever the structure held, is within bounds, and
      pb_encode can encode it exactly when what fixed-count arrays that were not received still hold is
      harmless.  Into memory that is within bounds, pb_encode can encode all that pb_decode accepts. */
  lemma {:induction false} DecodedIsEncodable(fields: seq<Field>, was: Msg, s: seq<byte>)
    requires SaneTable(fields) && StaticTable(fields) && Conforms(fields, was)
    requires DecMsg(fields, Defaults(fields, was), s).Some?
    ensures var m := DecMsg(fields, Defaults(fields, was), s).value;
            && SafeMsg(Live, fields, m) && Conforms(fields, m)
            && (Encodable(fields, m) <==> HarmlessMsg(fields, m))
            && (SafeMsg(Whole, fields, was) ==> SafeMsg(Whole, fields, m) && Encodable(fields, m))
            && (SafeMsg(Known, fields, was) ==> SafeMsg(Known, fields, m) && Encodable(fields, m))
  {
    hide DecMsg, SaneTable, StaticTable, SafeMsg, Defaults, Conforms, Encodable, HarmlessMsg;
    var m := DecMsg(fields, Defaults(fields, was), s).value;
    forall scope: Scope | scope.Live? || SafeMsg(scope, fields, was)
      ensures SafeMsg(scope, fields, m)
      ensures Encodable(fields, m) <==> HarmlessMsg(fields, m)
      ensures !scope.Live? ==> Encodable(fields, m)
    {
      DefaultsSafe(scope, fields, was);
      MsgSafe(scope, fields, Defaults(fields, was), s);
      MsgEncodable(scope, fields, m);
    }
    SafeConforms(Live, fields, m);
  }
}
