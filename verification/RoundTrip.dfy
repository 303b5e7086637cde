/** What pb_encode writes, pb_decode reads back (pb_encode.c:240-426, 528-550, pb_decode.c:406-483,
    839-922, 928-1090). */
module RoundTrip {
  import opened Wrappers
  import opened Descriptor
  import opened Varint
  import opened FieldIter
  import opened EncodeSpec
  import opened DecodeSpec
  import opened ScalarRoundTrip
  import opened Memory

  // ---------- Message equality ----------

  /** Equality of values, of array contents, of rows and of messages.  Entries past an array's count,
      values of absent optional fields and of unselected union members do not count. */
  ghost predicate ValEq(f: Field, a: Value, b: Value)
    decreases a, 0
  {
    if f.ltype == Submessage then a.Sub? && b.Sub? && MsgEq(SubTable(f), a.msg, b.msg) else ScalarEq(f, a, b)
  }

  ghost predicate ItemsEq(f: Field, a: seq<Value>, b: seq<Value>)
    decreases a, 1
  {
    |a| == |b| && forall k :: 0 <= k < |a| ==> ValEq(f, a[k], b[k])
  }

  ghost predicate RowEq(fields: seq<Field>, a: Msg, b: Msg, i: nat)
    requires i < |fields| && |a| == |fields| && |b| == |fields|
    decreases a, 2
  {
    var f, x, y := fields[i], a[UnionHead(fields, i)], b[UnionHead(fields, i)];
    assert a decreases to x;
    match x
    case One(v) => y.One? && ValEq(f, v, y.v)
    case Opt(has, v) => y.Opt? && y.has == has && (has ==> ValEq(f, v, y.v))
    case Many(_, _) => y.Many? && ItemsEq(f, Items(f, x), Items(f, y))
    case Pick(which, v) => y.Pick? && y.which == which && (which == f.tag ==> ValEq(f, v, y.v))
    case Shared => false
  }

  ghost predicate MsgEq(fields: seq<Field>, a: Msg, b: Msg)
    decreases a, 3
  {
    |a| == |fields| == |b| && forall i :: 0 <= i < |fields| ==> RowEq(fields, a, b, i)
  }

  // ---------- Messages that can travel ----------

  /** Beyond being encodable, what a message needs to be read back: strings have room for their
      terminator, lengths are below 2^32, field numbers below 2^29, proto3 fields have no default of
      their own, and a union's which_ member names one of its fields or none. */
  ghost predicate TravelsVal(f: Field, v: Value)
    decreases v, 0
  {
    if f.ltype == Submessage then v.Sub? && |EncMsg(SubTable(f), v.msg)| < U32 && Travels(SubTable(f), v.msg)
    else Terminated(f, v)
  }

  ghost predicate TravelsItems(f: Field, items: seq<Value>)
    decreases items, 1
  {
    && (f.ltype.Packable() ==> |EncItems(f, items)| < U32)
    && forall k :: 0 <= k < |items| ==> TravelsVal(f, items[k])
  }

  ghost predicate TravelsRow(fields: seq<Field>, m: Msg, i: nat)
    requires i < |fields| && |m| == |fields|
    decreases m, 2
  {
    var f, slot := fields[i], m[UnionHead(fields, i)];
    assert m decreases to slot;
    && f.tag < 0x2000_0000
    && match slot
       case One(v) => TravelsVal(f, v) && (f.htype == Optional ==> !f.ptr.DefaultValue?)
       case Opt(has, v) => has ==> TravelsVal(f, v)
       case Many(_, _) => TravelsItems(f, Items(f, slot))
       case Pick(which, v) => WhichKnown(fields, which, i) && (which == f.tag ==> TravelsVal(f, v))
       case Shared => true
  }

  ghost predicate Travels(fields: seq<Field>, m: Msg)
    decreases m, 3
  {
    |m| == |fields| && forall i :: 0 <= i < |fields| ==> TravelsRow(fields, m, i)
  }

  // ---------- Fields omitted by the proto3 check come back as defaults ----------

  lemma {:induction false} ZeroIsDefault(f: Field, v: Value, was: Value)
    requires StaticRow(f) && ConformsVal(f, v) && TravelsVal(f, v) && IsZero(f, v) && !f.ptr.DefaultValue?
    ensures ValEq(f, v, DefaultVal(f, was))
    decreases v, 0
  {
    hide StaticTable, Conforms, Travels, IsZeroMsg, MsgEq, Defaults, EncMsg;
    if f.ltype == Submessage {
      SubTableIsStatic(f);
      ZeroMsgIsDefault(SubTable(f), v.msg, if was.Sub? then was.msg else []);
    } else if f.ltype == String {
      assert CString(v.bytes) == [];
    } else if f.ltype == FixedLengthBytes {
      assert v.bytes == Zeros(0);
    }
  }

  lemma {:induction false} ZeroMsgIsDefault(fields: seq<Field>, m: Msg, was: Msg)
    requires StaticTable(fields) && Conforms(fields, m) && Travels(fields, m) && IsZeroMsg(fields, m)
    ensures MsgEq(fields, m, Defaults(fields, was))
    decreases m, 3
  {
    hide IsZeroRow, ConformsRow, TravelsRow, StaticRow, RowEq, DefaultSlot;
    forall i | 0 <= i < |fields| ensures RowEq(fields, m, Defaults(fields, was), i) {
      ZeroRowIsDefault(fields, m, was, i);
    }
  }

  lemma {:induction false} ZeroRowIsDefault(fields: seq<Field>, m: Msg, was: Msg, i: nat)
    requires i < |fields| && |m| == |fields| && StaticRow(fields[i])
    requires ConformsRow(fields, m, i) && TravelsRow(fields, m, i) && IsZeroRow(fields, m, i)
    ensures RowEq(fields, m, Defaults(fields, was), i)
    decreases m, 2
  {
    hide StaticTable, ConformsVal, TravelsVal, IsZero, ValEq, DefaultVal, WhichKnown, TravelsItems, ConformsItems;
    var f, slot := fields[i], m[UnionHead(fields, i)];
    assert m decreases to slot;
    assert Defaults(fields, was)[UnionHead(fields, i)] == DefaultSlot(fields, was, UnionHead(fields, i));
    if slot.One? { ZeroIsDefault(f, slot.v, ValueOf(if i < |was| then was[i] else Shared)); }
  }

  // ---------- Values ----------

  lemma {:induction false} ValRoundTrip(f: Field, v: Value, was: Value, base: Value, tail: seq<byte>)
      returns (v': Value)
    requires StaticRow(f) && ConformsVal(f, v) && EncodableVal(f, v) && TravelsVal(f, v)
    requires ConformsVal(f, was) && (f.ltype == Submessage ==> base == DefaultVal(f, was))
    ensures DecVal(f, base, EncVal(f, v) + tail) == Got(v', tail) && ValEq(f, v, v')
    decreases v, 0
  {
    hide StaticTable, Conforms, Travels, Encodable, MsgEq, Defaults, EncMsg, DecMsg, DecString, EncString, DecScalar,
      EncScalar, ScalarEq, ConformsScalar, EncodableScalar, Terminated;
    if f.ltype == Submessage {
      SubTableIsStatic(f);
      var m' := MsgRoundTrip(SubTable(f), v.msg, was.msg);
      StringRoundTrip(EncMsg(SubTable(f), v.msg), tail);
      v' := Sub(m');
    } else {
      v' := ScalarRoundTrips(f, v, tail);
    }
  }

  /** A packed run of entries. */
  lemma {:induction false} PackedRoundTrip(f: Field, items: seq<Value>, room: nat) returns (items': seq<Value>)
    requires f.ltype.Packable() && |items| <= room
    requires forall k :: 0 <= k < |items| ==>
             ConformsScalar(f, items[k]) && EncodableScalar(f, items[k]) && Terminated(f, items[k])
    ensures DecItems(f, EncItems(f, items), room) == Some(items')
    ensures |items'| == |items| && forall k :: 0 <= k < |items| ==> ScalarEq(f, items[k], items'[k])
  {
    hide EncScalar, DecScalar, ScalarEq, ConformsScalar, EncodableScalar, Terminated;
    if items == [] {
      items' := [];
    } else {
      var more := PackedRoundTrip(f, items[1..], room - 1);
      var item := ScalarRoundTrips(f, items[0], EncItems(f, items[1..]));
      ScalarShrinks(f, EncItems(f, items));
      items' := [item] + more;
    }
  }

  // ---------- One field of a message ----------

  lemma {:induction false} KeyRoundTrip(wiretype: nat, tag: nat, rest: seq<byte>)
    requires wiretype < 8 && 1 <= tag < 0x2000_0000
    ensures DecKey(EncTag(wiretype, tag) + rest) == KeyOf(wiretype, tag, rest)
    ensures EncTag(wiretype, tag) != []
  {
    hide DecVarint32, EncVarint;
    TagKey(wiretype, tag);
    Varint32RoundTrip(8 * tag + wiretype, rest);
  }

  lemma {:induction false} IndexOfRow(fields: seq<Field>, i: nat)
    requires StaticTable(fields) && i < |fields|
    ensures FieldIndex(fields, fields[i].tag) == Some(i)
  {
    RowIsStatic(fields, i);
  }

  /** A key, and a payload its row accepts. */
  lemma {:induction false} FieldRoundTrip(fields: seq<Field>, i: nat, wiretype: nat, body: seq<byte>, tail: seq<byte>,
                       st: DecState, st1: DecState, st2: DecState)
    requires StaticTable(fields) && i < |fields| && 1 <= fields[i].tag < 0x2000_0000 && wiretype < 8
    requires |st.msg| == |fields| && Enter(fields, i, st) == Some(st1) && |st1.msg| == |fields|
    requires DecRow(fields, i, wiretype, body + tail, st1) == Some((st2, tail))
    ensures |st2.msg| == |fields|
    ensures DecLoop(fields, EncTag(wiretype, fields[i].tag) + body + tail, st) == DecLoop(fields, tail, st2)
  {
    hide StaticTable, Enter, DecRow, DecLoop, DecField, DecKey, FieldIndex, EncTag;
    var tag := fields[i].tag;
    var s := EncTag(wiretype, tag) + (body + tail);
    assert EncTag(wiretype, tag) + body + tail == s;
    KeyRoundTrip(wiretype, tag, body + tail);
    LoopStep(fields, s, st);
    IndexOfRow(fields, i);
    FieldStep(fields, wiretype, tag, body + tail, st);
  }

  // ---------- Array rows ----------

  /** Row i is an array being received, with `have` written over the first entries of `mem`. */
  ghost predicate Holds(fields: seq<Field>, st: DecState, i: nat, have: seq<Value>, mem: seq<Value>) {
    && i < |fields| && |st.msg| == |fields| && fields[i].htype == Repeated && |have| <= fields[i].arraySize == |mem|
    && st.msg[i] == Many(|have|, have + mem[|have|..])
    && (fields[i].sizeOffset == 0 ==> st.fixed == Some(i) && st.fixedCount == |have|)
  }

  /** Only row i's entries differ. */
  ghost predicate SameButItems(f: Field, st: DecState, st': DecState, i: nat) {
    && (f.sizeOffset != 0 ==> st'.fixedCount == st.fixedCount) && i < |st.msg| && |st'.msg| == |st.msg|
        && st'.msg == st.msg[i := st'.msg[i]]
    && st'.seen == st.seen && st'.fixed == st.fixed
  }

  lemma {:induction false} StoreHolds(fields: seq<Field>, st: DecState, i: nat, have: seq<Value>, mem: seq<Value>,
                                      added: seq<Value>)
    returns (st': DecState)
    requires Holds(fields, st, i, have, mem) && |have| + |added| <= fields[i].arraySize
    ensures Received(fields[i], st, i) == |have|
    ensures |have| < |mem| ==> EntryAt(st.msg[i], |have|) == mem[|have|]
    ensures Store(fields[i], st, i, added) == Some(st')
    ensures Holds(fields, st', i, have + added, mem) && SameButItems(fields[i], st, st', i)
    ensures Enter(fields, i, st') == Some(st')
  {
    st' := Store(fields[i], st, i, added).value;
    var n, all := |have| + |added|, st.msg[i].entries;
    assert all[..|have|] == have && all[n..] == mem[n..];
    assert have + added + mem[n..] == (have + added) + mem[|have + added|..];
  }

  /** What the first entry of an array finds. */
  lemma {:induction false} ArrayStarts(fields: seq<Field>, was: Msg, i: nat, st: DecState)
      returns (st1: DecState, mem: seq<Value>)
    requires StaticTable(fields) && Conforms(fields, was)
    requires i < |fields| && |st.msg| == |fields| && fields[i].htype == Repeated
    requires st.msg[i] == DefaultSlot(fields, was, i) && FixedComplete(fields, st) && st.fixed != Some(i)
    ensures Enter(fields, i, st) == Some(st1) && Holds(fields, st1, i, [], mem) && st1.msg == st.msg
            && st1.seen == st.seen
    ensures fields[i].sizeOffset != 0 ==> st1 == st
    ensures ConformsItems(fields[i], mem)
  {
    hide ConformsItems, StaticTable, StaticRow, WipedEntries;
    st1, mem := Enter(fields, i, st).value, st.msg[i].entries;
    assert [] + mem == mem && mem[0..] == mem;
    assert ConformsRow(fields, was, i) && UnionHead(fields, i) == i;
    RowIsStatic(fields, i);
    WipedEntriesConform(fields[i], was[i].entries, SIZEOF_PB_SIZE);
  }

  /** Entries that cannot be packed, from the k-th on. */
  lemma {:induction false} TaggedRoundTrip(fields: seq<Field>, i: nat, items: seq<Value>, k: nat, have: seq<Value>,
                                           mem: seq<Value>, st: DecState, st1: DecState, tail: seq<byte>)
    returns (st': DecState, all: seq<Value>)
    requires StaticTable(fields) && i < |fields| && !fields[i].ltype.Packable() && fields[i].tag < 0x2000_0000
    requires ConformsItems(fields[i], items) && EncodableItems(fields[i], items) && TravelsItems(fields[i], items)
    requires k < |items| <= fields[i].arraySize && ItemsEq(fields[i], items[..k], have)
    requires |st.msg| == |fields| && Enter(fields, i, st) == Some(st1) && Holds(fields, st1, i, have, mem)
    requires ConformsItems(fields[i], mem)
    ensures |st'.msg| == |fields|
    ensures DecLoop(fields, EncTaggedItems(fields[i], items[k..]) + tail, st) == DecLoop(fields, tail, st')
    ensures ItemsEq(fields[i], items, all) && Holds(fields, st', i, all, mem) && SameButItems(fields[i], st1, st', i)
    decreases items, 1, |items| - k
  {
    hide StaticTable, StaticRow, ConformsVal, EncodableVal, TravelsVal, ValEq, DecVal, EncVal, DecLoop, Enter, Holds,
      Store,
      EncTag, EncTaggedItems, ItemsEq, DefaultVal;
    var f := fields[i];
    RowIsStatic(fields, i);
    RowHasTag(f);
    HoldsArray(fields, st1, i, have, mem);
    ItemsEqLength(f, items[..k], have);
    var more := if k + 1 < |items| then EncTaggedItems(f, items[k + 1..]) else [];
    var body, rest := EncVal(f, items[k]), more + tail;
    ItemConforms(f, mem, k);
    var v' := ValRoundTrip(f, items[k], mem[k], DefaultVal(f, mem[k]), rest);
    var st2 := StoreHolds(fields, st1, i, have, mem, [v']);
    EntryDecodes(fields, i, body + rest, v', rest, st1, st2);
    FieldRoundTrip(fields, i, WT_STRING, body, rest, st, st1, st2);
    TaggedItemsAt(f, items, k);
    assert EncTaggedItems(f, items[k..]) + tail == EncTag(WT_STRING, f.tag) + body + rest;
    ItemsEqSnoc(f, items, k, have, v');
    if k + 1 < |items| {
      st', all := TaggedRoundTrip(fields, i, items, k + 1, have + [v'], mem, st2, st2, tail);
    } else {
      assert items[..k + 1] == items && rest == tail;
      st', all := st2, have + [v'];
    }
  }

  lemma {:induction false} RowHasTag(f: Field)
    requires StaticRow(f)
    ensures f.tag >= 1 && f.ltype != Extension
  {
  }

  lemma {:induction false} HoldsArray(fields: seq<Field>, st: DecState, i: nat, have: seq<Value>, mem: seq<Value>)
    requires Holds(fields, st, i, have, mem)
    ensures |st.msg| == |fields| && i < |fields| && fields[i].htype == Repeated
            && |have| <= |mem| == fields[i].arraySize
  {
  }

  lemma {:induction false} ItemsEqLength(f: Field, a: seq<Value>, b: seq<Value>)
    requires ItemsEq(f, a, b)
    ensures |a| == |b|
  {
  }

  lemma {:induction false} ItemsEqSnoc(f: Field, items: seq<Value>, k: nat, have: seq<Value>, v: Value)
    requires k < |items| && ItemsEq(f, items[..k], have) && ValEq(f, items[k], v)
    ensures ItemsEq(f, items[..k + 1], have + [v])
  {
    hide ValEq;
    assert items[..k + 1] == items[..k] + [items[k]];
  }

  lemma {:induction false} TaggedItemsAt(f: Field, items: seq<Value>, k: nat)
    requires k < |items| && !f.ltype.Packable() && f.ltype != Extension
    ensures EncTaggedItems(f, items[k..]) ==
            EncTag(WT_STRING, f.tag) + EncVal(f, items[k])
                + (if k + 1 < |items| then EncTaggedItems(f, items[k + 1..]) else [])
  {
    hide EncTag, EncVal;
    assert items[k..][1..] == items[k + 1..];
    assert EncTaggedItems(f, []) == [];
  }

  /** One entry joins its array. */
  lemma {:induction false} EntryDecodes(fields: seq<Field>, i: nat, s: seq<byte>, v: Value, rest: seq<byte>,
                                        st: DecState, st': DecState)
    requires i < |fields| && |st.msg| == |fields| && fields[i].htype == Repeated && !fields[i].ltype.Packable()
    requires Received(fields[i], st, i) < fields[i].arraySize
    requires DecVal(fields[i], DefaultVal(fields[i], EntryAt(st.msg[i], Received(fields[i], st, i))), s) == Got(v, rest)
    requires Store(fields[i], st, i, [v]) == Some(st')
    ensures DecRow(fields, i, WT_STRING, s, st) == Some((st', rest))
  {
    hide DecVal, Store, Received, DefaultVal, EntryAt;
  }

  /** A packed run fills its array. */
  lemma {:induction false} RunDecodes(fields: seq<Field>, i: nat, payload: seq<byte>, items: seq<Value>,
                                      tail: seq<byte>, st: DecState, st': DecState)
    requires i < |fields| && |st.msg| == |fields| && fields[i].htype == Repeated && fields[i].ltype.Packable()
    requires Received(fields[i], st, i) == 0 && |payload| < U32
    requires DecItems(fields[i], payload, fields[i].arraySize) == Some(items)
    requires Store(fields[i], st, i, items) == Some(st')
    ensures DecRow(fields, i, WT_STRING, EncString(payload) + tail, st) == Some((st', tail))
  {
    hide DecItems, Store, Received, DecString, EncString;
    StringRoundTrip(payload, tail);
  }

  /** An array row. */
  lemma {:induction false} ArrayRoundTrip(fields: seq<Field>, was: Msg, i: nat, items: seq<Value>, st: DecState,
                                          tail: seq<byte>)
    returns (st': DecState, all: seq<Value>, mem: seq<Value>)
    requires StaticTable(fields) && i < |fields| && fields[i].htype == Repeated && fields[i].tag < 0x2000_0000
    requires Conforms(fields, was)
    requires ConformsItems(fields[i], items) && EncodableItems(fields[i], items) && TravelsItems(fields[i], items)
    requires 0 < |items| <= fields[i].arraySize
    requires |st.msg| == |fields| && st.msg[i] == DefaultSlot(fields, was, i) && FixedComplete(fields, st)
             && st.fixed != Some(i)
    ensures |st'.msg| == |fields|
    ensures DecLoop(fields, EncArray(fields[i], items) + tail, st) == DecLoop(fields, tail, st')
    ensures ItemsEq(fields[i], items, all) && Holds(fields, st', i, all, mem)
    ensures st'.msg == st.msg[i := st'.msg[i]] && st'.seen == st.seen
    ensures fields[i].sizeOffset != 0 ==> st'.fixed == st.fixed && st'.fixedCount == st.fixedCount
    decreases items, 2
  {
    hide StaticTable, StaticRow, Conforms, ConformsScalar, EncodableScalar, ScalarEq, Terminated, DecLoop, Enter, Holds,
      Store, DecItems,
      EncTag, EncTaggedItems, EncItems, EncString, ConformsVal, EncodableVal, TravelsVal, ValEq, DefaultSlot,
          FixedComplete;
    var f := fields[i];
    RowIsStatic(fields, i);
    RowHasTag(f);
    var st1;
    st1, mem := ArrayStarts(fields, was, i, st);
    if f.ltype.Packable() {
      PackedValues(f, items);
      all := PackedRoundTrip(f, items, f.arraySize);
      st' := StoreHolds(fields, st1, i, [], mem, all);
      assert [] + all == all;
      RunDecodes(fields, i, EncItems(f, items), all, tail, st1, st');
      FieldRoundTrip(fields, i, WT_STRING, EncString(EncItems(f, items)), tail, st, st1, st');
      PackedEq(f, items, all);
    } else {
      assert items[..0] == [] && items[0..] == items;
      st', all := TaggedRoundTrip(fields, i, items, 0, [], mem, st, st1, tail);
    }
  }

  lemma {:induction false} PackedValues(f: Field, items: seq<Value>)
    requires f.ltype.Packable() && ConformsItems(f, items) && EncodableItems(f, items) && TravelsItems(f, items)
    ensures forall k :: 0 <= k < |items| ==>
            ConformsScalar(f, items[k]) && EncodableScalar(f, items[k]) && Terminated(f, items[k])
  {
    hide ConformsScalar, EncodableScalar, Terminated;
  }

  lemma {:induction false} PackedEq(f: Field, a: seq<Value>, b: seq<Value>)
    requires f.ltype.Packable() && |a| == |b| && forall k :: 0 <= k < |a| ==> ScalarEq(f, a[k], b[k])
    ensures ItemsEq(f, a, b)
  {
    hide ScalarEq;
  }

  // ---------- Row after row ----------

  /** What row j holds when the rows before i have been received. */
  ghost predicate SlotInv(fields: seq<Field>, was: Msg, m: Msg, got: Msg, i: nat, j: nat)
    requires j < |fields| && |m| == |fields| && |got| == |fields|
  {
    var f, h := fields[j], UnionHead(fields, j);
    if f.htype == Oneof then
      && m[h].Pick? && got[h].Pick? && (got[h].which == 0 || got[h].which == m[h].which)
      && if j < i && m[h].which == f.tag then got[h].which == f.tag && ValEq(f, m[h].v, got[h].v)
         else got[h].which != f.tag
    else if j < i then RowEq(fields, m, got, j)
    else got[j] == DefaultSlot(fields, was, j)
  }

  ghost predicate SeenBefore(fields: seq<Field>, seen: set<nat>, i: nat) {
    forall j :: 0 <= j < i && j < |fields| ==>
      fields[j].htype == Required && RequiredBefore(fields, j) < MAX_REQUIRED ==> j in seen
  }

  ghost predicate LoopInv(fields: seq<Field>, was: Msg, m: Msg, st: DecState, i: nat) {
    && |m| == |fields| && |st.msg| == |fields|
    && (forall j :: 0 <= j < |fields| ==> SlotInv(fields, was, m, st.msg, i, j))
    && FixedComplete(fields, st) && (st.fixed.Some? ==> st.fixed.value < i)
    && SeenBefore(fields, st.seen, i)
  }

  lemma {:induction false} LoopStarts(fields: seq<Field>, was: Msg, m: Msg)
    requires StaticTable(fields) && Conforms(fields, m)
    ensures LoopInv(fields, was, m, Start(Defaults(fields, was)), 0)
  {
    hide ConformsRow, StaticTable, StaticRow, DefaultVal;
    forall j | 0 <= j < |fields| ensures SlotInv(fields, was, m, Defaults(fields, was), 0, j) {
      SlotStarts(fields, was, m, j);
    }
  }

  lemma {:induction false} SlotStarts(fields: seq<Field>, was: Msg, m: Msg, j: nat)
    requires StaticTable(fields) && Conforms(fields, m) && j < |fields|
    ensures SlotInv(fields, was, m, Defaults(fields, was), 0, j)
  {
    hide StaticTable, DefaultVal, ConformsVal, ConformsItems;
    RowIsStatic(fields, j);
    assert ConformsRow(fields, m, j);
    assert Defaults(fields, was)[UnionHead(fields, j)] == DefaultSlot(fields, was, UnionHead(fields, j));
  }

  /** After the last row the messages are equal and nothing is missing. */
  lemma {:induction false} LoopEnds(fields: seq<Field>, was: Msg, m: Msg, st: DecState)
    requires LoopInv(fields, was, m, st, |fields|) && Travels(fields, m) && Conforms(fields, m)
    ensures MsgEq(fields, m, st.msg) && Accepts(fields, st)
  {
    hide RowEq, SlotInv, TravelsRow, ConformsRow;
    forall j | 0 <= j < |fields| ensures RowEq(fields, m, st.msg, j) {
      assert SlotInv(fields, was, m, st.msg, |fields|, j) && TravelsRow(fields, m, j) && ConformsRow(fields, m, j);
      SlotEnds(fields, was, m, st.msg, j);
    }
  }

  lemma {:induction false} SlotEnds(fields: seq<Field>, was: Msg, m: Msg, got: Msg, j: nat)
    requires j < |fields| && |m| == |fields| && |got| == |fields|
    requires forall k :: 0 <= k < |fields| ==> SlotInv(fields, was, m, got, |fields|, k)
    requires TravelsRow(fields, m, j) && ConformsRow(fields, m, j)
    ensures RowEq(fields, m, got, j)
  {
    hide ValEq, TravelsVal, TravelsItems, ConformsVal, ConformsItems, ItemsEq;
    var f, h := fields[j], UnionHead(fields, j);
    assert SlotInv(fields, was, m, got, |fields|, j);
    if f.htype == Oneof && m[h].which != 0 {
      var k :| 0 <= k < |fields| && UnionHead(fields, k) == h && fields[k].tag == m[h].which;
      assert SlotInv(fields, was, m, got, |fields|, k);
      assert fields[k].htype == Oneof;
    }
  }

  /** A row that emits nothing. */
  lemma {:induction false} AbsentRow(fields: seq<Field>, was: Msg, m: Msg, i: nat, st: DecState)
    requires StaticTable(fields) && Conforms(fields, m) && Travels(fields, m) && i < |fields|
    requires LoopInv(fields, was, m, st, i) && fields[i].htype != Required
    requires fields[i].htype == Repeated ==> m[i].Many? && Items(fields[i], m[i]) == []
    requires fields[i].htype != Repeated ==> Present(fields, m, i).None?
    ensures LoopInv(fields, was, m, st, i + 1)
  {
    hide RowEq, SlotInv, TravelsRow, ConformsRow, StaticRow;
    assert TravelsRow(fields, m, i) && ConformsRow(fields, m, i) && StaticRow(fields[i]);
    var n := i + 1;
    forall j | 0 <= j < |fields| ensures SlotInv(fields, was, m, st.msg, n, j) {
      assert SlotInv(fields, was, m, st.msg, i, j);
      if j == i { AbsentSlot(fields, was, m, st.msg, i); } else { SlotLater(fields, was, m, st.msg, i, j); }
    }
  }

  lemma {:induction false} SlotLater(fields: seq<Field>, was: Msg, m: Msg, got: Msg, i: nat, j: nat)
    requires j < |fields| && |m| == |fields| && |got| == |fields| && j != i && SlotInv(fields, was, m, got, i, j)
    ensures SlotInv(fields, was, m, got, i + 1, j)
  {
    hide ValEq, RowEq, DefaultSlot;
  }

  lemma {:induction false} AbsentSlot(fields: seq<Field>, was: Msg, m: Msg, got: Msg, i: nat)
    requires i < |fields| && |m| == |fields| && |got| == |fields| && SlotInv(fields, was, m, got, i, i)
    requires StaticRow(fields[i]) && ConformsRow(fields, m, i) && TravelsRow(fields, m, i)
             && fields[i].htype != Required
    requires fields[i].htype == Repeated ==> m[i].Many? && Items(fields[i], m[i]) == []
    requires fields[i].htype != Repeated ==> Present(fields, m, i).None?
    ensures SlotInv(fields, was, m, got, i + 1, i)
  {
    hide ValEq, StaticRow, TravelsVal, ConformsVal, ConformsItems, TravelsItems, IsZero, DefaultVal;
    var slot := m[UnionHead(fields, i)];
    if fields[i].htype == Optional && slot.One? {
      ZeroIsDefault(fields[i], slot.v, ValueOf(if i < |was| then was[i] else Shared));
    }
    if fields[i].htype == Repeated { NothingHeld(fields[i], got[i]); }
  }

  lemma {:induction false} NothingHeld(f: Field, slot: Slot)
    requires slot.Many? && Count(f, slot) == 0
    ensures ItemsEq(f, [], Items(f, slot))
  {
  }

  /** A row that emits one value. */
  lemma {:induction false} SingularRow(fields: seq<Field>, was: Msg, m: Msg, i: nat, v: Value, st: DecState,
                                       tail: seq<byte>) returns (st': DecState)
    requires Conforms(fields, was)
    requires StaticTable(fields) && Conforms(fields, m) && Travels(fields, m) && Encodable(fields, m) && i < |fields|
    requires LoopInv(fields, was, m, st, i)
    requires fields[i].htype != Repeated && Present(fields, m, i) == Some(v)
    ensures LoopInv(fields, was, m, st', i + 1)
    ensures DecLoop(fields, EncTagged(fields[i], v) + tail, st) == DecLoop(fields, tail, st')
    decreases v, 1
  {
    hide StaticTable, StaticRow, Conforms, SlotInv, RowEq, ConformsRow, TravelsRow, EncodableRow, ConformsVal,
      TravelsVal, EncodableVal,
      ValEq, EncVal, DecVal, EncTag, DecRow, DecLoop, DefaultVal, BaseOf, StoreOne, FixedComplete, Enter, Present;
    var f, h := fields[i], UnionHead(fields, i);
    RowIsStatic(fields, i);
    RowHasTag(f);
    PresentFacts(fields, m, i, v);
    assert SlotInv(fields, was, m, st.msg, i, i);
    FreshBase(fields, was, m, st.msg, i, v);
    UnderConforms(fields, was, i);
    var v' := ValRoundTrip(f, v, Under(fields, was, i), BaseOf(f, st.msg[h]), tail);
    var st1 := SingularEnters(fields, i, st);
    st' := st1.(msg := st.msg[h := StoreOne(f, st.msg[h], v')]);
    SingularDecodes(fields, i, WireType(f.ltype), EncVal(f, v) + tail, v', tail, st1);
    FieldRoundTrip(fields, i, WireType(f.ltype), EncVal(f, v), tail, st, st1, st');
    TableIsTagged(fields);
    var n := i + 1;
    forall j | 0 <= j < |fields| ensures SlotInv(fields, was, m, st'.msg, n, j) {
      assert SlotInv(fields, was, m, st.msg, i, j);
      StoredSlot(fields, was, m, st.msg, i, j, v, v');
    }
  }

  lemma {:induction false} PresentFacts(fields: seq<Field>, m: Msg, i: nat, v: Value)
    requires i < |fields| && |m| == |fields| && fields[i].htype != Repeated && Present(fields, m, i) == Some(v)
    requires Conforms(fields, m) && Travels(fields, m) && Encodable(fields, m)
    ensures ConformsVal(fields[i], v) && TravelsVal(fields[i], v) && EncodableVal(fields[i], v)
    ensures fields[i].tag < 0x2000_0000 && ConformsRow(fields, m, i)
  {
    hide ConformsVal, TravelsVal, EncodableVal, ConformsItems, TravelsItems, EncodableItems, IsZero;
    assert ConformsRow(fields, m, i) && TravelsRow(fields, m, i) && EncodableRow(fields, m, i);
  }

  /** What row i's defaults were made of. */
  function Under(fields: seq<Field>, was: Msg, i: nat): Value
    requires i < |fields|
  {
    if fields[i].htype == Oneof then ZeroVal(fields[i]) else ValueOf(if i < |was| then was[i] else Shared)
  }

  lemma {:induction false} UnderConforms(fields: seq<Field>, was: Msg, i: nat)
    requires StaticTable(fields) && Conforms(fields, was) && i < |fields| && fields[i].htype != Repeated
    ensures ConformsVal(fields[i], Under(fields, was, i))
  {
    hide StaticTable, StaticRow, ConformsVal, ZeroVal;
    RowIsStatic(fields, i);
    ZeroValConforms(fields[i]);
    assert ConformsRow(fields, was, i);
  }

  /** A submessage is decoded onto defaults. */
  lemma {:induction false} FreshBase(fields: seq<Field>, was: Msg, m: Msg, got: Msg, i: nat, v: Value)
    requires i < |fields| && |m| == |fields| && |got| == |fields| && SlotInv(fields, was, m, got, i, i)
    requires fields[i].htype != Repeated && Present(fields, m, i) == Some(v)
    ensures fields[i].ltype == Submessage ==>
            BaseOf(fields[i], got[UnionHead(fields, i)]) == DefaultVal(fields[i], Under(fields, was, i))
  {
    hide DefaultVal, ZeroVal, ValEq, RowEq, IsZero;
  }

  lemma {:induction false} SingularEnters(fields: seq<Field>, i: nat, st: DecState) returns (st1: DecState)
    requires i < |fields| && fields[i].htype != Repeated && SeenBefore(fields, st.seen, i)
    ensures Enter(fields, i, st) == Some(st1) && st1 == st.(seen := st1.seen)
    ensures SeenBefore(fields, st1.seen, i + 1)
    ensures forall msg :: FixedComplete(fields, st1.(msg := msg)) == FixedComplete(fields, st)
  {
    st1 := Enter(fields, i, st).value;
  }

  lemma {:induction false} SingularDecodes(fields: seq<Field>, i: nat, wiretype: nat, s: seq<byte>, v: Value,
                                           rest: seq<byte>, st: DecState)
    requires i < |fields| && |st.msg| == |fields| && fields[i].htype != Repeated
    requires DecVal(fields[i], BaseOf(fields[i], st.msg[UnionHead(fields, i)]), s) == Got(v, rest)
    ensures var h := UnionHead(fields, i);
            DecRow(fields, i, wiretype, s, st) ==
                Some((st.(msg := st.msg[h := StoreOne(fields[i], st.msg[h], v)]), rest))
  {
    hide DecVal, BaseOf, StoreOne;
  }

  lemma {:induction false} StoredSlot(fields: seq<Field>, was: Msg, m: Msg, got: Msg, i: nat, j: nat, v: Value,
                                      v': Value)
    requires i < |fields| && j < |fields| && |m| == |fields| && |got| == |fields|
    requires DistinctTags(fields) && fields[i].tag >= 1
    requires fields[i].htype != Repeated && Present(fields, m, i) == Some(v) && ValEq(fields[i], v, v')
    requires SlotInv(fields, was, m, got, i, i) && SlotInv(fields, was, m, got, i, j) && ConformsRow(fields, m, i)
    ensures var h := UnionHead(fields, i);
            SlotInv(fields, was, m, got[h := StoreOne(fields[i], got[h], v')], i + 1, j)
  {
    hide DefaultVal, ValEq, ItemsEq, IsZero, ConformsVal, ConformsItems;
    assert fields[i].htype != Oneof ==> UnionHead(fields, i) == i;
    assert fields[j].htype != Oneof ==> UnionHead(fields, j) == j;
    if i < j { assert fields[i].tag != fields[j].tag; }
    if j < i { assert fields[j].tag != fields[i].tag; }
  }

  /** An array row that is not empty. */
  lemma {:induction false} RepeatedRow(fields: seq<Field>, was: Msg, m: Msg, i: nat, items: seq<Value>, st: DecState,
                                       tail: seq<byte>) returns (st': DecState)
    requires Conforms(fields, was)
    requires StaticTable(fields) && Conforms(fields, m) && Travels(fields, m) && Encodable(fields, m) && i < |fields|
    requires LoopInv(fields, was, m, st, i)
    requires fields[i].htype == Repeated && m[i].Many? && items == Items(fields[i], m[i]) && items != []
    ensures LoopInv(fields, was, m, st', i + 1)
    ensures DecLoop(fields, EncArray(fields[i], items) + tail, st) == DecLoop(fields, tail, st')
    decreases items, 3
  {
    hide StaticTable, StaticRow, Conforms, SlotInv, RowEq, ConformsRow, TravelsRow, EncodableRow, ConformsItems,
      TravelsItems,
      EncodableItems, ItemsEq, Holds, EncArray, DecLoop, DefaultSlot;
    ArrayFacts(fields, m, i, items);
    assert SlotInv(fields, was, m, st.msg, i, i);
    UntouchedArray(fields, was, m, st.msg, i);
    var all, mem;
    st', all, mem := ArrayRoundTrip(fields, was, i, items, st, tail);
    ArrayComplete(fields, st, st', i, items, all, mem);
    var n := i + 1;
    forall j | 0 <= j < |fields| ensures SlotInv(fields, was, m, st'.msg, n, j) {
      assert SlotInv(fields, was, m, st.msg, i, j);
      ArraySlot(fields, was, m, st.msg, st'.msg, i, j, items, all);
    }
  }

  lemma {:induction false} ArrayFacts(fields: seq<Field>, m: Msg, i: nat, items: seq<Value>)
    requires i < |fields| && |m| == |fields| && fields[i].htype == Repeated && m[i].Many?
    requires items == Items(fields[i], m[i]) && items != []
    requires Conforms(fields, m) && Travels(fields, m) && Encodable(fields, m)
    ensures ConformsItems(fields[i], items) && TravelsItems(fields[i], items) && EncodableItems(fields[i], items)
    ensures |items| <= fields[i].arraySize && fields[i].tag < 0x2000_0000
    ensures fields[i].sizeOffset == 0 ==> |items| == fields[i].arraySize
  {
    hide ConformsItems, TravelsItems, EncodableItems, EncodableArray, Items;
    assert ConformsRow(fields, m, i) && TravelsRow(fields, m, i) && EncodableRow(fields, m, i);
    PrefixConforms(fields[i], m[i]);
    EncodableEntries(fields[i], m[i]);
  }

  lemma {:induction false} PrefixConforms(f: Field, slot: Slot)
    requires slot.Many? && ConformsItems(f, slot.entries)
    ensures ConformsItems(f, Items(f, slot))
  {
    hide ConformsVal;
  }

  lemma {:induction false} EncodableEntries(f: Field, slot: Slot)
    requires slot.Many? && |slot.entries| == f.arraySize && EncodableArray(f, slot) && Items(f, slot) != []
    ensures EncodableItems(f, Items(f, slot)) && |Items(f, slot)| == Count(f, slot) <= f.arraySize
  {
    hide EncodableItems;
  }

  lemma {:induction false} UntouchedArray(fields: seq<Field>, was: Msg, m: Msg, got: Msg, i: nat)
    requires i < |fields| && |m| == |fields| && |got| == |fields| && fields[i].htype == Repeated
             && SlotInv(fields, was, m, got, i, i)
    ensures got[i] == DefaultSlot(fields, was, i)
  {
  }

  lemma {:induction false} ArrayComplete(fields: seq<Field>, st: DecState, st': DecState, i: nat, items: seq<Value>,
                                         all: seq<Value>, mem: seq<Value>)
    requires Holds(fields, st', i, all, mem) && ItemsEq(fields[i], items, all)
    requires fields[i].sizeOffset == 0 ==> |items| == fields[i].arraySize
    requires fields[i].sizeOffset != 0 ==>
               st'.fixed == st.fixed && st'.fixedCount == st.fixedCount && FixedComplete(fields, st)
    requires st.fixed.Some? ==> st.fixed.value < i
    requires SeenBefore(fields, st.seen, i) && st'.seen == st.seen
    ensures st'.msg[i].Many? && Items(fields[i], st'.msg[i]) == all
    ensures SeenBefore(fields, st'.seen, i + 1)
    ensures FixedComplete(fields, st') && (st'.fixed.Some? ==> st'.fixed.value < i + 1)
  {
    assert (all + mem[|all|..])[..|all|] == all;
  }

  lemma {:induction false} ArraySlot(fields: seq<Field>, was: Msg, m: Msg, got: Msg, got': Msg, i: nat, j: nat,
                                     items: seq<Value>, all: seq<Value>)
    requires i < |fields| && j < |fields| && |m| == |fields| && |got| == |fields| && |got'| == |got|
    requires got' == got[i := got'[i]] && got'[i].Many? && Items(fields[i], got'[i]) == all
    requires fields[i].htype == Repeated && m[i].Many? && Items(fields[i], m[i]) == items
             && ItemsEq(fields[i], items, all)
    requires SlotInv(fields, was, m, got, i, j)
    ensures SlotInv(fields, was, m, got', i + 1, j)
  {
    hide DefaultSlot, ItemsEq, ValEq, Items;
    assert UnionHead(fields, i) == i;
    assert fields[UnionHead(fields, j)].htype == Oneof || UnionHead(fields, j) == j;
  }

  /** The rows from i on. */
  lemma {:induction false} RowsRoundTrip(fields: seq<Field>, was: Msg, m: Msg, i: nat, st: DecState)
      returns (st': DecState)
    requires Conforms(fields, was)
    requires StaticTable(fields) && Conforms(fields, m) && Travels(fields, m) && Encodable(fields, m) && i <= |fields|
    requires LoopInv(fields, was, m, st, i)
    ensures DecLoop(fields, EncFrom(fields, m, i), st) == Stopped(st', [], false)
    ensures LoopInv(fields, was, m, st', |fields|)
    decreases m, 4, |fields| - i
  {
    hide StaticTable, Conforms, Travels, Encodable, LoopInv, EncTagged, EncArray, Present, DecLoop, Items, Count;
    LoopShape(fields, was, m, st, i);
    EncStep(fields, m, i);
    if i == |fields| {
      st' := st;
      LoopStep(fields, [], st);
      return;
    }
    var f, tail, st1 := fields[i], EncFrom(fields, m, i + 1), st;
    if f.htype == Repeated {
      RowShape(fields, m, i);
      if Items(f, m[i]) == [] {
        AbsentRow(fields, was, m, i, st);
        assert EncFrom(fields, m, i) == tail;
      } else {
        assert m decreases to m[i];
        st1 := RepeatedRow(fields, was, m, i, Items(f, m[i]), st, tail);
      }
    } else if Present(fields, m, i).Some? {
      st1 := SingularRow(fields, was, m, i, Present(fields, m, i).value, st, tail);
    } else {
      RowShape(fields, m, i);
      AbsentRow(fields, was, m, i, st);
      assert EncFrom(fields, m, i) == tail;
    }
    st' := RowsRoundTrip(fields, was, m, i + 1, st1);
  }

  lemma {:induction false} LoopShape(fields: seq<Field>, was: Msg, m: Msg, st: DecState, i: nat)
    requires LoopInv(fields, was, m, st, i)
    ensures |m| == |fields| == |st.msg|
  {
  }

  lemma {:induction false} RowShape(fields: seq<Field>, m: Msg, i: nat)
    requires Conforms(fields, m) && i < |fields|
    ensures |m| == |fields|
    ensures fields[i].htype == Repeated ==> m[i].Many?
    ensures fields[i].htype == Required ==> Present(fields, m, i).Some?
  {
    assert ConformsRow(fields, m, i);
  }

  lemma {:induction false} EncStep(fields: seq<Field>, m: Msg, i: nat)
    requires |m| == |fields| && i <= |fields|
    ensures EncFrom(fields, m, |fields|) == []
    ensures i < |fields| && fields[i].htype != Repeated ==>
              EncFrom(fields, m, i) == (if Present(fields, m, i).Some?
                                        then EncTagged(fields[i], Present(fields, m, i).value) else [])
                                       + EncFrom(fields, m, i + 1)
    ensures i < |fields| && fields[i].htype == Repeated && m[i].Many? ==>
              var items := Items(fields[i], m[i]);
              EncFrom(fields, m, i) == EncArray(fields[i], items) + EncFrom(fields, m, i + 1)
              && (items == [] ==> EncArray(fields[i], items) == [])
  {
    hide EncTagged, Present, Items;
  }

  /** Decoding what was encoded accepts all of it and gives an equal message, whatever the structure
      held before. */
  lemma {:induction false} MsgRoundTrip(fields: seq<Field>, m: Msg, was: Msg) returns (m': Msg)
    requires Conforms(fields, was)
    requires StaticTable(fields) && Conforms(fields, m) && Encodable(fields, m) && Travels(fields, m)
    ensures DecMsg(fields, Defaults(fields, was), EncMsg(fields, m)) == Some(m') && MsgEq(fields, m, m')
    ensures DecLoop(fields, EncMsg(fields, m), Start(Defaults(fields, was))).Stopped?
    ensures DecLoop(fields, EncMsg(fields, m), Start(Defaults(fields, was))).rest == []
    ensures !DecLoop(fields, EncMsg(fields, m), Start(Defaults(fields, was))).atZero
    decreases m, 5
  {
    hide StaticTable, Conforms, Travels, Encodable, LoopInv, EncFrom, DecLoop, MsgEq, Accepts, Defaults, DecMsg;
    EncMsgIsFrom(fields, m);
    LoopStarts(fields, was, m);
    var st := RowsRoundTrip(fields, was, m, 0, Start(Defaults(fields, was)));
    LoopEnds(fields, was, m, st);
    MessageEnds(fields, Defaults(fields, was), EncMsg(fields, m));
    m' := st.msg;
  }

  lemma {:induction false} EncMsgIsFrom(fields: seq<Field>, m: Msg)
    requires Conforms(fields, m)
    ensures |m| == |fields| && EncMsg(fields, m) == EncFrom(fields, m, 0)
  {
  }
}
