/** What pb_decode accepts, encoded and decoded again: the same message, and the encoding is a normal
    form (pb_encode.c:240-426, 528-550, pb_decode.c:928-1090); and exactly which messages come back. */
module Reencode {
  import opened Wrappers
  import opened Descriptor
  import opened Varint
  import opened EncodeSpec
  import opened DecodeSpec
  import opened ScalarRoundTrip
  import opened RoundTrip
  import opened Merge
  import opened DecodeSafety
  import opened Leftovers

  // ---------- What a message needs to come back ----------

  /** What the table has to allow: field numbers below 2^29, and no proto3 field with a default of its
      own. */
  predicate LegalTable(fields: seq<Field>)
    decreases fields, 0
  {
    forall i :: 0 <= i < |fields| ==> LegalRow(fields[i])
  }

  predicate LegalRow(f: Field)
    decreases f, 1
  {
    && f.tag < 0x2000_0000
    && (f.htype == Optional && f.sizeOffset == 0 ==> !f.ptr.DefaultValue?)
    && (f.ltype == Submessage ==> match f.ptr case SubFields(sub) => LegalTable(sub) case _ => true)
  }

  /** What the message emits has its terminators, and its which_ members name a field or none. */
  ghost predicate ReadyVal(f: Field, v: Value)
    decreases v, 0
  {
    if f.ltype == Submessage then v.Sub? ==> ReadyMsg(SubTable(f), v.msg) else Terminated(f, v)
  }

  ghost predicate ReadyItems(f: Field, items: seq<Value>)
    decreases items, 1
  {
    forall k :: 0 <= k < |items| ==> ReadyVal(f, items[k])
  }

  ghost predicate ReadyRow(fields: seq<Field>, m: Msg, i: nat)
    requires i < |fields| && |m| == |fields|
    decreases m, 2
  {
    var f, slot := fields[i], m[UnionHead(fields, i)];
    assert m decreases to slot;
    match slot
    case One(v) => ReadyVal(f, v)
    case Opt(has, v) => has ==> ReadyVal(f, v)
    case Many(_, _) => ReadyItems(f, Items(f, slot))
    case Pick(which, v) => WhichKnown(fields, which, i) && (which == f.tag ==> ReadyVal(f, v))
    case Shared => true
  }

  ghost predicate ReadyMsg(fields: seq<Field>, m: Msg)
    decreases m, 3
  {
    |m| == |fields| ==> forall i :: 0 <= i < |fields| ==> ReadyRow(fields, m, i)
  }

  // ---------- With an encoding below 2^32 bytes, that is all ----------

  /** A row's bytes are among the message's. */
  lemma {:induction false} RowInside(fields: seq<Field>, m: Msg, k: nat, i: nat)
    requires k <= i < |fields| && |m| == |fields|
    ensures |EncRow(fields, m, i)| <= |EncFrom(fields, m, k)|
    decreases i - k
  {
    hide EncRow;
    if k < i { RowInside(fields, m, k + 1, i); }
  }

  /** What the zero check takes for absent has no bytes. */
  lemma {:induction false} ZeroHasNoBytes(fields: seq<Field>, m: Msg)
    requires StaticTable(fields) && Conforms(fields, m) && IsZeroMsg(fields, m)
    ensures EncMsg(fields, m) == []
  {
    hide IsZero, EncTagged, EncArray, ConformsVal, StaticRow;
    forall i | 0 <= i < |fields| ensures EncRow(fields, m, i) == [] {
      assert IsZeroRow(fields, m, i) && ConformsRow(fields, m, i);
      RowIsStatic(fields, i);
      HasTag(fields[i]);
    }
    NoRows(fields, m, 0);
  }

  lemma {:induction false} HasTag(f: Field)
    requires StaticRow(f)
    ensures f.tag != 0
  {
  }

  lemma {:induction false} NoRows(fields: seq<Field>, m: Msg, k: nat)
    requires k <= |fields| == |m| && forall i :: 0 <= i < |fields| ==> EncRow(fields, m, i) == []
    ensures EncFrom(fields, m, k) == []
    decreases |fields| - k
  {
    hide EncRow;
    if k < |fields| { NoRows(fields, m, k + 1); }
  }

  lemma {:induction false} TaggedItemInside(f: Field, items: seq<Value>, k: nat)
    requires k < |items|
    ensures |EncVal(f, items[k])| <= |EncTaggedItems(f, items)|
  {
    hide EncVal, EncTag;
    if k > 0 { TaggedItemInside(f, items[1..], k - 1); }
  }

  lemma {:induction false} ValTravels(f: Field, v: Value)
    requires StaticRow(f) && LegalRow(f) && ConformsVal(f, v) && ReadyVal(f, v) && |EncVal(f, v)| < U32
    ensures TravelsVal(f, v)
    decreases v, 0
  {
    hide StaticTable, LegalTable, Conforms, ReadyMsg, Travels, EncMsg, Terminated, ConformsScalar, EncScalar, EncVarint;
    if f.ltype == Submessage {
      SubTableIsStatic(f);
      if f.ptr.SubFields? { MsgTravels(SubTable(f), v.msg); } else { NoRowsTravel(v.msg); }
    }
  }

  lemma {:induction false} NoRowsTravel(m: Msg)
    requires Conforms([], m)
    ensures Travels([], m)
  {
  }

  lemma {:induction false} RowTravels(fields: seq<Field>, m: Msg, i: nat)
    requires i < |fields| && |m| == |fields| && StaticRow(fields[i]) && LegalRow(fields[i])
    requires ConformsRow(fields, m, i) && ReadyRow(fields, m, i) && |EncRow(fields, m, i)| < U32
    ensures TravelsRow(fields, m, i)
    decreases m, 2
  {
    hide StaticRow, LegalRow, ConformsVal, ReadyVal, TravelsVal, EncVal, EncTag, IsZero, WhichKnown, ConformsItems,
      EncItems, EncVarint;
    var f, h := fields[i], UnionHead(fields, i);
    assert m decreases to m[h];
    LegalRowIs(f);
    if m[h].Many? {
      ItemsTravel(f, Items(f, m[h]), m[h].entries);
    } else if Present(fields, m, i).Some? {
      ValTravels(f, Present(fields, m, i).value);
    } else if m[h].One? {
      AbsentTravels(f, m[h].v);
    }
  }

  lemma {:induction false} LegalRowIs(f: Field)
    requires LegalRow(f)
    ensures f.tag < 0x2000_0000 && (f.htype == Optional && f.sizeOffset == 0 ==> !f.ptr.DefaultValue?)
  {
  }

  lemma {:induction false} AbsentTravels(f: Field, v: Value)
    requires StaticRow(f) && LegalRow(f) && ConformsVal(f, v) && ReadyVal(f, v) && IsZero(f, v)
    ensures TravelsVal(f, v)
    decreases v, 1
  {
    hide StaticTable, LegalTable, Conforms, ReadyMsg, Travels, EncMsg, Terminated, ConformsScalar, IsZeroMsg;
    if f.ltype == Submessage {
      SubTableIsStatic(f);
      ZeroHasNoBytes(SubTable(f), v.msg);
      if f.ptr.SubFields? { MsgTravels(SubTable(f), v.msg); } else { NoRowsTravel(v.msg); }
    }
  }

  lemma {:induction false} ItemsTravel(f: Field, items: seq<Value>, entries: seq<Value>)
    requires StaticRow(f) && LegalRow(f) && ConformsItems(f, entries) && items <= entries && ReadyItems(f, items)
    requires |EncArray(f, items)| < U32
    ensures TravelsItems(f, items)
    decreases items, 1
  {
    hide StaticRow, LegalRow, ConformsVal, ReadyVal, TravelsVal, EncVal, EncTag, EncItems, EncTaggedItems, EncVarint;
    forall k | 0 <= k < |items| ensures TravelsVal(f, items[k]) {
      assert items[k] == entries[k] && ConformsVal(f, entries[k]);
      if f.ltype.Packable() {
        PackableTravels(f, items[k]);
      } else {
        TaggedItemInside(f, items, k);
        ValTravels(f, items[k]);
      }
    }
    if items == [] { NoItems(f); }
  }

  lemma {:induction false} NoItems(f: Field)
    ensures EncItems(f, []) == []
  {
  }

  lemma {:induction false} PackableTravels(f: Field, v: Value)
    requires f.ltype.Packable()
    ensures TravelsVal(f, v)
  {
  }

  /** A message that is ready, with an encoding below 2^32 bytes, can travel. */
  lemma {:induction false} MsgTravels(fields: seq<Field>, m: Msg)
    requires StaticTable(fields) && LegalTable(fields) && Conforms(fields, m) && ReadyMsg(fields, m)
    requires |EncMsg(fields, m)| < U32
    ensures Travels(fields, m)
    decreases m, 3
  {
    hide StaticRow, LegalRow, ConformsRow, ReadyRow, TravelsRow, EncRow;
    forall i | 0 <= i < |fields| ensures TravelsRow(fields, m, i) {
      assert LegalRow(fields[i]) && ConformsRow(fields, m, i) && ReadyRow(fields, m, i);
      RowIsStatic(fields, i);
      RowInside(fields, m, 0, i);
      RowTravels(fields, m, i);
    }
  }

  // ---------- What was decoded is ready ----------

  /** No fixed-count row, at any depth. */
  predicate CountedTable(fields: seq<Field>)
    decreases fields, 0
  {
    forall i :: 0 <= i < |fields| ==> CountedRow(fields[i])
  }

  predicate CountedRow(f: Field)
    decreases f, 1
  {
    && (f.htype == Repeated ==> f.sizeOffset != 0)
    && (f.ltype == Submessage ==> match f.ptr case SubFields(sub) => CountedTable(sub) case _ => true)
  }

  /** All that the message emits is within bounds. */
  predicate Covers(scope: Scope, fields: seq<Field>) { scope.Known? || (scope.Live? && CountedTable(fields)) }

  predicate CoversRow(scope: Scope, f: Field) { scope.Known? || (scope.Live? && CountedRow(f)) }

  lemma {:induction false} SafeValReady(scope: Scope, f: Field, v: Value)
    requires SafeVal(scope, f, v) && CoversRow(scope, f)
    ensures ReadyVal(f, v)
    decreases v, 0
  {
    hide CountedTable, SafeMsg, ReadyMsg, ConformsScalar, EncodableScalar;
    if f.ltype == Submessage { SafeReady(scope, SubTable(f), v.msg); }
  }

  lemma {:induction false} SafeRowReady(scope: Scope, fields: seq<Field>, m: Msg, i: nat)
    requires i < |fields| && |m| == |fields| && SafeRow(scope, fields, m, i) && CoversRow(scope, fields[i])
    ensures ReadyRow(fields, m, i)
    decreases m, 2
  {
    hide SafeVal, ReadyVal, CountedTable, ConformsItems, WhichKnown;
    var f, slot := fields[i], m[UnionHead(fields, i)];
    assert m decreases to slot;
    if slot.Many? {
      assert SafeArray(scope, f, slot);
      var items := Items(f, slot);
      forall k | 0 <= k < |items| ensures ReadyVal(f, items[k]) {
        assert items[k] == slot.entries[k];
        SafeValReady(scope, f, items[k]);
      }
    } else if slot.One? || slot.Opt? || slot.which == f.tag {
      SafeValReady(scope, f, slot.v);
    }
  }

  lemma {:induction false} SafeReady(scope: Scope, fields: seq<Field>, m: Msg)
    requires SafeMsg(scope, fields, m) && Covers(scope, fields)
    ensures ReadyMsg(fields, m)
    decreases m, 3
  {
    hide SafeRow, ReadyRow, CountedRow;
    forall i | 0 <= i < |fields| ensures ReadyRow(fields, m, i) { SafeRowReady(scope, fields, m, i); }
  }

  // ---------- Equal messages ----------

  lemma {:induction false} EqValReady(f: Field, a: Value, b: Value)
    requires ValEq(f, a, b) && ReadyVal(f, b)
    ensures ReadyVal(f, a)
    decreases a, 0
  {
    hide MsgEq, ReadyMsg;
    if f.ltype == Submessage { EqReady(SubTable(f), a.msg, b.msg); }
  }

  lemma {:induction false} EqRowReady(fields: seq<Field>, a: Msg, b: Msg, i: nat)
    requires i < |fields| == |a| == |b| && RowEq(fields, a, b, i) && ReadyRow(fields, b, i)
    ensures ReadyRow(fields, a, i)
    decreases a, 2
  {
    hide ValEq, ReadyVal, WhichKnown;
    var f, x, y := fields[i], a[UnionHead(fields, i)], b[UnionHead(fields, i)];
    assert a decreases to x;
    if x.Many? {
      var items := Items(f, x);
      forall k | 0 <= k < |items| ensures ReadyVal(f, items[k]) { EqValReady(f, items[k], Items(f, y)[k]); }
    } else if x.One? || (x.Opt? && x.has) || (x.Pick? && x.which == f.tag) {
      EqValReady(f, x.v, y.v);
    }
  }

  /** What equals a ready message is ready. */
  lemma {:induction false} EqReady(fields: seq<Field>, a: Msg, b: Msg)
    requires MsgEq(fields, a, b) && ReadyMsg(fields, b)
    ensures ReadyMsg(fields, a)
    decreases a, 3
  {
    hide RowEq, ReadyRow;
    forall i | 0 <= i < |fields| ensures ReadyRow(fields, a, i) { EqRowReady(fields, a, b, i); }
  }

  lemma {:induction false} EqValEncodes(x: Scope, y: Scope, f: Field, a: Value, b: Value)
    requires ValEq(f, a, b) && SafeVal(x, f, a) && SafeVal(y, f, b) && CoversRow(x, f) && CoversRow(y, f)
    ensures EncVal(f, a) == EncVal(f, b) && (IsZero(f, a) <==> IsZero(f, b))
    decreases a, 0
  {
    hide MsgEq, SafeMsg, EncMsg, IsZeroMsg, EncVarint, LittleEndian, ZigZag, ConformsScalar, EncodableScalar,
      CountedTable;
    if f.ltype == Submessage { EqEncodes(x, y, SubTable(f), a.msg, b.msg); }
  }

  lemma {:induction false} EqItemsEncode(x: Scope, y: Scope, f: Field, a: seq<Value>, b: seq<Value>)
    requires ItemsEq(f, a, b) && SafeItems(x, f, a) && SafeItems(y, f, b) && CoversRow(x, f) && CoversRow(y, f)
    ensures EncTaggedItems(f, a) == EncTaggedItems(f, b)
    ensures f.ltype != Submessage ==> EncItems(f, a) == EncItems(f, b)
    decreases a, 1
  {
    hide ValEq, SafeVal, EncVal, EncTag, EncScalar, IsZero, CoversRow;
    if a != [] {
      EqValEncodes(x, y, f, a[0], b[0]);
      EqItemsEncode(x, y, f, a[1..], b[1..]);
      if f.ltype != Submessage { ScalarEncodes(f, a[0], b[0]); }
    }
  }

  lemma {:induction false} ScalarEncodes(f: Field, a: Value, b: Value)
    requires f.ltype != Submessage && EncVal(f, a) == EncVal(f, b)
    ensures EncScalar(f, a) == EncScalar(f, b)
  {
    hide EncScalar;
  }

  lemma {:induction false} ItemsWithin(scope: Scope, f: Field, slot: Slot)
    requires slot.Many? && SafeArray(scope, f, slot) && CoversRow(scope, f) && f.htype == Repeated
    ensures SafeItems(scope, f, Items(f, slot)) && (slot decreases to Items(f, slot))
    ensures f.sizeOffset != 0 ==> (Items(f, slot) == [] <==> slot.count == 0)
  {
    hide SafeVal, ConformsItems, CountedTable;
    var items := Items(f, slot);
    assert forall k :: 0 <= k < |items| ==> items[k] == slot.entries[k];
  }

  lemma {:induction false} EqRowEncodes(x: Scope, y: Scope, fields: seq<Field>, a: Msg, b: Msg, i: nat)
    requires i < |fields| == |a| == |b| && RowEq(fields, a, b, i)
    requires SafeRow(x, fields, a, i) && SafeRow(y, fields, b, i) && CoversRow(x, fields[i]) && CoversRow(y, fields[i])
    ensures EncRow(fields, a, i) == EncRow(fields, b, i)
    ensures IsZeroRow(fields, a, i) <==> IsZeroRow(fields, b, i)
    decreases a, 2
  {
    hide ValEq, SafeVal, SafeArray, CoversRow, EncVal, EncTag, EncItems, EncTaggedItems, IsZero, WhichKnown, ItemsEq;
    var f, h := fields[i], UnionHead(fields, i);
    assert a decreases to a[h];
    if f.htype == Repeated {
      ItemsWithin(x, f, a[h]);
      ItemsWithin(y, f, b[h]);
      EqItemsEncode(x, y, f, Items(f, a[h]), Items(f, b[h]));
      EqEmpty(f, Items(f, a[h]), Items(f, b[h]));
      if f.ltype.Packable() { assert f.ltype != Submessage; }
    } else if !(a[h].Pick? && a[h].which != f.tag) && !(a[h].Opt? && !a[h].has) {
      EqValEncodes(x, y, f, a[h].v, b[h].v);
    }
  }

  lemma {:induction false} EqEmpty(f: Field, a: seq<Value>, b: seq<Value>)
    requires ItemsEq(f, a, b)
    ensures a == [] <==> b == []
  {
    hide ValEq;
  }

  /** Equal messages have the same encoding. */
  lemma {:induction false} EqEncodes(x: Scope, y: Scope, fields: seq<Field>, a: Msg, b: Msg)
    requires MsgEq(fields, a, b) && SafeMsg(x, fields, a) && SafeMsg(y, fields, b) && Covers(x, fields)
             && Covers(y, fields)
    ensures EncMsg(fields, a) == EncMsg(fields, b) && (IsZeroMsg(fields, a) <==> IsZeroMsg(fields, b))
    decreases a, 3
  {
    hide RowEq, SafeRow, EncRow, IsZeroRow, CountedRow;
    forall i | 0 <= i < |fields|
      ensures EncRow(fields, a, i) == EncRow(fields, b, i) && (IsZeroRow(fields, a, i) <==> IsZeroRow(fields, b, i))
    {
      EqRowEncodes(x, y, fields, a, b, i);
    }
    SameRows(fields, a, b, 0);
  }

  lemma {:induction false} SameRows(fields: seq<Field>, a: Msg, b: Msg, k: nat)
    requires k <= |fields| == |a| == |b|
    requires forall i :: 0 <= i < |fields| ==> EncRow(fields, a, i) == EncRow(fields, b, i)
    ensures EncFrom(fields, a, k) == EncFrom(fields, b, k)
    decreases |fields| - k
  {
    hide EncRow;
    if k < |fields| { SameRows(fields, a, b, k + 1); }
  }

  // ---------- The theorems ----------

  /** Memory whose old contents do no harm: it is within bounds, or the table has no array that would keep
      any. */
  ghost predicate Tidy(fields: seq<Field>, was: Msg) {
    SafeMsg(Known, fields, was) || (CountedTable(fields) && Conforms(fields, was))
  }

  ghost function ScopeOf(fields: seq<Field>, was: Msg): Scope { if SafeMsg(Known, fields, was) then Known else Live }

  /** What is decoded into tidy memory. */
  lemma {:induction false} TidyDecodes(fields: seq<Field>, was: Msg, s: seq<byte>)
    requires SaneTable(fields) && StaticTable(fields) && Tidy(fields, was)
    requires DecMsg(fields, Defaults(fields, was), s).Some?
    ensures var m := DecMsg(fields, Defaults(fields, was), s).value;
            && Conforms(fields, was) && Conforms(fields, m) && Encodable(fields, m) && ReadyMsg(fields, m)
            && SafeMsg(ScopeOf(fields, was), fields, m) && Covers(ScopeOf(fields, was), fields)
  {
    hide SaneTable, StaticTable, SafeMsg, DecMsg, Defaults, Encodable, ReadyMsg, Conforms, HarmlessMsg, CountedTable;
    var m := DecMsg(fields, Defaults(fields, was), s).value;
    if SafeMsg(Known, fields, was) { SafeConforms(Known, fields, was); }
    DecodedIsEncodable(fields, was, s);
    SafeReady(ScopeOf(fields, was), fields, m);
    if CountedTable(fields) {
      CountedIsPlain(fields);
      PlainIsHarmless(fields, m);
    }
  }

  lemma {:induction false} CountedIsPlain(fields: seq<Field>)
    requires CountedTable(fields)
    ensures PlainTable(fields)
    decreases fields
  {
    forall i | 0 <= i < |fields| ensures !IsFixed(fields, Some(i)) && PlainRow(fields[i]) {
      assert CountedRow(fields[i]) && (fields decreases to fields[i]);
      if fields[i].ltype == Submessage && fields[i].ptr.SubFields? { CountedIsPlain(fields[i].ptr.fields); }
    }
  }

  /** Any message that fits its table and is encodable, in less than 2^32 bytes, comes back equal if and
      only if it is ready: its strings have room for their terminators and its which_ members name a field
      or none, wherever it emits anything. */
  lemma {:induction false} ComesBackExactly(fields: seq<Field>, m: Msg, was: Msg)
    requires SaneTable(fields) && StaticTable(fields) && LegalTable(fields) && Tidy(fields, was)
    requires Conforms(fields, m) && Encodable(fields, m) && |EncMsg(fields, m)| < U32
    ensures var r := DecMsg(fields, Defaults(fields, was), EncMsg(fields, m));
            r.Some? && MsgEq(fields, m, r.value) <==> ReadyMsg(fields, m)
  {
    hide SaneTable, StaticTable, LegalTable, Tidy, Conforms, Encodable, EncMsg, DecMsg, Defaults, MsgEq, ReadyMsg,
      SafeMsg, Travels, DecLoop, Covers;
    var r := DecMsg(fields, Defaults(fields, was), EncMsg(fields, m));
    if r.Some? { TidyDecodes(fields, was, EncMsg(fields, m)); }
    if r.Some? && MsgEq(fields, m, r.value) { EqReady(fields, m, r.value); }
    if ReadyMsg(fields, m) {
      MsgTravels(fields, m);
      TidyConforms(fields, was);
      var m' := MsgRoundTrip(fields, m, was);
    }
  }

  lemma {:induction false} TidyConforms(fields: seq<Field>, was: Msg)
    requires Tidy(fields, was)
    ensures Conforms(fields, was)
  {
    hide SafeMsg, Conforms, CountedTable;
    if SafeMsg(Known, fields, was) { SafeConforms(Known, fields, was); }
  }

  /** Whatever bytes pb_decode accepts, pb_encode takes the message; what it emits, if that is less than
      2^32 bytes, pb_decode accepts again, into an equal message, and that one has the very same encoding.
      So encoding brings all byte strings of one message to one form. */
  lemma {:induction false} DecodedComesBack(fields: seq<Field>, was: Msg, s: seq<byte>, was': Msg) returns (m': Msg)
    requires SaneTable(fields) && StaticTable(fields) && LegalTable(fields) && Tidy(fields, was) && Tidy(fields, was')
    requires DecMsg(fields, Defaults(fields, was), s).Some?
    requires |EncMsg(fields, DecMsg(fields, Defaults(fields, was), s).value)| < U32
    ensures var m := DecMsg(fields, Defaults(fields, was), s).value;
            && Encodable(fields, m)
            && DecMsg(fields, Defaults(fields, was'), EncMsg(fields, m)) == Some(m')
            && MsgEq(fields, m, m') && EncMsg(fields, m') == EncMsg(fields, m)
  {
    hide SaneTable, StaticTable, LegalTable, Tidy, Conforms, Encodable, EncMsg, DecMsg, Defaults, MsgEq, ReadyMsg,
      SafeMsg, Covers, ScopeOf;
    var m := DecMsg(fields, Defaults(fields, was), s).value;
    TidyDecodes(fields, was, s);
    ComesBackExactly(fields, m, was');
    m' := DecMsg(fields, Defaults(fields, was'), EncMsg(fields, m)).value;
    TidyDecodes(fields, was', EncMsg(fields, m));
    EqEncodes(ScopeOf(fields, was), ScopeOf(fields, was'), fields, m, m');
  }
}
