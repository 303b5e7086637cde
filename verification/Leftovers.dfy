/** Fixed-count arrays that a message does not bring keep what they held (pb_decode.c:865-873, 991-1013,
    1027-1031), and when that keeps the message from being encoded. */
module Leftovers {
  import opened Wrappers
  import opened Descriptor
  import opened Varint
  import opened FieldIter
  import opened EncodeSpec
  import opened DecodeSpec
  import opened Merge
  import opened DecodeSafety

  // ---------- The rows the bytes bring ----------

  /** The rows the loop of pb_decode_noinit enters. */
  function Brought(fields: seq<Field>, s: seq<byte>, st: DecState): set<nat>
    requires |st.msg| == |fields|
    decreases |s|
  {
    if s == [] || !DecKey(s).KeyOf? then {}
    else
      KeyShrinks(s);
      var key := DecKey(s);
      match DecField(fields, key.wiretype, key.tag, key.rest, st)
      case None => {}
      case Some((st', rest)) =>
        var index := FieldIndex(fields, key.tag);
        (if index.Some? then {index.value} else {}) + Brought(fields, rest, st')
  }

  /** Row i keeps what it holds, or its union has another member. */
  ghost predicate Kept(fields: seq<Field>, m: Msg, m': Msg, i: nat)
    requires i < |fields|
  {
    && |m| == |m'| == |fields|
    && if fields[i].htype != Oneof then m'[i] == m[i]
       else m[UnionHead(fields, i)].Pick? ==>
              m'[UnionHead(fields, i)].Pick?
              && (m[UnionHead(fields, i)].which != fields[i].tag ==> m'[UnionHead(fields, i)].which != fields[i].tag)
  }

  lemma {:induction false} RowElsewhere(fields: seq<Field>, j: nat, wiretype: nat, s: seq<byte>, st: DecState, i: nat)
    requires i < |fields| && j < |fields| && |st.msg| == |fields| && DecRow(fields, j, wiretype, s, st).Some?
    requires j != i && DistinctTags(fields)
    ensures Kept(fields, st.msg, DecRow(fields, j, wiretype, s, st).value.0.msg, i)
  {
    hide DecEntries, DecVal, BaseOf;
    assert fields[UnionHead(fields, j)].htype == Oneof || UnionHead(fields, j) == j;
    assert fields[i].tag != fields[j].tag;
  }

  /** One field, seen from another row. */
  lemma {:induction false} FieldElsewhere(fields: seq<Field>, wiretype: nat, tag: nat, s: seq<byte>, st: DecState,
                                          i: nat)
    requires i < |fields| && |st.msg| == |fields| && DistinctTags(fields)
    requires DecField(fields, wiretype, tag, s, st).Some? && FieldIndex(fields, tag) != Some(i)
    ensures Kept(fields, st.msg, DecField(fields, wiretype, tag, s, st).value.0.msg, i)
  {
    hide DecField, DecRow, SkipField, DecVarint32, FieldIndex, Kept;
    FieldStep(fields, wiretype, tag, s, st);
    NothingLost(fields, st.msg, i);
    var index := FieldIndex(fields, tag);
    if index.Some? {
      var st1 := Enter(fields, index.value, st).value;
      RowElsewhere(fields, index.value, wiretype, s, st1, i);
    }
  }

  lemma {:induction false} NothingLost(fields: seq<Field>, m: Msg, i: nat)
    requires i < |fields| == |m|
    ensures Kept(fields, m, m, i)
  {
  }

  lemma {:induction false} KeptLonger(fields: seq<Field>, a: Msg, b: Msg, c: Msg, i: nat)
    requires i < |fields| && Kept(fields, a, b, i) && Kept(fields, b, c, i)
    ensures Kept(fields, a, c, i)
  {
  }

  /** A row the bytes do not bring is as it was. */
  lemma {:induction false} UnenteredKept(fields: seq<Field>, s: seq<byte>, st: DecState, i: nat)
    requires i < |fields| == |st.msg| && DistinctTags(fields)
    requires DecLoop(fields, s, st).Stopped? && i !in Brought(fields, s, st)
    ensures Kept(fields, st.msg, DecLoop(fields, s, st).st.msg, i)
    decreases |s|
  {
    hide DecLoop, DecField, DecKey, FieldIndex, Kept, DistinctTags;
    LoopStep(fields, s, st);
    KeyShrinks(s);
    NothingLost(fields, st.msg, i);
    if s != [] && DecKey(s).KeyOf? {
      var key := DecKey(s);
      var r := DecField(fields, key.wiretype, key.tag, key.rest, st).value;
      FieldElsewhere(fields, key.wiretype, key.tag, key.rest, st, i);
      UnenteredKept(fields, r.1, r.0, i);
      KeptLonger(fields, st.msg, r.0.msg, DecLoop(fields, s, st).st.msg, i);
    }
  }

  // ---------- A fixed-count array is received whole or not at all ----------

  /** Row i's entries are counted as they are received. */
  ghost predicate Counted(fields: seq<Field>, st: DecState, i: nat) {
    && |st.msg| == |fields| && IsFixed(fields, Some(i)) && st.msg[i].Many?
    && (st.fixed == Some(i) ==> st.fixedCount <= st.msg[i].count)
  }

  lemma {:induction false} RowCounts(fields: seq<Field>, wiretype: nat, s: seq<byte>, st: DecState, i: nat)
    requires Counted(fields, st, i) && st.fixed == Some(i) && DecRow(fields, i, wiretype, s, st).Some?
    ensures var st' := DecRow(fields, i, wiretype, s, st).value.0;
            Counted(fields, st', i) && st'.fixed == Some(i) && st'.msg[i].count >= st.msg[i].count
  {
    hide DecEntries;
  }

  /** One field, seen from row i. */
  lemma {:induction false} FieldCounts(fields: seq<Field>, wiretype: nat, tag: nat, s: seq<byte>, st: DecState, i: nat)
    requires DistinctTags(fields) && Counted(fields, st, i) && DecField(fields, wiretype, tag, s, st).Some?
    ensures var st' := DecField(fields, wiretype, tag, s, st).value.0;
            && Counted(fields, st', i) && st'.msg[i].count >= st.msg[i].count
            && (FieldIndex(fields, tag) == Some(i) ==> st'.fixed == Some(i))
            && (st.fixed == Some(i) && st'.fixed != Some(i) ==> FixedComplete(fields, st))
  {
    hide DecField, DecRow, SkipField, DecVarint32, FieldIndex, DistinctTags;
    FieldStep(fields, wiretype, tag, s, st);
    EntersFixed(fields, wiretype, tag, s, st);
    if FieldIndex(fields, tag) == Some(i) {
      RowCounts(fields, wiretype, s, Enter(fields, i, st).value, i);
    } else {
      FieldElsewhere(fields, wiretype, tag, s, st, i);
    }
  }

  /** A row the loop enters is complete in the end. */
  lemma {:induction false} EnteredComplete(fields: seq<Field>, s: seq<byte>, st: DecState, i: nat)
    requires DistinctTags(fields) && Counted(fields, st, i) && DecLoop(fields, s, st).Stopped?
    requires FixedComplete(fields, DecLoop(fields, s, st).st)
    requires i in Brought(fields, s, st) || st.fixed == Some(i) || st.msg[i].count >= fields[i].arraySize
    ensures |DecLoop(fields, s, st).st.msg| == |fields| && DecLoop(fields, s, st).st.msg[i].Many?
    ensures DecLoop(fields, s, st).st.msg[i].count >= fields[i].arraySize
    decreases |s|
  {
    hide DecLoop, DecField, DecKey, FieldIndex, DistinctTags;
    LoopStep(fields, s, st);
    KeyShrinks(s);
    if s != [] && DecKey(s).KeyOf? {
      var key := DecKey(s);
      var r := DecField(fields, key.wiretype, key.tag, key.rest, st).value;
      FieldCounts(fields, key.wiretype, key.tag, key.rest, st, i);
      EnteredComplete(fields, r.1, r.0, i);
    }
  }

  /** After pb_decode, a fixed-count array has been received to its last entry, or holds what it held
      before but for the first bytes. */
  lemma {:induction false} ReceivedOrLeft(fields: seq<Field>, was: Msg, s: seq<byte>, i: nat)
    requires StaticTable(fields) && Conforms(fields, was) && IsFixed(fields, Some(i))
    requires DecMsg(fields, Defaults(fields, was), s).Some?
    ensures var m := DecMsg(fields, Defaults(fields, was), s).value;
            && |m| == |fields| == |was| && m[i].Many? && was[i].Many?
            && if i in Brought(fields, s, Start(Defaults(fields, was))) then m[i].count >= fields[i].arraySize
               else m[i] == Many(0, WipedEntries(fields[i], was[i].entries, SIZEOF_PB_SIZE))
  {
    hide DecLoop, Brought, StaticTable, WipedEntries, RequiredSeen, ConformsItems, DistinctTags;
    var st := Start(Defaults(fields, was));
    TableIsTagged(fields);
    assert ConformsRow(fields, was, i) && UnionHead(fields, i) == i;
    assert Defaults(fields, was)[i] == DefaultSlot(fields, was, i);
    MessageEnds(fields, Defaults(fields, was), s);
    if i in Brought(fields, s, st) { EnteredComplete(fields, s, st, i); } else { UnenteredKept(fields, s, st, i); }
  }

  // ---------- When a decoded message can be encoded, in the caller's terms ----------

  /** No fixed-count array whose entries carry a length, at any depth. */
  predicate PlainTable(fields: seq<Field>)
    decreases fields, 0
  {
    forall i :: 0 <= i < |fields| ==> !(IsFixed(fields, Some(i)) && Carries(fields[i])) && PlainRow(fields[i])
  }

  predicate PlainRow(f: Field)
    decreases f, 1
  {
    f.ltype == Submessage ==> match f.ptr case SubFields(sub) => PlainTable(sub) case _ => true
  }

  lemma {:induction false} PlainIsHarmless(fields: seq<Field>, m: Msg)
    requires PlainTable(fields)
    ensures HarmlessMsg(fields, m)
    decreases m, 2
  {
    hide PlainRow, HarmlessVal, IsZero, EncodableVal;
    if |m| == |fields| {
      forall i | 0 <= i < |fields| ensures HarmlessRow(fields, m, i) {
        assert PlainRow(fields[i]) && (m decreases to m[i]);
        PlainRowIsHarmless(fields, m, i);
      }
    }
  }

  lemma {:induction false} PlainRowIsHarmless(fields: seq<Field>, m: Msg, i: nat)
    requires i < |fields| && |m| == |fields| && PlainRow(fields[i])
    requires !(IsFixed(fields, Some(i)) && Carries(fields[i]))
    ensures HarmlessRow(fields, m, i)
    decreases m, 1
  {
    hide PlainRow, HarmlessVal, IsZero, EncodableVal;
    var f := fields[i];
    assert m decreases to m[i];
    if f.htype == Repeated && m[i].Many? {
      forall k | 0 <= k < |m[i].entries| ensures HarmlessVal(f, m[i].entries[k]) {
        PlainValIsHarmless(f, m[i].entries[k]);
      }
    } else if Present(fields, m, i).Some? {
      PlainValIsHarmless(f, Present(fields, m, i).value);
    }
  }

  lemma {:induction false} PlainValIsHarmless(f: Field, v: Value)
    requires PlainRow(f)
    ensures HarmlessVal(f, v)
    decreases v, 3
  {
    hide PlainTable, HarmlessMsg;
    if f.ltype == Submessage && v.Sub? {
      if f.ptr.SubFields? {
        PlainIsHarmless(f.ptr.fields, v.msg);
      } else {
        NoTableIsHarmless(v.msg);
      }
    }
  }

  lemma {:induction false} NoTableIsHarmless(m: Msg)
    ensures HarmlessMsg([], m)
  {
  }

  /** A row that the bytes do not bring is as harmless as setting to defaults left it. */
  lemma {:induction false} UnenteredHarmless(fields: seq<Field>, was: Msg, s: seq<byte>, i: nat)
    requires StaticTable(fields) && i < |fields| && DecMsg(fields, Defaults(fields, was), s).Some?
    requires i !in Brought(fields, s, Start(Defaults(fields, was)))
    ensures var m := DecMsg(fields, Defaults(fields, was), s).value;
            |m| == |fields| && (HarmlessRow(fields, m, i) <==> HarmlessRow(fields, Defaults(fields, was), i))
  {
    hide DecLoop, Brought, StaticTable, HarmlessArray, HarmlessVal, IsZero, WipedEntries, DefaultVal, DistinctTags,
      RequiredSeen;
    var d, h := Defaults(fields, was), UnionHead(fields, i);
    TableIsTagged(fields);
    MessageEnds(fields, d, s);
    UnenteredKept(fields, s, Start(d), i);
    assert d[h] == DefaultSlot(fields, was, h) && fields[i].tag != 0;
    assert fields[i].htype != Oneof ==> h == i;
  }

  /** A row the bytes bring is harmless, unless there are arrays that carry lengths inside its entries or
      its value. */
  lemma {:induction false} BroughtHarmless(fields: seq<Field>, was: Msg, s: seq<byte>, i: nat)
    requires SaneTable(fields) && StaticTable(fields) && Conforms(fields, was)
    requires i < |fields| && PlainRow(fields[i]) && DecMsg(fields, Defaults(fields, was), s).Some?
    requires i in Brought(fields, s, Start(Defaults(fields, was)))
    ensures var m := DecMsg(fields, Defaults(fields, was), s).value;
            |m| == |fields| && HarmlessRow(fields, m, i)
  {
    hide SaneTable, StaticTable, Conforms, DecMsg, Defaults, Brought, PlainRow, SafeMsg, HarmlessRow, Encodable,
      HarmlessMsg;
    var m := DecMsg(fields, Defaults(fields, was), s).value;
    DecodedIsEncodable(fields, was, s);
    SafeLength(fields, m);
    if IsFixed(fields, Some(i)) {
      ReceivedOrLeft(fields, was, s, i);
      CompleteHarmless(fields, m, i);
    } else {
      PlainRowIsHarmless(fields, m, i);
    }
  }

  /** Row i keeps nothing pb_encode refuses: to be seen on what setting to defaults left there, when the
      bytes do not bring the row, and on the message only when the submessages they bring in it have arrays
      that carry lengths. */
  predicate Harmless(fields: seq<Field>, was: Msg, m: Msg, rows: set<nat>, i: nat)
    requires i < |fields| == |m|
  {
    if i in rows then PlainRow(fields[i]) || HarmlessRow(fields, m, i)
    else HarmlessRow(fields, Defaults(fields, was), i)
  }

  predicate AllHarmless(fields: seq<Field>, was: Msg, m: Msg, rows: set<nat>) {
    |m| == |fields| && forall i :: 0 <= i < |fields| ==> Harmless(fields, was, m, rows, i)
  }

  /** What pb_decode accepts, pb_encode takes exactly when each row that the bytes do not bring was
      harmless when the structure had been set to defaults, and each row they bring whose submessages
      have arrays that carry lengths is harmless now. */
  lemma {:induction false} EncodableUnlessLeft(fields: seq<Field>, was: Msg, s: seq<byte>)
    requires SaneTable(fields) && StaticTable(fields) && Conforms(fields, was)
    requires DecMsg(fields, Defaults(fields, was), s).Some?
    ensures var m := DecMsg(fields, Defaults(fields, was), s).value;
            var rows := Brought(fields, s, Start(Defaults(fields, was)));
            Encodable(fields, m) <==> AllHarmless(fields, was, m, rows)
  {
    hide SaneTable, StaticTable, Conforms, DecMsg, Defaults, Encodable, Brought, PlainRow, SafeMsg, HarmlessMsg,
      HarmlessRow, Harmless;
    var m, rows := DecMsg(fields, Defaults(fields, was), s).value, Brought(fields, s, Start(Defaults(fields, was)));
    DecodedIsEncodable(fields, was, s);
    SafeLength(fields, m);
    forall i | 0 <= i < |fields|
      ensures HarmlessRow(fields, m, i) <==> Harmless(fields, was, m, rows, i)
    {
      HarmlessIs(fields, was, m, rows, i);
      if i !in rows {
        UnenteredHarmless(fields, was, s, i);
      } else if PlainRow(fields[i]) {
        BroughtHarmless(fields, was, s, i);
      }
    }
    if HarmlessMsg(fields, m) {
      forall i | 0 <= i < |fields| ensures Harmless(fields, was, m, rows, i) { RowOfHarmless(fields, m, i); }
    } else if AllHarmless(fields, was, m, rows) {
      RowsAreHarmless(fields, m);
    }
  }

  lemma {:induction false} HarmlessIs(fields: seq<Field>, was: Msg, m: Msg, rows: set<nat>, i: nat)
    requires i < |fields| == |m|
    ensures i !in rows ==> (Harmless(fields, was, m, rows, i) <==> HarmlessRow(fields, Defaults(fields, was), i))
    ensures i in rows ==> (Harmless(fields, was, m, rows, i) <==> PlainRow(fields[i]) || HarmlessRow(fields, m, i))
  {
    hide HarmlessRow, PlainRow, Defaults;
  }

  /** What row i's array still holds after the structure was set to defaults can be encoded. */
  predicate OldEntriesEncodable(fields: seq<Field>, was: Msg, i: nat)
    requires i < |fields| && i < |was| && was[i].Many?
  {
    forall k :: 0 <= k < |was[i].entries| ==>
      EncodableVal(fields[i], WipedEntries(fields[i], was[i].entries, SIZEOF_PB_SIZE)[k])
  }

  /** What setting to defaults leaves in a row without such submessages. */
  lemma {:induction false} LeftHarmless(fields: seq<Field>, was: Msg, i: nat)
    requires i < |fields| && Conforms(fields, was) && PlainRow(fields[i])
    ensures |was| == |fields| && (IsFixed(fields, Some(i)) ==> was[i].Many?)
    ensures HarmlessRow(fields, Defaults(fields, was), i) <==>
            (IsFixed(fields, Some(i)) && Carries(fields[i]) ==> OldEntriesEncodable(fields, was, i))
  {
    hide PlainRow, HarmlessVal, EncodableVal, WipedEntries, ConformsItems;
    var d := Defaults(fields, was);
    assert ConformsRow(fields, was, i);
    if IsFixed(fields, Some(i)) && Carries(fields[i]) {
      assert UnionHead(fields, i) == i && d[i] == DefaultSlot(fields, was, i);
    } else {
      PlainRowIsHarmless(fields, d, i);
    }
  }

  /** Each array of the table that carries lengths is in the bytes, or already held entries pb_encode
      takes. */
  predicate AllReceivedOrEncodable(fields: seq<Field>, was: Msg, rows: set<nat>) {
    |was| == |fields| &&
    forall i :: 0 <= i < |fields| && IsFixed(fields, Some(i)) && Carries(fields[i]) && i !in rows ==>
      was[i].Many? && OldEntriesEncodable(fields, was, i)
  }

  /** For tables whose submessages have no arrays that carry lengths, the condition is one on the bytes and
      the old contents alone. */
  lemma {:induction false} PlainEncodable(fields: seq<Field>, was: Msg, s: seq<byte>)
    requires SaneTable(fields) && StaticTable(fields) && Conforms(fields, was)
    requires forall i :: 0 <= i < |fields| ==> PlainRow(fields[i])
    requires DecMsg(fields, Defaults(fields, was), s).Some?
    ensures var m := DecMsg(fields, Defaults(fields, was), s).value;
            var rows := Brought(fields, s, Start(Defaults(fields, was)));
            Encodable(fields, m) <==> AllReceivedOrEncodable(fields, was, rows)
  {
    hide SaneTable, StaticTable, Conforms, DecMsg, Defaults, Encodable, Brought, PlainRow, HarmlessRow, Harmless,
      OldEntriesEncodable;
    var m, rows := DecMsg(fields, Defaults(fields, was), s).value, Brought(fields, s, Start(Defaults(fields, was)));
    EncodableUnlessLeft(fields, was, s);
    ConformsLength(fields, was);
    DecodedIsEncodable(fields, was, s);
    ConformsLength(fields, m);
    forall i | 0 <= i < |fields|
      ensures Harmless(fields, was, m, rows, i) <==>
              (IsFixed(fields, Some(i)) && Carries(fields[i]) && i !in rows ==>
                 was[i].Many? && OldEntriesEncodable(fields, was, i))
    {
      LeftHarmless(fields, was, i);
      HarmlessIs(fields, was, m, rows, i);
    }
  }

  lemma {:induction false} SafeLength(fields: seq<Field>, m: Msg)
    requires SafeMsg(Live, fields, m)
    ensures |m| == |fields|
    ensures forall i :: 0 <= i < |fields| && fields[i].htype == Repeated ==>
            m[i].Many? && |m[i].entries| == fields[i].arraySize
  {
    hide SafeVal, ConformsItems;
    forall i | 0 <= i < |fields| && fields[i].htype == Repeated
      ensures m[i].Many? && |m[i].entries| == fields[i].arraySize
    {
      assert SafeRow(Live, fields, m, i);
      ArrayWithin(Live, fields, m, i);
    }
  }

  lemma {:induction false} CompleteHarmless(fields: seq<Field>, m: Msg, i: nat)
    requires IsFixed(fields, Some(i)) && |m| == |fields| && m[i].Many? && PlainRow(fields[i])
    requires |m[i].entries| == fields[i].arraySize <= m[i].count
    ensures HarmlessRow(fields, m, i)
  {
    hide PlainRow, HarmlessVal, EncodableVal;
    assert m decreases to m[i];
    forall k | 0 <= k < |m[i].entries| ensures HarmlessVal(fields[i], m[i].entries[k]) {
      PlainValIsHarmless(fields[i], m[i].entries[k]);
    }
  }

  lemma {:induction false} RowOfHarmless(fields: seq<Field>, m: Msg, i: nat)
    requires HarmlessMsg(fields, m) && |m| == |fields| && i < |fields|
    ensures HarmlessRow(fields, m, i)
  {
    hide HarmlessVal, HarmlessArray, IsZero;
  }

  lemma {:induction false} RowsAreHarmless(fields: seq<Field>, m: Msg)
    requires |m| == |fields| && forall i :: 0 <= i < |fields| ==> HarmlessRow(fields, m, i)
    ensures HarmlessMsg(fields, m)
  {
    hide HarmlessVal, HarmlessArray, IsZero;
  }

  // ---------- One table ----------

  /** An array of two byte strings of at most four bytes, with a fixed count. */
  const TWO_STRINGS: seq<Field> := [Field(1, Bytes, Repeated, Static, 0, 0, 8, 2, NoPtr)]

  /** An empty message is accepted; the first string becomes empty, the second stays too long. */
  lemma {:induction false} TooLongStringStays()
    ensures var was := [Many(0, [Blob([1, 2, 3, 4, 5]), Blob([1, 2, 3, 4, 5])])];
            var m := [Many(0, [Blob([]), Blob([1, 2, 3, 4, 5])])];
            && SaneTable(TWO_STRINGS) && StaticTable(TWO_STRINGS) && Conforms(TWO_STRINGS, was)
            && DecMsg(TWO_STRINGS, Defaults(TWO_STRINGS, was), []) == Some(m)
            && !Encodable(TWO_STRINGS, m)
  {
    var f, long := TWO_STRINGS[0], Blob([1, 2, 3, 4, 5]);
    var was, m := [Many(0, [long, long])], [Many(0, [Blob([]), long])];
    assert ConformsItems(f, was[0].entries);
    assert ConformsRow(TWO_STRINGS, was, 0);
    assert SaneRow(f) && StaticRow(f);
    assert WipedEntries(f, [long], 0) == [long];
    assert [long, long][1..] == [long];
    assert WipedEntries(f, [long, long], 4) == [Blob([])] + [long] == [Blob([]), long];
    assert Defaults(TWO_STRINGS, was) == m;
    MessageEnds(TWO_STRINGS, m, []);
    LoopStep(TWO_STRINGS, [], Start(m));
    assert RequiredSeen(TWO_STRINGS, {});
    assert !EncodableVal(f, m[0].entries[1]);
    assert Items(f, m[0]) == m[0].entries;
    assert !EncodableItems(f, m[0].entries);
    assert !EncodableRow(TWO_STRINGS, m, 0);
  }
}
