/** A submessage field that occurs again is merged into what its member holds (pb_decode.c:406-420, 466-476,
    1519-1541). */
module SubmessageMerge {
  import opened Wrappers
  import opened Descriptor
  import opened Varint
  import opened FieldIter
  import opened EncodeSpec
  import opened DecodeSpec
  import opened ScalarRoundTrip
  import opened RoundTrip
  import opened Merge

  /** The bytes of a submessage field with payload `p`. */
  function SubField(f: Field, p: seq<byte>): seq<byte> { EncTag(2, f.tag) + EncString(p) }

  /** The slot holds message m for row f: as its only value, with a has_ flag, or as the selected member of
      its union. */
  predicate HoldsMsg(slot: Slot, f: Field, m: Msg) {
    || slot == One(Sub(m))
    || (slot.Opt? && slot.v == Sub(m))
    || slot == Pick(f.tag, Sub(m))
  }

  /** After the field was received. */
  function NowHolds(slot: Slot, f: Field, m: Msg): Slot {
    match slot
    case One(_) => One(Sub(m))
    case Opt(_, _) => Opt(true, Sub(m))
    case Pick(_, _) => Pick(f.tag, Sub(m))
    case _ => slot
  }

  /** A singular submessage row of a table. */
  predicate MessageRow(fields: seq<Field>, i: nat) {
    && StaticTable(fields) && i < |fields| && fields[i].ltype == Submessage && fields[i].htype != Repeated
    && fields[i].ptr.SubFields? && fields[i].tag < 0x2000_0000
  }

  /** The state after row i received message m. */
  function Filled(fields: seq<Field>, i: nat, st: DecState, m: Msg): (st': DecState)
    requires i < |fields| == |st.msg| && Enter(fields, i, st).Some?
    ensures |st'.msg| == |fields|
  {
    var h := UnionHead(fields, i);
    Enter(fields, i, st).value.(msg := st.msg[h := StoreOne(fields[i], st.msg[h], Sub(m))])
  }

  lemma {:induction false} FieldDecodes(fields: seq<Field>, i: nat, st: DecState, p: seq<byte>, tail: seq<byte>,
                                        base: Msg)
    requires MessageRow(fields, i) && |st.msg| == |fields| && |p| < U32
    requires BaseOf(fields[i], st.msg[UnionHead(fields, i)]) == Sub(base)
    ensures var r, end := DecMsg(SubTable(fields[i]), base, p), DecLoop(fields, SubField(fields[i], p) + tail, st);
            && (r.None? ==> end == Failed)
            && (r.Some? ==> Enter(fields, i, st).Some? && end == DecLoop(fields, tail, Filled(fields, i, st, r.value)))
  {
    hide DecMsg, DecLoop, DecField, DecString, DecKey, FieldIndex, StaticTable, StaticRow, BaseOf, UnionHead,
      RequiredBefore, EncString, EncTag;
    var f := fields[i];
    var s := SubField(f, p) + tail;
    assert s == EncTag(2, f.tag) + (EncString(p) + tail);
    RowIsStatic(fields, i);
    HasTag(f);
    KeyRoundTrip(2, f.tag, EncString(p) + tail);
    StringRoundTrip(p, tail);
    IndexOfRow(fields, i);
    LoopStep(fields, s, st);
    FieldStep(fields, 2, f.tag, EncString(p) + tail, st);
  }

  lemma {:induction false} HasTag(f: Field)
    requires StaticRow(f)
    ensures f.tag >= 1
  {
  }

  /** A submessage is decoded onto the message its member holds. */
  lemma {:induction false} OntoWhatIsThere(fields: seq<Field>, i: nat, st: DecState, m0: Msg, p: seq<byte>,
                                           tail: seq<byte>)
    returns (st': DecState)
    requires MessageRow(fields, i) && |st.msg| == |fields| && |p| < U32
    requires HoldsMsg(st.msg[UnionHead(fields, i)], fields[i], m0)
    ensures DecMsg(SubTable(fields[i]), m0, p).None? ==> DecLoop(fields, SubField(fields[i], p) + tail, st) == Failed
    ensures DecMsg(SubTable(fields[i]), m0, p).Some? ==>
              var h := UnionHead(fields, i);
              && st'.msg == st.msg[h := NowHolds(st.msg[h], fields[i], DecMsg(SubTable(fields[i]), m0, p).value)]
              && st'.fixed == st.fixed && st'.fixedCount == st.fixedCount
              && DecLoop(fields, SubField(fields[i], p) + tail, st) == DecLoop(fields, tail, st')
  {
    hide DecMsg, DecLoop, StaticTable, UnionHead, SubField, RequiredBefore;
    FieldDecodes(fields, i, st, p, tail, m0);
    var r, h := DecMsg(SubTable(fields[i]), m0, p), UnionHead(fields, i);
    st' := st;
    if r.Some? { st' := Filled(fields, i, st, r.value); }
  }

  /** In a union that holds another member, or none, it is decoded onto the defaults of a structure of
      zeros. */
  lemma {:induction false} UnionStartsAfresh(fields: seq<Field>, i: nat, st: DecState, p: seq<byte>, tail: seq<byte>)
    returns (st': DecState)
    requires MessageRow(fields, i) && |st.msg| == |fields| && |p| < U32
    requires st.msg[UnionHead(fields, i)].Pick? && st.msg[UnionHead(fields, i)].which != fields[i].tag
    ensures var sub, h := SubTable(fields[i]), UnionHead(fields, i);
            var r := DecMsg(sub, Defaults(sub, ZeroMsg(sub)), p);
            && (r.None? ==> DecLoop(fields, SubField(fields[i], p) + tail, st) == Failed)
            && (r.Some? ==>
                 && st'.msg == st.msg[h := Pick(fields[i].tag, Sub(r.value))]
                 && DecLoop(fields, SubField(fields[i], p) + tail, st) == DecLoop(fields, tail, st'))
  {
    hide DecMsg, DecLoop, StaticTable, UnionHead, SubField, RequiredBefore, Defaults, ZeroMsg;
    var sub, h := SubTable(fields[i]), UnionHead(fields, i);
    FieldDecodes(fields, i, st, p, tail, Defaults(sub, ZeroMsg(sub)));
    var r := DecMsg(sub, Defaults(sub, ZeroMsg(sub)), p);
    st' := st;
    if r.Some? { st' := Filled(fields, i, st, r.value); }
  }

  /** A submessage sent in two pieces: where the member holds m0, `p` takes that to m1 and `q` takes m1 to
      m2, the two fields leave what one field with both payloads leaves; unless the last fixed-count array in
      the one is the first in the other, when that one is refused. */
  lemma {:induction false} PiecesMerge(fields: seq<Field>, i: nat, st: DecState, m0: Msg, p: seq<byte>, m1: Msg,
                                       q: seq<byte>, m2: Msg, tail: seq<byte>)
    requires MessageRow(fields, i) && |st.msg| == |fields| && |p + q| < U32
    requires HoldsMsg(st.msg[UnionHead(fields, i)], fields[i], m0)
    requires DecMsg(SubTable(fields[i]), m0, p) == Some(m1) && !DecLoop(SubTable(fields[i]), p, Start(m0)).atZero
    requires DecMsg(SubTable(fields[i]), m1, q) == Some(m2)
    ensures var f, sub := fields[i], SubTable(fields[i]);
            if FixedRowsClash(sub, m0, p, m1, q) then DecLoop(fields, SubField(f, p + q) + tail, st) == Failed
            else
              DecLoop(fields, SubField(f, p) + SubField(f, q) + tail, st)
              == DecLoop(fields, SubField(f, p + q) + tail, st)
  {
    hide DecMsg, DecLoop, StaticTable, UnionHead, SubField, FixedRowsClash, RequiredBefore;
    var f, sub, h := fields[i], SubTable(fields[i]), UnionHead(fields, i);
    MergeByConcatenation(sub, m0, p, m1, q, m2);
    FieldDecodes(fields, i, st, p, SubField(f, q) + tail, m0);
    FieldDecodes(fields, i, st, p + q, tail, m0);
    var st1 := Filled(fields, i, st, m1);
    FieldDecodes(fields, i, st1, q, tail, m1);
    assert SubField(f, p) + SubField(f, q) + tail == SubField(f, p) + (SubField(f, q) + tail);
    assert st1.msg[h := StoreOne(f, st1.msg[h], Sub(m2))] == st.msg[h := StoreOne(f, st.msg[h], Sub(m2))];
    assert st1.seen + {i} == st1.seen || fields[i].htype != Required || RequiredBefore(fields, i) >= MAX_REQUIRED;
  }

  /** A repeated submessage row with a count member. */
  predicate MessagesRow(fields: seq<Field>, i: nat) {
    && StaticTable(fields) && i < |fields| && fields[i].ltype == Submessage && fields[i].htype == Repeated
    && fields[i].sizeOffset != 0 && fields[i].ptr.SubFields? && fields[i].tag < 0x2000_0000
  }

  lemma {:induction false} DefaultOfSub(f: Field, was: Msg)
    requires f.ltype == Submessage && f.ptr.SubFields?
    ensures DefaultVal(f, Sub(was)) == Sub(Defaults(f.ptr.fields, was))
  {
    hide Defaults;
  }

  lemma {:induction false} EntryDecodes(f: Field, n: nat, old0: Msg, p: seq<byte>, tail: seq<byte>)
    requires f.ltype == Submessage && f.ptr.SubFields? && |p| < U32 && n < f.arraySize
    ensures DecEntries(f, 2, EncString(p) + tail, n, Sub(old0)) ==
            match DecMsg(f.ptr.fields, Defaults(f.ptr.fields, old0), p)
            case None => Fail
            case Some(m1) => Got([Sub(m1)], tail)
  {
    hide DecMsg, DecString, EncString, Defaults, DefaultVal, DecScalar, DecItems;
    DefaultOfSub(f, old0);
    StringRoundTrip(p, tail);
    VarintShrinks(EncString(p) + tail);
  }

  /** Each occurrence is a new entry, decoded onto defaults; when the array is full it is refused. */
  lemma {:induction false} EntryAppended(fields: seq<Field>, i: nat, st: DecState, n: nat, entries: seq<Value>,
                                         old0: Msg,
                                         p: seq<byte>, tail: seq<byte>)
    requires MessagesRow(fields, i) && |st.msg| == |fields| && |p| < U32
    requires st.msg[i] == Many(n, entries) && |entries| == fields[i].arraySize
    requires n < |entries| ==> entries[n] == Sub(old0)
    ensures n >= fields[i].arraySize ==> DecLoop(fields, SubField(fields[i], p) + tail, st) == Failed
    ensures n < fields[i].arraySize ==>
              var sub := SubTable(fields[i]);
              match DecMsg(sub, Defaults(sub, old0), p)
              case None => DecLoop(fields, SubField(fields[i], p) + tail, st) == Failed
              case Some(m1) =>
                DecLoop(fields, SubField(fields[i], p) + tail, st) ==
                DecLoop(fields, tail, st.(msg := st.msg[i := Many(n + 1, entries[n := Sub(m1)])]))
  {
    hide DecMsg, DecLoop, DecField, DecString, DecKey, FieldIndex, StaticTable, StaticRow, RequiredBefore, EncString,
      EncTag,
      Defaults;
    var f, sub := fields[i], SubTable(fields[i]);
    var s := SubField(f, p) + tail;
    assert s == EncTag(2, f.tag) + (EncString(p) + tail);
    RowIsStatic(fields, i);
    HasTag(f);
    KeyRoundTrip(2, f.tag, EncString(p) + tail);
    StringRoundTrip(p, tail);
    IndexOfRow(fields, i);
    LoopStep(fields, s, st);
    FieldStep(fields, 2, f.tag, EncString(p) + tail, st);
    if n < f.arraySize { EntryDecodes(f, n, old0, p, tail); }
    hide DecEntries;
    if n < f.arraySize && DecMsg(sub, Defaults(sub, old0), p).Some? {
      var m1 := DecMsg(sub, Defaults(sub, old0), p).value;
      assert entries[..n] + [Sub(m1)] + entries[n + 1..] == entries[n := Sub(m1)];
    }
  }
}
