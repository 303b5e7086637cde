/** What pb_decode makes of fields that are there and that are not: required fields, absent fields, and a
    message that ends with a zero byte (pb_decode.c:298-319, 839-922, 1015-1073). */
module Presence {
  import opened Wrappers
  import opened Descriptor
  import opened Varint
  import opened FieldIter
  import opened EncodeSpec
  import opened DecodeSpec
  import opened RoundTrip
  import opened Merge
  import opened Leftovers

  // ---------- Required fields ----------

  /** The required rows among the first i. */
  function RequiredFirst(fields: seq<Field>, i: nat): set<nat>
    requires i <= |fields|
  {
    set j: nat | j < i && fields[j].htype == Required
  }

  /** Row i is one of the first 64 required rows of its table. */
  predicate Enforced(fields: seq<Field>, i: nat) {
    i < |fields| && fields[i].htype == Required && |RequiredFirst(fields, i)| < 64
  }

  lemma {:induction false} RequiredStep(fields: seq<Field>, i: nat)
    requires i < |fields|
    ensures RequiredFirst(fields, i + 1) == RequiredFirst(fields, i) + if fields[i].htype == Required then {i} else {}
    ensures i !in RequiredFirst(fields, i)
  {
  }

  lemma {:induction false} RequiredAre(fields: seq<Field>, i: nat)
    requires i <= |fields|
    ensures RequiredBefore(fields, i) == |RequiredFirst(fields, i)|
  {
    if i > 0 {
      hide RequiredFirst;
      RequiredAre(fields, i - 1);
      RequiredStep(fields, i - 1);
    }
  }

  lemma {:induction false} EnforcedMeans(fields: seq<Field>, i: nat)
    ensures Enforced(fields, i) <==>
            i < |fields| && fields[i].htype == Required && RequiredBefore(fields, i) < MAX_REQUIRED
  {
    if i < |fields| { RequiredAre(fields, i); }
  }

  function EnforcedIn(fields: seq<Field>, rows: set<nat>): set<nat> { set i | i in rows && Enforced(fields, i) }

  lemma {:induction false} FieldMarks(fields: seq<Field>, wiretype: nat, tag: nat, s: seq<byte>, st: DecState)
    requires |st.msg| == |fields| && DecField(fields, wiretype, tag, s, st).Some?
    ensures var index := FieldIndex(fields, tag);
            DecField(fields, wiretype, tag, s, st).value.0.seen ==
            st.seen + if index.Some? && Enforced(fields, index.value) then {index.value} else {}
  {
    hide DecField, DecRow, SkipField, DecVarint32, FieldIndex, Enforced, RequiredBefore;
    FieldStep(fields, wiretype, tag, s, st);
    var index := FieldIndex(fields, tag);
    if index.Some? {
      EnforcedMeans(fields, index.value);
      var st1 := Enter(fields, index.value, st).value;
      RowKeepsSeen(fields, index.value, wiretype, s, st1);
    }
  }

  lemma {:induction false} RowKeepsSeen(fields: seq<Field>, i: nat, wiretype: nat, s: seq<byte>, st: DecState)
    requires i < |fields| && |st.msg| == |fields| && DecRow(fields, i, wiretype, s, st).Some?
    ensures DecRow(fields, i, wiretype, s, st).value.0.seen == st.seen
  {
    hide DecEntries, DecVal, StoreOne, BaseOf;
  }

  lemma {:induction false} SeenAreBrought(fields: seq<Field>, s: seq<byte>, st: DecState)
    requires |st.msg| == |fields| && DecLoop(fields, s, st).Stopped?
    ensures DecLoop(fields, s, st).st.seen == st.seen + EnforcedIn(fields, Brought(fields, s, st))
    decreases |s|
  {
    hide DecLoop, DecField, DecKey, FieldIndex, Enforced;
    LoopStep(fields, s, st);
    KeyShrinks(s);
    if s != [] && DecKey(s).KeyOf? {
      var key := DecKey(s);
      var r := DecField(fields, key.wiretype, key.tag, key.rest, st).value;
      FieldMarks(fields, key.wiretype, key.tag, key.rest, st);
      SeenAreBrought(fields, r.1, r.0);
    }
  }

  /** Exactly when bytes are accepted: every field is well-formed, the last fixed-count array is complete,
      and the bytes bring every one of the first 64 required rows. */
  lemma {:induction false} AcceptedExactly(fields: seq<Field>, m: Msg, s: seq<byte>)
    requires |m| == |fields|
    ensures DecMsg(fields, m, s).Some? <==>
            && DecLoop(fields, s, Start(m)).Stopped? && FixedComplete(fields, DecLoop(fields, s, Start(m)).st)
            && forall i :: Enforced(fields, i) ==> i in Brought(fields, s, Start(m))
  {
    hide DecLoop, Brought, Enforced, FixedComplete;
    MessageEnds(fields, m, s);
    if DecLoop(fields, s, Start(m)).Stopped? {
      SeenAreBrought(fields, s, Start(m));
      forall i: nat ensures Enforced(fields, i) <==>
                            i < |fields| && fields[i].htype == Required && RequiredBefore(fields, i) < MAX_REQUIRED
      {
        EnforcedMeans(fields, i);
      }
    }
  }

  // ---------- Absent fields ----------

  /** A value that was not received: the row's default, or zero or empty. */
  ghost predicate Unset(f: Field, v: Value)
    decreases f, 0
  {
    match f.ltype
    case Submessage => v.Sub? && (match f.ptr case SubFields(sub) => UnsetMsg(sub, v.msg) case _ => v.msg == [])
    case Bytes | String => v == if f.ptr.DefaultValue? then f.ptr.value else Blob([])
    case FixedLengthBytes => v == if f.ptr.DefaultValue? then f.ptr.value else Blob(seq(f.dataSize, _ => 0))
    case _ => v == if f.ptr.DefaultValue? then f.ptr.value else Num(0)
  }

  /** Row i was not received. */
  ghost predicate UnsetRow(fields: seq<Field>, m: Msg, i: nat)
    requires i < |fields| == |m|
    decreases fields, 1
  {
    var f, slot := fields[i], m[UnionHead(fields, i)];
    match f.htype
    case Required => slot.One? && Unset(f, slot.v)
    case Optional => (if f.sizeOffset != 0 then slot.Opt? && !slot.has else slot.One?) && Unset(f, slot.v)
    case Repeated => slot.Many? && slot.count == 0
    case Oneof => slot.Pick? && slot.which != f.tag
  }

  ghost predicate UnsetMsg(fields: seq<Field>, m: Msg)
    decreases fields, 2
  {
    |m| == |fields| && forall i :: 0 <= i < |fields| ==> UnsetRow(fields, m, i)
  }

  lemma {:induction false} DefaultIsUnset(f: Field, was: Value)
    requires StaticRow(f)
    ensures Unset(f, DefaultVal(f, was))
    decreases f, 0
  {
    hide StaticTable, UnsetMsg, Defaults;
    if f.ltype == Submessage && f.ptr.SubFields? {
      DefaultsAreUnset(f.ptr.fields, if was.Sub? then was.msg else []);
    }
  }

  lemma {:induction false} DefaultRowIsUnset(fields: seq<Field>, was: Msg, i: nat)
    requires StaticTable(fields) && i < |fields|
    ensures UnsetRow(fields, Defaults(fields, was), i)
    decreases fields, 1
  {
    hide StaticTable, StaticRow, Unset, DefaultVal, WipedEntries;
    var f, h := fields[i], UnionHead(fields, i);
    assert fields decreases to f;
    RowIsStatic(fields, i);
    SubmessageTag(f);
    assert Defaults(fields, was)[h] == DefaultSlot(fields, was, h);
    DefaultIsUnset(f, ValueOf(if i < |was| then was[i] else Shared));
  }

  lemma {:induction false} SubmessageTag(f: Field)
    requires StaticRow(f)
    ensures f.tag != 0
  {
  }

  /** Setting to defaults leaves a message none of whose fields was received, whatever was there. */
  lemma {:induction false} DefaultsAreUnset(fields: seq<Field>, was: Msg)
    requires StaticTable(fields)
    ensures UnsetMsg(fields, Defaults(fields, was))
    decreases fields, 2
  {
    hide StaticTable, UnsetRow, DefaultSlot;
    forall i | 0 <= i < |fields| ensures UnsetRow(fields, Defaults(fields, was),
                                                  i) { DefaultRowIsUnset(fields, was, i); }
  }

  /** A field the bytes do not bring is absent from the message, and its member holds its own default. */
  lemma {:induction false} AbsentHoldsDefault(fields: seq<Field>, was: Msg, s: seq<byte>, i: nat)
    requires StaticTable(fields) && i < |fields| && DecMsg(fields, Defaults(fields, was), s).Some?
    requires i !in Brought(fields, s, Start(Defaults(fields, was)))
    ensures var m := DecMsg(fields, Defaults(fields, was), s).value;
            |m| == |fields| && UnsetRow(fields, m, i)
  {
    hide DecLoop, Brought, StaticTable, Unset, DefaultVal, DefaultSlot, DistinctTags, RequiredSeen;
    var d := Defaults(fields, was);
    TableIsTagged(fields);
    MessageEnds(fields, d, s);
    UnenteredKept(fields, s, Start(d), i);
    DefaultsAreUnset(fields, was);
    assert UnsetRow(fields, d, i);
    assert fields[i].htype != Oneof ==> UnionHead(fields, i) == i;
  }

  // ---------- A message that ends with a zero byte ----------

  /** After a zero byte nothing is read, and what came before it is read as if it ended there. */
  lemma {:induction false} ZeroByteEnds(fields: seq<Field>, m: Msg, s: seq<byte>, tail: seq<byte>)
    requires |m| == |fields| && DecLoop(fields, s, Start(m)).Stopped? && !DecLoop(fields, s, Start(m)).atZero
    ensures DecMsg(fields, m, s + [0] + tail) == DecMsg(fields, m, s)
    ensures DecLoop(fields, s + [0] + tail, Start(m)) == Stopped(DecLoop(fields, s, Start(m)).st, tail, true)
  {
    hide DecLoop, Accepts;
    var st := DecLoop(fields, s, Start(m)).st;
    MessageEnds(fields, m, s);
    MessageEnds(fields, m, s + [0] + tail);
    EndsEmpty(fields, s, Start(m));
    LoopAppend(fields, s, Start(m), st, [0] + tail);
    assert s + [0] + tail == s + ([0] + tail);
    LoopStep(fields, [0] + tail, st);
    ZeroKey(tail);
  }

  /** What the null-terminated encoder writes comes back, and what follows it is not touched. */
  lemma {:induction false} NullTerminatedComesBack(fields: seq<Field>, m: Msg, was: Msg, tail: seq<byte>)
    returns (m': Msg)
    requires StaticTable(fields) && Conforms(fields, m) && Encodable(fields, m) && Travels(fields, m)
    requires Conforms(fields, was)
    ensures DecMsg(fields, Defaults(fields, was), EncMsg(fields, m) + [0] + tail) == Some(m') && MsgEq(fields, m, m')
    ensures var end := DecLoop(fields, EncMsg(fields, m) + [0] + tail, Start(Defaults(fields, was)));
            end.Stopped? && end.rest == tail
  {
    hide DecLoop, DecMsg, EncMsg, StaticTable, Conforms, Encodable, Travels, MsgEq, Defaults;
    m' := MsgRoundTrip(fields, m, was);
    ZeroByteEnds(fields, Defaults(fields, was), EncMsg(fields, m), tail);
  }

  lemma {:induction false} ZeroKey(tail: seq<byte>)
    ensures DecKey([0] + tail) == EndOfMessage(tail)
  {
    assert ([0] + tail)[1..] == tail;
  }

  lemma {:induction false} EndsEmpty(fields: seq<Field>, s: seq<byte>, st: DecState)
    requires |st.msg| == |fields| && DecLoop(fields, s, st).Stopped? && !DecLoop(fields, s, st).atZero
    ensures DecLoop(fields, s, st).rest == []
    decreases |s|
  {
    hide DecLoop, DecField, DecKey;
    LoopStep(fields, s, st);
    KeyShrinks(s);
    if s != [] && DecKey(s).KeyOf? {
      var key := DecKey(s);
      var r := DecField(fields, key.wiretype, key.tag, key.rest, st).value;
      EndsEmpty(fields, r.1, r.0);
    }
  }
}
