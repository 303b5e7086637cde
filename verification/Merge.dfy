/** Concatenating encodings merges messages ("Last One Wins" in the Protocol Buffers encoding
    document), and unknown fields are inert (pb_decode.c:278-331, 406-483, 928-1076). */
module Merge {
  import opened Wrappers
  import opened Bits
  import opened Descriptor
  import opened Varint
  import opened FieldIter
  import opened EncodeSpec
  import opened DecodeSpec
  import ScalarRoundTrip

  // ---------- What follows a payload does not matter ----------

  function Longer<T>(r: Parsed<T>, b: seq<byte>): Parsed<T> {
    if r.Got? then Got(r.value, r.rest + b) else Fail
  }

  lemma {:induction false} TakeVarintLocal(s: seq<byte>, b: seq<byte>)
    requires TakeVarint(s).Got?
    ensures TakeVarint(s + b) == Longer(TakeVarint(s), b)
  {
    TakeVarintSplits(s);
    TakeVarintOf(TakeVarint(s).value, TakeVarint(s).rest + b);
    assert s + b == TakeVarint(s).value + (TakeVarint(s).rest + b);
  }

  lemma {:induction false} VarintFromLocal(s: seq<byte>, bitpos: nat, acc: nat, b: seq<byte>)
    requires DecVarintFrom(s, bitpos, acc).Got?
    ensures DecVarintFrom(s + b, bitpos, acc) == Longer(DecVarintFrom(s, bitpos, acc), b)
    decreases |s|
  {
    hide BitOr, Shl;
    assert (s + b)[1..] == s[1..] + b;
    if s[0] >= 128 { VarintFromLocal(s[1..], bitpos + 7, BitOr(acc, Shl(s[0] % 128, bitpos) % U64), b); }
  }

  lemma {:induction false} Varint32FromLocal(s: seq<byte>, bitpos: nat, acc: nat, b: seq<byte>)
    requires DecVarint32From(s, bitpos, acc).Got?
    ensures DecVarint32From(s + b, bitpos, acc) == Longer(DecVarint32From(s, bitpos, acc), b)
    decreases |s|
  {
    hide BitOr, Shl;
    assert (s + b)[1..] == s[1..] + b;
    if s[0] >= 128 {
      var acc' := if bitpos >= 32 then acc else BitOr(acc, Shl(s[0] % 128, bitpos) % U32);
      Varint32FromLocal(s[1..], (bitpos + 7) % 256, acc', b);
    }
  }

  lemma {:induction false} VarintsLocal(s: seq<byte>, b: seq<byte>)
    ensures DecVarint(s).Got? ==> DecVarint(s + b) == Longer(DecVarint(s), b)
    ensures DecVarint32(s).Got? ==> DecVarint32(s + b) == Longer(DecVarint32(s), b)
  {
    hide DecVarintFrom, DecVarint32From;
    if DecVarint(s).Got? { VarintFromLocal(s, 0, 0, b); }
    if DecVarint32(s).Got? {
      assert (s + b)[1..] == s[1..] + b;
      if s[0] >= 128 { Varint32FromLocal(s[1..], 7, s[0] % 128, b); }
    }
  }

  lemma {:induction false} ReadLocal(s: seq<byte>, n: nat, b: seq<byte>)
    requires n <= |s|
    ensures (s + b)[..n] == s[..n] && (s + b)[n..] == s[n..] + b
  {
  }

  lemma {:induction false} StringLocal(s: seq<byte>, b: seq<byte>)
    requires DecString(s).Got?
    ensures DecString(s + b) == Longer(DecString(s), b)
  {
    hide DecVarint32;
    VarintsLocal(s, b);
    var n := DecVarint32(s);
    if n.Got? && n.value <= |n.rest| { ReadLocal(n.rest, n.value, b); }
  }

  lemma {:induction false} SkipLocal(wiretype: nat, s: seq<byte>, b: seq<byte>)
    requires SkipField(wiretype, s).Some?
    ensures SkipField(wiretype, s + b) == Some(SkipField(wiretype, s).value + b)
  {
    hide TakeVarint, DecString;
    match wiretype {
      case 0 => TakeVarintLocal(s, b);
      case 1 => ReadLocal(s, 8, b);
      case 2 => StringLocal(s, b);
      case 5 => ReadLocal(s, 4, b);
      case _ =>
    }
  }

  lemma {:induction false} KeyLocal(s: seq<byte>, b: seq<byte>)
    requires DecKey(s).KeyOf?
    ensures DecKey(s + b) == DecKey(s).(rest := DecKey(s).rest + b)
  {
    hide DecVarint32;
    VarintsLocal(s, b);
  }

  lemma {:induction false} ScalarLocal(f: Field, s: seq<byte>, b: seq<byte>)
    requires DecScalar(f, s).Got?
    ensures DecScalar(f, s + b) == Longer(DecScalar(f, s), b)
  {
    hide DecVarint, DecVarint32, FromLittleEndian, FromZigZag, ToI64, ToI32, IntegerSize, HalfRange, Zeros;
    VarintsLocal(s, b);
    match f.ltype {
      case Fixed32 => ReadLocal(s, 4, b);
      case Fixed64 => ReadLocal(s, 8, b);
      case Bytes | String | FixedLengthBytes =>
        var n := DecVarint32(s);
        if n.value <= |n.rest| { ReadLocal(n.rest, n.value, b); }
      case _ =>
    }
  }

  lemma {:induction false} ValLocal(f: Field, base: Value, s: seq<byte>, b: seq<byte>)
    requires DecVal(f, base, s).Got?
    ensures DecVal(f, base, s + b) == Longer(DecVal(f, base, s), b)
  {
    hide DecScalar, DecString, DecMsg;
    if f.ltype == Submessage { StringLocal(s, b); } else { ScalarLocal(f, s, b); }
  }

  lemma {:induction false} EntriesLocal(f: Field, wiretype: nat, s: seq<byte>, count: nat, entry: Value, b: seq<byte>)
    requires DecEntries(f, wiretype, s, count, entry).Got?
    ensures DecEntries(f, wiretype, s + b, count, entry) == Longer(DecEntries(f, wiretype, s, count, entry), b)
  {
    hide DecVal, DecString, DecItems, DefaultVal;
    if wiretype == WT_STRING && f.ltype.Packable() {
      StringLocal(s, b);
    } else {
      ValLocal(f, DefaultVal(f, entry), s, b);
    }
  }

  lemma {:induction false} RowLocal(fields: seq<Field>, i: nat, wiretype: nat, s: seq<byte>, st: DecState, b: seq<byte>)
    requires i < |fields| && |st.msg| == |fields| && DecRow(fields, i, wiretype, s, st).Some?
    ensures var r := DecRow(fields, i, wiretype, s, st).value;
            DecRow(fields, i, wiretype, s + b, st) == Some((r.0, r.1 + b))
  {
    hide DecEntries, DecVal, Store, StoreOne, BaseOf, Received, EntryAt;
    var f := fields[i];
    if f.htype == Repeated {
      var n := Received(f, st, i);
      EntriesLocal(f, wiretype, s, n, EntryAt(st.msg[i], n), b);
    } else {
      ValLocal(f, BaseOf(f, st.msg[UnionHead(fields, i)]), s, b);
    }
  }

  lemma {:induction false} FieldLocal(fields: seq<Field>, wiretype: nat, tag: nat, s: seq<byte>, st: DecState,
                                      b: seq<byte>)
    requires |st.msg| == |fields| && DecField(fields, wiretype, tag, s, st).Some?
    ensures var r := DecField(fields, wiretype, tag, s, st).value;
            DecField(fields, wiretype, tag, s + b, st) == Some((r.0, r.1 + b))
  {
    hide DecRow, Enter, SkipField, DecVarint32, DecField, FieldIndex;
    FieldStep(fields, wiretype, tag, s, st);
    FieldStep(fields, wiretype, tag, s + b, st);
    VarintsLocal(s, b);
    var index := FieldIndex(fields, tag);
    if SkipField(wiretype, s).Some? { SkipLocal(wiretype, s, b); }
    if index.Some? && Enter(fields, index.value, st).Some? {
      EnterKeeps(fields, index.value, st);
      var st1 := Enter(fields, index.value, st).value;
      if DecRow(fields, index.value, wiretype, s, st1).Some? { RowLocal(fields, index.value, wiretype, s, st1, b); }
    }
  }

  lemma {:induction false} EnterKeeps(fields: seq<Field>, i: nat, st: DecState)
    requires i < |fields| && Enter(fields, i, st).Some?
    ensures Enter(fields, i, st).value.msg == st.msg
    ensures Enter(fields, i, st).value.seen >= st.seen
  {
  }

  // ---------- Decoding a concatenation ----------

  /** `a` is read to its end, not stopped by a zero key, and leaves the loop in state `st'`. */
  predicate RunsTo(fields: seq<Field>, a: seq<byte>, st: DecState, st': DecState)
    requires |st.msg| == |fields|
  {
    DecLoop(fields, a, st) == Stopped(st', [], false)
  }

  /** The loop goes on after `a` as it would have started there. */
  lemma {:induction false} LoopAppend(fields: seq<Field>, a: seq<byte>, st: DecState, st': DecState, b: seq<byte>)
    requires |st.msg| == |fields| && RunsTo(fields, a, st, st')
    ensures |st'.msg| == |fields|
    ensures DecLoop(fields, a + b, st) == DecLoop(fields, b, st')
    decreases |a|
  {
    hide DecLoop, DecField, DecKey;
    LoopStep(fields, a, st);
    if a == [] {
      assert a + b == b;
    } else {
      LoopStep(fields, a + b, st);
      KeyShrinks(a);
      KeyLocal(a, b);
      var key := DecKey(a);
      FieldLocal(fields, key.wiretype, key.tag, key.rest, st, b);
      var r := DecField(fields, key.wiretype, key.tag, key.rest, st).value;
      LoopAppend(fields, r.1, r.0, st', b);
    }
  }

  /** A zero key, though, ends the message for good: whatever follows `a` is ignored. */
  lemma {:induction false} ZeroKeyEnds(fields: seq<Field>, a: seq<byte>, st: DecState, b: seq<byte>)
    requires |st.msg| == |fields| && DecLoop(fields, a, st).Stopped? && DecLoop(fields, a, st).atZero
    ensures var end := DecLoop(fields, a, st);
            DecLoop(fields, a + b, st) == end.(rest := end.rest + b)
    decreases |a|
  {
    hide DecLoop, DecField, DecKey;
    LoopStep(fields, a, st);
    LoopStep(fields, a + b, st);
    KeyShrinks(a);
    if DecKey(a).KeyOf? {
      KeyLocal(a, b);
      var key := DecKey(a);
      FieldLocal(fields, key.wiretype, key.tag, key.rest, st, b);
      var r := DecField(fields, key.wiretype, key.tag, key.rest, st).value;
      ZeroKeyEnds(fields, r.1, r.0, b);
    } else {
      ZeroKeyLocal(a, b);
    }
  }

  lemma {:induction false} ZeroKeyLocal(s: seq<byte>, b: seq<byte>)
    requires DecKey(s).EndOfMessage?
    ensures DecKey(s + b) == EndOfMessage(DecKey(s).rest + b)
  {
    hide DecVarint32;
    VarintsLocal(s, b);
  }

  // ---------- Rows seen before, fixed-count rows entered before ----------

  /** The same state, with other rows seen before. */
  function Also(st: DecState, seen: set<nat>): DecState { st.(seen := st.seen + seen) }

  lemma {:induction false} RowAlso(fields: seq<Field>, i: nat, wiretype: nat, s: seq<byte>, st: DecState,
                                   seen: set<nat>)
    requires i < |fields| && |st.msg| == |fields|
    ensures DecRow(fields, i, wiretype, s, st).None? ==> DecRow(fields, i, wiretype, s, Also(st, seen)).None?
    ensures DecRow(fields, i, wiretype, s, st).Some? ==>
              var r := DecRow(fields, i, wiretype, s, st).value;
              DecRow(fields, i, wiretype, s, Also(st, seen)) == Some((Also(r.0, seen), r.1))
  {
    hide DecEntries, DecVal, StoreOne, BaseOf;
  }

  lemma {:induction false} FieldAlso(fields: seq<Field>, wiretype: nat, tag: nat, s: seq<byte>, st: DecState,
                                     seen: set<nat>)
    requires |st.msg| == |fields|
    ensures DecField(fields, wiretype, tag, s, st).None? ==> DecField(fields, wiretype, tag, s, Also(st, seen)).None?
    ensures DecField(fields, wiretype, tag, s, st).Some? ==>
              var r := DecField(fields, wiretype, tag, s, st).value;
              DecField(fields, wiretype, tag, s, Also(st, seen)) == Some((Also(r.0, seen), r.1))
  {
    hide DecField, DecRow, SkipField, DecVarint32, FieldIndex;
    FieldStep(fields, wiretype, tag, s, st);
    FieldStep(fields, wiretype, tag, s, Also(st, seen));
    var index := FieldIndex(fields, tag);
    if index.Some? && Enter(fields, index.value, st).Some? {
      var st1 := Enter(fields, index.value, st).value;
      assert st.seen + {index.value} + seen == st.seen + seen + {index.value};
      assert Enter(fields, index.value, Also(st, seen)) == Some(Also(st1, seen));
      EnterKeeps(fields, index.value, st);
      RowAlso(fields, index.value, wiretype, s, st1, seen);
    }
  }

  /** Rows seen before change nothing but what is seen in the end. */
  lemma {:induction false} LoopAlso(fields: seq<Field>, s: seq<byte>, st: DecState, seen: set<nat>)
    requires |st.msg| == |fields|
    ensures DecLoop(fields, s, st).Failed? ==> DecLoop(fields, s, Also(st, seen)).Failed?
    ensures DecLoop(fields, s, st).Stopped? ==>
              var end := DecLoop(fields, s, st);
              DecLoop(fields, s, Also(st, seen)) == end.(st := Also(end.st, seen))
    decreases |s|
  {
    hide DecLoop, DecField, DecKey;
    LoopStep(fields, s, st);
    LoopStep(fields, s, Also(st, seen));
    KeyShrinks(s);
    if s != [] && DecKey(s).KeyOf? {
      var key := DecKey(s);
      FieldAlso(fields, key.wiretype, key.tag, key.rest, st, seen);
      var r := DecField(fields, key.wiretype, key.tag, key.rest, st);
      if r.Some? { LoopAlso(fields, r.value.1, r.value.0, seen); }
    }
  }

  predicate IsFixed(fields: seq<Field>, index: Option<nat>) {
    index.Some? && index.value < |fields| && fields[index.value].htype == Repeated
        && fields[index.value].sizeOffset == 0
  }

  /** The fixed-count rows the loop enters, in order. */
  function FixedRows(fields: seq<Field>, s: seq<byte>, st: DecState): seq<nat>
    requires |st.msg| == |fields|
    decreases |s|
  {
    if s == [] || !DecKey(s).KeyOf? then []
    else
      KeyShrinks(s);
      var key := DecKey(s);
      match DecField(fields, key.wiretype, key.tag, key.rest, st)
      case None => []
      case Some((st', rest)) =>
        var index := FieldIndex(fields, key.tag);
        (if IsFixed(fields, index) then [index.value] else []) + FixedRows(fields, rest, st')
  }

  /** The same state, with another fixed-count row in progress. */
  function Amid(st: DecState, fixed: Option<nat>, count: nat): DecState { st.(fixed := fixed, fixedCount := count) }

  lemma {:induction false} RowAmid(fields: seq<Field>, i: nat, wiretype: nat, s: seq<byte>, st: DecState,
                                   fixed: Option<nat>, count: nat)
    requires i < |fields| && |st.msg| == |fields| && !IsFixed(fields, Some(i))
    ensures DecRow(fields, i, wiretype, s, st).None? ==> DecRow(fields, i, wiretype, s, Amid(st, fixed, count)).None?
    ensures DecRow(fields, i, wiretype, s, st).Some? ==>
              var r := DecRow(fields, i, wiretype, s, st).value;
              DecRow(fields, i, wiretype, s, Amid(st, fixed, count)) == Some((Amid(r.0, fixed, count), r.1))
              && r.0.fixed == st.fixed && r.0.fixedCount == st.fixedCount
  {
    hide DecEntries, DecVal, StoreOne, BaseOf;
  }

  /** Other fields do not notice which fixed-count row is in progress. */
  lemma {:induction false} FieldAmid(fields: seq<Field>, wiretype: nat, tag: nat, s: seq<byte>, st: DecState,
                                     fixed: Option<nat>, count: nat)
    requires |st.msg| == |fields| && !IsFixed(fields, FieldIndex(fields, tag))
    ensures DecField(fields, wiretype, tag, s, st).None? ==>
              DecField(fields, wiretype, tag, s, Amid(st, fixed, count)).None?
    ensures DecField(fields, wiretype, tag, s, st).Some? ==>
              var r := DecField(fields, wiretype, tag, s, st).value;
              DecField(fields, wiretype, tag, s, Amid(st, fixed, count)) == Some((Amid(r.0, fixed, count), r.1))
              && r.0.fixed == st.fixed && r.0.fixedCount == st.fixedCount
  {
    hide DecField, DecRow, SkipField, DecVarint32, FieldIndex;
    FieldStep(fields, wiretype, tag, s, st);
    FieldStep(fields, wiretype, tag, s, Amid(st, fixed, count));
    var index := FieldIndex(fields, tag);
    if index.Some? {
      var st1 := Enter(fields, index.value, st).value;
      assert Enter(fields, index.value, Amid(st, fixed, count)) == Some(Amid(st1, fixed, count));
      RowAmid(fields, index.value, wiretype, s, st1, fixed, count);
    }
  }

  /** Fixed-count rows of `x` and of `y` clash: the last of one is the first of the other, and its array
      is full already. */
  predicate Clash(fields: seq<Field>, last: Option<nat>, y: seq<nat>) {
    last.Some? && y != [] && last.value == y[0] && y[0] < |fields| && fields[y[0]].arraySize > 0
  }

  /** A complete fixed-count row changes nothing for what follows, unless that begins with the same row. */
  lemma {:induction false} LoopAmid(fields: seq<Field>, s: seq<byte>, st: DecState, fixed: Option<nat>, count: nat)
    requires |st.msg| == |fields| && st.fixed == None && st.fixedCount == 0
    requires FixedComplete(fields, Amid(st, fixed, count)) && (fixed.Some? ==> fixed.value < |fields|)
    requires !Clash(fields, fixed, FixedRows(fields, s, st))
    ensures DecLoop(fields, s, st).Failed? ==> DecLoop(fields, s, Amid(st, fixed, count)).Failed?
    ensures DecLoop(fields, s, st).Stopped? ==>
              var end := DecLoop(fields, s, st);
              DecLoop(fields, s, Amid(st, fixed, count)) ==
              if FixedRows(fields, s, st) == [] then end.(st := Amid(end.st, fixed, count)) else end
    ensures DecLoop(fields, s, st).Stopped? && FixedRows(fields, s, st) == [] ==>
            DecLoop(fields, s, st).st.fixed == None
    decreases |s|
  {
    hide DecLoop, DecField, DecKey, FieldIndex, IsFixed;
    var st' := Amid(st, fixed, count);
    LoopStep(fields, s, st);
    LoopStep(fields, s, st');
    KeyShrinks(s);
    if s != [] && DecKey(s).KeyOf? {
      var key := DecKey(s);
      var r := DecField(fields, key.wiretype, key.tag, key.rest, st);
      if IsFixed(fields, FieldIndex(fields, key.tag)) {
        EntersAlike(fields, key.wiretype, key.tag, key.rest, st, fixed, count);
      } else {
        FieldAmid(fields, key.wiretype, key.tag, key.rest, st, fixed, count);
        if r.Some? {
          assert [] + FixedRows(fields, r.value.1, r.value.0) == FixedRows(fields, r.value.1, r.value.0);
          LoopAmid(fields, r.value.1, r.value.0, fixed, count);
        }
      }
    }
  }

  /** A fixed-count row is entered alike after nothing and after a complete row. */
  lemma {:induction false} EntersAlike(fields: seq<Field>, wiretype: nat, tag: nat, s: seq<byte>, st: DecState,
                                       fixed: Option<nat>, count: nat)
    requires |st.msg| == |fields| && st.fixed == None && st.fixedCount == 0 && IsFixed(fields, FieldIndex(fields, tag))
    requires FixedComplete(fields, Amid(st, fixed, count)) && (fixed.Some? ==> fixed.value < |fields|)
    requires DecField(fields, wiretype, tag, s, st).Some? ==> !Clash(fields, fixed, [FieldIndex(fields, tag).value])
    ensures DecField(fields, wiretype, tag, s, st).Some? ==>
              DecField(fields, wiretype, tag, s, Amid(st, fixed, count)) == DecField(fields, wiretype, tag, s, st)
    ensures DecField(fields, wiretype, tag, s, st).None? ==>
            DecField(fields, wiretype, tag, s, Amid(st, fixed, count)).None?
  {
    hide DecField, DecRow, SkipField, DecVarint32, FieldIndex;
    FieldStep(fields, wiretype, tag, s, st);
    FieldStep(fields, wiretype, tag, s, Amid(st, fixed, count));
    var i := FieldIndex(fields, tag).value;
    if fixed == Some(i) && fields[i].arraySize > 0 {
      FullRefuses(fields, i, wiretype, s, Amid(st, fixed, count), Amid(st, fixed, 0));
    }
  }

  /** A full array refuses what an empty one refuses, and takes only empty runs. */
  lemma {:induction false} FullRefuses(fields: seq<Field>, i: nat, wiretype: nat, s: seq<byte>, full: DecState,
                                       empty: DecState)
    requires i < |fields| && |full.msg| == |fields| && IsFixed(fields, Some(i))
    requires full.fixedCount == fields[i].arraySize > 0 && empty == full.(fixedCount := 0, seen := empty.seen)
    ensures DecRow(fields, i, wiretype, s, full).Some? ==>
              var r := DecRow(fields, i, wiretype, s, full).value;
              && r.0 == full && DecRow(fields, i, wiretype, s, empty) == Some((empty, r.1))
  {
    hide DecEntries, DefaultVal;
    var n, have := fields[i].arraySize, full.msg[i];
    if DecRow(fields, i, wiretype, s, full).Some? {
      FullTakesNone(fields[i], wiretype, s, EntryAt(have, n), EntryAt(have, 0));
      assert have.entries[..n] + [] + have.entries[n..] == have.entries;
      assert have.entries[..0] + [] + have.entries[0..] == have.entries;
      assert full.msg[i := have] == full.msg;
    }
  }

  /** A full array receives no entries, which is what it could receive when it was empty. */
  lemma {:induction false} FullTakesNone(f: Field, wiretype: nat, s: seq<byte>, entry: Value, first: Value)
    requires DecEntries(f, wiretype, s, f.arraySize, entry).Got?
    ensures DecEntries(f, wiretype, s, f.arraySize, entry).value == []
    ensures DecEntries(f, wiretype, s, 0, first) == DecEntries(f, wiretype, s, f.arraySize, entry)
  {
    hide DecVal, DecString;
    NoRoom(f, DecString(s).value);
  }

  lemma {:induction false} NoRoom(f: Field, s: seq<byte>)
    ensures DecItems(f, s, 0).Some? ==> s == []
    ensures DecItems(f, [], f.arraySize) == Some([]) && DecItems(f, [], 0) == Some([])
  {
  }

  /** Received from nothing and from full: if the one ends complete, the other fails. */
  lemma {:induction false} FullNeverEnds(fields: seq<Field>, s: seq<byte>, st: DecState, i: nat)
    requires |st.msg| == |fields| && st.fixed == Some(i) && st.fixedCount == 0
    requires IsFixed(fields, Some(i)) && fields[i].arraySize > 0
    requires DecLoop(fields, s, st).Stopped? && FixedComplete(fields, DecLoop(fields, s, st).st)
    ensures DecLoop(fields, s, Amid(st, Some(i), fields[i].arraySize)).Failed?
    decreases |s|
  {
    hide DecLoop, DecField, DecKey, FieldIndex;
    var n := fields[i].arraySize;
    var full := Amid(st, Some(i), n);
    LoopStep(fields, s, st);
    LoopStep(fields, s, full);
    KeyShrinks(s);
    var key := DecKey(s);
    assert s != [] && key.KeyOf?;
    var r := DecField(fields, key.wiretype, key.tag, key.rest, st);
    if IsFixed(fields, FieldIndex(fields, key.tag)) {
      FullField(fields, key.wiretype, key.tag, key.rest, st, i);
      if DecField(fields, key.wiretype, key.tag, key.rest, full).Some? {
        FullNeverEnds(fields, r.value.1, r.value.0, i);
      }
    } else {
      FieldAmid(fields, key.wiretype, key.tag, key.rest, st, Some(i), n);
      FullNeverEnds(fields, r.value.1, r.value.0, i);
    }
  }

  /** A fixed-count field at an array of which one reader thinks it is empty, the other that it is full. */
  lemma {:induction false} FullField(fields: seq<Field>, wiretype: nat, tag: nat, s: seq<byte>, st: DecState, i: nat)
    requires |st.msg| == |fields| && st.fixed == Some(i) && st.fixedCount == 0
    requires IsFixed(fields, Some(i)) && fields[i].arraySize > 0 && IsFixed(fields, FieldIndex(fields, tag))
    requires DecField(fields, wiretype, tag, s, st).Some?
    ensures FieldIndex(fields, tag) == Some(i)
    ensures var r := DecField(fields, wiretype, tag, s, Amid(st, Some(i), fields[i].arraySize));
            r.Some? ==> DecField(fields, wiretype, tag, s, st) == Some((st, r.value.1))
                        && r.value.0 == Amid(st, Some(i), fields[i].arraySize)
  {
    hide DecField, DecRow, SkipField, DecVarint32, FieldIndex;
    var full := Amid(st, Some(i), fields[i].arraySize);
    FieldStep(fields, wiretype, tag, s, st);
    FieldStep(fields, wiretype, tag, s, full);
    FullRefuses(fields, i, wiretype, s, full, st);
  }

  /** ... and the same when the clash is still ahead. */
  lemma {:induction false} ClashFails(fields: seq<Field>, s: seq<byte>, st: DecState, i: nat)
    requires |st.msg| == |fields| && st.fixed == None && st.fixedCount == 0
    requires IsFixed(fields, Some(i)) && Clash(fields, Some(i), FixedRows(fields, s, st))
    requires DecLoop(fields, s, st).Stopped? && FixedComplete(fields, DecLoop(fields, s, st).st)
    ensures DecLoop(fields, s, Amid(st, Some(i), fields[i].arraySize)).Failed?
    decreases |s|
  {
    hide DecLoop, DecField, DecKey, FieldIndex;
    var n := fields[i].arraySize;
    var full := Amid(st, Some(i), n);
    LoopStep(fields, s, st);
    LoopStep(fields, s, full);
    KeyShrinks(s);
    var key := DecKey(s);
    var r := DecField(fields, key.wiretype, key.tag, key.rest, st);
    if IsFixed(fields, FieldIndex(fields, key.tag)) {
      EntersEmpty(fields, key.wiretype, key.tag, key.rest, st, i);
      FullField(fields, key.wiretype, key.tag, key.rest, Amid(st, Some(i), 0), i);
      if DecField(fields, key.wiretype, key.tag, key.rest, full).Some? {
        FullNeverEnds(fields, r.value.1, r.value.0, i);
      }
    } else {
      FieldAmid(fields, key.wiretype, key.tag, key.rest, st, Some(i), n);
      assert [] + FixedRows(fields, r.value.1, r.value.0) == FixedRows(fields, r.value.1, r.value.0);
      ClashFails(fields, r.value.1, r.value.0, i);
    }
  }

  lemma {:induction false} EntersEmpty(fields: seq<Field>, wiretype: nat, tag: nat, s: seq<byte>, st: DecState, i: nat)
    requires |st.msg| == |fields| && st.fixed == None && st.fixedCount == 0
    requires FieldIndex(fields, tag) == Some(i) && IsFixed(fields, Some(i))
    ensures DecField(fields, wiretype, tag, s, Amid(st, Some(i), 0)) == DecField(fields, wiretype, tag, s, st)
  {
    hide DecField, DecRow, SkipField, DecVarint32, FieldIndex;
    FieldStep(fields, wiretype, tag, s, st);
    FieldStep(fields, wiretype, tag, s, Amid(st, Some(i), 0));
  }

  /** The loop remembers the last fixed-count row it entered. */
  lemma {:induction false} LastFixed(fields: seq<Field>, s: seq<byte>, st: DecState)
    requires |st.msg| == |fields| && DecLoop(fields, s, st).Stopped?
    requires st.fixed.Some? ==> IsFixed(fields, st.fixed)
    ensures var x, end := FixedRows(fields, s, st), DecLoop(fields, s, st).st;
            && end.fixed == (if x == [] then st.fixed else Some(x[|x| - 1]))
            && (end.fixed.Some? ==> IsFixed(fields, end.fixed)) && |end.msg| == |fields|
            && (x == [] ==> end.fixedCount == st.fixedCount)
    decreases |s|
  {
    hide DecLoop, DecField, DecKey, FieldIndex;
    LoopStep(fields, s, st);
    KeyShrinks(s);
    if s != [] && DecKey(s).KeyOf? {
      var key := DecKey(s);
      var r := DecField(fields, key.wiretype, key.tag, key.rest, st).value;
      EntersFixed(fields, key.wiretype, key.tag, key.rest, st);
      LastFixed(fields, r.1, r.0);
    }
  }

  lemma {:induction false} EntersFixed(fields: seq<Field>, wiretype: nat, tag: nat, s: seq<byte>, st: DecState)
    requires |st.msg| == |fields| && DecField(fields, wiretype, tag, s, st).Some?
    ensures var index, r := FieldIndex(fields, tag), DecField(fields, wiretype, tag, s, st).value;
            if IsFixed(fields, index) then r.0.fixed == index
            else r.0.fixed == st.fixed && r.0.fixedCount == st.fixedCount
  {
    hide DecField, DecRow, SkipField, DecVarint32, FieldIndex;
    FieldStep(fields, wiretype, tag, s, st);
    var index := FieldIndex(fields, tag);
    if index.Some? && Enter(fields, index.value, st).Some? {
      EnterKeeps(fields, index.value, st);
      var st1 := Enter(fields, index.value, st).value;
      if DecRow(fields, index.value, wiretype, s, st1).Some? { RowKeepsFixed(fields, index.value, wiretype, s, st1); }
    }
  }

  lemma {:induction false} RowKeepsFixed(fields: seq<Field>, i: nat, wiretype: nat, s: seq<byte>, st: DecState)
    requires i < |fields| && |st.msg| == |fields| && DecRow(fields, i, wiretype, s, st).Some?
    ensures var r := DecRow(fields, i, wiretype, s, st).value.0;
            r.fixed == st.fixed && (!IsFixed(fields, Some(i)) ==> r.fixedCount == st.fixedCount)
  {
    hide DecEntries, DecVal, StoreOne, BaseOf;
  }

  // ---------- Merging ----------

  /** What decoding `b` after `a` means: onto what `a` gave, with the required rows of both, when the
      fixed-count rows do not clash. */
  lemma {:induction false} DecodeConcatenation(fields: seq<Field>, m0: Msg, a: seq<byte>, st1: DecState, b: seq<byte>)
    requires |m0| == |fields| && RunsTo(fields, a, Start(m0), st1) && FixedComplete(fields, st1)
    requires |st1.msg| == |fields| && !Clash(fields, st1.fixed, FixedRows(fields, b, Start(st1.msg)))
    ensures var end := DecLoop(fields, b, Start(st1.msg));
            DecMsg(fields, m0, a + b) ==
            if end.Stopped? && FixedComplete(fields, end.st) && RequiredSeen(fields, st1.seen + end.st.seen)
            then Some(end.st.msg) else None
  {
    hide DecLoop, RequiredSeen, DecMsg, FixedRows;
    var clean := Start(st1.msg);
    LoopAppend(fields, a, Start(m0), st1, b);
    LastFixed(fields, a, Start(m0));
    LoopAmid(fields, b, clean, st1.fixed, st1.fixedCount);
    LoopAlso(fields, b, Amid(clean, st1.fixed, st1.fixedCount), st1.seen);
    assert Also(Amid(clean, st1.fixed, st1.fixedCount), st1.seen) == st1;
    MessageEnds(fields, m0, a + b);
    var end := DecLoop(fields, b, clean);
    if end.Stopped? { assert Also(end.st, st1.seen).seen == st1.seen + end.st.seen; }
  }

  lemma {:induction false} MoreIsSeen(fields: seq<Field>, seen: set<nat>, more: set<nat>)
    requires RequiredSeen(fields, seen) && seen <= more
    ensures RequiredSeen(fields, more)
  {
  }

  /** Merge by concatenation: if `a` takes m0 to m1 and `b` takes m1 to m2, then a ++ b takes m0 to m2,
      unless the last fixed-count row `a` enters is the first one `b` enters and has entries; then a ++ b
      is refused. */
  lemma {:induction false} MergeByConcatenation(fields: seq<Field>, m0: Msg, a: seq<byte>, m1: Msg, b: seq<byte>,
                                                m2: Msg)
    requires DecMsg(fields, m0, a) == Some(m1) && !DecLoop(fields, a, Start(m0)).atZero
    requires DecMsg(fields, m1, b) == Some(m2)
    ensures DecMsg(fields, m0, a + b) == Some(m2) <==> !FixedRowsClash(fields, m0, a, m1, b)
    ensures FixedRowsClash(fields, m0, a, m1, b) ==> DecMsg(fields, m0, a + b) == None
  {
    hide DecLoop, RequiredSeen, DecMsg, FixedRows, Clash;
    MessageEnds(fields, m0, a);
    MessageEnds(fields, m1, b);
    var st1, end := DecLoop(fields, a, Start(m0)).st, DecLoop(fields, b, Start(m1));
    NotAtZero(fields, a, Start(m0));
    LastFixed(fields, a, Start(m0));
    if Clash(fields, st1.fixed, FixedRows(fields, b, Start(m1))) {
      ClashIsFull(fields, st1, FixedRows(fields, b, Start(m1)));
      ClashFails(fields, b, Start(m1), st1.fixed.value);
      LoopAppend(fields, a, Start(m0), st1, b);
      var amid := Amid(Start(m1), st1.fixed, st1.fixedCount);
      LoopAlso(fields, b, amid, st1.seen);
      assert Also(amid, st1.seen) == st1;
      MessageEnds(fields, m0, a + b);
    } else {
      DecodeConcatenation(fields, m0, a, st1, b);
      MoreIsSeen(fields, end.st.seen, st1.seen + end.st.seen);
    }
  }

  predicate FixedRowsClash(fields: seq<Field>, m0: Msg, a: seq<byte>, m1: Msg, b: seq<byte>) {
    && |m0| == |fields| == |m1|
    && var x := FixedRows(fields, a, Start(m0));
       Clash(fields, if x == [] then None else Some(x[|x| - 1]), FixedRows(fields, b, Start(m1)))
  }

  lemma {:induction false} ClashIsFull(fields: seq<Field>, st: DecState, y: seq<nat>)
    requires FixedComplete(fields, st) && Clash(fields, st.fixed, y)
    ensures st.fixed.Some? && st.fixed.value < |fields| && st.fixedCount == fields[st.fixed.value].arraySize
  {
  }

  lemma {:induction false} NotAtZero(fields: seq<Field>, s: seq<byte>, st: DecState)
    requires |st.msg| == |fields| && DecLoop(fields, s, st).Stopped? && !DecLoop(fields, s, st).atZero
    ensures DecLoop(fields, s, st).rest == []
    decreases |s|
  {
    hide DecLoop, DecField, DecKey;
    LoopStep(fields, s, st);
    KeyShrinks(s);
    if s != [] && DecKey(s).KeyOf? {
      var key := DecKey(s);
      var r := DecField(fields, key.wiretype, key.tag, key.rest, st).value;
      NotAtZero(fields, r.1, r.0);
    }
  }

  /** A table with one fixed-count row: an array of one bool. */
  const ONE_FIXED: seq<Field> := [Field(1, Bool, Repeated, Static, 0, 0, 1, 1, NoPtr)]

  /** The clash in one run: received once by each half, the array is refused when the halves are joined,
      because the second run finds it full. */
  lemma {:induction false} FixedCountDoesNotMerge(m0: Msg)
    requires |m0| == 1 && m0[0].Many? && m0[0].count <= 1 && |m0[0].entries| == 1
    ensures var a: seq<byte> := [10, 1, 1];
            var m := [Many(1, [Num(1)])];
            && DecMsg(ONE_FIXED, m0, a) == Some(m) && DecMsg(ONE_FIXED, m, a) == Some(m)
            && DecMsg(ONE_FIXED, m0, a + a) == None
  {
    var a: seq<byte> := [10, 1, 1];
    var m := [Many(1, [Num(1)])];
    var full := DecState(m, {}, Some(0), 1);
    FixedRun([], Start(m0));
    FixedRun([], Start(m));
    FixedRun(a, Start(m0));
    FixedRun([], full);
    assert a + [] == a;
  }

  lemma {:induction false} FixedEntries(b: seq<byte>, entry: Value)
    ensures DecEntries(ONE_FIXED[0], 2, [1, 1] + b, 0, entry) == Got([Num(1)], b)
    ensures DecEntries(ONE_FIXED[0], 2, [1, 1] + b, 1, entry) == Fail
  {
    var f := ONE_FIXED[0];
    assert ([1, 1] + b)[1..] == [1] + b;
    assert DecString([1, 1] + b) == Got([1], b);
    assert DecScalar(f, [1]) == Got(Num(1), []);
    assert DecItems(f, [1], 0) == None && DecItems(f, [], 0) == Some([]);
    assert DecItems(f, [1], 1) == Some([Num(1)] + []) && [Num(1)] + [] == [Num(1)];
  }

  lemma {:induction false} FixedRun(b: seq<byte>, st: DecState)
    requires |st.msg| == 1 && st.msg[0].Many? && st.msg[0].count <= 1 && |st.msg[0].entries| == 1
    requires st.fixed == None || (st.fixed == Some(0) && st.fixedCount == 1)
    ensures st.fixed == None ==>
              DecLoop(ONE_FIXED, [10, 1, 1] + b, st) ==
                  DecLoop(ONE_FIXED, b, DecState([Many(1, [Num(1)])], st.seen, Some(0), 1))
    ensures st.fixed == Some(0) ==> DecLoop(ONE_FIXED, [10, 1, 1] + b, st) == Failed
  {
    hide DecEntries, DecLoop, DecField;
    var s: seq<byte> := [10, 1, 1] + b;
    LoopStep(ONE_FIXED, s, st);
    assert s[1..] == [1, 1] + b;
    assert DecKey(s) == KeyOf(2, 1, s[1..]);
    FieldStep(ONE_FIXED, 2, 1, s[1..], st);
    FixedEntries(b, EntryAt(st.msg[0], 0));
    FixedEntries(b, EntryAt(st.msg[0], 1));
    var st1 := DecState(st.msg, st.seen, Some(0), 0);
    var have, full := st.msg[0].entries, Many(1, [Num(1)]);
    if st.fixed == None {
      assert have[..0] + [Num(1)] + have[1..] == [Num(1)] && st.msg[0 := full] == [full];
      assert DecRow(ONE_FIXED, 0, 2, s[1..], st1) == Some((DecState([full], st.seen, Some(0), 1), b));
    }
  }

  // ---------- Unknown fields ----------

  /** A key with a tag no row has, and the complete payload of its wire type. */
  predicate UnknownField(fields: seq<Field>, u: seq<byte>) {
    && DecKey(u).KeyOf? && DecKey(u).tag >= 1 && FieldIndex(fields, DecKey(u).tag).None?
    && SkipField(DecKey(u).wiretype, DecKey(u).rest) == Some([])
  }

  /** An unknown field put in at a field boundary changes nothing, accepted or not. */
  lemma {:induction false} UnknownFieldIsInert(fields: seq<Field>, m: Msg, a: seq<byte>, st: DecState, u: seq<byte>,
                                               b: seq<byte>)
    requires |m| == |fields| && RunsTo(fields, a, Start(m), st) && UnknownField(fields, u)
    ensures DecMsg(fields, m, a + u + b) == DecMsg(fields, m, a + b)
  {
    hide DecLoop, DecField, DecKey, SkipField, FieldIndex, DecMsg, Accepts;
    LoopAppend(fields, a, Start(m), st, u + b);
    LoopAppend(fields, a, Start(m), st, b);
    assert a + u + b == a + (u + b);
    var key := DecKey(u);
    LoopStep(fields, u + b, st);
    KeyLocal(u, b);
    assert u != [] by { EmptyKey(); }
    SkipLocal(key.wiretype, key.rest, b);
    FieldStep(fields, key.wiretype, key.tag, key.rest + b, st);
    assert [] + b == b;
    MessageEnds(fields, m, a + u + b);
    MessageEnds(fields, m, a + b);
  }

  lemma {:induction false} EmptyKey()
    ensures DecKey([]).BadKey?
  {
  }

  // ---------- Last one wins, repeated fields append ----------

  /** An earlier occurrence of a singular field that is not a message leaves no trace. */
  lemma {:induction false} LastOneWins(fields: seq<Field>, i: nat, w1: nat, s1: seq<byte>, w2: nat, s2: seq<byte>,
                                       st: DecState)
    requires i < |fields| && |st.msg| == |fields|
    requires fields[i].htype != Repeated && fields[i].ltype != Submessage
    requires DecRow(fields, i, w1, s1, st).Some?
    ensures DecRow(fields, i, w2, s2, DecRow(fields, i, w1, s1, st).value.0) == DecRow(fields, i, w2, s2, st)
  {
    hide DecScalar;
    var h := UnionHead(fields, i);
    var v1 := DecScalar(fields[i], s1).value;
    var st1 := DecRow(fields, i, w1, s1, st).value.0;
    assert st1 == st.(msg := st.msg[h := StoreOne(fields[i], st.msg[h], v1)]);
    if DecScalar(fields[i], s2).Got? {
      var v2 := DecScalar(fields[i], s2).value;
      assert st1.msg[h := StoreOne(fields[i], st1.msg[h], v2)] == st.msg[h := StoreOne(fields[i], st.msg[h], v2)];
    }
  }

  /** ... in the whole decoding: a field that occurs again might as well not have occurred before. */
  lemma {:induction false} LastFieldWins(fields: seq<Field>, i: nat, e1: seq<byte>, e2: seq<byte>, tail: seq<byte>,
                                         st: DecState, st': DecState)
    requires i < |fields| && |st.msg| == |fields|
    requires fields[i].htype != Repeated && fields[i].ltype != Submessage
    requires DecKey(e1).KeyOf? && DecKey(e2).KeyOf? && DecKey(e2).tag == DecKey(e1).tag
    requires FieldIndex(fields, DecKey(e1).tag) == Some(i)
    requires DecField(fields, DecKey(e1).wiretype, DecKey(e1).tag, DecKey(e1).rest, st) == Some((st', []))
    ensures DecLoop(fields, e1 + (e2 + tail), st) == DecLoop(fields, e2 + tail, st)
  {
    hide DecKey, DecRow, DecLoop, DecField, FieldIndex;
    var k1, k2, more := DecKey(e1), DecKey(e2), e2 + tail;
    KeyLocal(e1, more);
    KeyLocal(e2, tail);
    assert e1 != [] && e2 != [] by { EmptyKey(); }
    FieldStep(fields, k1.wiretype, k1.tag, k1.rest, st);
    FieldLocal(fields, k1.wiretype, k1.tag, k1.rest, st, more);
    LoopStep(fields, e1 + more, st);
    LoopStep(fields, more, st);
    assert [] + more == more;
    LoopStep(fields, more, st');
    FieldStep(fields, k2.wiretype, k2.tag, k2.rest + tail, st);
    FieldStep(fields, k2.wiretype, k2.tag, k2.rest + tail, st');
    var st1 := Enter(fields, i, st).value;
    LastOneWins(fields, i, k1.wiretype, k1.rest, k2.wiretype, k2.rest + tail, st1);
    RowKeepsSeen(fields, i, k1.wiretype, k1.rest, st1);
    assert st'.seen == st1.seen;
    assert fields[i].htype == Required && RequiredBefore(fields, i) < MAX_REQUIRED ==> st'.seen + {i} == st'.seen;
    assert Enter(fields, i, st') == Some(st');
  }

  lemma {:induction false} RowKeepsSeen(fields: seq<Field>, i: nat, wiretype: nat, s: seq<byte>, st: DecState)
    requires i < |fields| && |st.msg| == |fields| && DecRow(fields, i, wiretype, s, st).Some?
    ensures DecRow(fields, i, wiretype, s, st).value.0.seen == st.seen
  {
    hide DecEntries, DecVal, StoreOne, BaseOf;
  }

  /** What a counted array receives goes after what it has, and no further than its end. */
  lemma {:induction false} RepeatedAppends(fields: seq<Field>, i: nat, wiretype: nat, s: seq<byte>, st: DecState)
    requires i < |fields| && |st.msg| == |fields| && fields[i].htype == Repeated && fields[i].sizeOffset != 0
    requires st.msg[i].Many? && st.msg[i].count <= |st.msg[i].entries| == fields[i].arraySize
    ensures var f, slot, r := fields[i], st.msg[i], DecRow(fields, i, wiretype, s, st);
            var got := DecEntries(f, wiretype, s, slot.count, EntryAt(slot, slot.count));
            && (r.Some? <==> got.Got?)
            && (r.Some? ==>
                 && slot.count + |got.value| <= f.arraySize
                 && var slot' := r.value.0.msg[i];
                    && slot'.Many? && Items(f, slot') == Items(f, slot) + got.value
                    && r.value.0.msg == st.msg[i := slot'])
  {
    hide DecVal, DecItems, DecString, DefaultVal;
    var f, slot := fields[i], st.msg[i];
    var n := slot.count;
    if wiretype == WT_STRING && f.ltype.Packable() && DecString(s).Got? {
      ItemsFit(f, DecString(s).value, if n < f.arraySize then f.arraySize - n else 0);
    }
    var r := DecRow(fields, i, wiretype, s, st);
    if r.Some? {
      var added := DecEntries(f, wiretype, s, n, EntryAt(slot, n)).value;
      var entries := slot.entries[..n] + added + slot.entries[n + |added|..];
      assert entries[..n + |added|] == slot.entries[..n] + added;
    }
  }

  /** Two packed runs are as good as one. */
  lemma {:induction false} RunsJoin(f: Field, p: seq<byte>, q: seq<byte>, room: nat)
    requires DecItems(f, p, room).Some?
    ensures |DecItems(f, p, room).value| <= room
    ensures var x := DecItems(f, p, room).value;
            var y := DecItems(f, q, room - |x|);
            DecItems(f, p + q, room) == if y.Some? then Some(x + y.value) else None
    decreases |p|
  {
    hide DecScalar;
    ItemsFit(f, p, room);
    ScalarShrinks(f, p);
    if p == [] {
      assert p + q == q;
      assert forall y: seq<Value> :: [] + y == y;
    } else {
      var v := DecScalar(f, p);
      ScalarLocal(f, p, q);
      RunsJoin(f, v.rest, q, room - 1);
      var x := DecItems(f, v.rest, room - 1).value;
      var y := DecItems(f, q, room - 1 - |x|);
      if y.Some? { assert [v.value] + (x + y.value) == ([v.value] + x) + y.value; }
    }
  }

  /** A packed run of one entry is the entry. */
  lemma {:induction false} PackedOrNot(f: Field, x: seq<byte>, v: Value, wiretype: nat, count: nat, entry: Value,
                                       tail: seq<byte>)
    requires f.ltype.Packable() && wiretype != WT_STRING && |x| < U32
    requires DecScalar(f, x) == Got(v, [])
    ensures DecEntries(f, WT_STRING, EncString(x) + tail, count, entry) ==
            DecEntries(f, wiretype, x + tail, count, entry)
  {
    hide DecScalar, DecString, EncString, DefaultVal;
    ScalarShrinks(f, x);
    ScalarLocal(f, x, tail);
    assert [] + tail == tail;
    ScalarRoundTrip.StringRoundTrip(x, tail);
    var room := if count < f.arraySize then f.arraySize - count else 0;
    assert x != [] && DecItems(f, x, 0) == None;
    assert DecString(EncString(x) + tail) == Got(x, tail);
    if room > 0 {
      assert DecItems(f, [], room - 1) == Some([]);
      assert [v] + [] == [v];
      assert DecVal(f, DefaultVal(f, entry), x + tail) == Got(v, tail);
    }
  }
}
