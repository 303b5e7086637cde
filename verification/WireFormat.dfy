/** The bytes themselves: what each value looks like on the wire, and what each sequence of bytes is read
    as, in numbers (pb_encode.c:115-426, 608-913, pb_decode.c:187-331, 1279-1551). */
module WireFormat {
  import opened Wrappers
  import opened Bits
  import opened Descriptor
  import opened Varint
  import opened EncodeSpec
  import opened DecodeSpec
  import opened ScalarRoundTrip
  import opened DecodeSafety
  import opened Reencode

  // ---------- Numbers ----------

  /** How many values an n-byte integer has. */
  function Range(n: nat): nat {
    match n
    case 1 => 256
    case 2 => 65536
    case 4 => 4294967296
    case 8 => 18446744073709551616
    case _ => 0
  }

  lemma {:induction false} RangeIs(n: nat)
    ensures IntegerSize(n) <==> Range(n) > 0
    ensures IntegerSize(n) ==> Range(n) == 2 * HalfRange(n)
  {
  }

  /** `e` is a varint for the number n. */
  predicate VarintOf(e: seq<byte>, n: nat) { IsVarint(e) && Base128(e) == n }

  /** An integer is one varint, of its 64-bit two's complement or of its zigzag form, whatever the size of
      its member. */
  lemma {:induction false} IntegerWire(f: Field, v: Value)
    requires f.ltype == Varint || f.ltype == UVarint || f.ltype == SVarint
    ensures EncodableScalar(f, v) <==> f.dataSize == 1 || f.dataSize == 2 || f.dataSize == 4 || f.dataSize == 8
    ensures ConformsScalar(f, v) ==>
              VarintOf(EncScalar(f, v),
                       if f.ltype == SVarint then (if v.n < 0 then -2 * v.n - 1 else 2 * v.n)
                       else if v.n < 0 then v.n + 18446744073709551616
                       else v.n)
  {
    hide EncVarint, IsVarint, Base128, ZigZag;
    if ConformsScalar(f, v) {
      UnsignedFits(f.dataSize);
      if f.ltype == SVarint {
        ZigZagMeans(v.n);
        EncVarintIsVarint(ZigZag(v.n));
      } else {
        EncVarintIsVarint(ToU64(v.n));
      }
    }
  }

  /** So a reader with a 64-bit member reads the same number: the width of a member does not show. */
  lemma {:induction false} WidthDoesNotShow(f: Field, v: Value, tail: seq<byte>)
    requires f.ltype == Varint || f.ltype == UVarint || f.ltype == SVarint
    requires ConformsScalar(f, v)
    ensures DecScalar(f.(dataSize := 8), EncScalar(f, v) + tail) == Got(v, tail)
  {
    hide EncVarint, DecVarint, ZigZag, FromZigZag;
    UnsignedFits(f.dataSize);
    if f.ltype == SVarint {
      SVarintRoundTrip(v.n, tail);
    } else {
      VarintRoundTrip(ToU64(v.n), tail);
    }
  }

  lemma {:induction false} BoolWire(f: Field, v: Value)
    requires f.ltype == Bool && ConformsScalar(f, v)
    ensures EncScalar(f, v) == if v.n == 0 then [0] else [1]
  {
  }

  /** Fixed-size numbers, least significant byte first. */
  lemma {:induction false} FixedWire(f: Field, v: Value)
    requires (f.ltype == Fixed32 || f.ltype == Fixed64) && ConformsScalar(f, v)
    ensures var e := EncScalar(f, v);
            if f.ltype == Fixed32 then |e| == 4 && Four(e, 0) == v.n
            else |e| == 8 && Four(e, 0) + 4294967296 * Four(e, 4) == v.n
  {
    hide LittleEndian, Four;
    var n, k := v.n, if f.ltype == Fixed32 then 4 else 8;
    assert EncScalar(f, v) == LittleEndian(n, k) by { Reduced(n); }
    LittleEndianFour(n, k);
    if f.ltype == Fixed64 {
      LittleEndianFour(n / 4294967296, 4);
      FourAt(LittleEndian(n, 8));
      assert n / 4294967296 % 4294967296 == n / 4294967296;
    }
  }

  function Four(e: seq<byte>, i: nat): nat
    requires i + 4 <= |e|
  {
    (e[i] as nat) + 256 * e[i + 1] as nat + 65536 * e[i + 2] as nat + 16777216 * e[i + 3] as nat
  }

  lemma {:induction false} LittleEndianFour(n: nat, k: nat)
    requires k >= 4
    ensures var e := LittleEndian(n, k);
            |e| == k && Four(e, 0) == n % 4294967296 && e[4..] == LittleEndian(n / 4294967296, k - 4)
  {
    hide LittleEndian;
    var a := n / 256;
    var b := a / 256;
    var c := b / 256;
    FirstByte(n, k);
    FirstByte(a, k - 1);
    FirstByte(b, k - 2);
    FirstByte(c, k - 3);
    FourDigits(n, a, b, c);
    LittleEndianLength(n / 4294967296, k - 4);
  }

  lemma {:induction false} FirstByte(n: nat, k: nat)
    requires k > 0
    ensures LittleEndian(n, k) == [n % 256] + LittleEndian(n / 256, k - 1)
  {
  }

  lemma {:induction false} FourDigits(n: nat, a: nat, b: nat, c: nat)
    requires n / 256 == a && a / 256 == b && b / 256 == c
    ensures n % 4294967296 == n % 256 + 256 * (a % 256) + 65536 * (b % 256) + 16777216 * (c % 256)
    ensures n / 4294967296 == c / 256
  {
    var low := n % 256 + 256 * (a % 256) + 65536 * (b % 256) + 16777216 * (c % 256);
    assert n == 4294967296 * (c / 256) + low;
    ModUnique(n, c / 256, low, 4294967296);
  }

  lemma {:induction false} Reduced(n: nat)
    requires n < U64
    ensures ToU64(n) == n
  {
  }

  lemma {:induction false} FourAt(e: seq<byte>)
    requires |e| == 8
    ensures Four(e, 4) == Four(e[4..], 0)
  {
  }

  lemma {:induction false} LittleEndianLength(n: nat, k: nat)
    ensures |LittleEndian(n, k)| == k
  {
    if k > 0 { LittleEndianLength(n / 256, k - 1); }
  }

  // ---------- Bytes and messages, with their lengths ----------

  /** `e` is the length of `body` as a varint, and `body`. */
  ghost predicate Prefixed(e: seq<byte>, body: seq<byte>) { exists p :: e == p + body && VarintOf(p, |body|) }

  lemma {:induction false} StringIsPrefixed(body: seq<byte>)
    ensures Prefixed(EncString(body), body)
  {
    hide EncVarint, IsVarint, Base128;
    EncVarintIsVarint(|body|);
    assert EncString(body) == EncVarint(|body|) + body && VarintOf(EncVarint(|body|), |body|);
  }

  /** A byte string is its length and its bytes; a text ends before its first zero byte. */
  lemma {:induction false} StringWire(f: Field, v: Value)
    requires (f.ltype == Bytes || f.ltype == String || f.ltype == FixedLengthBytes) && ConformsScalar(f, v)
    ensures EncodableScalar(f, v) <==> f.ltype == Bytes ==> |v.bytes| + 4 <= f.dataSize
    ensures f.ltype != String ==> Prefixed(EncScalar(f, v), v.bytes)
    ensures f.ltype == String ==>
              exists n: nat :: n <= |v.bytes| && Prefixed(EncScalar(f, v), v.bytes[..n]) && 0 !in v.bytes[..n]
                               && (n < |v.bytes| ==> v.bytes[n] == 0)
  {
    hide EncString, CString;
    if f.ltype == String {
      StringIsPrefixed(CString(v.bytes));
      var n := |CString(v.bytes)|;
      assert Prefixed(EncScalar(f, v), v.bytes[..n]);
    } else {
      StringIsPrefixed(v.bytes);
    }
  }

  lemma {:induction false} MessageWire(f: Field, v: Value)
    requires f.ltype == Submessage && v.Sub?
    ensures Prefixed(EncVal(f, v), EncMsg(SubTable(f), v.msg))
  {
    StringIsPrefixed(EncMsg(SubTable(f), v.msg));
  }

  // ---------- Fields ----------

  /** The key: a varint of eight times the field number plus the wire type. */
  lemma {:induction false} KeyWire(f: Field, v: Value)
    ensures exists key :: EncTagged(f, v) == key + EncVal(f, v)
                          && VarintOf(key, 8 * f.tag + (match f.ltype
                                                        case Bool | Varint | UVarint | SVarint => 0
                                                        case Fixed64 => 1
                                                        case Fixed32 => 5
                                                        case _ => 2))
  {
    hide EncVarint, IsVarint, Base128, BitOr, Shl, EncVal;
    var key := EncTag(WireType(f.ltype), f.tag);
    TagKey(WireType(f.ltype), f.tag);
    EncVarintIsVarint(8 * f.tag + WireType(f.ltype));
    assert EncTagged(f, v) == key + EncVal(f, v);
  }

  function Concat(parts: seq<seq<byte>>): seq<byte> {
    if parts == [] then [] else parts[0] + Concat(parts[1..])
  }

  /** An array: packed, that is one field of all entries, when its entries can be packed, and otherwise one
      field for each entry; in order. */
  lemma {:induction false} ArrayWire(f: Field, items: seq<Value>)
    ensures items == [] ==> EncArray(f, items) == []
    ensures items != [] && !PacksInto(f) ==>
              EncArray(f, items) == Concat(seq(|items|, k requires 0 <= k < |items| => EncTagged(f, items[k])))
    ensures items != [] && PacksInto(f) ==>
              exists key, e ::
                && EncArray(f, items) == key + e && VarintOf(key, 8 * f.tag + 2)
                && Prefixed(e, Concat(seq(|items|, k requires 0 <= k < |items| => EncScalar(f, items[k]))))
  {
    hide EncVarint, IsVarint, Base128, BitOr, Shl, EncTagged, EncScalar, EncString, Concat, Prefixed;
    if items != [] {
      if PacksInto(f) {
        PackedItems(f, items);
        StringIsPrefixed(EncItems(f, items));
        TagKey(2, f.tag);
        EncVarintIsVarint(8 * f.tag + 2);
        assert EncArray(f, items) == EncTag(2, f.tag) + EncString(EncItems(f, items));
      } else {
        TaggedItems(f, items);
      }
    }
  }

  predicate PacksInto(f: Field) {
    match f.ltype
    case Bool | Varint | UVarint | SVarint | Fixed32 | Fixed64 => true
    case _ => false
  }

  lemma {:induction false} PackedItems(f: Field, items: seq<Value>)
    ensures EncItems(f, items) == Concat(seq(|items|, k requires 0 <= k < |items| => EncScalar(f, items[k])))
  {
    hide EncScalar;
    var parts := seq(|items|, k requires 0 <= k < |items| => EncScalar(f, items[k]));
    if items != [] {
      PackedItems(f, items[1..]);
      assert parts[1..] == seq(|items[1..]|, k requires 0 <= k < |items[1..]| => EncScalar(f, items[1..][k]));
    }
  }

  lemma {:induction false} TaggedItems(f: Field, items: seq<Value>)
    ensures EncTaggedItems(f, items) == Concat(seq(|items|, k requires 0 <= k < |items| => EncTagged(f, items[k])))
  {
    hide EncTagged;
    var parts := seq(|items|, k requires 0 <= k < |items| => EncTagged(f, items[k]));
    if items != [] {
      TaggedItems(f, items[1..]);
      assert parts[1..] == seq(|items[1..]|, k requires 0 <= k < |items[1..]| => EncTagged(f, items[1..][k]));
    }
  }

  /** A singular row: what its kind says about when it is there. */
  lemma {:induction false} RowWire(fields: seq<Field>, m: Msg, i: nat)
    requires i < |fields| && Conforms(fields, m)
    ensures |m| == |fields|
    ensures var f, slot := fields[i], m[UnionHead(fields, i)];
            match f.htype
            case Required => slot.One? && EncRow(fields, m, i) == EncTagged(f, slot.v)
            case Optional =>
              if f.sizeOffset != 0 then
                slot.Opt? && EncRow(fields, m, i) == if slot.has then EncTagged(f, slot.v) else []
              else
                slot.One? && EncRow(fields, m, i) == if IsZero(f, slot.v) then [] else EncTagged(f, slot.v)
            case Oneof =>
              slot.Pick? && EncRow(fields, m, i) == if slot.which == f.tag then EncTagged(f, slot.v) else []
            case Repeated => true
  {
    hide EncTagged, ConformsVal, ConformsItems, IsZero;
    assert ConformsRow(fields, m, i);
  }

  /** An array row: all entries of a fixed-count array, and as many as are counted of any other. */
  lemma {:induction false} ArrayRowWire(fields: seq<Field>, m: Msg, i: nat)
    requires i < |fields| && Conforms(fields, m) && fields[i].htype == Repeated
    ensures |m| == |fields| && m[i].Many? && |m[i].entries| == fields[i].arraySize
    ensures fields[i].sizeOffset == 0 ==> EncRow(fields, m, i) == EncArray(fields[i], m[i].entries)
    ensures fields[i].sizeOffset != 0 && m[i].count <= fields[i].arraySize ==>
              EncRow(fields, m, i) == EncArray(fields[i], m[i].entries[..m[i].count])
  {
    hide EncArray, ConformsItems;
    assert ConformsRow(fields, m, i) && UnionHead(fields, i) == i;
    NoArray(fields[i]);
    assert m[i].entries[..|m[i].entries|] == m[i].entries;
  }

  lemma {:induction false} NoArray(f: Field)
    ensures EncArray(f, []) == []
  {
  }

  /** A proto3 value is left out exactly when it is zero, empty, or a message that encodes to nothing. */
  lemma {:induction false} ZeroMeans(f: Field, v: Value, scope: Scope)
    requires ConformsVal(f, v)
    requires f.ltype == Submessage ==>
             StaticTable(SubTable(f)) && RoomyTable(SubTable(f)) && SafeVal(scope, f, v) && !scope.Whole?
    ensures IsZero(f, v) <==>
            match f.ltype
            case Bytes => v.bytes == []
            case String => v.bytes == [] || v.bytes[0] == 0
            case FixedLengthBytes => v.bytes == []
            case Submessage => EncMsg(SubTable(f), v.msg) == []
            case Extension => true
            case Bool | Varint | UVarint | SVarint | Fixed32 | Fixed64 => v.n == 0
  {
    hide StaticTable, SafeMsg, Conforms, EncMsg, IsZeroMsg, RoomyTable;
    if f.ltype == Submessage { ZeroIffNoBytes(scope, SubTable(f), v.msg); }
  }

  /** No fixed-count array without entries. */
  predicate RoomyTable(fields: seq<Field>) {
    forall i :: 0 <= i < |fields| && fields[i].htype == Repeated && fields[i].sizeOffset == 0 ==>
        fields[i].arraySize > 0
  }

  /** The zero check on a message finds exactly those that encode to nothing. */
  lemma {:induction false} ZeroIffNoBytes(scope: Scope, fields: seq<Field>, m: Msg)
    requires StaticTable(fields) && RoomyTable(fields) && SafeMsg(scope, fields, m) && !scope.Whole?
    ensures IsZeroMsg(fields, m) <==> EncMsg(fields, m) == []
  {
    hide StaticTable, SafeRow, IsZeroRow, EncRow;
    SafeConforms(scope, fields, m);
    if IsZeroMsg(fields, m) {
      ZeroHasNoBytes(fields, m);
    } else if EncMsg(fields, m) == [] {
      forall i | 0 <= i < |fields| ensures EncRow(fields, m, i) == [] { RowInside(fields, m, 0, i); }
      forall i | 0 <= i < |fields| ensures IsZeroRow(fields, m, i) { NoBytesIsZero(scope, fields, m, i); }
    }
  }

  lemma {:induction false} NoBytesIsZero(scope: Scope, fields: seq<Field>, m: Msg, i: nat)
    requires i < |fields| == |m| && RoomyTable(fields) && SafeRow(scope, fields, m, i) && !scope.Whole?
    requires StaticTable(fields) && forall j :: 0 <= j < |fields| ==> EncRow(fields, m, j) == []
    ensures IsZeroRow(fields, m, i)
  {
    hide StaticTable, SafeVal, ConformsItems, EncTagged, EncArray, IsZero;
    var f, h := fields[i], UnionHead(fields, i);
    assert EncRow(fields, m, i) == [];
    TaggedHasBytes(f, ValueOf(m[h]));
    if f.htype == Repeated { ArrayHasBytes(f, m[i]); }
    if f.htype == Oneof && m[h].which != 0 {
      var j :| 0 <= j < |fields| && UnionHead(fields, j) == h && fields[j].tag == m[h].which;
      assert EncRow(fields, m, j) == [];
      TaggedHasBytes(fields[j], m[h].v);
    }
  }

  lemma {:induction false} TaggedHasBytes(f: Field, v: Value)
    ensures EncTagged(f, v) != []
  {
    hide EncVal, BitOr, Shl;
  }

  lemma {:induction false} VarintHasBytes(n: nat)
    ensures EncVarint(n) != []
  {
  }

  lemma {:induction false} ArrayHasBytes(f: Field, slot: Slot)
    requires slot.Many? && slot.count <= |slot.entries| == f.arraySize
    requires f.sizeOffset == 0 ==> f.arraySize > 0
    ensures Items(f, slot) == [] || EncArray(f, Items(f, slot)) == [] ==> f.sizeOffset != 0 && slot.count == 0
  {
    hide EncItems, BitOr, Shl, EncString, EncTagged, EncVarint;
    var items := Items(f, slot);
    if items != [] {
      TaggedHasBytes(f, items[0]);
      VarintHasBytes(BitOr(Shl(f.tag, 3), WT_STRING));
      assert |EncArray(f, items)| > 0;
    }
  }

  /** A message: the bytes of its rows, one after another, in the order of the table. */
  lemma {:induction false} MessageIsRows(fields: seq<Field>, m: Msg)
    requires |m| == |fields|
    ensures EncMsg(fields, m) == Concat(seq(|fields|, i requires 0 <= i < |fields| => EncRow(fields, m, i)))
  {
    hide EncRow;
    RowsFrom(fields, m, 0);
    var rows := seq(|fields|, i requires 0 <= i < |fields| => EncRow(fields, m, i));
    assert rows[0..] == rows;
  }

  lemma {:induction false} RowsFrom(fields: seq<Field>, m: Msg, k: nat)
    requires |m| == |fields| && k <= |fields|
    ensures EncFrom(fields, m, k) == Concat(seq(|fields|, i requires 0 <= i < |fields| => EncRow(fields, m, i))[k..])
    decreases |fields| - k
  {
    hide EncRow;
    var rows := seq(|fields|, i requires 0 <= i < |fields| => EncRow(fields, m, i));
    if k < |fields| {
      RowsFrom(fields, m, k + 1);
      assert rows[k..][0] == rows[k] && rows[k..][1..] == rows[k + 1..];
    }
  }

  // ---------- What the encoder refuses ----------

  /** A message is encodable exactly when each row is; a value inside it when its table is known and it is. */
  lemma {:induction false} MessageEncodable(fields: seq<Field>, m: Msg, f: Field, v: Value)
    ensures |m| == |fields| ==> (Encodable(fields, m) <==> AllRowsEncodable(fields, m))
    ensures f.ltype == Submessage && v.Sub? ==>
              (EncodableVal(f, v) <==> f.ptr.SubFields? && Encodable(SubTable(f), v.msg))
    ensures f.ltype != Submessage ==> (EncodableVal(f, v) <==> EncodableScalar(f, v))
  {
    hide EncodableScalar;
    if |m| == |fields| {
      if Encodable(fields, m) {
        forall i | 0 <= i < |fields| ensures EncodableRow(fields, m, i) { RowOfEncodable(fields, m, i); }
      } else if AllRowsEncodable(fields, m) {
        RowsAreEncodable(fields, m);
      }
    }
  }

  predicate AllRowsEncodable(fields: seq<Field>, m: Msg)
    requires |m| == |fields|
  {
    forall i :: 0 <= i < |fields| ==> EncodableRow(fields, m, i)
  }

  lemma {:induction false} RowOfEncodable(fields: seq<Field>, m: Msg, i: nat)
    requires Encodable(fields, m) && i < |fields|
    ensures |m| == |fields| && EncodableRow(fields, m, i)
  {
    hide EncodableVal, EncodableArray, IsZero;
  }

  lemma {:induction false} RowsAreEncodable(fields: seq<Field>, m: Msg)
    requires |m| == |fields| && AllRowsEncodable(fields, m)
    ensures Encodable(fields, m)
  {
    hide EncodableVal, EncodableArray, IsZero;
  }

  /** A singular row, when what it emits is; an array, when it is not over its bound and its entries are. */
  lemma {:induction false} RowEncodable(fields: seq<Field>, m: Msg, i: nat)
    requires i < |fields| && Conforms(fields, m) && fields[i].htype != Repeated
    ensures |m| == |fields|
    ensures var f, slot := fields[i], m[UnionHead(fields, i)];
            EncodableRow(fields, m, i) <==>
            match f.htype
            case Required => slot.One? && EncodableVal(f, slot.v)
            case Optional =>
              if f.sizeOffset != 0 then slot.Opt? && (slot.has ==> EncodableVal(f, slot.v))
              else slot.One? && (IsZero(f, slot.v) || EncodableVal(f, slot.v))
            case Oneof => slot.Pick? && (slot.which == f.tag ==> EncodableVal(f, slot.v))
            case Repeated => true
  {
    hide EncodableVal, ConformsVal, IsZero;
    assert ConformsRow(fields, m, i);
  }

  lemma {:induction false} ArrayEncodable(fields: seq<Field>, m: Msg, i: nat)
    requires i < |fields| && Conforms(fields, m) && fields[i].htype == Repeated
    ensures |m| == |fields| && m[i].Many? && |m[i].entries| == fields[i].arraySize
    ensures var n := if fields[i].sizeOffset == 0 then fields[i].arraySize else m[i].count;
            EncodableRow(fields, m, i) <==> n <= fields[i].arraySize && FirstEncodable(fields[i], m[i].entries, n)
  {
    hide EncodableVal, ConformsItems;
    assert ConformsRow(fields, m, i) && UnionHead(fields, i) == i;
    var f, n := fields[i], if fields[i].sizeOffset == 0 then fields[i].arraySize else m[i].count;
    var items := Items(f, m[i]);
    if n <= f.arraySize {
      assert |items| == n && forall k :: 0 <= k < n ==> items[k] == m[i].entries[k];
      assert EncodableItems(f, items) <==> FirstEncodable(f, m[i].entries, n);
    }
  }

  predicate FirstEncodable(f: Field, entries: seq<Value>, n: nat)
    requires n <= |entries|
  {
    forall k :: 0 <= k < n ==> EncodableVal(f, entries[k])
  }
}
