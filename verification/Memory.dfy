/** What is left in a structure that was set to zero or to defaults is again a structure of its type. */
module Memory {
  import opened Wrappers
  import opened Bits
  import opened Descriptor
  import opened FieldIter
  import opened EncodeSpec
  import opened DecodeSpec

  // ---------- Zeros ----------

  lemma {:induction false} ZeroValConforms(f: Field)
    requires StaticRow(f)
    ensures ConformsVal(f, ZeroVal(f))
    decreases f, 0
  {
    hide StaticTable, Conforms, ZeroMsg;
    if f.ltype == Submessage && f.ptr.SubFields? { ZerosConform(f.ptr.fields); }
    if f.ltype == Submessage && !f.ptr.SubFields? { NothingConforms(); }
  }

  lemma {:induction false} NothingConforms()
    ensures Conforms([], [])
  {
  }

  lemma {:induction false} ZeroRowConforms(fields: seq<Field>, i: nat)
    requires i < |fields| && StaticRow(fields[i])
    ensures ConformsRow(fields, ZeroMsg(fields), i)
    decreases fields, 1
  {
    hide StaticTable, ConformsVal, ZeroVal;
    assert fields decreases to fields[i];
    assert ZeroMsg(fields)[UnionHead(fields, i)] == ZeroSlot(fields, UnionHead(fields, i));
    ZeroValConforms(fields[i]);
    TagIsPositive(fields[i]);
  }

  lemma {:induction false} TagIsPositive(f: Field)
    requires StaticRow(f)
    ensures f.tag >= 1
  {
  }

  /** A structure of zeros. */
  lemma {:induction false} ZerosConform(fields: seq<Field>)
    requires StaticTable(fields)
    ensures Conforms(fields, ZeroMsg(fields))
    decreases fields, 2
  {
    hide StaticRow, ConformsRow, ZeroSlot;
    forall i | 0 <= i < |fields| ensures ConformsRow(fields, ZeroMsg(fields), i) {
      RowIsStatic(fields, i);
      ZeroRowConforms(fields, i);
    }
  }

  // ---------- The first bytes set to zero ----------

  lemma {:induction false} DataIsInside(fields: seq<Field>, i: nat)
    requires i < |fields|
    ensures DataAt(fields, i) >= 0
  {
    if i > 0 {
      DataIsInside(fields, i - 1);
      SizesAreNatural(fields[i - 1].dataSize, fields[i - 1].arraySize);
    }
  }

  lemma {:induction false} SizesAreNatural(a: nat, b: nat)
    ensures a * b >= 0
  {
  }

  lemma {:induction false} BytePowers()
    ensures Pow2(8) == 0x100 && Pow2(16) == 0x1_0000 && Pow2(24) == 0x100_0000 && Pow2(32) == 0x1_0000_0000
  {
    assert Pow2(8) == 0x100;
    Pow2Add(8, 8);
    Pow2Add(8, 16);
    Pow2Add(8, 24);
  }

  /** Clearing low bytes leaves a number in the range of its type. */
  lemma {:induction false} ClearedFits(n: int, size: nat, k: nat)
    requires 1 <= k <= 4 && k < size
    ensures 0 <= n ==> 0 <= n - n % Pow2(8 * k) <= n
    ensures -HalfRange(size) <= n < HalfRange(size) ==> -HalfRange(size) <= n - n % Pow2(8 * k) < HalfRange(size)
  {
    hide Pow2;
    BytePowers();
    if k == 1 {
      assert Pow2(8 * k) == 0x100;
    } else if k == 2 {
      assert Pow2(8 * k) == 0x1_0000;
    } else if k == 3 {
      assert Pow2(8 * k) == 0x100_0000;
    } else {
      assert Pow2(8 * k) == 0x1_0000_0000;
    }
  }

  lemma {:induction false} WipedScalarConforms(f: Field, v: Value, k: nat)
    requires ConformsScalar(f, v) && k <= 4
    ensures ConformsScalar(f, WipedVal(f, v, k))
  {
    hide HalfRange, Pow2;
    if v.Num? && 0 < k < f.dataSize { ClearedFits(v.n, f.dataSize, k); }
    HalfIsPositive(f.dataSize);
  }

  lemma {:induction false} HalfIsPositive(n: nat)
    ensures HalfRange(n) > 0
  {
  }

  lemma {:induction false} WipedValConforms(f: Field, v: Value, k: nat)
    requires StaticRow(f) && ConformsVal(f, v) && k <= 4
    ensures ConformsVal(f, WipedVal(f, v, k))
    decreases v, 0
  {
    hide StaticTable, Conforms, WipedMsg, ConformsScalar;
    if f.ltype == Submessage {
      SubTableIsStatic(f);
      WipedConforms(SubTable(f), v.msg, k);
    } else {
      WipedScalarConforms(f, v, k);
    }
  }

  lemma {:induction false} WipedEntriesConform(f: Field, entries: seq<Value>, k: nat)
    requires StaticRow(f) && ConformsItems(f, entries) && k <= 4
    ensures ConformsItems(f, WipedEntries(f, entries, k))
    decreases entries, 1
  {
    hide StaticRow, ConformsVal, WipedVal;
    if k > 0 && entries != [] && f.dataSize > 0 {
      var here := if k < f.dataSize then k else f.dataSize;
      WipedValConforms(f, entries[0], here);
      WipedEntriesConform(f, entries[1..], k - here);
    }
  }

  lemma {:induction false} WipedRowConforms(fields: seq<Field>, m: Msg, i: nat, k: nat)
    requires StaticTable(fields) && |m| == |fields| && i < |fields| && ConformsRow(fields, m, i) && k <= 4
    ensures ConformsRow(fields, WipedMsg(fields, m, k), i)
    decreases m, 1
  {
    hide StaticTable, StaticRow, ConformsVal, ConformsItems, WipedVal, WipedEntries, DataAt, SizeAt, FieldIndex;
    var f, h := fields[i], UnionHead(fields, i);
    assert m decreases to m[h];
    RowIsStatic(fields, i);
    TagIsPositive(f);
    IndexOfTag(fields, i);
    DataIsInside(fields, h);
    var data := Lead(k, DataAt(fields, h));
    assert WipedMsg(fields, m, k)[h] == WipedSlot(fields, m, h, k);
    match f.htype {
      case Required => WipedValConforms(f, m[h].v, data);
      case Optional => WipedValConforms(f, m[h].v, data);
      case Repeated => WipedEntriesConform(f, m[h].entries, data);
      case Oneof => if m[h].which == f.tag { WipedValConforms(f, m[h].v, data); }
    }
  }

  lemma {:induction false} IndexOfTag(fields: seq<Field>, i: nat)
    requires StaticTable(fields) && i < |fields|
    ensures FieldIndex(fields, fields[i].tag) == Some(i)
  {
    RowIsStatic(fields, i);
  }

  /** A structure whose first bytes were set to zero. */
  lemma {:induction false} WipedConforms(fields: seq<Field>, m: Msg, k: nat)
    requires StaticTable(fields) && Conforms(fields, m) && k <= 4
    ensures Conforms(fields, WipedMsg(fields, m, k))
    decreases m, 2
  {
    hide StaticTable, ConformsRow, WipedSlot;
    forall i | 0 <= i < |fields| ensures ConformsRow(fields, WipedMsg(fields, m, k), i) {
      WipedRowConforms(fields, m, i, k);
    }
  }

  // ---------- The bytes of an array of numbers ----------

  /** A number row whose size is that of its type. */
  predicate NumberRow(f: Field) {
    match f.ltype
    case Bool => f.dataSize == 1
    case Varint | UVarint | SVarint => IntegerSize(f.dataSize)
    case Fixed32 => f.dataSize == 4
    case Fixed64 => f.dataSize == 8
    case _ => false
  }

  /** A number in memory: two's complement, least significant byte first. */
  function NumberBytes(size: nat, v: Value): seq<byte> {
    LittleEndian(if v.Num? then v.n % Pow2(8 * size) else 0, size)
  }

  function ArrayBytes(size: nat, entries: seq<Value>): seq<byte> {
    if entries == [] then [] else NumberBytes(size, entries[0]) + ArrayBytes(size, entries[1..])
  }

  /** As many zeros as there are bytes to set, and the rest as it was. */
  function ZeroFirst(b: seq<byte>, k: nat): seq<byte> {
    if k <= |b| then seq(k, _ => 0) + b[k..] else seq(|b|, _ => 0)
  }

  lemma {:induction false} LittleEndianLength(u: nat, size: nat)
    ensures |LittleEndian(u, size)| == size
  {
    if size > 0 { LittleEndianLength(u / 256, size - 1); }
  }

  lemma {:induction false} FirstByte(u: nat, size: nat)
    requires size > 0
    ensures LittleEndian(u, size) == [u % 256] + LittleEndian(u / 256, size - 1)
  {
  }

  lemma {:induction false} ZeroBytePower(k: nat)
    ensures Pow2(8 * (k + 1)) == 256 * Pow2(8 * k) && Pow2(0) == 1
  {
    Pow2Add(8, 8 * k);
    assert Pow2(8) == 256;
  }

  lemma {:induction false} ClearedBytes(u: nat, size: nat, k: nat)
    requires k <= size
    ensures u % Pow2(8 * k) <= u
    ensures LittleEndian(u - u % Pow2(8 * k), size) == ZeroFirst(LittleEndian(u, size), k)
  {
    hide LittleEndian, Pow2;
    LittleEndianLength(u, size);
    if k > 0 {
      var p, q := Pow2(8 * (k - 1)), u / 256;
      ZeroBytePower(k - 1);
      PowPositive(8 * (k - 1));
      ClearedBytes(q, size - 1, k - 1);
      DigitSplit(u, p);
      FirstByte(u, size);
      FirstByte(u - u % (256 * p), size);
      LittleEndianLength(q, size - 1);
      ZeroNext(u % 256, LittleEndian(q, size - 1), k);
    } else {
      ZeroBytePower(0);
      assert ZeroFirst(LittleEndian(u, size), 0) == LittleEndian(u, size);
    }
  }

  lemma {:induction false} ZeroNext(b: byte, rest: seq<byte>, k: nat)
    requires 0 < k <= |rest| + 1
    ensures ZeroFirst([b] + rest, k) == [0] + ZeroFirst(rest, k - 1)
  {
  }

  lemma {:induction false} DigitSplit(u: nat, p: nat)
    requires p > 0
    ensures u % (256 * p) <= u
    ensures (u - u % (256 * p)) % 256 == 0 && (u - u % (256 * p)) / 256 == u / 256 - u / 256 % p
  {
    var q, r := u / 256, u % 256;
    var a, b, m := q / p, q % p, 256 * p;
    Parts(q, p);
    var n := a * p;
    assert 256 * n == a * m by { Rescaled(a, p); }
    ModUnique(u, a, 256 * b + r, m);
    ModUnique(256 * n, n, 0, 256);
  }

  lemma {:induction false} Rescaled(a: nat, p: nat)
    ensures 256 * (a * p) == a * (256 * p)
  {
  }

  lemma {:induction false} WipedNumber(f: Field, v: Value, k: nat)
    requires NumberRow(f) && ConformsScalar(f, v) && k <= f.dataSize
    ensures NumberBytes(f.dataSize, WipedVal(f, v, k)) == ZeroFirst(NumberBytes(f.dataSize, v), k)
  {
    hide LittleEndian, HalfRange, Pow2;
    var size, n := f.dataSize, v.n;
    var u, p := n % Pow2(8 * size), Pow2(8 * k);
    PowPositive(8 * size);
    LittleEndianLength(u, size);
    if k == size {
      ZeroBytes(size);
      if k == 0 { assert ZeroFirst(NumberBytes(size, v), 0) == NumberBytes(size, v); }
      PowPositive(0);
      if k > 0 { SmallMod(0, Pow2(8 * size)); }
    } else if k == 0 {
      assert ZeroFirst(NumberBytes(size, v), 0) == NumberBytes(size, v);
    } else {
      ClearedBytes(u, size, k);
      Pow2Add(8 * k, 8 * (size - k));
      PowPositive(8 * k);
      PowPositive(8 * (size - k));
      ClearedResidue(n, p, Pow2(8 * (size - k)));
    }
  }

  lemma {:induction false} SmallMod(n: nat, m: nat)
    requires n < m
    ensures n % m == n
  {
  }

  lemma {:induction false} PowPositive(k: nat)
    ensures Pow2(k) > 0
  {
    if k > 0 { PowPositive(k - 1); }
  }

  lemma {:induction false} ZeroBytes(size: nat)
    ensures LittleEndian(0, size) == seq(size, _ => 0)
  {
    if size > 0 { ZeroBytes(size - 1); }
  }

  /** Clearing below p and reducing modulo a multiple of p can be exchanged. */
  lemma {:induction false} ClearedResidue(n: int, p: nat, q: nat)
    requires p > 0 && q > 0
    ensures p * q > 0
    ensures n % (p * q) % p == n % p
    ensures (n - n % p) % (p * q) == n % (p * q) - n % p
  {
    var m := p * q;
    Positive(p, q);
    Parts(n, m);
    var a, u := n / m, n % m;
    Parts(u, p);
    var b, r := u / p, u % p;
    Regrouped(a, b, p, q);
    ModUnique(n, a * q + b, r, p);
    ModUnique(n - r, a, b * p, m);
  }

  lemma {:induction false} Positive(p: nat, q: nat)
    requires p > 0 && q > 0
    ensures p * q > 0
  {
  }

  lemma {:induction false} Parts(n: int, m: nat)
    requires m > 0
    ensures n == n / m * m + n % m && 0 <= n % m < m
    ensures n >= 0 ==> 0 <= n / m * m <= n
  {
  }

  lemma {:induction false} Regrouped(a: int, b: int, p: nat, q: nat)
    ensures (a * q + b) * p == a * (p * q) + b * p
  {
    assert (a * q + b) * p == (a * q) * p + b * p;
    assert (a * q) * p == a * (p * q);
  }

  /** An array of numbers after the zero count was written over it: its first four bytes are zero, and the
      others as they were. */
  lemma {:induction false} WipedNumbers(f: Field, entries: seq<Value>, k: nat)
    requires NumberRow(f) && f.ltype != Submessage && ConformsItems(f, entries)
    ensures ArrayBytes(f.dataSize, WipedEntries(f, entries, k)) == ZeroFirst(ArrayBytes(f.dataSize, entries), k)
    decreases |entries|
  {
    hide NumberRow, ConformsScalar, WipedVal, NumberBytes, ArrayBytes, ZeroFirst;
    var size := f.dataSize;
    HasSize(f);
    if entries != [] && k > 0 {
      var here := if k < size then k else size;
      var x, xs := entries[0], entries[1..];
      assert ConformsVal(f, x) && forall i :: 0 <= i < |xs| ==> xs[i] == entries[i + 1];
      WipedNumber(f, x, here);
      WipedNumbers(f, xs, k - here);
      FirstBytes(size, x, xs);
      assert [x] + xs == entries;
      FirstBytes(size, WipedVal(f, x, here), WipedEntries(f, xs, k - here));
      NumberLength(size, x);
      ZeroParts(NumberBytes(size, x), ArrayBytes(size, xs), k);
      NothingZeroed(ArrayBytes(size, xs));
    } else {
      if entries == [] { NoBytes(size, k); }
      NothingZeroed(ArrayBytes(size, entries));
    }
  }

  lemma {:induction false} FirstBytes(size: nat, x: Value, xs: seq<Value>)
    ensures ArrayBytes(size, [x] + xs) == NumberBytes(size, x) + ArrayBytes(size, xs)
  {
    hide NumberBytes;
    assert ([x] + xs)[1..] == xs;
  }

  lemma {:induction false} NoBytes(size: nat, k: nat)
    ensures ArrayBytes(size, []) == [] == ZeroFirst([], k)
  {
  }

  lemma {:induction false} NothingZeroed(b: seq<byte>)
    ensures ZeroFirst(b, 0) == b
  {
  }

  lemma {:induction false} HasSize(f: Field)
    requires NumberRow(f)
    ensures f.dataSize > 0 && f.ltype != Submessage
  {
  }

  lemma {:induction false} NumberLength(size: nat, v: Value)
    ensures |NumberBytes(size, v)| == size
  {
    hide LittleEndian, Pow2;
    PowPositive(8 * size);
    LittleEndianLength(if v.Num? then v.n % Pow2(8 * size) else 0, size);
  }

  lemma {:induction false} ZeroParts(a: seq<byte>, b: seq<byte>, k: nat)
    ensures ZeroFirst(a + b, k) ==
            if k < |a| then ZeroFirst(a, k) + ZeroFirst(b, 0) else ZeroFirst(a, |a|) + ZeroFirst(b, k - |a|)
  {
  }

  /** In a fixed-count array of numbers, setting to defaults clears the first four bytes and no other. */
  lemma {:induction false} FixedArrayDefault(fields: seq<Field>, was: Msg, i: nat)
    requires i < |fields| && fields[i].htype == Repeated && fields[i].sizeOffset == 0 && NumberRow(fields[i])
    requires Conforms(fields, was)
    ensures |was| == |fields| && was[i].Many? && Defaults(fields, was)[i].Many?
    ensures ArrayBytes(fields[i].dataSize, Defaults(fields, was)[i].entries) ==
            ZeroFirst(ArrayBytes(fields[i].dataSize, was[i].entries), 4)
  {
    hide NumberRow, ConformsVal, WipedEntries, ArrayBytes, ZeroFirst;
    assert ConformsRow(fields, was, i) && UnionHead(fields, i) == i;
    HasSize(fields[i]);
    assert Defaults(fields, was)[i] == DefaultSlot(fields, was, i);
    WipedNumbers(fields[i], was[i].entries, 4);
  }

  /** Any other array keeps all that is in its memory, a union its storage; only the count and the which_
      are cleared. */
  lemma {:induction false} DefaultKeeps(fields: seq<Field>, was: Msg, i: nat)
    requires i < |fields| == |was|
    ensures fields[i].htype == Repeated && fields[i].sizeOffset != 0 && was[i].Many? ==>
              Defaults(fields, was)[i] == Many(0, was[i].entries)
    ensures fields[i].htype == Oneof && !JoinsUnion(fields, i) && was[i].Pick? ==>
              Defaults(fields, was)[i] == Pick(0, was[i].v)
  {
    hide WipedEntries;
    assert Defaults(fields, was)[i] == DefaultSlot(fields, was, i);
  }

  /** A structure after its first k bytes were cleared, member by member: a flag, count or which_ that
      begins there is zero, and of a value there is cleared what lies there; all else is as it was. */
  lemma {:induction false} WipedMembers(fields: seq<Field>, m: Msg, i: nat, k: nat)
    requires i < |fields| == |m| && Conforms(fields, m) && !JoinsUnion(fields, i)
    ensures var f, data, size, now := fields[i], k - DataAt(fields, i), SizeAt(fields, i), WipedMsg(fields, m, k)[i];
            match m[i]
            case One(v) => now.One? && Cleared(f, v, now.v, data)
            case Opt(has, v) => now.Opt? && now.has == (has && size >= k) && Cleared(f, v, now.v, data)
            case Many(count, entries) =>
              now.Many? && now.count == (if f.sizeOffset != 0 && size < k then 0 else count)
              && (data <= 0 ==> now.entries == entries)
              && (NumberRow(f) && f.htype == Repeated ==>
                    ArrayBytes(f.dataSize, now.entries) ==
                    ZeroFirst(ArrayBytes(f.dataSize, entries), if data > 0 then data else 0))
            case Pick(which, v) => now.Pick? && now.which == (if size < k then 0 else which)
            case Shared => false
  {
    hide WipedVal, WipedEntries, DataAt, SizeAt, FieldIndex, ConformsVal, ArrayBytes, ZeroFirst, NumberRow;
    var f, data := fields[i], Lead(k, DataAt(fields, i));
    assert WipedMsg(fields, m, k)[i] == WipedSlot(fields, m, i, k);
    assert ConformsRow(fields, m, i) && UnionHead(fields, i) == i;
    match m[i] {
      case One(v) => ClearedIs(f, v, k - DataAt(fields, i));
      case Opt(_, v) => ClearedIs(f, v, k - DataAt(fields, i));
      case Many(_, entries) =>
        NothingWiped(f, entries);
        if NumberRow(f) && f.htype == Repeated {
          HasSize(f);
          WipedNumbers(f, entries, data);
        }
      case _ =>
    }
  }

  /** The first k bytes of the value are cleared, if there are any before k. */
  ghost predicate Cleared(f: Field, v: Value, v': Value, k: int) {
    if k <= 0 then v' == v
    else match f.ltype
      case Bytes => v' == Blob([])
      case String | FixedLengthBytes => v.Blob? && v' == Blob(ZeroFirst(v.bytes, k))
      case Submessage => v.Sub? && v' == Sub(WipedMsg(SubTable(f), v.msg, k))
      case _ =>
        NumberRow(f) ==>
          NumberBytes(f.dataSize, v') == ZeroFirst(NumberBytes(f.dataSize, v), if k < f.dataSize then k else f.dataSize)
  }

  lemma {:induction false} NothingWiped(f: Field, entries: seq<Value>)
    ensures WipedEntries(f, entries, 0) == entries
  {
  }

  lemma {:induction false} ClearedIs(f: Field, v: Value, k: int)
    requires ConformsVal(f, v)
    ensures Cleared(f, v, WipedVal(f, v, if k > 0 then k else 0), k)
  {
    hide NumberBytes, Conforms, WipedMsg, HalfRange, Pow2;
    if k > 0 && NumberRow(f) {
      var here := if k < f.dataSize then k else f.dataSize;
      WipedNumber(f, v, here);
    }
  }
}
