/** What sequences of bytes are read as, in numbers (pb_decode.c:187-331, 1279-1551). */
module WireReading {
  import opened Wrappers
  import opened Bits
  import opened Descriptor
  import opened Varint
  import opened DecodeSpec
  import opened WireFormat

  // ---------- Which varints pb_decode_varint32 takes ----------

  /** Of more than five bytes, those past the fifth add nothing, or repeat the sign of a negative number. */
  predicate Digit32Taken(e: seq<byte>, k: nat)
    requires 5 <= k < |e|
  {
    e[k] % 128 == 0 || (e[4] / 8 % 2 == 1 && e[k] == if k == 9 then 1 else 255)
  }

  predicate Taken32(e: seq<byte>) {
    && (|e| == 5 ==> e[4] < 16)
    && forall k :: 5 <= k < |e| ==> Digit32Taken(e, k)
  }

  lemma {:induction false} HighDigits(e: seq<byte>, k: nat, acc: nat, tail: seq<byte>)
    requires IsVarint(e) && 5 <= k < |e| <= 10 && (acc / 0x8000_0000 == 0 <==> e[4] / 8 % 2 == 0)
    ensures DecVarint32From(e[k..] + tail, 7 * k, acc).Got? <==> forall i :: k <= i < |e| ==> Digit32Taken(e, i)
    decreases |e| - k
  {
    hide BitOr, Shl;
    var s := e[k..] + tail;
    assert s[0] == e[k] && s[1..] == e[k + 1..] + tail;
    assert (7 * k + 7) % 256 == 7 * (k + 1);
    assert Overflows32(s[0], 7 * k, acc) <==> !Digit32Taken(e, k);
    if k + 1 < |e| { HighDigits(e, k + 1, acc, tail); }
  }

  lemma {:induction false} SignBit(acc: nat, d: nat)
    requires acc < 0x1000_0000 && d < 128
    ensures (acc + d * 0x1000_0000) % U32 / 0x8000_0000 == d / 8 % 2
  {
    var q, h, l := d / 16, d / 8 % 2, d % 8;
    assert d == 16 * q + 8 * h + l;
    var x := acc + l * 0x1000_0000;
    ModUnique(acc + d * 0x1000_0000, q, h * 0x8000_0000 + x, U32);
    ModUnique(h * 0x8000_0000 + x, h, x, 0x8000_0000);
  }

  /** One round of the loop below bit 32. */
  lemma {:induction false} LowRound(s: seq<byte>, k: nat, acc: nat)
    requires s != [] && 1 <= k <= 4 && acc < Pow2(7 * k)
    ensures var acc' := BitOr(acc, Shl(s[0] % 128, 7 * k) % U32);
            && acc' < Pow2(7 * (k + 1)) && acc' == (acc + Shl(s[0] % 128, 7 * k)) % U32
            && DecVarint32From(s, 7 * k, acc) ==
               if s[0] >= 128 then DecVarint32From(s[1..], 7 * (k + 1), acc')
               else if k == 4 && s[0] >= 16 then Fail
               else Got(acc', s[1..])
  {
    hide BitOr, Shl, Pow2;
    Widths();
    CollectDigit(acc, s[0] % 128, 0, 7 * k, 32, U32);
    assert (7 * k + 7) % 256 == 7 * (k + 1);
  }

  lemma {:induction false} LowBits(b: byte)
    ensures b % 128 / 8 % 2 == b / 8 % 2
  {
    var t: nat, d: nat := b / 128, b % 128;
    ModUnique(b, 16 * t + d / 8, d % 8, 8);
    ModUnique(16 * t + d / 8, 8 * t + d / 16, d / 8 % 2, 2);
  }

  /** The fifth byte, when others follow, leaves the sign bit they go on with. */
  lemma {:induction false} FifthDigit(acc: nat, b: byte)
    requires acc < Pow2(28)
    ensures (acc + Shl(b % 128, 28)) % U32 / 0x8000_0000 == b / 8 % 2
  {
    hide Shl, Pow2;
    ShlIsTimes(b % 128, 28);
    TwentyEight();
    SignBit(acc, b % 128);
    LowBits(b);
  }

  lemma {:induction false} LowDigits(e: seq<byte>, k: nat, acc: nat, tail: seq<byte>)
    requires IsVarint(e) && 1 <= k < |e| <= 10 && k <= 4 && acc < Pow2(7 * k)
    ensures DecVarint32From(e[k..] + tail, 7 * k, acc).Got? <==> Taken32(e)
    decreases |e| - k
  {
    hide BitOr, Shl, Pow2, Digit32Taken, DecVarint32From;
    var s := e[k..] + tail;
    assert s[0] == e[k] && s[1..] == e[k + 1..] + tail;
    var acc' := BitOr(acc, Shl(e[k] % 128, 7 * k) % U32);
    LowRound(s, k, acc);
    if k + 1 < |e| {
      assert e[k] >= 128;
      if k < 4 {
        LowDigits(e, k + 1, acc', tail);
      } else {
        FifthDigit(acc, e[4]);
        HighDigits(e, 5, acc', tail);
      }
    }
  }

  lemma {:induction false} TwentyEight()
    ensures Pow2(28) == 0x1000_0000
  {
    Pow2Add(14, 14);
    assert Pow2(14) == 0x4000;
  }

  /** Of at most ten bytes, pb_decode_varint32 takes exactly those whose digits fit 32 bits, or go on as
      the sign of a negative number; the unused bits of a fifth byte that others follow are not looked at.
      Their value is taken modulo 2^32. */
  lemma {:induction false} Varint32Reads(e: seq<byte>, tail: seq<byte>)
    requires IsVarint(e) && |e| <= 10
    ensures DecVarint32(e + tail) == if Taken32(e) then Got(Base128(e) % 4294967296, tail) else Fail
  {
    hide BitOr, Shl, Digit32Taken;
    var s := e + tail;
    TakeVarintOf(e, tail);
    if DecVarint32(s).Got? { DecVarint32Meaning(s); }
    if |e| == 1 {
      assert s[0] < 128;
    } else {
      assert s[0] >= 128 && s[1..] == e[1..] + tail;
      SevenBits();
      LowDigits(e, 1, s[0] % 128, tail);
    }
  }

  /** A key: a wire type in its low three bits and a field number above them; zero ends the message, and
      what is no 32-bit varint is an error. */
  lemma {:induction false} KeyReads(e: seq<byte>, tail: seq<byte>)
    requires IsVarint(e) && |e| <= 10
    ensures var key := Base128(e) % 4294967296;
            DecKey(e + tail) ==
            if !Taken32(e) then BadKey else if key == 0 then EndOfMessage(tail) else KeyOf(key % 8, key / 8, tail)
  {
    hide DecVarint32, IsVarint, Base128, Taken32;
    Varint32Reads(e, tail);
  }

  // ---------- Numbers ----------

  /** What number an integer member gets from a varint of the value w modulo 2^64: a signed member shorter
      than 64 bits gets the low 32 bits as a signed number. */
  function Meant(f: Field, w: nat): int {
    match f.ltype
    case UVarint => w
    case SVarint => if w % 2 == 0 then w / 2 else -(w + 1) / 2
    case _ =>
      if f.dataSize == 8 then (if w < 9223372036854775808 then w else w - 18446744073709551616)
      else if w % 4294967296 < 2147483648 then w % 4294967296
      else w % 4294967296 - 4294967296
  }

  /** The member can hold the number. */
  predicate CanHold(f: Field, n: int) {
    if f.ltype == UVarint then 0 <= n < Range(f.dataSize) else -(Range(f.dataSize) as int) <= 2 * n < Range(f.dataSize)
  }

  /** An integer member is given that number if it can hold it, and the field is refused if it cannot. */
  lemma {:induction false} IntegerReads(f: Field, e: seq<byte>, tail: seq<byte>)
    requires f.ltype == Varint || f.ltype == UVarint || f.ltype == SVarint
    requires IsVarint(e)
    ensures var n := Meant(f, Base128(e) % 18446744073709551616);
            DecScalar(f, e + tail) == if |e| <= 10 && CanHold(f, n) then Got(Num(n), tail) else Fail
  {
    hide DecVarint, IsVarint, Base128, Meant, CanHold, Clamped, ToI32, ToI64, FromZigZag;
    TakeVarintOf(e, tail);
    DecVarintMeaning(e + tail);
    var w := Base128(e) % U64;
    assert U64 == 18446744073709551616;
    if |e| <= 10 {
      var n := Meant(f, w);
      MeantIs(f, w);
      HoldsIs(f, n, tail);
    }
  }

  lemma {:induction false} MeantIs(f: Field, w: nat)
    requires w < U64
    ensures f.ltype == UVarint ==> Meant(f, w) == w
    ensures f.ltype == SVarint ==> Meant(f, w) == FromZigZag(w)
    ensures f.ltype == Varint ==> Meant(f, w) == if f.dataSize == 8 then ToI64(w) else ToI32(w)
  {
    if f.ltype == SVarint && w % 2 == 1 { assert w / 2 < U64 && w / 2 % U64 == w / 2; }
  }

  lemma {:induction false} HoldsIs(f: Field, n: int, tail: seq<byte>)
    ensures Clamped(n, f.ltype != UVarint, f.dataSize, tail) == if CanHold(f, n) then Got(Num(n), tail) else Fail
  {
    RangeIs(f.dataSize);
  }

  lemma {:induction false} BoolReads(f: Field, e: seq<byte>, tail: seq<byte>)
    requires f.ltype == Bool && IsVarint(e) && |e| <= 10
    ensures DecScalar(f, e + tail) ==
            if Taken32(e) then Got(Num(if Base128(e) % 4294967296 == 0 then 0 else 1), tail) else Fail
  {
    hide DecVarint32, IsVarint, Base128, Taken32;
    Varint32Reads(e, tail);
  }

  lemma {:induction false} FixedReads(f: Field, s: seq<byte>)
    requires f.ltype == Fixed32 || f.ltype == Fixed64
    ensures var n := if f.ltype == Fixed32 then 4 else 8;
            DecScalar(f, s) ==
            if |s| < n then Fail
            else Got(Num(if n == 4 then Four(s, 0) else Four(s, 0) + 4294967296 * Four(s, 4)), s[n..])
  {
    hide Four, FromLittleEndian;
    if |s| >= 4 { FromFour(s[..4]); FourIn(s, 4); }
    if |s| >= 8 { FromFour(s[..8]); FromFour(s[..8][4..]); FourIn(s, 8); }
    assert FromLittleEndian([]) == 0 by { FromNothing(); }
  }

  lemma {:induction false} FromNothing()
    ensures FromLittleEndian([]) == 0
  {
  }

  lemma {:induction false} FourIn(s: seq<byte>, n: nat)
    requires 4 <= n <= |s|
    ensures Four(s[..n], 0) == Four(s, 0)
    ensures n == 4 ==> s[..n][4..] == []
    ensures n == 8 ==> Four(s[..n][4..], 0) == Four(s, 4) && s[..n][4..][4..] == []
  {
  }

  lemma {:induction false} FromFour(b: seq<byte>)
    requires |b| >= 4
    ensures FromLittleEndian(b) == Four(b, 0) + 4294967296 * FromLittleEndian(b[4..])
  {
    assert b[1..][1..] == b[2..] && b[2..][1..] == b[3..] && b[3..][1..] == b[4..];
    assert FromLittleEndian(b) == b[0] + 256 * FromLittleEndian(b[1..]);
    assert FromLittleEndian(b[1..]) == b[1] + 256 * FromLittleEndian(b[2..]);
    assert FromLittleEndian(b[2..]) == b[2] + 256 * FromLittleEndian(b[3..]);
    assert FromLittleEndian(b[3..]) == b[3] + 256 * FromLittleEndian(b[4..]);
  }

  // ---------- Bytes ----------

  /** After a length n, a byte string or text that fits its member, with the room nanopb adds. */
  lemma {:induction false} StringReads(f: Field, s: seq<byte>)
    requires f.ltype == Bytes || f.ltype == String || f.ltype == FixedLengthBytes
    ensures DecVarint32(s).Fail? ==> DecScalar(f, s) == Fail
    ensures DecVarint32(s).Got? ==>
              var n, rest := DecVarint32(s).value, DecVarint32(s).rest;
              DecScalar(f, s) ==
              if f.ltype == FixedLengthBytes && n == 0 then Got(Blob(seq(f.dataSize, _ => 0)), rest)
              else if n <= |rest| && (match f.ltype
                                      case Bytes => n + 4 <= f.dataSize
                                      case String => n + 1 <= f.dataSize && n + 1 < 4294967296
                                      case _ => n == f.dataSize)
              then Got(Blob(rest[..n]), rest[n..])
              else Fail
  {
    hide DecVarint32;
    if DecVarint32(s).Got? { DecVarint32Meaning(s); }
  }

  // ---------- Skipping ----------

  /** A field that is not known: a varint of any length, eight bytes, a length and as many bytes, or four;
      there are no other wire types. */
  lemma {:induction false} SkipReads(wiretype: nat, s: seq<byte>, rest: seq<byte>)
    ensures SkipField(wiretype, s) == Some(rest) <==>
            match wiretype
            case 0 => exists e :: IsVarint(e) && s == e + rest
            case 1 => |s| >= 8 && rest == s[8..]
            case 2 => DecVarint32(s).Got? && DecVarint32(s).value <= |DecVarint32(s).rest|
                      && rest == DecVarint32(s).rest[DecVarint32(s).value..]
            case 5 => |s| >= 4 && rest == s[4..]
            case _ => false
  {
    hide DecVarint32;
    if wiretype == 0 {
      if TakeVarint(s).Got? { TakeVarintSplits(s); }
      if e :| IsVarint(e) && s == e + rest { TakeVarintOf(e, rest); }
    }
  }
}
