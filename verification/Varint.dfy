/** The scalar layer of the wire format: base-128 varints (pb_encode.c:608-628,
    pb_decode.c:187-276). */
module Varint {
  import opened Wrappers
  import opened Bits

  const U32: nat := 0x1_0000_0000
  const U64: nat := 0x1_0000_0000_0000_0000

  // ---------- What a varint means ----------

  /** The number written by base-128 digits, least significant first; bit 7 is not a digit bit. */
  function Base128(s: seq<byte>): nat {
    if s == [] then 0 else s[0] % 128 + 128 * Base128(s[1..])
  }

  /** Cuts the varint at the head of s off: the bytes up to the first one with bit 7 clear. */
  function TakeVarint(s: seq<byte>): Parsed<seq<byte>> {
    if s == [] then Fail
    else if s[0] < 128 then Got([s[0]], s[1..])
    else match TakeVarint(s[1..])
      case Fail => Fail
      case Got(e, rest) => Got([s[0]] + e, rest)
  }

  /** e is one complete varint: every byte but the last has bit 7 set. */
  predicate IsVarint(e: seq<byte>) {
    e != [] && e[|e| - 1] < 128 && forall i :: 0 <= i < |e| - 1 ==> e[i] >= 128
  }

  lemma {:induction false} TakeVarintSplits(s: seq<byte>)
    requires TakeVarint(s).Got?
    ensures s == TakeVarint(s).value + TakeVarint(s).rest
    ensures IsVarint(TakeVarint(s).value)
  {
    if s[0] >= 128 { TakeVarintSplits(s[1..]); }
  }

  lemma {:induction false} TakeVarintOf(e: seq<byte>, tail: seq<byte>)
    requires IsVarint(e)
    ensures TakeVarint(e + tail) == Got(e, tail)
  {
    assert (e + tail)[1..] == e[1..] + tail;
    assert e == [e[0]] + e[1..];
    if |e| > 1 { TakeVarintOf(e[1..], tail); } else { assert e == [e[0]] && e[1..] + tail == tail; }
  }

  /** The canonical encoding. */
  function EncVarint(v: nat): seq<byte> {
    if v < 128 then [v] else [v % 128 + 128] + EncVarint(v / 128)
  }

  lemma {:induction false} VarintStep(v: nat)
    ensures EncVarint(v) == if v < 128 then [v] else [v % 128 + 128] + EncVarint(v / 128)
  {
  }

  lemma {:induction false} EncVarintIsVarint(v: nat)
    ensures IsVarint(EncVarint(v))
    ensures Base128(EncVarint(v)) == v
  {
    if v >= 128 { EncVarintIsVarint(v / 128); }
  }

  lemma {:induction false} Base128Bound(s: seq<byte>)
    ensures Base128(s) < Pow2(7 * |s|)
  {
    if s != [] {
      Base128Bound(s[1..]);
      Pow2Add(7, 7 * |s[1..]|);
      assert Pow2(7) == 128;
    }
  }

  /** A number below 128^n has at most n digits (and always at least one). */
  lemma {:induction false} EncVarintLength(v: nat, n: nat)
    requires n > 0 && v < Pow2(7 * n)
    ensures 1 <= |EncVarint(v)| <= n
  {
    if v >= 128 {
      assert Pow2(7) == 128;
      if n > 1 {
        Pow2Add(7, 7 * (n - 1));
        EncVarintLength(v / 128, n - 1);
      }
    }
  }

  // ---------- pb_decode_varint ----------

  /** The loop of pb_decode_varint from bit position `bitpos` with `acc` collected so far.
      Bits shifted past 63 fall off. */
  function DecVarintFrom(s: seq<byte>, bitpos: nat, acc: nat): Parsed<nat>
    decreases |s|
  {
    if bitpos >= 64 || s == [] then Fail
    else
      var acc' := BitOr(acc, Shl(s[0] % 128, bitpos) % U64);
      if s[0] < 128 then Got(acc', s[1..]) else DecVarintFrom(s[1..], bitpos + 7, acc')
  }

  function DecVarint(s: seq<byte>): Parsed<nat> { DecVarintFrom(s, 0, 0) }

  // ---------- pb_decode_varint32_eof ----------

  /** Past bit 32 a byte must carry no digit bits, or continue the sign of a negative number. */
  predicate Overflows32(b: byte, bitpos: nat, acc: nat) {
    b % 128 != 0 && (acc / 0x8000_0000 == 0 || b != if bitpos < 63 then 0xFF else 0x01)
  }

  /** The multibyte loop of pb_decode_varint32_eof.  `bitpos` is an 8-bit counter and the
      loop has no length limit of its own. */
  function DecVarint32From(s: seq<byte>, bitpos: nat, acc: nat): Parsed<nat>
    decreases |s|
  {
    if s == [] || (bitpos >= 32 && Overflows32(s[0], bitpos, acc)) then Fail
    else
      var acc' := if bitpos >= 32 then acc else BitOr(acc, Shl(s[0] % 128, bitpos) % U32);
      var bitpos' := (bitpos + 7) % 256;
      if s[0] >= 128 then DecVarint32From(s[1..], bitpos', acc')
      else if bitpos' == 35 && s[0] / 16 % 8 != 0 then Fail
      else Got(acc', s[1..])
  }

  function DecVarint32(s: seq<byte>): Parsed<nat> {
    if s == [] then Fail
    else if s[0] < 128 then Got(s[0], s[1..])
    else DecVarint32From(s[1..], 7, s[0] % 128)
  }

  // ---------- The decoders against the meaning ----------

  lemma {:induction false} Widths()
    ensures Pow2(32) == U32 && Pow2(64) == U64
  {
    assert Pow2(8) == 0x100;
    Pow2Add(8, 8);
    Pow2Add(16, 16);
    Pow2Add(32, 32);
  }

  lemma {:induction false} SevenBits()
    ensures Pow2(7) == 128
  {
  }

  lemma {:induction false} DigitAbove(d: nat, b: nat, k: nat)
    ensures Shl(d + 128 * b, k) == Shl(d, k) + Shl(b, k + 7)
  {
    hide Shl, Pow2;
    var p := Pow2(k);
    ShlIsTimes(d, k);
    ShlIsTimes(b, k + 7);
    ShlIsTimes(d + 128 * b, k);
    Pow2Add(7, k);
    SevenBits();
    assert (d + 128 * b) * p == d * p + b * (128 * p);
  }

  /** One round of either loop: the digits read so far are the number collected, modulo the width. */
  lemma {:induction false} CollectDigit(acc: nat, d: nat, b: nat, k: nat, w: nat, m: nat)
    requires k <= w && acc < Pow2(k) && d < 128 && m == Pow2(w)
    ensures var acc' := BitOr(acc, Shl(d, k) % m);
            && acc' < Pow2(k + 7) && acc' < m && acc' == (acc + Shl(d, k)) % m
            && (acc' + Shl(b, k + 7)) % m == (acc + Shl(d + 128 * b, k)) % m
  {
    OrShifted(acc, d, k, w, m);
    DigitAbove(d, b, k);
    ModAdd(Shl(b, k + 7), acc + Shl(d, k), m);
  }

  /** What pb_decode_varint computes from bit position k on: the varint at the head of the input,
      if it ends in time, modulo 2^64. */
  lemma {:induction false} DecVarintFromMeaning(s: seq<byte>, j: nat, acc: nat)
    requires acc < Pow2(7 * j)
    ensures DecVarintFrom(s, 7 * j, acc) ==
            match TakeVarint(s)
            case Fail => Fail
            case Got(e, rest) => if j + |e| <= 10 then Got((acc + Shl(Base128(e), 7 * j)) % U64, rest) else Fail
    decreases |s|
  {
    hide BitOr, Shl, Pow2;
    assert 7 * (j + 1) == 7 * j + 7;
    if 7 * j < 64 && s != [] {
      Widths();
      var d := s[0] % 128;
      CollectDigit(acc, d, 0, 7 * j, 64, U64);
      if s[0] >= 128 {
        DecVarintFromMeaning(s[1..], j + 1, BitOr(acc, Shl(d, 7 * j) % U64));
        if TakeVarint(s[1..]).Got? {
          var e := TakeVarint(s[1..]).value;
          assert ([s[0]] + e)[1..] == e;
          CollectDigit(acc, d, Base128(e), 7 * j, 64, U64);
        }
      }
    }
  }

  /** pb_decode_varint accepts exactly the inputs that begin with a varint of at most ten bytes,
      leaves the bytes after it, and returns its base-128 value modulo 2^64. */
  lemma {:induction false} DecVarintMeaning(s: seq<byte>)
    ensures DecVarint(s) ==
            match TakeVarint(s)
            case Fail => Fail
            case Got(e, rest) => if |e| <= 10 then Got(Base128(e) % U64, rest) else Fail
  {
    DecVarintFromMeaning(s, 0, 0);
  }

  /** pb_decode_varint32 accepts only varints, and leaves the bytes after it. */
  lemma {:induction false} DecVarint32FromShape(s: seq<byte>, bitpos: nat, acc: nat)
    requires acc < U32 && DecVarint32From(s, bitpos, acc).Got?
    ensures TakeVarint(s).Got? && DecVarint32From(s, bitpos, acc).rest == TakeVarint(s).rest
    ensures DecVarint32From(s, bitpos, acc).value < U32
    decreases |s|
  {
    var acc' := if bitpos >= 32 then acc else BitOr(acc, Shl(s[0] % 128, bitpos) % U32);
    assert acc' < U32 by {
      Widths();
      OrBound(acc, Shl(s[0] % 128, bitpos) % U32, 32);
    }
    if s[0] >= 128 { DecVarint32FromShape(s[1..], (bitpos + 7) % 256, acc'); }
  }

  /** Past bit 32 the loop only checks bytes. */
  lemma {:induction false} DecVarint32FromHigh(s: seq<byte>, j: nat, acc: nat)
    requires 5 <= j && acc < U32 && DecVarint32From(s, 7 * j, acc).Got?
    requires TakeVarint(s).Got? && j + |TakeVarint(s).value| <= 10
    ensures DecVarint32From(s, 7 * j, acc).value == acc
    decreases |s|
  {
    hide BitOr, Shl, Pow2;
    if s[0] >= 128 {
      assert TakeVarint(s).value == [s[0]] + TakeVarint(s[1..]).value;
      assert (7 * j + 7) % 256 == 7 * (j + 1);
      DecVarint32FromHigh(s[1..], j + 1, acc);
    }
  }

  lemma {:induction false} MultipleVanishes(acc: nat, x: nat, k: nat)
    requires 32 <= k && acc < U32
    ensures (acc + Shl(x, k)) % U32 == acc
  {
    hide Shl, Pow2;
    Widths();
    Pow2Add(32, k - 32);
    ShlIsTimes(x, k);
    var q := x * Pow2(k - 32);
    assert x * Pow2(k) == q * U32;
    ModUnique(acc + x * Pow2(k), q, acc, U32);
  }

  lemma {:induction false} DecVarint32FromValue(s: seq<byte>, j: nat, acc: nat)
    requires 1 <= j <= 5 && acc < Pow2(7 * j) && acc < U32
    requires DecVarint32From(s, 7 * j, acc).Got?
    requires TakeVarint(s).Got? && j + |TakeVarint(s).value| <= 10
    ensures DecVarint32From(s, 7 * j, acc).value == (acc + Shl(Base128(TakeVarint(s).value), 7 * j)) % U32
    decreases |s|
  {
    hide BitOr, Shl, Pow2;
    var e := TakeVarint(s).value;
    if j == 5 {
      DecVarint32FromHigh(s, j, acc);
      MultipleVanishes(acc, Base128(e), 35);
    } else {
      assert U32 == Pow2(32) by { Widths(); }
      var d, k := s[0] % 128, 7 * j;
      var acc' := BitOr(acc, Shl(d, k) % U32);
      assert e == [s[0]] + e[1..];
      CollectDigit(acc, d, Base128(e[1..]), k, 32, U32);
      assert k < 32 && (k + 7) % 256 == k + 7 == 7 * (j + 1);
      if s[0] >= 128 {
        assert TakeVarint(s[1..]).value == e[1..];
        assert DecVarint32From(s, k, acc) == DecVarint32From(s[1..], k + 7, acc');
        DecVarint32FromValue(s[1..], j + 1, acc');
      } else {
        assert Base128(e) == d;
        assert DecVarint32From(s, k, acc).value == acc';
      }
    }
  }

  /** What pb_decode_varint32 returns is a varint's value modulo 2^32, when the varint has at most
      ten bytes; it never returns more than 32 bits. */
  lemma {:induction false} DecVarint32Meaning(s: seq<byte>)
    requires DecVarint32(s).Got?
    ensures TakeVarint(s).Got? && DecVarint32(s).rest == TakeVarint(s).rest
    ensures DecVarint32(s).value < U32
    ensures |TakeVarint(s).value| <= 10 ==> DecVarint32(s).value == Base128(TakeVarint(s).value) % U32
  {
    hide BitOr, Shl, Pow2;
    if s[0] >= 128 {
      var acc := s[0] % 128;
      SevenBits();
      DecVarint32FromShape(s[1..], 7, acc);
      var e := TakeVarint(s).value;
      if |e| <= 10 {
        assert TakeVarint(s[1..]).value == e[1..];
        DecVarint32FromValue(s[1..], 1, acc);
        ShlIsTimes(Base128(e[1..]), 7);
      }
    }
  }

  lemma {:induction false} Low32(b: nat)
    ensures b % U64 % U32 == b % U32
  {
    var r := b % U64;
    ModUnique(b, b / U64 * U32 + r / U32, r % U32, U32);
  }

  /** The 32-bit decoder against the 64-bit one: whenever pb_decode_varint32 accepts a varint of
      at most ten bytes, pb_decode_varint accepts it too, reads the same bytes, and the results
      agree modulo 2^32. */
  lemma {:induction false} Varint32IsVarintModulo(s: seq<byte>)
    requires DecVarint32(s).Got? && |s| - |DecVarint32(s).rest| <= 10
    ensures DecVarint(s).Got? && DecVarint(s).rest == DecVarint32(s).rest
    ensures DecVarint32(s).value == DecVarint(s).value % U32
  {
    DecVarint32Meaning(s);
    TakeVarintSplits(s);
    DecVarintMeaning(s);
    Low32(Base128(TakeVarint(s).value));
  }

  // ---------- Round trips ----------

  /** Every 64-bit number comes back, and the rest of the input is untouched. */
  lemma {:induction false} VarintRoundTrip(v: nat, tail: seq<byte>)
    requires v < U64
    ensures DecVarint(EncVarint(v) + tail) == Got(v, tail)
    ensures 1 <= |EncVarint(v)| <= 10
  {
    hide EncVarint, DecVarint, DecVarintFrom, TakeVarint, IsVarint, Base128, BitOr, Shl, Pow2;
    EncVarintIsVarint(v);
    EncVarintLengths(v);
    DecVarintAccepts(EncVarint(v), tail);
  }

  lemma {:induction false} EncVarintLengths(v: nat)
    ensures v < U64 ==> 1 <= |EncVarint(v)| <= 10
    ensures v < U32 ==> 1 <= |EncVarint(v)| <= 5
  {
    Widths();
    Pow2Monotone(64, 70);
    Pow2Monotone(32, 35);
    if v < U64 { EncVarintLength(v, 10); }
    if v < U32 { EncVarintLength(v, 5); }
  }

  lemma {:induction false} DecVarintAccepts(e: seq<byte>, tail: seq<byte>)
    requires IsVarint(e) && |e| <= 10
    ensures DecVarint(e + tail) == Got(Base128(e) % U64, tail)
  {
    TakeVarintOf(e, tail);
    DecVarintMeaning(e + tail);
  }

  /** The canonical encoding is the shortest one pb_decode_varint accepts for a value. */
  lemma {:induction false} CanonicalIsShortest(s: seq<byte>)
    requires DecVarint(s).Got?
    ensures |EncVarint(DecVarint(s).value)| <= |s| - |DecVarint(s).rest|
  {
    DecVarintMeaning(s);
    TakeVarintSplits(s);
    var e := TakeVarint(s).value;
    Base128Bound(e);
    ModBelow(Base128(e), U64);
    EncVarintLength(DecVarint(s).value, |e|);
  }

  /** The 32-bit loop has no objection while the number fits 32 bits: at most five bytes, and only
      four bits in the fifth. */
  lemma {:induction false} Varint32FromAccepts(s: seq<byte>, j: nat, acc: nat)
    requires 1 <= j && TakeVarint(s).Got?
    requires var e := TakeVarint(s).value; j + |e| <= 5 && (j + |e| == 5 ==> e[|e| - 1] < 16)
    ensures DecVarint32From(s, 7 * j, acc).Got?
    decreases |s|
  {
    hide BitOr, Shl;
    var e := TakeVarint(s).value;
    assert e[0] == s[0];
    if s[0] >= 128 {
      assert TakeVarint(s[1..]).value == e[1..];
      assert (7 * j + 7) % 256 == 7 * (j + 1);
      Varint32FromAccepts(s[1..], j + 1, BitOr(acc, Shl(s[0] % 128, 7 * j) % U32));
    }
  }

  lemma {:induction false} TopDigit(e: seq<byte>)
    requires IsVarint(e)
    ensures Base128(e) >= Shl(e[|e| - 1], 7 * (|e| - 1))
  {
    if |e| > 1 {
      TopDigit(e[1..]);
      DigitAbove(0, e[|e| - 1], 7 * (|e| - 2));
      DigitAbove(0, Base128(e[1..]), 0);
      ShlSeven(e[|e| - 1], 7 * (|e| - 2));
    }
  }

  lemma {:induction false} ShlSeven(d: nat, k: nat)
    ensures Shl(d, k + 7) == 128 * Shl(d, k)
  {
    if k > 0 { ShlSeven(d, k - 1); }
    if k == 0 { ShlIsTimes(d, 7); }
  }

  lemma {:induction false} LastDigit32(d: nat)
    requires Shl(d, 28) < U32
    ensures d < 16
  {
    hide Shl;
    ShlIsTimes(d, 28);
    Pow2Add(14, 14);
    assert Pow2(14) == 0x4000;
  }

  /** pb_decode_varint32 accepts every canonical encoding of a 32-bit number. */
  lemma {:induction false} Varint32RoundTrip(v: nat, tail: seq<byte>)
    requires v < U32
    ensures DecVarint32(EncVarint(v) + tail) == Got(v, tail)
    ensures 1 <= |EncVarint(v)| <= 5
  {
    EncVarintIsVarint(v);
    EncVarintLengths(v);
    DecVarint32Accepts(EncVarint(v), tail);
  }

  lemma {:induction false} DecVarint32Accepts(e: seq<byte>, tail: seq<byte>)
    requires IsVarint(e) && |e| <= 5 && Base128(e) < U32
    ensures DecVarint32(e + tail) == Got(Base128(e), tail)
  {
    hide *;
    Varint32Accepted(e, tail);
    TakeVarintOf(e, tail);
    DecVarint32Meaning(e + tail);
  }

  lemma {:induction false} Varint32Accepted(e: seq<byte>, tail: seq<byte>)
    requires IsVarint(e) && |e| <= 5 && Base128(e) < U32
    ensures DecVarint32(e + tail).Got?
  {
    if |e| > 1 {
      if |e| == 5 {
        TopDigit(e);
        LastDigit32(e[4]);
      }
      assert (e + tail)[1..] == e[1..] + tail;
      TakeVarintOf(e[1..], tail);
      Varint32FromAccepts(e[1..] + tail, 1, e[0] % 128);
    }
  }

  /** The bytes above bit 35 of a sign-extended negative number, and the loop on them. */
  lemma {:induction false} SignBytes(acc: nat, tail: seq<byte>)
    requires 0x8000_0000 <= acc < U32
    ensures DecVarint32From(EncVarint(0x1FFF_FFFF) + tail, 35, acc).Got?
  {
    assert EncVarint(0x1FFF_FFFF) == [0xFF, 0xFF, 0xFF, 0xFF, 0x01];
    var s: seq<byte> := [0xFF, 0xFF, 0xFF, 0xFF, 0x01] + tail;
    assert s[1..][1..][1..][1..] == [0x01] + tail;
    assert DecVarint32From(s[1..][1..][1..][1..], 63, acc).Got?;
    assert DecVarint32From(s[1..][1..][1..], 56, acc).Got?;
    assert DecVarint32From(s[1..][1..], 49, acc).Got?;
    assert DecVarint32From(s[1..], 42, acc).Got?;
  }

  /** What is left of a sign-extended negative number above bit 7 * j is all ones from bit 31 up. */
  ghost predicate SignExtended(v: nat, j: nat) {
    match j
    case 0 => 0xFFFF_FFFF_8000_0000 <= v < 0x1_0000_0000_0000_0000
    case 1 => 0x1FF_FFFF_FF00_0000 <= v < 0x200_0000_0000_0000
    case 2 => 0x3_FFFF_FFFE_0000 <= v < 0x4_0000_0000_0000
    case 3 => 0x7FF_FFFF_FC00 <= v < 0x800_0000_0000
    case 4 => 0xF_FFFF_FFF8 <= v < 0x10_0000_0000
    case 5 => v == 0x1FFF_FFFF
    case _ => false
  }

  lemma {:induction false} SignExtendedEnds(v: nat)
    ensures SignExtended(v, 0) <==> U64 - 0x8000_0000 <= v < U64
    ensures SignExtended(v, 5) <==> v == 0x1FFF_FFFF
  {
  }

  lemma {:induction false} SignExtendedNext(v: nat, j: nat)
    requires j < 5 && SignExtended(v, j)
    ensures v >= 128 && SignExtended(v / 128, j + 1)
    ensures EncVarint(v) == [v % 128 + 128] + EncVarint(v / 128)
  {
  }

  lemma {:induction false} Continue32(b: byte, t: seq<byte>, j: nat, acc: nat)
    requires b >= 128 && j <= 4
    ensures DecVarint32From([b] + t, 7 * j, acc) ==
            DecVarint32From(t, 7 * (j + 1), BitOr(acc, Shl(b % 128, 7 * j) % U32))
  {
    hide BitOr, Shl;
    assert ([b] + t)[1..] == t;
  }

  lemma {:induction false} SignExtendedFrom(v: nat, n: nat, j: nat, acc: nat, tail: seq<byte>)
    requires 1 <= j <= 5 && SignExtended(v, j) && n % U32 >= 0x8000_0000
    requires acc < Pow2(7 * j) && acc < U32 && (acc + Shl(v, 7 * j)) % U32 == n % U32
    ensures DecVarint32From(EncVarint(v) + tail, 7 * j, acc).Got?
    decreases 5 - j
  {
    hide BitOr, Shl, Pow2, EncVarint, DecVarint32From, SignExtended;
    if j == 5 {
      SignExtendedEnds(v);
      MultipleVanishes(acc, v, 35);
      SignBytes(acc, tail);
    } else {
      assert U32 == Pow2(32) by { Widths(); }
      var d, k, t := v % 128, 7 * j, EncVarint(v / 128);
      CollectDigit(acc, d, v / 128, k, 32, U32);
      SignExtendedNext(v, j);
      assert [d + 128] + (t + tail) == EncVarint(v) + tail;
      Continue32(d + 128, t + tail, j, acc);
      SignExtendedFrom(v / 128, n, j + 1, BitOr(acc, Shl(d, k) % U32), tail);
    }
  }

  /** pb_decode_varint32 accepts the ten-byte encoding of every negative int32 (pb_enc_varint widens
      it to 64 bits first) and returns its two's complement in 32 bits. */
  lemma {:induction false} NegativeVarint32(v: nat, tail: seq<byte>)
    requires U64 - 0x8000_0000 <= v < U64
    ensures DecVarint32(EncVarint(v) + tail) == Got(v % U32, tail)
  {
    hide EncVarint, TakeVarint, IsVarint, DecVarint32, Base128;
    var e := EncVarint(v);
    NegativeAccepted(v, tail);
    EncVarintIsVarint(v);
    EncVarintLengths(v);
    TakeVarintOf(e, tail);
    DecVarint32Meaning(e + tail);
  }

  lemma {:induction false} NegativeAccepted(v: nat, tail: seq<byte>)
    requires U64 - 0x8000_0000 <= v < U64
    ensures DecVarint32(EncVarint(v) + tail).Got?
  {
    hide BitOr, Shl, Pow2, EncVarint, DecVarint32From, DecVarint32, SignExtended;
    var d: nat, t := v % 128, EncVarint(v / 128);
    SignExtendedEnds(v);
    LowDigit(v);
    SignExtendedNext(v, 0);
    SignExtendedFrom(v / 128, v, 1, d, tail);
    assert EncVarint(v) + tail == [d + 128] + (t + tail);
    StartMultibyte(d + 128, t + tail);
  }

  lemma {:induction false} StartMultibyte(b: byte, t: seq<byte>)
    requires b >= 128
    ensures DecVarint32([b] + t) == DecVarint32From(t, 7, b % 128)
  {
    assert ([b] + t)[1..] == t;
  }

  lemma {:induction false} LowDigit(v: nat)
    ensures v % 128 + Shl(v / 128, 7) == v
    ensures Pow2(7) == 128
  {
    DigitAbove(v % 128, v / 128, 0);
  }
}
