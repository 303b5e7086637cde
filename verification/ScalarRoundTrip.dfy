/** Every scalar comes back from its encoding (pb_encode.c:608-833, pb_decode.c:255-275, 1279-1551). */
module ScalarRoundTrip {
  import opened Wrappers
  import opened Bits
  import opened Descriptor
  import opened Varint
  import opened EncodeSpec
  import opened DecodeSpec

  const I64_HALF: int := 0x8000_0000_0000_0000

  /** The zigzag form interleaves the signs: 0, -1, 1, -2, 2, ... become 0, 1, 2, 3, 4, ... */
  lemma {:induction false} ZigZagMeans(n: int)
    requires -I64_HALF <= n < I64_HALF
    ensures ZigZag(n) == if n < 0 then -2 * n - 1 else 2 * n
    ensures ZigZag(n) < U64
  {
    var u := ToU64(n);
    assert u == if n < 0 then n + U64 else n;
    assert Shl(u, 1) == 2 * u;
    if n < 0 { ModUnique(2 * u, 1, 2 * n + U64, U64); }
  }

  /** Zigzag is the identity on all int64. */
  lemma {:induction false} ZigZagRoundTrip(n: int)
    requires -I64_HALF <= n < I64_HALF
    ensures FromZigZag(ZigZag(n)) == n
  {
    ZigZagMeans(n);
  }

  lemma {:induction false} SVarintRoundTrip(n: int, tail: seq<byte>)
    requires -I64_HALF <= n < I64_HALF
    ensures DecVarint(EncVarint(ZigZag(n)) + tail) == Got(ZigZag(n), tail)
    ensures FromZigZag(ZigZag(n)) == n
  {
    ZigZagMeans(n);
    ZigZagRoundTrip(n);
    VarintRoundTrip(ZigZag(n), tail);
  }

  lemma {:induction false} LittleEndianRoundTrip(v: nat, k: nat)
    requires v < Pow2(8 * k)
    ensures |LittleEndian(v, k)| == k && FromLittleEndian(LittleEndian(v, k)) == v
  {
    if k > 0 {
      Pow2Add(8, 8 * (k - 1));
      assert Pow2(8) == 256;
      assert v / 256 < Pow2(8 * (k - 1));
      LittleEndianRoundTrip(v / 256, k - 1);
      var le := LittleEndian(v, k);
      assert le[1..] == LittleEndian(v / 256, k - 1);
    }
  }

  lemma {:induction false} FixedRoundTrip(v: nat, k: nat, tail: seq<byte>)
    requires k == 4 || k == 8
    requires v < if k == 4 then U32 else U64
    ensures ReadBytes(LittleEndian(v, k) + tail, k) == Got(LittleEndian(v, k), tail)
    ensures FromLittleEndian(LittleEndian(v, k)) == v
  {
    hide LittleEndian, FromLittleEndian;
    Widths();
    LittleEndianRoundTrip(v, k);
    var s := LittleEndian(v, k) + tail;
    assert s[..k] == LittleEndian(v, k) && s[k..] == tail;
  }

  /** A length-prefixed string. */
  lemma {:induction false} StringRoundTrip(b: seq<byte>, tail: seq<byte>)
    requires |b| < U32
    ensures DecString(EncString(b) + tail) == Got(b, tail)
    ensures DecVarint32(EncString(b) + tail) == Got(|b|, b + tail)
    ensures (b + tail)[..|b|] == b && (b + tail)[|b|..] == tail
  {
    hide DecVarint32, EncVarint;
    Varint32RoundTrip(|b|, b + tail);
    assert EncString(b) + tail == EncVarint(|b|) + (b + tail);
  }

  /** Two stored values a reader of the structure cannot tell apart: a string ends at its NUL, and a
      bool is zero or not. */
  ghost predicate ScalarEq(f: Field, a: Value, b: Value) {
    match f.ltype
    case Bool => a.Num? && b.Num? && (a.n != 0 <==> b.n != 0)
    case String => a.Blob? && b.Blob? && CString(a.bytes) == CString(b.bytes)
    case _ => a == b
  }

  /** A static string must leave room for its terminator. */
  predicate Terminated(f: Field, v: Value) {
    f.ltype == String ==> |CString(BytesOf(v))| < f.dataSize
  }

  lemma {:induction false} CStringOfCString(b: seq<byte>)
    ensures CString(CString(b)) == CString(b)
  {
    if b != [] && b[0] != 0 {
      CStringOfCString(b[1..]);
      assert CString(b)[1..] == CString(b[1..]);
    }
  }

  /** A signed integer of any width survives the conversion to 64 bits and back. */
  lemma {:induction false} SignedRoundTrip(f: Field, n: int)
    requires IntegerSize(f.dataSize) && -HalfRange(f.dataSize) <= n < HalfRange(f.dataSize)
    ensures ToU64(n) < U64
    ensures (if f.dataSize == 8 then ToI64(ToU64(n)) else ToI32(ToU64(n))) == n
  {
    var u := ToU64(n);
    assert u == if n < 0 then n + U64 else n;
    if f.dataSize != 8 {
      assert -0x8000_0000 <= n < 0x8000_0000;
      if n < 0 {
        ModUnique(u, U32 - 1, n + U32, U32);
      }
    }
  }

  /** What a scalar's encoding decodes to. */
  lemma {:induction false} ScalarRoundTrips(f: Field, v: Value, tail: seq<byte>) returns (v': Value)
    requires f.ltype != Submessage && ConformsScalar(f, v) && EncodableScalar(f, v) && Terminated(f, v)
    ensures DecScalar(f, EncScalar(f, v) + tail) == Got(v', tail)
    ensures ScalarEq(f, v, v')
  {
    hide DecVarint, DecVarint32, EncVarint, LittleEndian, FromLittleEndian, ZigZag, FromZigZag, ReadBytes,
      ToI64, ToI32, EncString, DecString, CString, HalfRange, IntegerSize;
    v' := v;
    match f.ltype {
      case Bool =>
        v' := Num(if v.n != 0 then 1 else 0);
        Varint32RoundTrip(v'.n, tail);
      case Varint =>
        SignedRoundTrip(f, v.n);
        VarintRoundTrip(ToU64(v.n), tail);
      case UVarint =>
        UnsignedFits(f.dataSize);
        VarintRoundTrip(ToU64(v.n), tail);
      case SVarint =>
        UnsignedFits(f.dataSize);
        SVarintRoundTrip(v.n, tail);
      case Fixed32 => FixedRoundTrip(v.n, 4, tail);
      case Fixed64 => FixedRoundTrip(v.n, 8, tail);
      case Bytes => StringRoundTrip(v.bytes, tail);
      case String =>
        v' := Blob(CString(v.bytes));
        CStringOfCString(v.bytes);
        StringRoundTrip(CString(v.bytes), tail);
      case FixedLengthBytes =>
        StringRoundTrip(v.bytes, tail);
        if v.bytes == [] { assert Zeros(f.dataSize) == []; }
    }
  }

  lemma {:induction false} UnsignedFits(n: nat)
    ensures 2 * HalfRange(n) <= U64
  {
  }

  /** A string that fills its buffer without a terminator is written, but never read back. */
  lemma {:induction false} UnterminatedIsRefused(f: Field, v: Value, tail: seq<byte>)
    requires f.ltype == String && ConformsScalar(f, v) && !Terminated(f, v)
    ensures EncodableScalar(f, v) && DecScalar(f, EncScalar(f, v) + tail) == Fail
  {
    hide DecVarint32, EncVarint, CString, EncString;
    StringRoundTrip(CString(v.bytes), tail);
  }
}
