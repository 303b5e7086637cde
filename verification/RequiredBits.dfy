/** The fields_seen bitmap of pb_decode_noinit (pb_decode.c:928-931, 1015-1020, 1033-1073). */
module RequiredBits {
  import opened Bits
  import opened Varint
  import opened Descriptor
  import opened FieldIter
  import opened DecodeSpec

  predicate Bit(w: nat, k: nat) {
    if k == 0 then w % 2 == 1 else Bit(w / 2, k - 1)
  }

  lemma {:induction false} OrBit(a: nat, b: nat, k: nat)
    ensures Bit(BitOr(a, b), k) <==> Bit(a, k) || Bit(b, k)
  {
    if a == 0 { ZeroBit(k); }
    if b == 0 { ZeroBit(k); }
    if a > 0 && b > 0 && k > 0 { OrBit(a / 2, b / 2, k - 1); }
  }

  lemma {:induction false} ZeroBit(k: nat)
    ensures !Bit(0, k)
  {
    if k > 0 { ZeroBit(k - 1); }
  }

  lemma {:induction false} ShlOneBit(j: nat, k: nat)
    ensures Bit(Shl(1, j), k) <==> j == k
  {
    if j == 0 {
      if k > 0 { ZeroBit(k - 1); }
    } else if k > 0 {
      ShlOneBit(j - 1, k - 1);
    }
  }

  /** All bits of w are below r. */
  ghost predicate Within(w: nat, r: nat) {
    forall k: nat :: Bit(w, k) ==> k < r
  }

  ghost predicate AllBits(w: nat, r: nat) {
    forall k: nat :: k < r ==> Bit(w, k)
  }

  /** A word of r bits is the all-ones word exactly when each of them is set. */
  lemma {:induction false} WordFull(w: nat, r: nat)
    requires Within(w, r)
    ensures w == Pow2(r) - 1 <==> AllBits(w, r)
  {
    hide Bit;
    if w == Pow2(r) - 1 {
      forall k | 0 <= k < r ensures Bit(w, k) { OnesBit(r, k); }
    }
    if AllBits(w, r) { AllBitsOnes(w, r); }
  }

  lemma {:induction false} BitUp(w: nat, k: nat)
    ensures Bit(w, k + 1) <==> Bit(w / 2, k)
    ensures Bit(w, 0) <==> w % 2 == 1
  {
  }

  lemma {:induction false} AllBitsOnes(w: nat, r: nat)
    requires Within(w, r) && AllBits(w, r)
    ensures w == Pow2(r) - 1
  {
    hide Bit;
    if r == 0 {
      if w > 0 { var k := SomeBit(w); }
    } else {
      forall k: nat ensures Bit(w, k + 1) <==> Bit(w / 2, k) { BitUp(w, k); }
      forall k: nat | Bit(w / 2, k) ensures k < r - 1 { assert Bit(w, k + 1); }
      forall k | 0 <= k < r - 1 ensures Bit(w / 2, k) { assert Bit(w, k + 1); }
      AllBitsOnes(w / 2, r - 1);
      assert Bit(w, 0);
      BitUp(w, 0);
    }
  }

  lemma {:induction false} OnesBit(r: nat, k: nat)
    requires k < r
    ensures Bit(Pow2(r) - 1, k)
  {
    if k > 0 { OnesBit(r - 1, k - 1); }
  }

  lemma {:induction false} SomeBit(w: nat) returns (k: nat)
    requires w > 0
    ensures Bit(w, k)
  {
    if w % 2 == 1 {
      k := 0;
    } else {
      k := SomeBit(w / 2);
      k := k + 1;
    }
  }

  /** allbits >> (32 - r) */
  lemma {:induction false} ShiftedOnes(r: nat)
    requires r <= 32
    ensures (U32 - 1) / Pow2(32 - r) == Pow2(r) - 1
  {
    hide Pow2;
    Widths();
    var p, q := Pow2(r), Pow2(32 - r);
    Pow2Add(r, 32 - r);
    assert p * q - 1 == (p - 1) * q + (q - 1);
    ModUnique(p * q - 1, p - 1, q - 1, q);
  }

  // ---------- The rows the bits stand for ----------

  lemma {:induction false} RequiredGrows(fields: seq<Field>, i: nat, j: nat)
    requires i < j <= |fields|
    ensures RequiredBefore(fields, i) + (if fields[i].htype == Required then 1 else 0) <= RequiredBefore(fields, j)
  {
    if i + 1 < j { RequiredGrows(fields, i, j - 1); }
  }

  /** Required rows are numbered without gaps. */
  lemma {:induction false} RequiredAt(fields: seq<Field>, n: nat, b: nat) returns (i: nat)
    requires n <= |fields| && b < RequiredBefore(fields, n)
    ensures i < n && fields[i].htype == Required && RequiredBefore(fields, i) == b
  {
    if b < RequiredBefore(fields, n - 1) { i := RequiredAt(fields, n - 1, b); } else { i := n - 1; }
  }

  predicate SeenRow(fields: seq<Field>, i: nat) {
    i < |fields| && fields[i].htype == Required && RequiredBefore(fields, i) < MAX_REQUIRED
  }

  /** The bitmap's two words stand for a set of seen rows. */
  ghost predicate Tracks(words: seq<nat>, fields: seq<Field>, seen: set<nat>) {
    && |words| == 2 && Within(words[0], 32) && Within(words[1], 32)
    && (forall i :: i in seen ==> SeenRow(fields, i))
    && (forall b: nat :: b < 64 ==>
         (Bit(words[b / 32], b % 32) <==> exists i :: i in seen && RequiredBefore(fields, i) == b))
  }

  lemma {:induction false} TracksNothing(fields: seq<Field>)
    ensures Tracks([0, 0], fields, {})
  {
    forall k: nat ensures !Bit(0, k) { ZeroBit(k); }
  }

  /** fields_seen[index >> 5] |= 1 << (index & 31) */
  function Mark(words: seq<nat>, index: nat): seq<nat>
    requires |words| == 2 && index < 64
  {
    words[index / 32 := BitOr(words[index / 32], Shl(1, index % 32) % U32)]
  }

  lemma {:induction false} ShlOneSmall(k: nat)
    requires k < 32
    ensures Shl(1, k) % U32 == Shl(1, k)
  {
    hide Shl, Pow2;
    ShlIsTimes(1, k);
    Widths();
    Pow2Next(k);
    Pow2Monotone(k + 1, 32);
  }

  lemma {:induction false} Pow2Next(k: nat)
    ensures Pow2(k + 1) == 2 * Pow2(k)
  {
  }

  /** Marking a bit adds a row to the set. */
  lemma {:induction false} MarkTracks(words: seq<nat>, fields: seq<Field>, seen: set<nat>, i: nat)
    requires Tracks(words, fields, seen) && SeenRow(fields, i)
    ensures Tracks(Mark(words, RequiredBefore(fields, i)), fields, seen + {i})
  {
    var index := RequiredBefore(fields, i);
    var words' := Mark(words, index);
    ShlOneSmall(index % 32);
    forall j: nat, k: nat | j < 2
      ensures Bit(words'[j], k) <==> Bit(words[j], k) || (j == index / 32 && k == index % 32)
    {
      OrBit(words[j], Shl(1, index % 32), k);
      ShlOneBit(index % 32, k);
    }
    forall b: nat | b < 64
      ensures Bit(words'[b / 32], b % 32) <==> exists k :: k in seen + {i} && RequiredBefore(fields, k) == b
    {
      if b == index { assert i in seen + {i}; }
      if k :| k in seen + {i} && RequiredBefore(fields, k) == b { assert k in seen || k == i; }
      if k :| k in seen && RequiredBefore(fields, k) == b { assert k in seen + {i}; }
    }
  }

  /** The final comparison of the words: every bit below `count` is set. */
  method AllMarked(words: seq<nat>, count: nat) returns (ok: bool)
    requires |words| == 2 && Within(words[0], 32) && Within(words[1], 32) && count <= 64
    requires forall b: nat :: b < 64 && Bit(words[b / 32], b % 32) ==> b < count
    ensures ok <==> forall b: nat :: b < count ==> Bit(words[b / 32], b % 32)
  {
    hide Bit;
    var allbits := U32 - 1;
    if count > 0 {
      for i := 0 to count / 32
        invariant forall b: nat :: b < 32 * i ==> Bit(words[b / 32], b % 32)
      {
        WordFull(words[i], 32);
        Widths();
        if words[i] != allbits {
          var k :| 0 <= k < 32 && !Bit(words[i], k);
          ghost var b := 32 * i + k;
          assert b / 32 == i && b % 32 == k;
          return false;
        }
        forall b: nat | 32 * i <= b < 32 * (i + 1) ensures Bit(words[b / 32], b % 32) {
          assert b / 32 == i && 0 <= b % 32 < 32 && Bit(words[i], b % 32);
        }
      }
      var i, r := count / 32, count % 32;
      if r != 0 {
        forall k: nat | Bit(words[i], k) ensures k < r {
          var b := 32 * i + k;
          assert b / 32 == i && b % 32 == k;
        }
        WordFull(words[i], r);
        ShiftedOnes(r);
        if words[i] != allbits / Pow2(32 - r) {
          ghost var k :| 0 <= k < r && !Bit(words[i], k);
          ghost var b := 32 * i + k;
          assert b / 32 == i && b % 32 == k;
          return false;
        }
        forall b: nat | 32 * i <= b < count ensures Bit(words[b / 32], b % 32) {
          assert b / 32 == i && b % 32 < r;
        }
      }
    }
    ok := true;
  }

  /** The bitmap passes exactly when every one of the first 64 required rows was seen. */
  lemma {:induction false} BitsAreRows(words: seq<nat>, fields: seq<Field>, seen: set<nat>, count: nat)
    requires Tracks(words, fields, seen)
    requires count == if RequiredBefore(fields, |fields|) > MAX_REQUIRED then MAX_REQUIRED
             else RequiredBefore(fields, |fields|)
    ensures (forall b: nat :: b < count ==> Bit(words[b / 32], b % 32)) <==> RequiredSeen(fields, seen)
    ensures forall b: nat :: b < 64 && Bit(words[b / 32], b % 32) ==> b < count
    ensures Within(words[0], 32) && Within(words[1], 32)
  {
    forall b: nat | b < 64 && Bit(words[b / 32], b % 32) ensures b < count {
      var i :| i in seen && RequiredBefore(fields, i) == b;
      assert SeenRow(fields, i);
      RequiredGrows(fields, i, |fields|);
    }
    if RequiredSeen(fields, seen) {
      forall b: nat | b < count ensures Bit(words[b / 32], b % 32) {
        var i := RequiredAt(fields, |fields|, b);
        assert i in seen;
      }
    }
    if forall b: nat :: b < count ==> Bit(words[b / 32], b % 32) {
      forall i | 0 <= i < |fields| && fields[i].htype == Required && RequiredBefore(fields, i) < MAX_REQUIRED
        ensures i in seen
      {
        var b := RequiredBefore(fields, i);
        RequiredGrows(fields, i, |fields|);
        assert Bit(words[b / 32], b % 32);
        var k :| k in seen && RequiredBefore(fields, k) == b;
        assert SeenRow(fields, k);
        if k < i { RequiredGrows(fields, k, i); }
        if i < k { RequiredGrows(fields, i, k); }
      }
    }
  }

  /** The trailing walk counts the required rows, from wherever the iterator stands. */
  method CountRequired(iter: Iter) returns (count: nat)
    requires iter.Valid()
    modifies iter
    ensures iter.Valid()
    ensures count == RequiredBefore(iter.fields, |iter.fields|)
  {
    var last: HType;
    while true
      invariant iter.Valid()
      decreases |iter.fields| - iter.pos
    {
      count := iter.requiredFieldIndex;
      last := if iter.pos < |iter.fields| then iter.fields[iter.pos].htype else Required;
      ghost var i := iter.pos;
      var more := iter.Next();
      if !more { break; }
    }
    if last == Required && iter.pos < |iter.fields| {
      count := count + 1;
    }
  }
}
