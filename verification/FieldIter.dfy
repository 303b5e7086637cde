/** The wrap-around field iterator (pb_common.c). */
module FieldIter {
  import opened Wrappers
  import opened Descriptor

  /** Bytes the member of a row takes in the structure. */
  function MemberSize(f: Field): nat {
    if f.atype == Static && f.htype == Repeated then f.dataSize * f.arraySize
    else if f.atype == Pointer then SIZEOF_POINTER
    else f.dataSize
  }

  // ---------- Computed directly from the table's prefix ----------

  /** Offset of row i's data member. */
  function DataAt(fields: seq<Field>, i: nat): int
    requires i < |fields|
  {
    if i == 0 then fields[0].dataOffset
    else if JoinsUnion(fields, i) then DataAt(fields, i - 1)
    else DataAt(fields, i - 1) + MemberSize(fields[i - 1]) + fields[i].dataOffset
  }

  /** Offset of row i's has_, _count or which_ member. */
  function SizeAt(fields: seq<Field>, i: nat): int
    requires i < |fields|
  {
    if i > 0 && JoinsUnion(fields, i) then SizeAt(fields, i - 1)
    else DataAt(fields, i) + fields[i].sizeOffset
  }

  /** How many of the first i rows are required. */
  function RequiredBefore(fields: seq<Field>, i: nat): (r: nat)
    requires i <= |fields|
    ensures r <= i
  {
    if i == 0 then 0
    else RequiredBefore(fields, i - 1) + if fields[i - 1].htype == Required then 1 else 0
  }

  /** Rows pb_field_iter_find stops at. */
  predicate Matches(f: Field, tag: nat) {
    f.tag == tag && f.ltype != Extension
  }

  /** The row d places after row p in the table's cycle. */
  function Ahead(fields: seq<Field>, p: nat, d: nat): (q: nat)
    requires p < |fields| && d <= |fields|
    ensures q < |fields|
  {
    if p + d < |fields| then p + d else p + d - |fields|
  }

  /** One cycle visits every row. */
  lemma {:induction false} AheadCovers(fields: seq<Field>, p: nat, i: nat)
    requires p < |fields| && i < |fields|
    ensures exists d :: 0 <= d < |fields| && Ahead(fields, p, d) == i
  {
    assert Ahead(fields, p, if p <= i then i - p else i - p + |fields|) == i;
  }

  // ---------- What a search finds ----------

  /** The row with this tag, if the message type has one. */
  function FieldIndex(fields: seq<Field>, tag: nat): (r: Option<nat>)
    ensures match r
            case Some(i) => i < |fields| && Matches(fields[i], tag)
            case None => forall i :: 0 <= i < |fields| ==> !Matches(fields[i], tag)
  {
    FieldIndexFrom(fields, tag, 0)
  }

  function FieldIndexFrom(fields: seq<Field>, tag: nat, i: nat): (r: Option<nat>)
    requires i <= |fields|
    ensures match r
            case Some(k) => i <= k < |fields| && Matches(fields[k], tag)
            case None => forall k :: i <= k < |fields| ==> !Matches(fields[k], tag)
    decreases |fields| - i
  {
    if i == |fields| then None
    else if Matches(fields[i], tag) then Some(i)
    else FieldIndexFrom(fields, tag, i + 1)
  }

  /** The row with the tag, in the table's order the first that is no extension. */
  lemma {:induction false} SearchFinds(fields: seq<Field>, tag: nat, i: nat)
    ensures FieldIndex(fields, tag) == Some(i) <==>
            && i < |fields| && fields[i].tag == tag && fields[i].ltype != Extension
            && forall j :: 0 <= j < i ==> fields[j].tag != tag || fields[j].ltype == Extension
  {
    SearchFrom(fields, tag, 0);
  }

  lemma {:induction false} SearchFrom(fields: seq<Field>, tag: nat, i: nat)
    requires i <= |fields|
    ensures var r := FieldIndexFrom(fields, tag, i);
            r.Some? ==> forall j :: i <= j < r.value ==> !Matches(fields[j], tag)
    decreases |fields| - i
  {
    if i < |fields| && !Matches(fields[i], tag) { SearchFrom(fields, tag, i + 1); }
  }

  class Iter {
    const fields: seq<Field>
    var pos: nat
    var requiredFieldIndex: nat
    var pData: int
    var pSize: int

    /** The state of the iterator is a function of its position. */
    ghost predicate Valid()
      reads this
    {
      && Tagged(fields)
      && (fields == [] ==> pos == 0)
      && (fields != [] ==> pos < |fields| && pData == DataAt(fields, pos) && pSize == SizeAt(fields, pos)
                           && requiredFieldIndex == RequiredBefore(fields, pos))
      && (fields == [] ==> requiredFieldIndex == 0 && pData == 0 && pSize == 0)
    }

    /** pb_field_iter_begin */
    constructor (fields: seq<Field>)
      requires Tagged(fields)
      ensures Valid() && this.fields == fields && pos == 0
    {
      this.fields := fields;
      pos, requiredFieldIndex := 0, 0;
      pData := if fields == [] then 0 else fields[0].dataOffset;
      pSize := if fields == [] then 0 else fields[0].dataOffset + fields[0].sizeOffset;
    }

    /** pb_field_iter_begin on an iterator in use */
    method Restart()
      requires Tagged(fields)
      modifies this
      ensures Valid() && pos == 0
    {
      pos, requiredFieldIndex := 0, 0;
      pData := if fields == [] then 0 else fields[0].dataOffset;
      pSize := if fields == [] then 0 else pData + fields[0].sizeOffset;
    }

    /** pb_field_iter_next: one row on, wrapping to the first; true unless it wrapped. */
    method Next() returns (more: bool)
      requires Valid()
      modifies this
      ensures Valid()
      ensures more == (old(pos) + 1 < |fields|)
      ensures fields != [] ==> pos == Ahead(fields, old(pos), 1)
    {
      if pos == |fields| { return false; }
      var prev := fields[pos];
      pos := pos + 1;
      if pos == |fields| {
        Restart();
        return false;
      }
      var prevSize := prev.dataSize;
      if prev.htype == Oneof && fields[pos].htype == Oneof && fields[pos].dataOffset == PB_SIZE_MAX {
        return true;
      } else if prev.atype == Static && prev.htype == Repeated {
        prevSize := prevSize * prev.arraySize;
      } else if prev.atype == Pointer {
        prevSize := SIZEOF_POINTER;
      }
      if prev.htype == Required {
        requiredFieldIndex := requiredFieldIndex + 1;
      }
      pData := pData + prevSize + fields[pos].dataOffset;
      pSize := pData + fields[pos].sizeOffset;
      return true;
    }

    /** pb_field_iter_find: stops at the first matching row in cycle order from where it stands, or
        back where it started when there is none.  It never takes more than one cycle, and where it
        started does not matter: with distinct tags it ends at the row that has the tag. */
    method Find(tag: nat) returns (found: bool, ghost steps: nat)
      requires Valid()
      modifies this
      ensures Valid()
      ensures tag >= 1 || fields != [] ==> found == FieldIndex(fields, tag).Some?
      ensures fields != [] && found && DistinctTags(fields) ==> pos == FieldIndex(fields, tag).value
      ensures !found ==> pos == old(pos)
      ensures fields == [] ==> found == (tag == 0)
      ensures fields != [] ==>
                && steps <= |fields|
                && pos == Ahead(fields, old(pos), steps)
                && (forall d :: 0 <= d < steps ==> !Matches(fields[Ahead(fields, old(pos), d)], tag))
                && (found ==> Matches(fields[pos], tag))
                && (!found ==> steps == |fields|)
    {
      if pos == |fields| {  // the terminating row of an empty table, whose tag is 0
        found, steps := tag == 0, 0;
        if found { return; }
        var more := Next();
        return;
      }
      var start := pos;
      steps := 0;
      while true
        invariant Valid() && steps < |fields| && pos == Ahead(fields, start, steps)
        invariant forall d :: 0 <= d < steps ==> !Matches(fields[Ahead(fields, start, d)], tag)
        decreases |fields| - steps
      {
        if fields[pos].tag == tag && fields[pos].ltype != Extension {
          return true, steps;
        }
        var more := Next();
        steps := steps + 1;
        if pos == start { break; }
      }
      forall i | 0 <= i < |fields| ensures !Matches(fields[i], tag) {
        AheadCovers(fields, start, i);
      }
      found := false;
    }

    /** find_extension_field (pb_decode.c:825-836) */
    method FindExtension() returns (found: bool)
      requires Valid()
      modifies this
      ensures Valid()
      ensures found <==> exists i :: 0 <= i < |fields| && fields[i].ltype == Extension
      ensures found ==> fields[pos].ltype == Extension
      ensures !found ==> pos == old(pos)
    {
      if pos == |fields| {  // the terminating row of an empty table
        var more := Next();
        return false;
      }
      var start := pos;
      ghost var steps := 0;
      while true
        invariant Valid() && steps < |fields| && pos == Ahead(fields, start, steps)
        invariant forall d :: 0 <= d < steps ==> fields[Ahead(fields, start, d)].ltype != Extension
        decreases |fields| - steps
      {
        if fields[pos].ltype == Extension { return true; }
        var more := Next();
        steps := steps + 1;
        if pos == start { break; }
      }
      forall i | 0 <= i < |fields| ensures fields[i].ltype != Extension {
        AheadCovers(fields, start, i);
      }
      found := false;
    }
  }

  // ---------- The structure the table was generated from ----------

  /** Where the compiler put a row's data member and its has_/_count/which_ member. */
  datatype Member = Member(data: int, size: int)

  /** The table was filled in by the PB_FIELD macros (pb.h:387-575) from this structure. */
  ghost predicate Describes(fields: seq<Field>, layout: seq<Member>) {
    && |layout| == |fields|
    && forall i :: 0 <= i < |fields| ==> RowDescribes(fields, layout, i)
  }

  ghost predicate RowDescribes(fields: seq<Field>, layout: seq<Member>, i: nat)
    requires |layout| == |fields| && i < |fields|
  {
    && fields[i].sizeOffset == layout[i].size - layout[i].data
    && if JoinsUnion(fields, i) then layout[i] == layout[i - 1]
       else if i == 0 then fields[0].dataOffset == layout[0].data
       else fields[i].dataOffset == layout[i].data - layout[i - 1].data - MemberSize(fields[i - 1])
  }

  /** The iterator's pointers are the structure's real offsets. */
  lemma {:induction false} PointersAreOffsets(fields: seq<Field>, layout: seq<Member>, i: nat)
    requires Describes(fields, layout) && i < |fields|
    ensures DataAt(fields, i) == layout[i].data
    ensures SizeAt(fields, i) == layout[i].size
  {
    assert RowDescribes(fields, layout, i);
    if i > 0 { PointersAreOffsets(fields, layout, i - 1); }
  }

  /** Members of one union share their pointers. */
  lemma {:induction false} UnionShares(fields: seq<Field>, i: nat)
    requires i < |fields|
    ensures DataAt(fields, i) == DataAt(fields, UnionHead(fields, i))
    ensures SizeAt(fields, i) == SizeAt(fields, UnionHead(fields, i))
  {
    if JoinsUnion(fields, i) { UnionShares(fields, i - 1); }
  }

  /** A fixed-count array has no count member, so its size pointer is its data pointer, and the count
      that is set to zero there lies inside the array exactly when the array has that many bytes. */
  lemma {:induction false} CountStoreInside(fields: seq<Field>, i: nat, size: nat)
    requires i < |fields| && fields[i].htype == Repeated && fields[i].atype == Static && fields[i].sizeOffset == 0
    ensures SizeAt(fields, i) == DataAt(fields, i)
    ensures SizeAt(fields, i) + size <= DataAt(fields, i) + MemberSize(fields[i])
            <==> fields[i].dataSize * fields[i].arraySize >= size
  {
  }

  /** In a shorter array it reaches the next row's member exactly when that begins too early. */
  lemma {:induction false} CountStoreReaches(fields: seq<Field>, i: nat, size: nat)
    requires i + 1 < |fields| && fields[i].htype == Repeated && fields[i].sizeOffset == 0
    ensures SizeAt(fields, i) + size > DataAt(fields, i + 1) <==>
            MemberSize(fields[i]) + fields[i + 1].dataOffset < size
  {
    assert !JoinsUnion(fields, i + 1);
  }
}
