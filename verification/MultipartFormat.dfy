/** The multipart/form-data format: what MultipartFormData.swift writes (64-77, 375-400), and the
    multipart grammar of section 5.1.1 of RFC 2046. */
module MultipartFormat {
  import opened Wrappers

  const CRLF: seq<byte> := [13, 10]
  const DASHES: seq<byte> := [45, 45]

  datatype Header = Header(name: seq<byte>, value: seq<byte>)
  datatype Part = Part(headers: seq<Header>, body: seq<byte>)

  // ---------- Writing ----------

  datatype BoundaryType = Initial | Encapsulated | Final

  /** boundaryData(forBoundaryType:boundary:) */
  function BoundaryData(boundaryType: BoundaryType, boundary: seq<byte>): seq<byte> {
    match boundaryType
    case Initial => DASHES + boundary + CRLF
    case Encapsulated => CRLF + DASHES + boundary + CRLF
    case Final => CRLF + DASHES + boundary + DASHES + CRLF
  }

  function HeaderLines(headers: seq<Header>): seq<byte> {
    if headers == [] then []
    else headers[0].name + [58, 32] + headers[0].value + CRLF + HeaderLines(headers[1..])
  }

  /** encodeHeaders(for:) */
  function EncodeHeaders(headers: seq<Header>): seq<byte> { HeaderLines(headers) + CRLF }

  /** A part as encode(_:) finds it: its two flags, and what its stream will deliver. */
  datatype View = View(headers: seq<Header>, pending: seq<byte>, hasInitialBoundary: bool, hasFinalBoundary: bool)

  /** encode(_:) on one part */
  function EncodePart(boundary: seq<byte>, v: View): seq<byte> {
    BoundaryData(if v.hasInitialBoundary then Initial else Encapsulated, boundary)
    + EncodeHeaders(v.headers) + v.pending
    + if v.hasFinalBoundary then BoundaryData(Final, boundary) else []
  }

  function EncodeParts(boundary: seq<byte>, vs: seq<View>): seq<byte> {
    if vs == [] then [] else EncodeParts(boundary, vs[..|vs| - 1]) + EncodePart(boundary, vs[|vs| - 1])
  }

  /** bodyParts.first?.hasInitialBoundary = true, bodyParts.last?.hasFinalBoundary = true */
  function Marked(vs: seq<View>): seq<View> {
    seq(|vs|, i requires 0 <= i < |vs| =>
      vs[i].(hasInitialBoundary := vs[i].hasInitialBoundary || i == 0,
             hasFinalBoundary := vs[i].hasFinalBoundary || i == |vs| - 1))
  }

  /** Parts that were not encoded before. */
  function Fresh(parts: seq<Part>): seq<View> {
    seq(|parts|, i requires 0 <= i < |parts| => View(parts[i].headers, parts[i].body, false, false))
  }

  /** What encode() returns for fresh parts. */
  function Encode(boundary: seq<byte>, parts: seq<Part>): seq<byte> {
    EncodeParts(boundary, Marked(Fresh(parts)))
  }

  // ---------- The grammar ----------

  /** delimiter := CRLF "--" boundary */
  function Delimiter(boundary: seq<byte>): seq<byte> { CRLF + DASHES + boundary }

  predicate At(s: seq<byte>, d: seq<byte>, i: nat) { i + |d| <= |s| && s[i..i + |d|] == d }

  predicate Contains(s: seq<byte>, d: seq<byte>) { exists i: nat :: i <= |s| && At(s, d, i) }

  /** The first place from i on where d is. */
  function Find(s: seq<byte>, d: seq<byte>, i: nat): (r: Option<nat>)
    requires i <= |s|
    ensures r.Some? ==> i <= r.value <= |s| && At(s, d, r.value) && forall k: nat :: i <= k < r.value ==> !At(s, d, k)
    ensures r.None? ==> forall k: nat :: i <= k <= |s| ==> !At(s, d, k)
    decreases |s| - i
  {
    if At(s, d, i) then Some(i) else if i == |s| then None else Find(s, d, i + 1)
  }

  /** A field of a header, field-name ":" field-body, and a body-part, MIME-part-headers [CRLF *OCTET]. */
  datatype Field = Field(name: seq<byte>, fieldBody: seq<byte>)
  datatype BodyPart = BodyPart(fields: seq<Field>, octets: Option<seq<byte>>)

  function ParseBodyPart(s: seq<byte>): Option<BodyPart>
    decreases |s|
  {
    if s == [] then Some(BodyPart([], None))
    else if CRLF <= s then Some(BodyPart([], Some(s[2..])))
    else
      match Find(s, CRLF, 0)
      case None => None
      case Some(end) =>
        match Find(s[..end], [58], 0)
        case None => None
        case Some(colon) =>
          match ParseBodyPart(s[end + 2..])
          case None => None
          case Some(p) => Some(p.(fields := [Field(s[..colon], s[colon + 1..end])] + p.fields))
  }

  /** transport-padding := *LWSP-char */
  function SkipPadding(s: seq<byte>): (r: seq<byte>)
    ensures |r| <= |s|
  {
    if s != [] && (s[0] == 32 || s[0] == 9) then SkipPadding(s[1..]) else s
  }

  /** What follows a delimiter: "--" and an epilogue, or a body-part up to the next delimiter.  No line
      of a body-part may start with the dash-boundary, so the search includes the line break before
      the body-part, and finding the delimiter there is an error. */
  function ParseAfterDelimiter(boundary: seq<byte>, s: seq<byte>): Option<seq<BodyPart>>
    decreases |s|
  {
    if DASHES <= s then
      var t := SkipPadding(s[2..]);
      if t == [] || CRLF <= t then Some([]) else None
    else
      var t := SkipPadding(s);
      if !(CRLF <= t) then None
      else
        match Find(t, Delimiter(boundary), 0)
        case None => None
        case Some(end) =>
          if end < 2 then None
          else
            match ParseBodyPart(t[2..end])
            case None => None
            case Some(p) =>
              match ParseAfterDelimiter(boundary, t[end + |Delimiter(boundary)|..])
              case None => None
              case Some(ps) => Some([p] + ps)
  }

  /** multipart-body := [preamble CRLF] dash-boundary transport-padding CRLF body-part *encapsulation
      close-delimiter transport-padding [CRLF epilogue] */
  function Parse(boundary: seq<byte>, s: seq<byte>): Option<seq<BodyPart>> {
    var t := CRLF + s;
    match Find(t, Delimiter(boundary), 0)
    case None => None
    case Some(i) => ParseAfterDelimiter(boundary, t[i + |Delimiter(boundary)|..])
  }

  /** The parts as they travel: the space after the colon belongs to the field-body. */
  function Sent(p: Part): BodyPart { BodyPart(Fields(p.headers), Some(p.body)) }

  function Fields(headers: seq<Header>): seq<Field> {
    if headers == [] then [] else [Field(headers[0].name, [32] + headers[0].value)] + Fields(headers[1..])
  }

  function AllSent(parts: seq<Part>): seq<BodyPart> {
    if parts == [] then [] else [Sent(parts[0])] + AllSent(parts[1..])
  }

  // ---------- Body parts ----------

  function FieldLines(fields: seq<Field>): seq<byte> {
    if fields == [] then [] else fields[0].name + [58] + fields[0].fieldBody + CRLF + FieldLines(fields[1..])
  }

  function Unparse(p: BodyPart): seq<byte> {
    FieldLines(p.fields) + if p.octets.Some? then CRLF + p.octets.value else []
  }

  /** A line cut at its colon and its end. */
  lemma {:induction false} LineCut(s: seq<byte>, colon: nat, end: nat)
    requires colon < end && end + 2 <= |s| && s[colon] == 58 && s[end..end + 2] == CRLF
    ensures s[..colon] + [58] + s[colon + 1..end] + CRLF + s[end + 2..] == s
  {
    assert s[..end] == s[..colon] + [58] + s[colon + 1..end];
    assert s == s[..end] + s[end..end + 2] + s[end + 2..];
  }

  /** The parser loses nothing. */
  lemma {:induction false} ParseBodyPartSound(s: seq<byte>)
    requires ParseBodyPart(s).Some?
    ensures Unparse(ParseBodyPart(s).value) == s
    decreases |s|
  {
    hide Find, Unparse;
    if s == [] || CRLF <= s {
      UnparseLast(ParseBodyPart(s).value);
      assert CRLF <= s ==> s == CRLF + s[2..];
    } else {
      var end := Find(s, CRLF, 0).value;
      var colon := Find(s[..end], [58], 0).value;
      var p := ParseBodyPart(s[end + 2..]).value;
      ParseBodyPartSound(s[end + 2..]);
      UnparseMore(Field(s[..colon], s[colon + 1..end]), p);
      assert s[..end][colon..colon + 1] == [58];
      assert s[colon] == s[..end][colon..colon + 1][0];
      LineCut(s, colon, end);
    }
  }

  lemma {:induction false} UnparseLast(p: BodyPart)
    requires p.fields == []
    ensures Unparse(p) == if p.octets.Some? then CRLF + p.octets.value else []
  {
  }

  lemma {:induction false} UnparseMore(field: Field, p: BodyPart)
    ensures Unparse(p.(fields := [field] + p.fields)) == field.name + [58] + field.fieldBody + CRLF + Unparse(p)
  {
    assert ([field] + p.fields)[1..] == p.fields;
  }

  /** Header names have no CR and no colon, and values no CR. */
  ghost predicate Clean(fields: seq<Field>) {
    forall i :: 0 <= i < |fields| ==> 13 !in fields[i].name && 58 !in fields[i].name && 13 !in fields[i].fieldBody
  }

  lemma {:induction false} BodyPartRoundTrip(p: BodyPart)
    requires Clean(p.fields)
    ensures ParseBodyPart(Unparse(p)) == Some(p)
    decreases |p.fields|
  {
    hide Find, Unparse, At;
    if p.fields == [] {
      UnparseLast(p);
      if p.octets.Some? { assert (CRLF + p.octets.value)[2..] == p.octets.value; }
    } else {
      var field, more := p.fields[0], p.(fields := p.fields[1..]);
      assert p == more.(fields := [field] + more.fields);
      BodyPartRoundTrip(more);
      UnparseMore(field, more);
      LineParses(field, Unparse(more));
    }
  }

  lemma {:induction false} LineParses(field: Field, rest: seq<byte>)
    requires 13 !in field.name && 58 !in field.name && 13 !in field.fieldBody
    ensures var s := field.name + [58] + field.fieldBody + CRLF + rest;
            var colon, end := |field.name|, |field.name| + 1 + |field.fieldBody|;
            && s != [] && !(CRLF <= s) && end + 2 <= |s|
            && Find(s, CRLF, 0) == Some(end) && Find(s[..end], [58], 0) == Some(colon)
            && s[..colon] == field.name && s[colon + 1..end] == field.fieldBody && s[end + 2..] == rest
  {
    var line := field.name + [58] + field.fieldBody;
    var s := line + CRLF + rest;
    var end := |line|;
    assert s[..end] == line && s[end + 2..] == rest;
    LineEnds(line, CRLF, rest);
    LineEnds(field.name, [58], field.fieldBody);
    assert s[0] == line[0] != 13;
  }

  /** The first place where d is, behind a text without its first byte. */
  lemma {:induction false} LineEnds(line: seq<byte>, d: seq<byte>, rest: seq<byte>)
    requires d != [] && d[0] !in line
    ensures Find(line + d + rest, d, 0) == Some(|line|)
  {
    var s := line + d + rest;
    forall k: nat | k < |line| ensures !At(s, d, k) {
      NotAt(s, d, k);
    }
    assert At(s, d, |line|);
  }

  lemma {:induction false} NotAt(s: seq<byte>, d: seq<byte>, k: nat)
    requires k < |s| && d != [] && s[k] != d[0]
    ensures !At(s, d, k)
  {
    assert k + |d| <= |s| ==> s[k..k + |d|][0] == s[k];
  }

  // ---------- Delimiters ----------

  /** The delimiter cannot overlap itself: its only CR is its first byte.  So the first delimiter in
      text, delimiter, more is the one between them, when the text has none. */
  lemma {:induction false} FirstDelimiter(x: seq<byte>, boundary: seq<byte>, y: seq<byte>)
    requires 13 !in boundary && !Contains(x, Delimiter(boundary))
    ensures Find(x + Delimiter(boundary) + y, Delimiter(boundary), 0) == Some(|x|)
  {
    var d := Delimiter(boundary);
    var s := x + d + y;
    assert At(s, d, |x|) && s[|x|] == 13;
    assert 13 !in d[1..];
    forall k: nat | k < |x| ensures !At(s, d, k) {
      if At(s, d, k) {
        if k + |d| <= |x| {
          assert x[k..k + |d|] == s[k..k + |d|];
          assert At(x, d, k);
        } else {
          SecondCR(s, d, k, |x|);
        }
      }
    }
  }

  lemma {:induction false} SecondCR(s: seq<byte>, d: seq<byte>, k: nat, n: nat)
    requires k < n < k + |d| && At(s, d, k) && s[n] == 13
    ensures 13 in d[1..]
  {
    assert d[1..][n - k - 1] == d[n - k] == s[k..k + |d|][n - k];
  }

  /** Text before the first delimiter has none. */
  lemma {:induction false} NoneBefore(t: seq<byte>, d: seq<byte>, end: nat)
    requires Find(t, d, 0) == Some(end)
    ensures !Contains(t[..end], d) || d == []
  {
    if i: nat :| i <= end && At(t[..end], d, i) {
      assert t[i..i + |d|] == t[..end][i..i + |d|];
      assert At(t, d, i);
    }
  }

  // ---------- What encode() writes, seen from the grammar ----------

  function Block(p: Part): seq<byte> { EncodeHeaders(p.headers) + p.body }

  /** What follows a delimiter in the output. */
  function Tail(boundary: seq<byte>, parts: seq<Part>): seq<byte> {
    if parts == [] then DASHES + CRLF
    else CRLF + Block(parts[0]) + Delimiter(boundary) + Tail(boundary, parts[1..])
  }

  lemma {:induction false} FieldsWritten(headers: seq<Header>)
    ensures FieldLines(Fields(headers)) == HeaderLines(headers)
  {
    if headers != [] {
      FieldsWritten(headers[1..]);
      var h, f := headers[0], Fields(headers);
      assert f[1..] == Fields(headers[1..]);
      assert h.name + [58, 32] + h.value + CRLF == h.name + [58] + ([32] + h.value) + CRLF;
    }
  }

  lemma {:induction false} SentIsBlock(p: Part)
    ensures Unparse(Sent(p)) == Block(p)
  {
    FieldsWritten(p.headers);
    assert HeaderLines(p.headers) + CRLF + p.body == HeaderLines(p.headers) + (CRLF + p.body);
  }

  /** Delimiters and blocks in turn. */
  function Chunk(boundary: seq<byte>, p: Part): seq<byte> { Delimiter(boundary) + (CRLF + Block(p)) }

  function Chunks(boundary: seq<byte>, parts: seq<Part>): seq<byte> {
    if parts == [] then [] else Chunks(boundary, parts[..|parts| - 1]) + Chunk(boundary, parts[|parts| - 1])
  }

  lemma {:induction false} Assoc(a: seq<byte>, b: seq<byte>, c: seq<byte>)
    ensures (a + b) + c == a + (b + c)
  {
  }

  lemma {:induction false} ChunksAndTail(boundary: seq<byte>, parts: seq<Part>, more: seq<Part>)
    ensures Chunks(boundary, parts) + (Delimiter(boundary) + Tail(boundary, more))
         == Delimiter(boundary) + Tail(boundary, parts + more)
    decreases |parts|
  {
    hide Delimiter, Block, Tail;
    var d := Delimiter(boundary);
    if parts == [] {
      assert parts + more == more;
    } else {
      var before, p := parts[..|parts| - 1], parts[|parts| - 1];
      assert before + ([p] + more) == parts + more;
      TailOf(boundary, p, more);
      Assoc(Chunks(boundary, before), Chunk(boundary, p), d + Tail(boundary, more));
      Assoc(d, CRLF + Block(p), d + Tail(boundary, more));
      ChunksAndTail(boundary, before, [p] + more);
    }
  }

  lemma {:induction false} TailOf(boundary: seq<byte>, p: Part, more: seq<Part>)
    ensures Tail(boundary, [p] + more) == (CRLF + Block(p)) + (Delimiter(boundary) + Tail(boundary, more))
    ensures Tail(boundary, []) == DASHES + CRLF
  {
    assert ([p] + more)[1..] == more;
  }

  /** A view of part i of the list, with its flags set. */
  function Flagged(parts: seq<Part>, i: nat): View
    requires i < |parts|
  {
    View(parts[i].headers, parts[i].body, i == 0, i == |parts| - 1)
  }

  lemma {:induction false} PartWritten(boundary: seq<byte>, parts: seq<Part>, i: nat)
    requires i < |parts|
    ensures (if i == 0 then CRLF else []) + EncodePart(boundary, Flagged(parts, i)) ==
            Chunk(boundary, parts[i]) + if i == |parts| - 1 then Delimiter(boundary) + (DASHES + CRLF) else []
  {
    hide EncodeHeaders;
    var h, body := EncodeHeaders(parts[i].headers), parts[i].body;
    var b := BoundaryData(if i == 0 then Initial else Encapsulated, boundary);
    var end := if i == |parts| - 1 then BoundaryData(Final, boundary) else [];
    assert EncodePart(boundary, Flagged(parts, i)) == b + h + body + end;
    assert (if i == 0 then CRLF else []) + b == Delimiter(boundary) + CRLF;
    assert BoundaryData(Final, boundary) == Delimiter(boundary) + (DASHES + CRLF);
    Regroup(if i == 0 then CRLF else [], b, h, body, end, Delimiter(boundary), CRLF);
  }

  lemma {:induction false} Regroup(a: seq<byte>, b: seq<byte>, h: seq<byte>, body: seq<byte>, end: seq<byte>,
                                   d: seq<byte>, c: seq<byte>)
    requires a + b == d + c
    ensures a + (b + h + body + end) == d + (c + (h + body)) + end
  {
    assert a + (b + h + body + end) == (a + b) + (h + body + end);
    assert d + (c + (h + body)) + end == (d + c) + (h + body + end);
  }

  lemma {:induction false} PartsWritten(boundary: seq<byte>, parts: seq<Part>, n: nat)
    requires 0 < n <= |parts|
    ensures CRLF + EncodeParts(boundary, Marked(Fresh(parts))[..n]) ==
            Chunks(boundary, parts[..n]) + if n == |parts| then Delimiter(boundary) + (DASHES + CRLF) else []
  {
    hide EncodePart, Delimiter, Chunk;
    var vs, p := Marked(Fresh(parts)), parts[n - 1];
    var e, end := EncodePart(boundary, vs[n - 1]), if n == |parts| then Delimiter(boundary) + (DASHES + CRLF) else [];
    assert vs[n - 1] == Flagged(parts, n - 1);
    assert vs[..n][..n - 1] == vs[..n - 1] && parts[..n][..n - 1] == parts[..n - 1];
    PartWritten(boundary, parts, n - 1);
    var before := EncodeParts(boundary, vs[..n - 1]);
    Assoc(Chunks(boundary, parts[..n - 1]), Chunk(boundary, p), end);
    if n == 1 {
      assert before == [] && before + e == e;
      assert Chunks(boundary, parts[..0]) == [] && [] + Chunk(boundary, p) == Chunk(boundary, p);
    } else {
      PartsWritten(boundary, parts, n - 1);
      Assoc(CRLF, before, e);
      assert Chunks(boundary, parts[..n - 1]) + [] == Chunks(boundary, parts[..n - 1]);
      assert [] + e == e;
    }
  }

  /** The whole output. */
  lemma {:induction false} OutputIsDelimited(boundary: seq<byte>, parts: seq<Part>)
    requires parts != []
    ensures CRLF + Encode(boundary, parts) == Delimiter(boundary) + Tail(boundary, parts)
  {
    hide EncodeParts, Delimiter, Chunks, Marked, Fresh;
    WholeList(boundary, parts);
    PartsWritten(boundary, parts, |parts|);
    ChunksAndTail(boundary, parts, []);
    assert parts[..|parts|] == parts && parts + [] == parts;
  }

  lemma {:induction false} WholeList(boundary: seq<byte>, parts: seq<Part>)
    ensures |Marked(Fresh(parts))| == |parts|
    ensures Encode(boundary, parts) == EncodeParts(boundary, Marked(Fresh(parts))[..|parts|])
  {
    hide EncodeParts;
    var vs := Marked(Fresh(parts));
    assert vs[..|vs|] == vs;
  }

  // ---------- The round trip ----------

  /** No line of a part starts with the dash-boundary. */
  predicate Separable(boundary: seq<byte>, p: Part) { !Contains(CRLF + Block(p), Delimiter(boundary)) }

  ghost predicate CleanHeaders(headers: seq<Header>) {
    forall i :: 0 <= i < |headers| ==> 13 !in headers[i].name && 58 !in headers[i].name && 13 !in headers[i].value
  }

  lemma {:induction false} CleanFields(headers: seq<Header>)
    requires CleanHeaders(headers)
    ensures Clean(Fields(headers))
  {
    if headers != [] {
      CleanFields(headers[1..]);
      var f := Fields(headers);
      forall i | 0 <= i < |f| ensures 13 !in f[i].name && 58 !in f[i].name && 13 !in f[i].fieldBody {
        if i > 0 { assert f[i] == Fields(headers[1..])[i - 1]; }
      }
    }
  }

  lemma {:induction false} TailParses(boundary: seq<byte>, parts: seq<Part>)
    requires 13 !in boundary
    requires forall i :: 0 <= i < |parts| ==> CleanHeaders(parts[i].headers) && Separable(boundary, parts[i])
    ensures ParseAfterDelimiter(boundary, Tail(boundary, parts)) == Some(AllSent(parts))
  {
    hide ParseAfterDelimiter, CleanHeaders, Separable;
    if parts == [] {
      NoPartsParse(boundary);
    } else {
      TailParses(boundary, parts[1..]);
      PartParses(boundary, parts[0], Tail(boundary, parts[1..]), AllSent(parts[1..]));
    }
  }

  lemma {:induction false} NoPartsParse(boundary: seq<byte>)
    ensures ParseAfterDelimiter(boundary, DASHES + CRLF) == Some([])
  {
    assert (DASHES + CRLF)[2..] == CRLF;
  }

  /** One more part in front. */
  lemma {:induction false} PartParses(boundary: seq<byte>, p: Part, more: seq<byte>, ps: seq<BodyPart>)
    requires 13 !in boundary && CleanHeaders(p.headers) && Separable(boundary, p)
    requires ParseAfterDelimiter(boundary, more) == Some(ps)
    ensures ParseAfterDelimiter(boundary, CRLF + Block(p) + Delimiter(boundary) + more) == Some([Sent(p)] + ps)
  {
    hide Block, Sent, CleanHeaders, Contains, Find, Delimiter, ParseBodyPart;
    var x, d := CRLF + Block(p), Delimiter(boundary);
    var s := x + d + more;
    FirstDelimiter(x, boundary, more);
    BlockParses(p);
    BlockIn(Block(p), d, more);
    assert !(DASHES <= s) && SkipPadding(s) == s;
  }

  lemma {:induction false} BlockIn(block: seq<byte>, d: seq<byte>, more: seq<byte>)
    ensures var s := CRLF + block + d + more;
            && |s| >= 2 + |block| && s[0] == 13 && CRLF <= s && s[2..2 + |block|] == block
            && s[2 + |block|..][..|d|] == d && s[2 + |block| + |d|..] == more
  {
  }

  lemma {:induction false} BlockParses(p: Part)
    requires CleanHeaders(p.headers)
    ensures ParseBodyPart(Block(p)) == Some(Sent(p))
  {
    CleanFields(p.headers);
    SentIsBlock(p);
    BodyPartRoundTrip(Sent(p));
  }

  /** Whatever the parser accepts has only body parts that no delimiter runs through. */
  lemma {:induction false} ParsedIsSeparable(boundary: seq<byte>, s: seq<byte>)
    requires ParseAfterDelimiter(boundary, s).Some?
    ensures forall p :: p in ParseAfterDelimiter(boundary, s).value ==>
            !Contains(CRLF + Unparse(p), Delimiter(boundary))
    decreases |s|
  {
    hide Find, ParseBodyPart, Contains, Unparse;
    var d := Delimiter(boundary);
    if !(DASHES <= s) {
      var t := SkipPadding(s);
      var end := Find(t, d, 0).value;
      var p := ParseBodyPart(t[2..end]).value;
      NoneBefore(t, d, end);
      ParseBodyPartSound(t[2..end]);
      assert t[..end] == CRLF + t[2..end];
      ParsedIsSeparable(boundary, t[end + |d|..]);
    }
  }

  lemma {:induction false} SentMembers(parts: seq<Part>, i: nat)
    requires i < |parts|
    ensures Sent(parts[i]) in AllSent(parts)
  {
    if i > 0 {
      SentMembers(parts[1..], i - 1);
      assert AllSent(parts)[1..] == AllSent(parts[1..]);
    }
  }

  /** Parsing what encode() returns gives back the appended parts, headers and bodies in order, exactly
      when no line of any part, from its first header on, starts with the dash-boundary. */
  lemma {:induction false} FormRoundTrip(boundary: seq<byte>, parts: seq<Part>)
    requires parts != [] && 13 !in boundary && forall i :: 0 <= i < |parts| ==> CleanHeaders(parts[i].headers)
    ensures Parse(boundary, Encode(boundary, parts)) == Some(AllSent(parts))
            <==> forall i :: 0 <= i < |parts| ==> Separable(boundary, parts[i])
  {
    hide ParseAfterDelimiter, Separable, CleanHeaders, Encode, Tail, AllSent;
    var d, t := Delimiter(boundary), CRLF + Encode(boundary, parts);
    OutputIsDelimited(boundary, parts);
    assert t[0..0 + |d|] == d && t[|d|..] == Tail(boundary, parts);
    assert At(t, d, 0) && Find(t, d, 0) == Some(0);
    if forall i :: 0 <= i < |parts| ==> Separable(boundary, parts[i]) { TailParses(boundary, parts); }
    if Parse(boundary, Encode(boundary, parts)) == Some(AllSent(parts)) {
      ParsedIsSeparable(boundary, Tail(boundary, parts));
      forall i | 0 <= i < |parts| ensures Separable(boundary, parts[i]) {
        SentMembers(parts, i);
        SentIsBlock(parts[i]);
        SeparableIs(boundary, parts[i]);
      }
    }
  }

  lemma {:induction false} SeparableIs(boundary: seq<byte>, p: Part)
    ensures Separable(boundary, p) <==> !Contains(CRLF + Block(p), Delimiter(boundary))
  {
  }

  /** Fields lose nothing of the headers. */
  lemma {:induction false} FieldsTell(a: seq<Header>, b: seq<Header>)
    requires Fields(a) == Fields(b)
    ensures a == b
  {
    if a != [] && b != [] {
      assert Fields(a)[1..] == Fields(a[1..]) && Fields(b)[1..] == Fields(b[1..]);
      assert Fields(a)[0].fieldBody[1..] == a[0].value && Fields(b)[0].fieldBody[1..] == b[0].value;
      FieldsTell(a[1..], b[1..]);
    }
  }

  /** ... and the body parts of different lists of parts are different. */
  lemma {:induction false} SentTells(a: seq<Part>, b: seq<Part>)
    requires AllSent(a) == AllSent(b)
    ensures a == b
  {
    hide Fields;
    if a != [] && b != [] {
      assert AllSent(a)[0] == Sent(a[0]) && AllSent(b)[0] == Sent(b[0]);
      FieldsTell(a[0].headers, b[0].headers);
      assert AllSent(a)[1..] == AllSent(a[1..]) && AllSent(b)[1..] == AllSent(b[1..]);
      SentTells(a[1..], b[1..]);
    }
  }

  /** It is not enough that no body contains the delimiter: a body that starts with the dash-boundary
      makes one with the line break before it. */
  lemma {:induction false} BodyAtBoundary(boundary: seq<byte>, headers: seq<Header>, more: seq<byte>)
    requires 13 !in boundary && CleanHeaders(headers) && !Contains(DASHES + boundary + more, Delimiter(boundary))
    ensures var parts := [Part(headers, DASHES + boundary + more)];
            Parse(boundary, Encode(boundary, parts)) != Some(AllSent(parts))
  {
    var p := Part(headers, DASHES + boundary + more);
    var d, x := Delimiter(boundary), CRLF + HeaderLines(headers);
    assert CRLF + Block(p) == x + d + more;
    assert At(CRLF + Block(p), d, |x|);
    assert !Separable(boundary, [p][0]);
    FormRoundTrip(boundary, [p]);
  }

  /** No parts, no delimiters: an empty form is not a multipart body. */
  lemma {:induction false} EmptyFormIsNotMultipart(boundary: seq<byte>)
    ensures Encode(boundary, []) == [] && Parse(boundary, []) == None
  {
    assert Find(CRLF + [], Delimiter(boundary), 0).None?;
  }

  /** A form of two parts, byte by byte: boundary "b", a part with the header "A: B" and the body "x", and
      one with no header and an empty body. */
  lemma {:induction false} SampleForm()
    ensures Encode([98], [Part([Header([65], [66])], [120]), Part([], [])]) ==
            [45, 45, 98, 13, 10, 65, 58, 32, 66, 13, 10, 13, 10, 120]
            + [13, 10, 45, 45, 98, 13, 10, 13, 10, 13, 10, 45, 45, 98, 45, 45, 13, 10]
  {
    hide EncodePart, Marked, Fresh;
    var h := Header([65], [66]);
    var a, b := View([h], [120], true, false), View([], [], false, true);
    SampleViews(h);
    SamplePart(h);
    assert [a, b][..1] == [a] && [a][..0] == [] && EncodeParts([98], []) == [];
    assert EncodeParts([98], [a]) == EncodeParts([98], []) + EncodePart([98], a);
    assert EncodeParts([98], [a, b]) == EncodeParts([98], [a]) + EncodePart([98], b);
  }

  lemma {:induction false} SampleViews(h: Header)
    ensures Marked(Fresh([Part([h], [120]), Part([], [])])) ==
            [View([h], [120], true, false), View([], [], false, true)]
  {
  }

  lemma {:induction false} SamplePart(h: Header)
    requires h == Header([65], [66])
    ensures EncodePart([98], View([h], [120], true, false)) == [45, 45, 98, 13, 10, 65, 58, 32, 66, 13, 10, 13, 10, 120]
    ensures EncodePart([98], View([], [], false, true)) ==
            [13, 10, 45, 45, 98, 13, 10, 13, 10, 13, 10, 45, 45, 98, 45, 45, 13, 10]
  {
    assert [h][1..] == [] && HeaderLines([]) == [];
    assert HeaderLines([h]) == [65] + [58, 32] + [66] + CRLF + HeaderLines([h][1..]) == [65, 58, 32, 66, 13, 10];
  }
}
