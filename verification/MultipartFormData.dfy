/** The two encoders of MultipartFormData.swift (322-509): one builds the body in memory, one writes it
    to a stream. */
module MultipartFormData {
  import opened Wrappers
  import opened MultipartFormat

  datatype Failure = BodyPartError(reason: int) | FileAlreadyExists | URLInvalid | StreamCreationFailed
                   | ReadFailed | UnexpectedLength(expected: nat, read: nat) | WriteFailed
  datatype Result<T> = Ok(value: T) | Thrown(error: Failure)

  /** An InputStream: `pending` is what it will deliver, in pieces of its own choosing, before it ends
      or, when it is broken, fails. */
  class InputStream {
    var pending: seq<byte>
    const broken: bool

    constructor (content: seq<byte>, broken: bool)
      ensures pending == content && this.broken == broken
    {
      pending, this.broken := content, broken;
    }

    /** hasBytesAvailable may also be true at the end. */
    method HasBytesAvailable() returns (available: bool)
      ensures pending != [] ==> available
    {
      available :| pending != [] ==> available;
    }

    /** read(_:maxLength:): some of the pending bytes, none at the end; or a stream error. */
    method Read(maxLength: nat) returns (bytes: seq<byte>, error: bool)
      requires maxLength > 0
      modifies this
      ensures |bytes| <= maxLength
      ensures error ==> broken && old(pending) == [] && pending == []
      ensures !error ==> bytes + pending == old(pending) && (bytes == [] ==> pending == [])
    {
      if pending == [] { return [], broken; }
      var n: nat :| 1 <= n <= maxLength && n <= |pending|;
      bytes, error := pending[..n], false;
      pending := pending[n..];
    }
  }

  /** An OutputStream with room for `space` more bytes, that takes at least one byte a write while it
      has room. */
  class OutputStream {
    var written: seq<byte>
    var space: nat
    const broken: bool

    constructor (space: nat, broken: bool)
      ensures written == [] && this.space == space && this.broken == broken
    {
      this.written, this.space, this.broken := [], space, broken;
    }

    method HasSpaceAvailable() returns (available: bool)
      ensures available <==> space > 0
    {
      available := space > 0;
    }

    /** write(_:maxLength:): how many bytes were taken; or a stream error. */
    method Write(buffer: seq<byte>, maxLength: nat) returns (n: nat, error: bool)
      requires 0 < maxLength <= |buffer| && space > 0
      modifies this
      ensures error ==> broken
      ensures !error ==> 1 <= n <= maxLength && n <= old(space)
                         && written == old(written) + buffer[..n] && space == old(space) - n
    {
      error :| error ==> broken;
      if error { return 0, true; }
      n :| 1 <= n <= maxLength && n <= space;
      written, space := written + buffer[..n], space - n;
    }
  }

  class BodyPart {
    const headers: seq<Header>
    const bodyStream: InputStream
    const bodyContentLength: nat
    var hasInitialBoundary: bool
    var hasFinalBoundary: bool

    constructor (headers: seq<Header>, bodyStream: InputStream, bodyContentLength: nat)
      ensures this.headers == headers && this.bodyStream == bodyStream && this.bodyContentLength == bodyContentLength
      ensures !hasInitialBoundary && !hasFinalBoundary
    {
      this.headers, this.bodyStream, this.bodyContentLength := headers, bodyStream, bodyContentLength;
      hasInitialBoundary, hasFinalBoundary := false, false;
    }

    ghost function Seen(): View
      reads this, bodyStream
    {
      View(headers, bodyStream.pending, hasInitialBoundary, hasFinalBoundary)
    }
  }

  /** As much of the data as fits. */
  function Fitting(data: seq<byte>, space: nat): seq<byte> { if |data| <= space then data else data[..space] }

  /** It is the longest beginning of the data that fits. */
  lemma {:induction false} FittingIs(data: seq<byte>, space: nat)
    ensures |Fitting(data, space)| == if |data| <= space then |data| else space
    ensures Fitting(data, space) <= data
    ensures |data| <= space ==> Fitting(data, space) == data
  {
  }

  lemma {:induction false} FittingAll(x: seq<byte>, y: seq<byte>, space: nat)
    ensures |Fitting(x, space)| <= space
    ensures Fitting(x + y, space) == Fitting(x, space) + Fitting(y, space - |Fitting(x, space)|)
  {
  }

  /** What a write did: it took all the data there was room for.  A full stream is no error. */
  twostate predicate Took(out: OutputStream, data: seq<byte>)
    reads out
  {
    out.written == old(out.written) + Fitting(data, old(out.space))
        && out.space == old(out.space) - |Fitting(data, old(out.space))|
  }

  /** One of the first n parts has the stream. */
  ghost predicate Reads(parts: seq<BodyPart>, n: nat, stream: InputStream)
    requires n <= |parts|
  {
    exists k :: 0 <= k < n && parts[k].bodyStream == stream
  }

  /** What the parts' streams have left when the first n parts have read theirs to the end. */
  ghost function Left(parts: seq<BodyPart>, was: seq<seq<byte>>, n: nat): (left: seq<seq<byte>>)
    requires n <= |parts| == |was|
    ensures |left| == |parts|
  {
    seq(|parts|, j requires 0 <= j < |parts| => if Reads(parts, n, parts[j].bodyStream) then [] else was[j])
  }

  ghost predicate Without(parts: seq<BodyPart>, stream: InputStream, before: seq<seq<byte>>, after: seq<seq<byte>>) {
    && |parts| == |before| == |after|
    && forall j :: 0 <= j < |parts| ==> after[j] == if parts[j].bodyStream == stream then [] else before[j]
  }

  lemma {:induction false} ReadOn(parts: seq<BodyPart>, was: seq<seq<byte>>, n: nat, left: seq<seq<byte>>)
    requires n < |parts| == |was| && Without(parts, parts[n].bodyStream, Left(parts, was, n), left)
    ensures left == Left(parts, was, n + 1)
  {
    forall j | 0 <= j < |parts| ensures left[j] == Left(parts, was, n + 1)[j] {
      var x := parts[j].bodyStream;
      assert Reads(parts, n + 1, x) <==> Reads(parts, n, x) || x == parts[n].bodyStream;
    }
  }

  lemma {:induction false} NothingRead(parts: seq<BodyPart>, was: seq<seq<byte>>)
    requires |parts| == |was|
    ensures Left(parts, was, 0) == was
  {
  }

  lemma {:induction false} PartsUpTo(boundary: seq<byte>, vs: seq<View>, n: nat)
    requires n <= |vs|
    ensures EncodeParts(boundary, vs[..n]) ==
            if n == 0 then [] else EncodeParts(boundary, vs[..n - 1]) + EncodePart(boundary, vs[n - 1])
  {
    if n > 0 { assert vs[..n][..n - 1] == vs[..n - 1]; }
  }

  class MultipartFormData {
    const boundary: seq<byte>
    var bodyParts: seq<BodyPart>
    var bodyPartError: Option<Failure>
    const streamBufferSize: nat := 1024

    /** The parts are all different objects; they may share streams. */
    ghost predicate Valid()
      reads this
    {
      forall i, j :: 0 <= i < j < |bodyParts| ==> bodyParts[i] != bodyParts[j]
    }

    ghost function Parts(): set<BodyPart>
      reads this
    {
      set p | p in bodyParts
    }

    ghost function Streams(): set<InputStream>
      reads this
    {
      set p | p in bodyParts :: p.bodyStream
    }

    ghost function Repr(): set<object>
      reads this
    {
      Parts() + Streams()
    }

    ghost function Pending(): (was: seq<seq<byte>>)
      reads this, Repr()
      ensures |was| == |bodyParts|
    {
      seq(|bodyParts|, i requires 0 <= i < |bodyParts| reads this, Repr() =>
        assert bodyParts[i] in bodyParts; bodyParts[i].bodyStream.pending)
    }

    /** The stream was read to its end, and no other. */
    twostate predicate Drained(stream: InputStream)
      reads this, Repr()
    {
      && unchanged(this) && Frames() == old(Frames())
      && Without(bodyParts, stream, old(Pending()), Pending())
    }

    /** What part i's stream will deliver to it. */
    ghost function Content(i: nat): seq<byte>
      requires i < |bodyParts|
      reads this, Repr()
    {
      Left(bodyParts, Pending(), i)[i]
    }

    /** The parts without what their streams hold. */
    ghost function Frames(): (frames: seq<View>)
      reads this, Parts()
      ensures |frames| == |bodyParts|
    {
      seq(|bodyParts|, i requires 0 <= i < |bodyParts| reads this, Parts() =>
        assert bodyParts[i] in bodyParts;
        View(bodyParts[i].headers, [], bodyParts[i].hasInitialBoundary, bodyParts[i].hasFinalBoundary))
    }

    /** The parts as the encoders find them. */
    ghost function Views(): (vs: seq<View>)
      reads this, Repr()
      ensures |vs| == |bodyParts|
    {
      seq(|bodyParts|, i requires 0 <= i < |bodyParts| reads this, Repr() => Frames()[i].(pending := Content(i)))
    }

    lemma {:induction false} PartIs(i: nat)
      requires i < |bodyParts|
      ensures bodyParts[i].bodyStream in Repr() && bodyParts[i].bodyStream.pending == Pending()[i]
      ensures bodyParts[i].Seen() == Frames()[i].(pending := Pending()[i])
    {
      assert bodyParts[i] in bodyParts;
    }

    lemma {:induction false} ViewsAre()
      ensures forall i :: 0 <= i < |bodyParts| ==>
                Views()[i] == Frames()[i].(pending := Left(bodyParts, Pending(), i)[i])
      ensures LengthsMatch() <==>
              forall i :: 0 <= i < |bodyParts| ==> |Views()[i].pending| == bodyParts[i].bodyContentLength
    {
    }

    ghost predicate Sound()
      reads this, Repr()
    {
      forall i :: 0 <= i < |bodyParts| ==> !bodyParts[i].bodyStream.broken
    }

    /** Every part gets exactly the announced number of bytes. */
    ghost predicate LengthsMatch()
      reads this, Repr()
    {
      forall i :: 0 <= i < |bodyParts| ==> |Content(i)| == bodyParts[i].bodyContentLength
    }

    constructor (boundary: seq<byte>)
      ensures Valid() && this.boundary == boundary && bodyParts == [] && bodyPartError.None?
    {
      this.boundary, bodyParts, bodyPartError := boundary, [], None;
    }

    /** append(_:withLength:headers:) takes any stream, also one that a part has already. */
    method Append(stream: InputStream, length: nat, headers: seq<Header>)
      modifies `bodyParts
      ensures old(Valid()) ==> Valid()
      ensures var n := |old(bodyParts)|;
              && |bodyParts| == n + 1 && bodyParts[..n] == old(bodyParts) && fresh(bodyParts[n])
              && bodyParts[n].bodyStream == stream && bodyParts[n].bodyContentLength == length
      ensures var content := if Reads(old(bodyParts), |old(bodyParts)|, stream) then [] else stream.pending;
              Views() == old(Views()) + [View(headers, content, false, false)]
    {
      var part := new BodyPart(headers, stream, length);
      ghost var before, n := bodyParts, |bodyParts|;
      bodyParts := bodyParts + [part];
      forall i | 0 <= i < n ensures Views()[i] == old(Views())[i] {
        assert before[i] in before && forall k :: 0 <= k < n ==> bodyParts[k] == before[k];
        assert Reads(bodyParts, i, before[i].bodyStream) <==> Reads(before, i, before[i].bodyStream);
      }
    }

    /** setBodyPartError(withReason:): the first error is kept. */
    method SetBodyPartError(reason: int)
      modifies `bodyPartError
      ensures bodyPartError == if old(bodyPartError).Some? then old(bodyPartError) else Some(BodyPartError(reason))
    {
      if bodyPartError.Some? { return; }
      bodyPartError := Some(BodyPartError(reason));
    }

    /** contentLength: a fold over the parts. */
    method ContentLength() returns (length: nat)
      ensures length == TotalLength(bodyParts)
    {
      length := 0;
      assert bodyParts[..0] == [];
      for i := 0 to |bodyParts|
        invariant length == TotalLength(bodyParts[..i])
      {
        assert bodyParts[..i + 1][..i] == bodyParts[..i];
        length := length + bodyParts[i].bodyContentLength;
      }
      assert bodyParts[..|bodyParts|] == bodyParts;
    }

    /** Set the flags of the first and the last part. */
    method MarkBoundaries()
      requires Valid()
      modifies set p | p in bodyParts :: p
      ensures Valid() && Views() == Marked(old(Views()))
      ensures unchanged(this) && unchanged(set p | p in bodyParts :: p.bodyStream)
    {
      if |bodyParts| > 0 {
        assert bodyParts[0] in bodyParts && bodyParts[|bodyParts| - 1] in bodyParts;
        bodyParts[0].hasInitialBoundary := true;
        bodyParts[|bodyParts| - 1].hasFinalBoundary := true;
      }
      assert forall i :: 0 <= i < |bodyParts| ==> Views()[i] == Marked(old(Views()))[i];
    }

    /** encodeBodyStream(for:) */
    method EncodeBodyStream(bodyPart: BodyPart) returns (r: Result<seq<byte>>)
      modifies bodyPart.bodyStream
      ensures r.Ok? ==> r.value == old(bodyPart.bodyStream.pending) && |r.value| == bodyPart.bodyContentLength
      ensures r.Ok? ==> bodyPart.bodyStream.pending == []
      ensures r.Thrown? ==>
                var n := |old(bodyPart.bodyStream.pending)|;
                || (bodyPart.bodyStream.broken && r.error == ReadFailed)
                || (n != bodyPart.bodyContentLength && r.error == UnexpectedLength(bodyPart.bodyContentLength, n))
    {
      var inputStream, encoded := bodyPart.bodyStream, [];
      ghost var all := inputStream.pending;
      var available := inputStream.HasBytesAvailable();
      while available
        invariant all == encoded + inputStream.pending
        invariant !available ==> inputStream.pending == []
        decreases |inputStream.pending|, available
      {
        var bytes, error := inputStream.Read(streamBufferSize);
        if error { return Thrown(ReadFailed); }
        if bytes == [] { break; }
        encoded := encoded + bytes;
        available := inputStream.HasBytesAvailable();
      }
      if |encoded| != bodyPart.bodyContentLength {
        return Thrown(UnexpectedLength(bodyPart.bodyContentLength, |encoded|));
      }
      r := Ok(encoded);
    }

    /** encode(_:) */
    method EncodeBodyPart(bodyPart: BodyPart) returns (r: Result<seq<byte>>)
      modifies bodyPart.bodyStream
      ensures r.Ok? ==> r.value == EncodePart(boundary, old(bodyPart.Seen()))
                        && |old(bodyPart.bodyStream.pending)| == bodyPart.bodyContentLength
                        && Drained(bodyPart.bodyStream)
      ensures r.Thrown? ==>
                bodyPart.bodyStream.broken || |old(bodyPart.bodyStream.pending)| != bodyPart.bodyContentLength
    {
      hide BoundaryData, EncodeHeaders;
      var encoded := BoundaryData(if bodyPart.hasInitialBoundary then Initial else Encapsulated, boundary);
      encoded := encoded + EncodeHeaders(bodyPart.headers);
      var body := EncodeBodyStream(bodyPart);
      if body.Thrown? { return body; }
      encoded := encoded + body.value;
      if bodyPart.hasFinalBoundary { encoded := encoded + BoundaryData(Final, boundary); }
      r := Ok(encoded);
    }

    /** encode(): the parts one after another, or an error; with sound streams exactly when every stream
        delivers what was announced. */
    method Encode() returns (r: Result<seq<byte>>)
      requires Valid()
      modifies Repr()
      ensures Valid() && bodyParts == old(bodyParts)
      ensures old(bodyPartError).Some? ==> r == Thrown(old(bodyPartError).value)
      ensures r.Ok? ==>
                bodyPartError.None? && old(LengthsMatch()) && r.value == EncodeParts(boundary, Marked(old(Views())))
      ensures old(bodyPartError).None? && Sound() && old(LengthsMatch()) ==> r.Ok?
    {
      hide EncodePart, EncodeParts, Marked;
      if bodyPartError.Some? { return Thrown(bodyPartError.value); }
      MarkBoundaries();
      r := EncodeBodyParts();
    }

    /** Its loop over the parts. */
    method EncodeBodyParts() returns (r: Result<seq<byte>>)
      requires Valid()
      modifies Repr()
      ensures Valid() && unchanged(this)
      ensures r.Ok? ==> old(LengthsMatch()) && r.value == EncodeParts(boundary, old(Views()))
      ensures r.Thrown? ==> !Sound() || !old(LengthsMatch())
    {
      hide EncodePart, EncodeParts, Left, Reads, Without, Repr, Views, Frames, Pending, Content, LengthsMatch,
        BodyPart.Seen;
      ghost var vs, was, frames := Views(), Pending(), Frames();
      ViewsAre();
      PartsUpTo(boundary, vs, 0);
      NothingRead(bodyParts, was);
      var encoded := [];
      for i := 0 to |bodyParts|
        invariant unchanged(this) && Frames() == frames
        invariant encoded == EncodeParts(boundary, vs[..i])
        invariant Pending() == Left(bodyParts, was, i)
        invariant forall j :: 0 <= j < i ==> |vs[j].pending| == bodyParts[j].bodyContentLength
      {
        PartIs(i);
        var encodedData := EncodeBodyPart(bodyParts[i]);
        if encodedData.Thrown? { return encodedData; }
        ReadOn(bodyParts, was, i, Pending());
        PartsUpTo(boundary, vs, i + 1);
        encoded := encoded + encodedData.value;
      }
      assert vs[..|bodyParts|] == vs;
      r := Ok(encoded);
    }

    /** write(_:to:): the loop over partial writes. */
    method Write(data: seq<byte>, out: OutputStream) returns (r: Result<()>)
      modifies out
      ensures r.Ok? ==> Took(out, data)
      ensures r.Thrown? ==> out.broken && r.error == WriteFailed
    {
      var buffer, bytesToWrite := data, |data|;
      ghost var done: seq<byte> := [];
      var hasSpace := out.HasSpaceAvailable();
      while bytesToWrite > 0 && hasSpace
        invariant bytesToWrite == |buffer| && data == done + buffer
        invariant out.written == old(out.written) + done && out.space == old(out.space) - |done|
        invariant hasSpace <==> out.space > 0
        decreases bytesToWrite
      {
        var bytesWritten, error := out.Write(buffer, bytesToWrite);
        if error { return Thrown(WriteFailed); }
        PieceWritten(old(out.written), done, buffer, bytesWritten);
        done := done + buffer[..bytesWritten];
        bytesToWrite := bytesToWrite - bytesWritten;
        buffer := buffer[bytesWritten..];
        hasSpace := out.HasSpaceAvailable();
      }
      assert done == data[..|done|];
      r := Ok(());
    }

    /** writeBodyStream(for:to:): nothing checks the announced length. */
    method WriteBodyStream(bodyPart: BodyPart, out: OutputStream) returns (r: Result<()>)
      modifies bodyPart.bodyStream, out
      ensures r.Ok? ==> Took(out, old(bodyPart.bodyStream.pending)) && bodyPart.bodyStream.pending == []
      ensures r.Thrown? ==> bodyPart.bodyStream.broken || out.broken
    {
      hide Fitting;
      var inputStream := bodyPart.bodyStream;
      ghost var all, done: seq<byte> := inputStream.pending, [];
      NothingFits(out.space);
      var available := inputStream.HasBytesAvailable();
      while available
        invariant all == done + inputStream.pending
        invariant !available ==> inputStream.pending == []
        invariant Took(out, done)
        decreases |inputStream.pending|, available
      {
        var buffer, error := inputStream.Read(streamBufferSize);
        if error { return Thrown(ReadFailed); }
        if buffer == [] { break; }
        var status := Write(buffer, out);
        if status.Thrown? { return status; }
        FittingAll(done, buffer, old(out.space));
        done := done + buffer;
        available := inputStream.HasBytesAvailable();
      }
      assert all == done;
      r := Ok(());
    }

    /** write(_:to:) on a part */
    method WriteBodyPart(bodyPart: BodyPart, out: OutputStream) returns (r: Result<()>)
      modifies bodyPart.bodyStream, out
      ensures r.Ok? ==> Took(out, EncodePart(boundary, old(bodyPart.Seen()))) && Drained(bodyPart.bodyStream)
      ensures r.Thrown? ==> bodyPart.bodyStream.broken || out.broken
    {
      hide BoundaryData, EncodeHeaders, Fitting, Parts, Streams;
      var initialData := BoundaryData(if bodyPart.hasInitialBoundary then Initial else Encapsulated, boundary);
      var headerData, finalData := EncodeHeaders(bodyPart.headers), BoundaryData(Final, boundary);
      ghost var body, space := bodyPart.bodyStream.pending, out.space;
      r := Write(initialData, out);
      if r.Thrown? { return; }
      r := Write(headerData, out);
      if r.Thrown? { return; }
      FittingAll(initialData, headerData, space);
      r := WriteBodyStream(bodyPart, out);
      if r.Thrown? { return; }
      FittingAll(initialData + headerData, body, space);
      if bodyPart.hasFinalBoundary {
        r := Write(finalData, out);
        FittingAll(initialData + headerData + body, finalData, space);
      }
      assert initialData + headerData + body + [] == initialData + headerData + body;
    }

    /** writeEncodedData(to:): the same bytes as encode(), as many as the stream has room for.  The lengths
        announced are not checked, and running out of room is not reported. */
    method WriteEncodedData(fileExists: bool, isFileURL: bool, out: Option<OutputStream>) returns (r: Result<()>)
      requires Valid() && (out.Some? ==> out.value !in Repr())
      modifies Repr(), if out.Some? then {out.value} else {}
      ensures Valid() && bodyParts == old(bodyParts)
      ensures old(bodyPartError).Some? ==> r == Thrown(old(bodyPartError).value)
      ensures old(bodyPartError).None? && fileExists ==> r == Thrown(FileAlreadyExists)
      ensures old(bodyPartError).None? && !fileExists && !isFileURL ==> r == Thrown(URLInvalid)
      ensures old(bodyPartError).None? && !fileExists && isFileURL && out.None? ==> r == Thrown(StreamCreationFailed)
      ensures r.Ok? ==> bodyPartError.None? && !fileExists && isFileURL && out.Some?
                        && Took(out.value, EncodeParts(boundary, Marked(old(Views()))))
      ensures r.Ok? && |EncodeParts(boundary, Marked(old(Views())))| <= old(out.value.space) ==>
                out.value.written == old(out.value.written) + EncodeParts(boundary, Marked(old(Views())))
      ensures old(bodyPartError).None? && !fileExists && isFileURL && out.Some? && Sound() && !out.value.broken ==>
              r.Ok?
    {
      hide EncodePart, Marked, Fitting;
      if bodyPartError.Some? { return Thrown(bodyPartError.value); }
      if fileExists {
        return Thrown(FileAlreadyExists);
      } else if !isFileURL {
        return Thrown(URLInvalid);
      }
      if out.None? { return Thrown(StreamCreationFailed); }
      ghost var space := out.value.space;
      MarkBoundaries();
      r := WriteBodyParts(out.value);
      FittingIs(EncodeParts(boundary, Marked(old(Views()))), space);
    }

    /** Its loop over the parts. */
    method WriteBodyParts(out: OutputStream) returns (r: Result<()>)
      requires Valid() && out !in Repr()
      modifies Repr(), out
      ensures Valid() && unchanged(this)
      ensures r.Ok? ==> Took(out, EncodeParts(boundary, old(Views())))
      ensures r.Thrown? ==> !Sound() || out.broken
    {
      hide EncodePart, EncodeParts, Fitting, Left, Reads, Without, Repr, Views, Frames, Pending, Content, BodyPart.Seen;
      ghost var vs, was, frames, space := Views(), Pending(), Frames(), out.space;
      ViewsAre();
      PartsUpTo(boundary, vs, 0);
      NothingRead(bodyParts, was);
      NothingFits(space);
      for i := 0 to |bodyParts|
        invariant unchanged(this) && Frames() == frames
        invariant Took(out, EncodeParts(boundary, vs[..i]))
        invariant Pending() == Left(bodyParts, was, i)
      {
        PartIs(i);
        r := WriteBodyPart(bodyParts[i], out);
        if r.Thrown? { return; }
        ReadOn(bodyParts, was, i, Pending());
        PartsUpTo(boundary, vs, i + 1);
        FittingAll(EncodeParts(boundary, vs[..i]), EncodePart(boundary, vs[i]), space);
      }
      assert vs[..|bodyParts|] == vs;
      r := Ok(());
    }
  }

  lemma {:induction false} PieceWritten(written: seq<byte>, done: seq<byte>, buffer: seq<byte>, n: nat)
    requires n <= |buffer|
    ensures done + buffer == (done + buffer[..n]) + buffer[n..]
    ensures (written + done) + buffer[..n] == written + (done + buffer[..n])
  {
  }

  lemma {:induction false} NothingFits(space: nat)
    ensures Fitting([], space) == []
  {
  }

  function TotalLength(parts: seq<BodyPart>): nat {
    if parts == [] then 0 else TotalLength(parts[..|parts| - 1]) + parts[|parts| - 1].bodyContentLength
  }

  /** The length of a form is that of its parts: of none, of one, and of two lists put together. */
  lemma {:induction false} TotalLengthAdds(a: seq<BodyPart>, b: seq<BodyPart>, part: BodyPart)
    ensures TotalLength([]) == 0 && TotalLength([part]) == part.bodyContentLength
    ensures TotalLength(a + b) == TotalLength(a) + TotalLength(b)
    decreases |b|
  {
    assert [part][..0] == [] && TotalLength([part]) == TotalLength([part][..0]) + part.bodyContentLength;
    if b == [] {
      assert a + b == a;
    } else {
      assert (a + b)[..|a + b| - 1] == a + b[..|b| - 1];
      TotalLengthAdds(a, b[..|b| - 1], part);
    }
  }

  /** Two equal forms, one encoded in memory and one written to a stream: the same bytes, whatever pieces
      the streams deliver and take, as long as the output has room. */
  method EncodeBoth(a: MultipartFormData, b: MultipartFormData, out: OutputStream)
    returns (encoded: Result<seq<byte>>, streamed: Result<()>)
    requires a.Valid() && b.Valid() && a.Repr() !! b.Repr() && a !in b.Repr() && b !in a.Repr() && a != b
    requires out !in a.Repr() && out !in b.Repr()
    requires a.boundary == b.boundary && a.Views() == b.Views() && a.bodyPartError.None? && b.bodyPartError.None?
    requires a.LengthsMatch() && a.Sound() && b.Sound() && !out.broken
    modifies a.Repr(), b.Repr(), out
    ensures encoded.Ok? && streamed.Ok?
    ensures out.written == old(out.written) + Fitting(encoded.value, old(out.space))
    ensures |encoded.value| <= old(out.space) ==> out.written == old(out.written) + encoded.value
  {
    hide EncodeParts, Marked, Fitting;
    encoded := a.Encode();
    FittingIs(encoded.value, out.space);
    streamed := b.WriteEncodedData(false, true, Some(out));
  }

  /** The form of these parts. */
  method FormOf(boundary: seq<byte>, parts: seq<Part>) returns (form: MultipartFormData)
    ensures fresh(form) && fresh(form.Repr()) && form.Valid() && form.bodyPartError.None?
    ensures form.boundary == boundary && form.Views() == Fresh(parts) && form.Sound() && form.LengthsMatch()
  {
    hide MultipartFormData.Views, MultipartFormData.LengthsMatch, MultipartFormData.Content, Fresh;
    form := new MultipartFormData(boundary);
    form.ViewsAre();
    FreshUpTo(parts, 0);
    for i := 0 to |parts|
      invariant fresh(form) && fresh(form.Repr()) && form.Valid() && form.bodyPartError.None?
      invariant form.boundary == boundary && form.Sound()
      invariant form.Views() == Fresh(parts[..i])
      invariant |form.bodyParts| == i
      invariant forall k :: 0 <= k < i ==> form.bodyParts[k].bodyContentLength == |parts[k].body|
    {
      ghost var before := form.bodyParts;
      assert forall k :: 0 <= k < i ==> before[k].bodyStream in form.Streams();
      var stream := new InputStream(parts[i].body, false);
      assert !Reads(before, i, stream);
      form.Append(stream, |parts[i].body|, parts[i].headers);
      assert form.bodyParts == before + [form.bodyParts[i]];
      FreshUpTo(parts, i + 1);
    }
    assert parts[..|parts|] == parts;
    form.ViewsAre();
    FreshIs(parts);
  }

  lemma {:induction false} FreshUpTo(parts: seq<Part>, n: nat)
    requires n <= |parts|
    ensures Fresh(parts[..n]) ==
            if n == 0 then []
            else Fresh(parts[..n - 1]) + [View(parts[n - 1].headers, parts[n - 1].body, false, false)]
  {
  }

  lemma {:induction false} FreshIs(parts: seq<Part>)
    ensures |Fresh(parts)| == |parts| && forall k :: 0 <= k < |parts| ==> Fresh(parts)[k].pending == parts[k].body
  {
  }

  /** From the parts to the bytes: a form of any parts, encoded in memory, gives the form's format, and
      another one streamed into an output with room for it gives the same. */
  method EncodesParts(boundary: seq<byte>, parts: seq<Part>, out: OutputStream)
    returns (encoded: Result<seq<byte>>, streamed: Result<()>)
    requires !out.broken
    modifies out
    ensures encoded == Ok(MultipartFormat.Encode(boundary, parts)) && streamed.Ok?
    ensures |MultipartFormat.Encode(boundary, parts)| <= old(out.space) ==>
              out.written == old(out.written) + MultipartFormat.Encode(boundary, parts)
  {
    hide EncodeParts, Marked, Fresh, Fitting, MultipartFormData.Views, MultipartFormData.LengthsMatch;
    var a := FormOf(boundary, parts);
    encoded := a.Encode();
    var b := FormOf(boundary, parts);
    streamed := b.WriteEncodedData(false, true, Some(out));
  }
}
