/** Streaming transfer of content-addressed assets between peers: serving a range, downloading
into a staging file with an incremental digest, committing to the local store, and failing over
between candidate sources. */
module Transfer {
  import opened Wrappers
  import opened ByteRange

  type Bytes = seq<bv8>

  function Concat(chunks: seq<Bytes>): Bytes {
    if chunks == [] then [] else Concat(chunks[..|chunks| - 1]) + chunks[|chunks| - 1]
  }

  lemma {:induction false} ConcatAppend(chunks: seq<Bytes>, chunk: Bytes)
    ensures Concat(chunks + [chunk]) == Concat(chunks) + chunk
  {
    assert (chunks + [chunk])[..|chunks|] == chunks;
  }

  lemma JoinSlices(data: Bytes, a: nat, b: nat, c: nat)
    requires a <= b <= c <= |data|
    ensures data[a..b] + data[b..c] == data[a..c]
  {
  }

  // Serving --------------------------------------------------------------------------------------

  // An open file handle. A read returns at least one byte until the end of the data, but may
  // return fewer bytes than asked for.
  class ByteStream {
    const data: Bytes
    var pos: nat
    var closed: bool

    ghost predicate Valid()
      reads this
    {
      pos <= |data|
    }

    constructor (data: Bytes, offset: nat)
      requires offset <= |data|
      ensures Valid() && this.data == data && pos == offset && !closed
    {
      this.data, pos, closed := data, offset, false;
    }

    method Read(n: nat) returns (chunk: Bytes)
      requires Valid() && n > 0
      modifies this`pos
      ensures Valid() && pos == old(pos) + |chunk| && |chunk| <= n
      ensures chunk == data[old(pos)..pos]
      ensures chunk == [] <==> old(pos) == |data|
    {
      if pos == |data| {
        return [];
      }
      var most := Min(n, |data| - pos);
      var k: nat :| 1 <= k <= most;
      chunk := data[pos..pos + k];
      pos := pos + k;
    }

    method Close()
      modifies this`closed
      ensures closed
    {
      closed := true;
    }
  }

  function Max(a: int, b: int): int {
    if a > b then a else b
  }

  // The chunks sent so far are the data from `start` to `pos`, none empty or larger than `size`.
  ghost predicate Sent(data: Bytes, start: nat, pos: nat, chunks: seq<Bytes>, size: int) {
    && start <= pos <= |data| && Concat(chunks) == data[start..pos]
    && forall i :: 0 <= i < |chunks| ==> 0 < |chunks[i]| <= size
  }

  lemma SentMore(data: Bytes, start: nat, pos: nat, chunks: seq<Bytes>, size: int, chunk: Bytes)
    requires Sent(data, start, pos, chunks, size) && 0 < |chunk| <= size
    requires pos + |chunk| <= |data| && chunk == data[pos..pos + |chunk|]
    ensures Sent(data, start, pos + |chunk|, chunks + [chunk], size)
  {
    ConcatAppend(chunks, chunk);
    JoinSlices(data, start, pos, pos + |chunk|);
  }

  // The generator that feeds a response: bounded chunks, never past the requested length, and
  // the handle is closed at the end.
  method GenerateBoundedChunks(stream: ByteStream, bytesToSend: int, chunkSize: int) returns (chunks: seq<Bytes>)
    requires stream.Valid()
    modifies stream
    ensures stream.closed
    ensures Concat(chunks) == stream.data[old(stream.pos)..old(stream.pos) + Min(Max(0, bytesToSend), |stream.data| - old(stream.pos))]
    ensures forall i :: 0 <= i < |chunks| ==> 0 < |chunks[i]| <= Max(1024, chunkSize)
  {
    var size := Max(1024, chunkSize);
    var remaining := Max(0, bytesToSend);
    chunks := [];
    ghost var start := stream.pos;
    while remaining > 0
      invariant stream.Valid() && 0 <= remaining && stream.pos - start + remaining == Max(0, bytesToSend)
      invariant Sent(stream.data, start, stream.pos, chunks, size)
      decreases remaining
    {
      var chunk := stream.Read(Min(size, remaining));
      if chunk == [] {
        break;
      }
      remaining := remaining - |chunk|;
      SentMore(stream.data, start, stream.pos - |chunk|, chunks, size, chunk);
      chunks := chunks + [chunk];
    }
    stream.Close();
  }

  // An HTTP response as the downloader sees it; `broken` means the connection fails after the
  // delivered chunks.
  datatype Response = Response(status: nat, contentLength: Option<int>, body: seq<Bytes>, broken: bool)

  // The answer to a parsed range: unsatisfiable ranges are refused with 416 and malformed
  // headers are ignored.
  function BodyFor(asset: Bytes, parsed: Result<Range, RangeError>): (nat, Bytes)
    requires Fits(parsed, |asset|)
  {
    match parsed
    case Failure(Unsatisfiable) => (416, [])
    case Failure(Malformed) => (200, asset)
    case Success(r) => (if r.partial then 206 else 200, asset[r.start..r.start + r.length])
  }

  predicate Fits(parsed: Result<Range, RangeError>, size: nat) {
    parsed.Success? ==> parsed.value.start + parsed.value.length <= size
  }

  function RangeBody(asset: Bytes, header: Option<string>): (nat, Bytes) {
    BodyFor(asset, ParseByteRange(header, |asset|))
  }

  method ServeParsed(asset: Bytes, parsed: Result<Range, RangeError>, chunkSize: int) returns (resp: Response)
    requires Fits(parsed, |asset|)
    ensures (resp.status, Concat(resp.body)) == BodyFor(asset, parsed)
    ensures !resp.broken && resp.contentLength == if resp.status == 416 then None else Some(|Concat(resp.body)|)
  {
    var start, length, partial := 0, |asset|, false;
    if parsed.Failure? {
      if parsed.error.Unsatisfiable? {
        return Response(416, None, [], false);
      }
    } else {
      start, length, partial := parsed.value.start, parsed.value.length, parsed.value.partial;
    }
    var stream := new ByteStream(asset, start);
    var chunks := GenerateBoundedChunks(stream, length, chunkSize);
    assert asset[0..|asset|] == asset;
    resp := Response(if partial then 206 else 200, Some(length), chunks, false);
  }

  method ServeAsset(asset: Bytes, header: Option<string>, chunkSize: int) returns (resp: Response)
    ensures (resp.status, Concat(resp.body)) == RangeBody(asset, header)
    ensures !resp.broken && resp.contentLength == if resp.status == 416 then None else Some(|Concat(resp.body)|)
  {
    var parsed := ParseByteRange(header, |asset|);
    resp := ServeParsed(asset, parsed, chunkSize);
  }

  // Asking to resume at an offset inside the asset is answered with exactly its suffix.
  lemma OpenRangeServesSuffix(asset: Bytes, offset: nat)
    requires offset < |asset|
    ensures RangeBody(asset, Some(OpenRange(offset))) == (206, asset[offset..])
    ensures asset[..offset] + RangeBody(asset, Some(OpenRange(offset))).1 == asset
  {
    OpenRangeUnderstood(offset, |asset|);
    assert asset[offset..offset + (|asset| - offset)] == asset[offset..];
  }

  // A client that already holds the whole asset is refused: there is nothing left to ask for.
  lemma NothingLeftIsRefused(asset: Bytes)
    requires asset != []
    ensures RangeBody(asset, Some(OpenRange(|asset|))) == (416, [])
  {
    OpenRangeUnderstood(|asset|, |asset|);
  }

  // Without a header, and with one that is not a byte range, the whole asset is served.
  lemma WholeAssetServed(asset: Bytes, s: string)
    requires s != [] && !IsSpace(s[0]) && !IsSpace(s[|s| - 1]) && !exists first, last :: RangeForm(s, first, last)
    ensures RangeBody(asset, None) == (200, asset) && RangeBody(asset, Some(s)) == (200, asset)
  {
    WholeOrMalformed(s, |asset|);
    assert asset[0..0 + |asset|] == asset;
  }

  // A closed range inside the asset is answered with exactly those bytes, clipped at the end.
  lemma ClosedRangeServesSlice(asset: Bytes, first: nat, last: nat)
    requires first <= last && first < |asset|
    ensures RangeBody(asset, Some(ClosedRange(first, last))) == (206, asset[first..Min(last + 1, |asset|)])
  {
    ClosedRangeUnderstood(first, last, |asset|);
  }

  // Downloading ----------------------------------------------------------------------------------

  datatype TransferError = HttpError(status: nat) | StreamAborted | IntegrityMismatch | FileError

  // Whether a local partial file can be extended by a response to a request for `offset`.
  predicate Resumable(offset: nat, partialFile: Option<Bytes>) {
    offset > 0 && partialFile.Some? && |partialFile.value| == offset
  }

  function Prefix(offset: nat, partialFile: Option<Bytes>, status: nat): Bytes {
    if Resumable(offset, partialFile) && status == 206 then partialFile.value else []
  }

  // What a download leaves staged, or why it fails.
  function Accept(sha: Bytes -> nat, expected: nat, offset: nat, partialFile: Option<Bytes>, resp: Response): Result<Bytes, TransferError> {
    var body := Concat(resp.body);
    var staged := Prefix(offset, partialFile, resp.status) + body;
    if resp.status !in {200, 206} then Failure(HttpError(resp.status))
    else if resp.broken then Failure(StreamAborted)
    else if resp.contentLength.Some? && resp.contentLength.value != |body| then Failure(StreamAborted)
    else if (offset == 0 || Resumable(offset, partialFile) || resp.status == 200) && sha(staged) != expected then
      Failure(IntegrityMismatch)
    else Success(staged)
  }

  // A download that starts at zero, extends a matching partial file, or receives the whole
  // asset is only accepted with the requested digest, so without collisions it is the asset.
  lemma AcceptedIsVerified(sha: Bytes -> nat, expected: nat, offset: nat, partialFile: Option<Bytes>, resp: Response, asset: Bytes)
    requires Accept(sha, expected, offset, partialFile, resp).Success?
    requires offset == 0 || Resumable(offset, partialFile) || resp.status == 200
    ensures sha(Accept(sha, expected, offset, partialFile, resp).value) == expected
    ensures sha(asset) == expected && (forall a, b :: sha(a) == sha(b) ==> a == b) ==>
      Accept(sha, expected, offset, partialFile, resp) == Success(asset)
  {
  }

  // A refusal has its reason: the status, the stream, or the digest.
  lemma RefusalHasReason(sha: Bytes -> nat, expected: nat, offset: nat, partialFile: Option<Bytes>, resp: Response)
    ensures var r := Accept(sha, expected, offset, partialFile, resp);
      && (r == Failure(HttpError(resp.status)) <==> resp.status != 200 && resp.status != 206)
      && (r == Failure(StreamAborted) <==>
            resp.status in {200, 206} && (resp.broken || (resp.contentLength.Some? && resp.contentLength.value != |Concat(resp.body)|)))
      && (r.Failure? ==> r.error in {HttpError(resp.status), StreamAborted, IntegrityMismatch})
      && (r == Failure(IntegrityMismatch) ==> offset == 0 || resp.status == 200 || Resumable(offset, partialFile))
  {
  }

  // A response that is complete and has the requested digest.
  predicate Works(sha: Bytes -> nat, expected: nat, resp: Response) {
    && resp.status in {200, 206} && !resp.broken
    && (resp.contentLength.Some? ==> resp.contentLength.value == |Concat(resp.body)|)
    && sha(Concat(resp.body)) == expected
  }

  // A download from the start is accepted exactly from such a response, and yields its body.
  lemma AcceptedFromStartIff(sha: Bytes -> nat, expected: nat, partialFile: Option<Bytes>, resp: Response)
    ensures Accept(sha, expected, 0, partialFile, resp).Success? <==> Works(sha, expected, resp)
    ensures Works(sha, expected, resp) ==> Accept(sha, expected, 0, partialFile, resp) == Success(Concat(resp.body))
  {
    assert Prefix(0, partialFile, resp.status) + Concat(resp.body) == Concat(resp.body);
  }

  // What a server sends without a range header is accepted as the asset.
  lemma WholeAssetDownloads(sha: Bytes -> nat, asset: Bytes, resp: Response)
    requires (resp.status, Concat(resp.body)) == RangeBody(asset, None) && !resp.broken
    requires resp.contentLength == if resp.status == 416 then None else Some(|Concat(resp.body)|)
    ensures Works(sha, sha(asset), resp) && Accept(sha, sha(asset), 0, None, resp) == Success(asset)
  {
    WholeAssetServed(asset, "?");
    AcceptedFromStartIff(sha, sha(asset), None, resp);
  }

  // Acceptance proves the digest for every response exactly when the request starts at zero or
  // a matching partial file exists; otherwise a 206 body is passed through unchecked.
  lemma VerificationGuard(sha: Bytes -> nat, expected: nat, offset: nat, partialFile: Option<Bytes>, other: Bytes)
    requires sha(other) != expected
    ensures (forall resp :: Accept(sha, expected, offset, partialFile, resp).Success? ==>
               sha(Accept(sha, expected, offset, partialFile, resp).value) == expected)
            <==> offset == 0 || Resumable(offset, partialFile)
  {
    if offset > 0 && !Resumable(offset, partialFile) {
      var resp := Response(206, None, [other], false);
      assert Concat([other]) == other by { assert [other][..0] == []; }
      assert Accept(sha, expected, offset, partialFile, resp) == Success([] + other);
      assert [] + other == other;
    }
  }

  // Prefix and resumed stream rebuild the asset, also when the peer ignores the range.
  lemma ResumeRebuildsAsset(sha: Bytes -> nat, asset: Bytes, offset: nat, resp: Response)
    requires 0 < offset < |asset| && !resp.broken
    requires (resp.status, Concat(resp.body)) == RangeBody(asset, Some(OpenRange(offset))) || (resp.status == 200 && Concat(resp.body) == asset)
    requires resp.contentLength.Some? ==> resp.contentLength.value == |Concat(resp.body)|
    ensures Accept(sha, sha(asset), offset, Some(asset[..offset]), resp) == Success(asset)
  {
    OpenRangeServesSuffix(asset, offset);
    assert [] + asset == asset && |asset[..offset]| == offset;
  }

  // Nothing was removed from a directory, and whatever was added has a name from `first` on.
  ghost predicate OnlyNew(before: map<nat, Bytes>, after: map<nat, Bytes>, first: nat) {
    && (forall p :: p in before ==> p in after && after[p] == before[p])
    && (forall p :: p in after && p !in before ==> p >= first)
  }

  // The local file operations of one transfer that go wrong, in the order they are attempted: writing
  // the staging file, removing it after a failed download, reading it back, moving it into place,
  // removing it instead, removing a superfluous copy at the second attempt, and the last clean-up.
  datatype Faults = Faults(unwritable: bool, cleanupHeld: bool, unreadable: bool, immovable: bool,
                           discardHeld: bool, retryHeld: bool, finalHeld: bool)

  const NO_FAULTS := Faults(false, false, false, false, false, false, false)

  // A staging file exists once a prefix was copied or a response body was opened for.
  predicate Opens(offset: nat, partialFile: Option<Bytes>, resp: Response) {
    Resumable(offset, partialFile) || resp.status in {200, 206}
  }

  // What a download returns when the file system may fail as well.
  function Received(sha: Bytes -> nat, expected: nat, offset: nat, partialFile: Option<Bytes>, resp: Response, f: Faults): Result<Bytes, TransferError> {
    if f.unwritable && Opens(offset, partialFile, resp) then Failure(StreamAborted)
    else Accept(sha, expected, offset, partialFile, resp)
  }

  // What a commit returns; a refused removal is raised, except that the removal of a superfluous
  // copy is tried once more.
  function Committed(sha: Bytes -> nat, objects: map<nat, Bytes>, data: Bytes, expected: nat, f: Faults): Result<bool, TransferError> {
    if f.unreadable || sha(data) != expected then (if f.discardHeld then Failure(FileError) else Success(false))
    else if expected in objects then
      (if !f.discardHeld then Success(true) else if f.retryHeld then Failure(FileError) else Success(false))
    else if f.immovable then (if f.discardHeld then Failure(FileError) else Success(false))
    else Success(true)
  }

  // A commit takes exactly a readable file with the right digest that can be moved into place, or
  // removed when the object is there already; a refused removal is the only failure.
  lemma CommittedIff(sha: Bytes -> nat, objects: map<nat, Bytes>, data: Bytes, expected: nat, f: Faults)
    ensures var r := Committed(sha, objects, data, expected, f);
      var sound := sha(data) == expected && !f.unreadable;
      && (r == Success(true) <==> sound && !(if expected in objects then f.discardHeld else f.immovable))
      && (r.Failure? <==> f.discardHeld && (!sound || if expected in objects then f.retryHeld else f.immovable))
      && (r.Failure? ==> r.error == FileError)
  {
  }

  // A transfer of an absent asset succeeds.
  predicate Delivers(sha: Bytes -> nat, expected: nat, resp: Response, f: Faults) {
    Works(sha, expected, resp) && !f.unwritable && !f.unreadable && !f.immovable
  }

  // A transfer of an absent asset leaves its staging file behind: the file was begun, the transfer
  // failed, and every attempt to remove the file was refused.
  predicate LeavesFile(sha: Bytes -> nat, expected: nat, resp: Response, f: Faults) {
    if f.unwritable || !Works(sha, expected, resp) then resp.status in {200, 206} && f.cleanupHeld
    else (f.unreadable || f.immovable) && f.discardHeld && f.finalHeld
  }

  // Storing bytes leaves its staging file behind when the file could not be written, which nothing
  // cleans up, or when the commit could not remove it.
  predicate StoreLeavesFile(sha: Bytes -> nat, objects: map<nat, Bytes>, data: Bytes, f: Faults) {
    f.unwritable || (f.discardHeld && (f.unreadable || if sha(data) in objects then f.retryHeld else f.immovable))
  }

  lemma NothingIsLeftWithoutFaults(sha: Bytes -> nat, objects: map<nat, Bytes>, expected: nat, resp: Response, data: Bytes)
    ensures !LeavesFile(sha, expected, resp, NO_FAULTS) && !StoreLeavesFile(sha, objects, data, NO_FAULTS)
    ensures Delivers(sha, expected, resp, NO_FAULTS) <==> Works(sha, expected, resp)
  {
  }

  // A broken stream and a refused removal leave a file; so does an interrupted write of bytes to store.
  lemma FilesAreLeft(sha: Bytes -> nat, expected: nat, data: Bytes)
    ensures LeavesFile(sha, expected, Response(200, None, [], true), NO_FAULTS.(cleanupHeld := true))
    ensures StoreLeavesFile(sha, map[], data, NO_FAULTS.(unwritable := true))
  {
  }

  // The content-addressed store and its staging directory.
  class LocalCas {
    const sha: Bytes -> nat
    var objects: map<nat, Bytes>
    var staging: map<nat, Bytes>
    var nextPath: nat     // staging paths are unique

    ghost predicate Valid()
      reads this
    {
      && (forall h :: h in objects ==> sha(objects[h]) == h)
      && (forall p :: p in staging ==> p < nextPath)
    }

    constructor (sha: Bytes -> nat)
      ensures Valid() && this.sha == sha && objects == map[] && staging == map[]
    {
      this.sha, objects, staging, nextPath := sha, map[], map[], 0;
    }

    // Removing a staged file can be refused; then it stays as it is.
    method Unlink(path: nat, held: bool) returns (ok: bool)
      modifies this`staging
      ensures ok == !held && staging == if ok then old(staging) - {path} else old(staging)
    {
      ok := !held;
      if ok {
        staging := staging - {path};
      }
    }

    // The body of a download, written and hashed chunk by chunk behind the prefix that counts.
    method Receive(expected: nat, offset: nat, partialFile: Option<Bytes>, resp: Response) returns (r: Result<Bytes, TransferError>)
      ensures r == Accept(sha, expected, offset, partialFile, resp)
    {
      var file, digested: Bytes := [], [];
      var hasPrefix := false;
      if offset > 0 && partialFile.Some? && |partialFile.value| == offset {
        file, digested, hasPrefix := partialFile.value, partialFile.value, true;
      }
      if resp.status != 200 && resp.status != 206 {
        return Failure(HttpError(resp.status));
      }
      if resp.status == 200 && hasPrefix {
        digested, hasPrefix := [], false;
      }
      if !(resp.status == 206 && hasPrefix) {
        file := [];  // opened for writing, not for appending
      }
      var received := 0;
      var i := 0;
      while i < |resp.body|
        invariant 0 <= i <= |resp.body|
        invariant digested == file == Prefix(offset, partialFile, resp.status) + Concat(resp.body[..i])
        invariant received == |Concat(resp.body[..i])|
      {
        assert resp.body[..i + 1][..i] == resp.body[..i];
        digested := digested + resp.body[i];
        file := file + resp.body[i];
        received := received + |resp.body[i]|;
        i := i + 1;
      }
      assert resp.body[..i] == resp.body;
      if resp.broken || (resp.contentLength.Some? && received != resp.contentLength.value) {
        return Failure(StreamAborted);
      }
      if (offset == 0 || hasPrefix || resp.status == 200) && sha(digested) != expected {
        return Failure(IntegrityMismatch);
      }
      r := Success(file);
    }

    // Streams a response into a staging file. A failed download removes the file again; a removal
    // that is refused is passed over, and the file stays with whatever was written to it.
    method Download(expected: nat, offset: nat, partialFile: Option<Bytes>, resp: Response, f: Faults)
      returns (r: Result<(nat, nat), TransferError>)
      requires Valid()
      modifies this`staging, this`nextPath
      ensures Valid() && nextPath == old(nextPath) + 1
      ensures match Received(sha, expected, offset, partialFile, resp, f)
        case Success(bytes) => r == Success((old(nextPath), sha(bytes))) && staging == old(staging)[old(nextPath) := bytes]
        case Failure(e) =>
          && r == Failure(e) && OnlyNew(old(staging), staging, old(nextPath))
          && (staging == old(staging) <==> !(Opens(offset, partialFile, resp) && f.cleanupHeld))
    {
      var path := nextPath;
      nextPath := nextPath + 1;
      var received := Receive(expected, offset, partialFile, resp);
      var begun := (offset > 0 && partialFile.Some? && |partialFile.value| == offset) || resp.status == 200 || resp.status == 206;
      if f.unwritable && begun {
        received := Failure(StreamAborted);
      }
      if received.Success? {
        staging := staging[path := received.value];
        return Success((path, sha(received.value)));
      }
      if begun {
        var remnant: Bytes := *;
        staging := staging[path := remnant];
        var removed := Unlink(path, f.cleanupHeld);
        assert removed ==> staging == old(staging);
        assert !removed ==> path in staging && path !in old(staging);
      }
      r := Failure(received.error);
    }

    // Re-hashes a staged file and renames it into place, or removes it.
    method CommitStagedFile(path: nat, expected: nat, f: Faults) returns (r: Result<bool, TransferError>)
      requires Valid()
      modifies this`objects, this`staging
      ensures Valid()
      ensures r == if path in old(staging) then Committed(sha, old(objects), old(staging)[path], expected, f) else Success(false)
      ensures staging == if r.Failure? then old(staging) else old(staging) - {path}
      ensures objects == if r == Success(true) && expected !in old(objects) then old(objects)[expected := old(staging)[path]] else old(objects)
      ensures r == Success(true) ==> path in old(staging) && sha(old(staging)[path]) == expected && expected in objects
    {
      if path !in staging {
        assert staging - {path} == staging;
        return Success(false);
      }
      var data := staging[path];
      if f.unreadable || sha(data) != expected {
        var removed := Unlink(path, f.discardHeld);
        return if removed then Success(false) else Failure(FileError);
      }
      if expected in objects {
        var removed := Unlink(path, f.discardHeld);
        if removed {
          return Success(true);
        }
        removed := Unlink(path, f.retryHeld);
        return if removed then Success(false) else Failure(FileError);
      }
      if f.immovable {
        var removed := Unlink(path, f.discardHeld);
        return if removed then Success(false) else Failure(FileError);
      }
      objects := objects[expected := data];
      staging := staging - {path};
      r := Success(true);
    }

    // Download, verify and commit from one source; whatever fails, the staged file is removed if
    // the file system lets it.
    method TransferFromCandidate(expected: nat, resp: Response, f: Faults) returns (success: bool)
      requires Valid()
      modifies this
      ensures Valid() && nextPath >= old(nextPath) && OnlyNew(old(staging), staging, old(nextPath))
      ensures success <==> expected in old(objects) || Delivers(sha, expected, resp, f)
      ensures success ==> expected in objects
      ensures objects == if success && expected !in old(objects) then old(objects)[expected := Concat(resp.body)] else old(objects)
      ensures staging == old(staging) <==> expected in old(objects) || !LeavesFile(sha, expected, resp, f)
    {
      if expected in objects {
        return true;
      }
      AcceptedFromStartIff(sha, expected, None, resp);
      var downloaded := Download(expected, 0, None, resp, f);
      if downloaded.Failure? {
        return false;
      }
      var path := downloaded.value.0;
      var committed := CommitStagedFile(path, expected, f);
      success := committed == Success(true);
      if committed.Failure? {
        var removed := Unlink(path, f.finalHeld);
        assert path !in old(staging) && (removed <==> path !in staging);
      }
      assert path !in staging ==> staging == old(staging);
    }

    // Tries the sources in order, each with the faults that meet it. None stands for the exhaustion error.
    method TransferWithFailover(expected: nat, sources: seq<(Response, Faults)>) returns (source: Option<Source>)
      requires Valid()
      modifies this
      ensures Valid() && nextPath >= old(nextPath) && OnlyNew(old(staging), staging, old(nextPath))
      ensures source.Some? ==> expected in objects
      ensures source.None? ==> objects == old(objects) && expected !in objects
      ensures forall h :: h in old(objects) ==> h in objects && objects[h] == old(objects)[h]
      ensures source == Some(Local) <==> expected in old(objects)
      ensures source.Some? && source.value.Peer? ==> FirstToDeliver(sha, expected, sources, source.value.index)
      ensures source.Some? && source.value.Peer? ==>
        objects == old(objects)[expected := Concat(sources[source.value.index].0.body)]
      ensures forall j :: 0 <= j < |sources| && sources[j].1 == NO_FAULTS && Works(sha, expected, sources[j].0) ==> source.Some?
      ensures source.None? ==> NoneDelivers(sha, expected, sources, |sources|)
      ensures staging == old(staging) <==> NoneLeaves(sha, expected, sources, Tried(source, |sources|))
    {
      if expected in objects {
        return Some(Local);
      }
      var i := 0;
      while i < |sources|
        invariant 0 <= i <= |sources|
        invariant Valid() && objects == old(objects) && nextPath >= old(nextPath)
        invariant OnlyNew(old(staging), staging, old(nextPath))
        invariant NoneDelivers(sha, expected, sources, i)
        invariant staging == old(staging) <==> NoneLeaves(sha, expected, sources, i)
      {
        ghost var before := staging;
        var success := TransferFromCandidate(expected, sources[i].0, sources[i].1);
        StaysLeft(old(staging), before, staging, old(nextPath));
        OneMoreSource(sha, expected, sources, i);
        if success {
          return Some(Peer(i));
        }
        i := i + 1;
      }
      source := None;
    }

    method DeleteAsset(h: nat, held: bool) returns (deleted: bool)
      requires Valid()
      modifies this`objects
      ensures Valid()
      ensures deleted <==> h in old(objects) && !held
      ensures objects == if deleted then old(objects) - {h} else old(objects)
    {
      if h !in objects || held {
        return false;
      }
      objects := objects - {h};
      deleted := true;
    }

    // In-memory data is staged and committed like a download. A staging file that cannot be
    // written completely is left behind.
    method StoreBytes(data: Bytes, f: Faults) returns (h: Option<nat>)
      requires Valid()
      modifies this
      ensures Valid() && nextPath >= old(nextPath) && OnlyNew(old(staging), staging, old(nextPath))
      ensures h == if f.unwritable || f.unreadable || (if sha(data) in old(objects) then f.discardHeld else f.immovable) then None else Some(sha(data))
      ensures h.Some? ==> objects == if h.value in old(objects) then old(objects) else old(objects)[h.value := data]
      ensures h.None? ==> objects == old(objects)
      ensures forall k :: k in old(objects) ==> k in objects && objects[k] == old(objects)[k]
      ensures staging == old(staging) <==> !StoreLeavesFile(sha, old(objects), data, f)
    {
      var path := nextPath;
      nextPath := nextPath + 1;
      if f.unwritable {
        var remnant: Bytes := *;
        staging := staging[path := remnant];
        assert path in staging && path !in old(staging);
        return None;
      }
      staging := staging[path := data];
      var committed := CommitStagedFile(path, sha(data), f);
      assert path in staging <==> committed.Failure?;
      assert path !in staging ==> staging == old(staging);
      h := if committed == Success(true) then Some(sha(data)) else None;
    }

    // Any run of operations keeps every object under its own digest, and no operation but its own
    // deletion takes an object away or changes it.
    method RunHistory(ops: seq<Op>)
      requires Valid()
      modifies this
      ensures Valid()
      ensures forall h :: h in old(objects) && !Deletes(ops, h) ==> h in objects && objects[h] == old(objects)[h]
      ensures (forall op :: op in ops ==> Tidy(op)) ==> staging == old(staging)
    {
      for i := 0 to |ops|
        invariant Valid()
        invariant forall h :: h in old(objects) && !Deletes(ops[..i], h) ==> h in objects && objects[h] == old(objects)[h]
        invariant (forall op :: op in ops[..i] ==> Tidy(op)) ==> staging == old(staging)
      {
        assert ops[..i + 1] == ops[..i] + [ops[i]];
        RunOne(ops[i]);
      }
      assert ops[..|ops|] == ops;
    }

    method RunOne(op: Op)
      requires Valid()
      modifies this
      ensures Valid()
      ensures forall h :: h in old(objects) && !(op.Delete? && op.hash == h) ==> h in objects && objects[h] == old(objects)[h]
      ensures Tidy(op) ==> staging == old(staging)
    {
      match op {
        case Fetch(expected, offset, partialFile, resp, f) => var _ := Download(expected, offset, partialFile, resp, f);
        case Commit(path, expected, f) => var _ := CommitStagedFile(path, expected, f);
        case Failover(expected, sources) => var _ := TransferWithFailover(expected, sources);
        case Save(data, f) => var _ := StoreBytes(data, f);
        case Delete(h, held) => var _ := DeleteAsset(h, held);
      }
    }
  }

  datatype Op =
    | Fetch(expected: nat, offset: nat, partialFile: Option<Bytes>, resp: Response, faults: Faults)
    | Commit(path: nat, expected: nat, faults: Faults)
    | Failover(expected: nat, sources: seq<(Response, Faults)>)
    | Save(data: Bytes, faults: Faults)
    | Delete(hash: nat, held: bool)

  predicate Deletes(ops: seq<Op>, h: nat) {
    exists op :: op in ops && op.Delete? && op.hash == h
  }

  // An operation that begins and ends its own staging file, without faults.
  predicate Tidy(op: Op) {
    match op
    case Fetch(_, _, _, _, _) => false
    case Commit(_, _, _) => false
    case Failover(_, sources) => forall j :: 0 <= j < |sources| ==> sources[j].1 == NO_FAULTS
    case Save(_, f) => f == NO_FAULTS
    case Delete(_, _) => true
  }

  // A file that is left behind stays.
  lemma StaysLeft(first: map<nat, Bytes>, before: map<nat, Bytes>, after: map<nat, Bytes>, name: nat)
    requires OnlyNew(first, before, name) && exists next :: next >= name && OnlyNew(before, after, next)
    ensures OnlyNew(first, after, name)
    ensures after == first <==> before == first && after == before
  {
    if forall p :: p in before ==> p in first {
      NoneAdded(first, before, name);
    } else {
      var p :| p in before && p !in first;
      assert p in after;
    }
  }

  lemma NoneAdded(first: map<nat, Bytes>, before: map<nat, Bytes>, name: nat)
    requires OnlyNew(first, before, name) && forall p :: p in before ==> p in first
    ensures before == first
  {
  }

  datatype Source = Local | Peer(index: nat)

  // The sources a failover has gone through.
  function Tried(source: Option<Source>, n: nat): nat {
    match source
    case None => n
    case Some(Local) => 0
    case Some(Peer(i)) => i + 1
  }

  // None of the first n sources delivers; none of them leaves a file.
  predicate NoneDelivers(sha: Bytes -> nat, expected: nat, sources: seq<(Response, Faults)>, n: nat) {
    forall j :: 0 <= j < n && j < |sources| ==> !Delivers(sha, expected, sources[j].0, sources[j].1)
  }

  predicate NoneLeaves(sha: Bytes -> nat, expected: nat, sources: seq<(Response, Faults)>, n: nat) {
    forall j :: 0 <= j < n && j < |sources| ==> !LeavesFile(sha, expected, sources[j].0, sources[j].1)
  }

  lemma OneMoreSource(sha: Bytes -> nat, expected: nat, sources: seq<(Response, Faults)>, i: nat)
    requires i < |sources|
    ensures NoneDelivers(sha, expected, sources, i + 1) <==>
      NoneDelivers(sha, expected, sources, i) && !Delivers(sha, expected, sources[i].0, sources[i].1)
    ensures NoneLeaves(sha, expected, sources, i + 1) <==>
      NoneLeaves(sha, expected, sources, i) && !LeavesFile(sha, expected, sources[i].0, sources[i].1)
  {
  }

  predicate FirstToDeliver(sha: Bytes -> nat, expected: nat, sources: seq<(Response, Faults)>, i: nat) {
    i < |sources| && Delivers(sha, expected, sources[i].0, sources[i].1) && NoneDelivers(sha, expected, sources, i)
  }
}
