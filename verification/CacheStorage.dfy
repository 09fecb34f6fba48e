/** Content-addressed object files of the disk cache. */
module CacheStorage {
  import opened Wrappers

  type Bytes = seq<bv8>

  datatype CacheError = HashMismatch | StreamTooLarge | SizeMismatch | QuotaExceeded | LockedFile | InvalidTransition

  // What a stream delivers: its chunks up to the first empty read.
  function Content(chunks: seq<Bytes>): Bytes {
    if chunks == [] || chunks[0] == [] then [] else chunks[0] + Content(chunks[1..])
  }

  lemma {:induction false} ContentPrefix(chunks: seq<Bytes>, i: nat)
    requires i < |chunks| && forall j :: 0 <= j < i ==> chunks[j] != []
    ensures Content(chunks) == Content(chunks[..i]) + Content(chunks[i..])
    ensures chunks[i] != [] ==> Content(chunks[..i + 1]) == Content(chunks[..i]) + chunks[i]
    ensures chunks[i] == [] ==> Content(chunks) == Content(chunks[..i])
  {
    if i == 0 {
      assert chunks[..0] == [] && chunks[0..] == chunks && chunks[..1] == [chunks[0]];
    } else {
      ContentPrefix(chunks[1..], i - 1);
      assert chunks[..i][1..] == chunks[1..][..i - 1];
      assert chunks[..i + 1][1..] == chunks[1..][..i];
      assert chunks[1..][i - 1..] == chunks[i..];
    }
  }

  // The error a stream is refused with, if any: checks run in this order.
  function StreamVerdict(sha: Bytes -> nat, data: Bytes, expectedHash: Option<nat>, expectedSize: Option<nat>, maxBytes: Option<int>): Option<CacheError> {
    if maxBytes.Some? && data != [] && |data| > maxBytes.value then Some(StreamTooLarge)
    else if expectedHash.Some? && sha(data) != expectedHash.value then Some(HashMismatch)
    else if expectedSize.Some? && |data| != expectedSize.value then Some(SizeMismatch)
    else None
  }

  // Content that is as expected passes every check, and each refusal has its reason.
  lemma VerdictMeans(sha: Bytes -> nat, data: Bytes, expectedHash: Option<nat>, expectedSize: Option<nat>, maxBytes: Option<int>)
    ensures var v := StreamVerdict(sha, data, expectedHash, expectedSize, maxBytes);
      && (v == None <==> expectedHash in {None, Some(sha(data))} && expectedSize in {None, Some(|data|)}
                         && (maxBytes.Some? ==> |data| <= maxBytes.value || data == []))
      && (v == Some(StreamTooLarge) <==> maxBytes.Some? && maxBytes.value < |data| != 0)
      && (v == Some(HashMismatch) <==> v != Some(StreamTooLarge) && expectedHash !in {None, Some(sha(data))})
  {
  }

  // A stream without empty chunks delivers all of them, in order.
  lemma {:induction false} ContentOfAll(chunks: seq<Bytes>, more: seq<Bytes>)
    requires forall i :: 0 <= i < |chunks| ==> chunks[i] != []
    ensures Content(chunks + more) == Content(chunks) + Content(more)
    ensures Content(chunks + [[]] + more) == Content(chunks)
  {
    if chunks == [] {
      assert chunks + more == more && (chunks + [[]] + more)[0] == [];
    } else {
      ContentOfAll(chunks[1..], more);
      assert (chunks + more)[1..] == chunks[1..] + more;
      assert (chunks + [[]] + more)[1..] == chunks[1..] + [[]] + more;
    }
  }

  class ObjectStorage {
    const sha: Bytes -> nat
    const lockable: bool  // whether other processes may hold object files open
    var objects: map<nat, Bytes>

    constructor (sha: Bytes -> nat, lockable: bool)
      ensures this.sha == sha && this.lockable == lockable && objects == map[]
    {
      this.sha, this.lockable, objects := sha, lockable, map[];
    }

    // Every stored object hashes to its name.
    predicate Addressed()
      reads this
    {
      forall h :: h in objects ==> sha(objects[h]) == h
    }

    // Unlinking fails only on a file that is held open; then nothing changes.
    method Delete(h: nat) returns (r: Result<bool, CacheError>)
      modifies this
      ensures r.Failure? ==> lockable && h in old(objects) && objects == old(objects)
      ensures r.Success? ==> (r.value <==> h in old(objects)) && objects == old(objects) - {h}
    {
      if h !in objects {
        return Success(false);
      }
      var held: bool := *;
      if lockable && held {
        return Failure(LockedFile);
      }
      objects := objects - {h};
      r := Success(true);
    }

    // Reads a whole object back; the read can fail only while another process holds the file.
    method ComputeSha(h: nat) returns (digest: Option<nat>)
      requires h in objects
      ensures digest.Some? ==> digest.value == sha(objects[h])
      ensures !lockable ==> digest.Some?
    {
      var held: bool := *;
      digest := if lockable && held then None else Some(sha(objects[h]));
    }

    // Copies a stream to a staging file while hashing it, then checks the expectations.
    method StageStream(chunks: seq<Bytes>, expectedHash: Option<nat>, expectedSize: Option<nat>, maxBytes: Option<int>)
      returns (r: Result<Bytes, CacheError>)
      ensures var verdict := StreamVerdict(sha, Content(chunks), expectedHash, expectedSize, maxBytes);
        r == if verdict.Some? then Failure(verdict.value) else Success(Content(chunks))
    {
      var staged, digested: Bytes := [], [];
      var i := 0;
      while i < |chunks| && chunks[i] != []
        invariant 0 <= i <= |chunks| && forall j :: 0 <= j < i ==> chunks[j] != []
        invariant staged == digested == Content(chunks[..i])
        invariant maxBytes.Some? && staged != [] ==> |staged| <= maxBytes.value
      {
        ContentPrefix(chunks, i);
        if maxBytes.Some? && |staged| + |chunks[i]| > maxBytes.value {
          assert Content(chunks[i..]) == chunks[i] + Content(chunks[i..][1..]);
          return Failure(StreamTooLarge);
        }
        staged := staged + chunks[i];
        digested := digested + chunks[i];
        i := i + 1;
      }
      if i < |chunks| {
        ContentPrefix(chunks, i);
      } else {
        assert chunks[..i] == chunks;
      }
      if expectedHash.Some? && sha(digested) != expectedHash.value {
        return Failure(HashMismatch);
      }
      if expectedSize.Some? && |staged| != expectedSize.value {
        return Failure(SizeMismatch);
      }
      r := Success(staged);
    }

    // The atomic rename of a verified staging file onto its object path; it is refused only while
    // another process holds the old object open, and then nothing changes.
    method Install(data: Bytes) returns (r: Result<(), CacheError>)
      modifies this
      ensures r.Failure? ==> r.error == LockedFile && lockable && sha(data) in old(objects) && objects == old(objects)
      ensures r.Success? ==> objects == old(objects)[sha(data) := data]
      ensures old(Addressed()) ==> Addressed()
    {
      var held: bool := *;
      if lockable && held && sha(data) in objects {
        return Failure(LockedFile);
      }
      objects := objects[sha(data) := data];
      r := Success(());
    }

    // Reads a whole object; it can fail only while another process holds the file.
    method ReadBytes(h: nat) returns (r: Result<Bytes, CacheError>)
      requires h in objects
      ensures r.Failure? ==> r.error == LockedFile && lockable
      ensures r.Success? ==> r.value == objects[h]
    {
      var held: bool := *;
      r := if lockable && held then Failure(LockedFile) else Success(objects[h]);
    }
  }
}
