/** The in-memory artifact store (src/storage.rs): write-once, bounded, and the
    bounded hashing read that decides whether a stored object is the expected
    one. */
module ArtifactStore {
  import opened Prelude

  type Digest = Bytes -> string

  type Objects = map<string, Bytes>

  datatype PutError = MalformedDigest | DifferentContent | CapacityExceeded

  function ArtifactKey(sha256: string, extension: string): string {
    "artifacts/" + sha256 + "." + extension
  }

  predicate IsLowerHex64(s: string) {
    |s| == 64 && forall i :: 0 <= i < |s| ==> '0' <= s[i] <= '9' || 'a' <= s[i] <= 'f'
  }

  /** Where the parts of a key stand: the digest names the object. */
  lemma KeyIsAddressed(sha256: string, extension: string)
    requires IsLowerHex64(sha256)
    ensures
      var key := ArtifactKey(sha256, extension);
      |key| == 75 + |extension| && key[..10] == "artifacts/" && key[10..74] == sha256 && key[74] == '.' && key[75..] == extension
  {
    var key := ArtifactKey(sha256, extension);
    assert key == "artifacts/" + (sha256 + ("." + extension));
    assert key[10..] == sha256 + ("." + extension);
    assert key[10..74] == key[10..][..64];
    assert key[74..] == key[10..][64..] == "." + extension;
    assert key[75..] == key[74..][1..];
  }

  /** Objects of different digests, or formats, never share a key. */
  lemma KeyDecides(sha256: string, extension: string, other: string, otherExtension: string)
    requires IsLowerHex64(sha256) && IsLowerHex64(other)
    ensures ArtifactKey(sha256, extension) == ArtifactKey(other, otherExtension) <==> sha256 == other && extension == otherExtension
  {
    hide ArtifactKey;
    KeyIsAddressed(sha256, extension);
    KeyIsAddressed(other, otherExtension);
  }

  /** The stored object is the expected one: same length, same digest. */
  predicate ObjectMatches(digest: Digest, stored: Bytes, len: nat, sha256: string) {
    |stored| == len && digest(stored) == sha256
  }

  // ---- Byte accounting ----

  ghost function TotalBytes(m: Objects): nat {
    if m == map[] then 0
    else
      var k :| k in m;
      |m[k]| + TotalBytes(m - {k})
  }

  lemma {:induction false} TotalBytesSplit(m: Objects, k: string)
    requires k in m
    ensures TotalBytes(m) == |m[k]| + TotalBytes(m - {k})
    decreases |m|
  {
    var x :| x in m && TotalBytes(m) == |m[x]| + TotalBytes(m - {x});
    if x != k {
      TotalBytesSplit(m - {x}, k);
      TotalBytesSplit(m - {k}, x);
      assert m - {x} - {k} == m - {k} - {x};
    }
  }

  lemma TotalBytesAdd(m: Objects, k: string, bytes: Bytes)
    requires k !in m
    ensures TotalBytes(m[k := bytes]) == TotalBytes(m) + |bytes|
  {
    TotalBytesSplit(m[k := bytes], k);
    assert m[k := bytes] - {k} == m;
  }

  /** The checked sum of every object's length; None on u64 overflow. */
  method RetainedBytes(objects: Objects) returns (total: Option<nat>)
    ensures total == if TotalBytes(objects) <= U64_MAX then Some(TotalBytes(objects)) else None
  {
    var sum: nat := 0;
    var rest := objects;
    while rest != map[]
      invariant sum + TotalBytes(rest) == TotalBytes(objects) && sum <= U64_MAX
      decreases |rest|
    {
      var k :| k in rest;
      TotalBytesSplit(rest, k);
      if sum + |rest[k]| > U64_MAX {
        return None;
      }
      sum := sum + |rest[k]|;
      rest := rest - {k};
    }
    return Some(sum);
  }

  /** The write-once outcome of a put: the objects afterwards and the verdict. */
  ghost function PutOutcome(objects: Objects, maxBytes: nat, key: string, bytes: Bytes, sha256: string)
    : (Objects, Result<(), PutError>)
  {
    if !IsLowerHex64(sha256) then (objects, Err(MalformedDigest))
    else if key in objects then
      (objects, if objects[key] == bytes then Ok(()) else Err(DifferentContent))
    else if TotalBytes(objects) + |bytes| > maxBytes then (objects, Err(CapacityExceeded))
    else (objects[key := bytes], Ok(()))
  }

  /** The process-memory backend. */
  class MemoryStore {
    const maxBytes: nat
    var objects: Objects

    ghost predicate Valid()
      reads this
    {
      maxBytes <= U64_MAX && TotalBytes(objects) <= maxBytes
    }

    constructor (maxBytes: nat)
      requires maxBytes <= U64_MAX
      ensures Valid() && objects == map[] && this.maxBytes == maxBytes
    {
      this.maxBytes := maxBytes;
      objects := map[];
    }

    /** Capacity accounting and insertion are one step under the write lock. */
    method PutVerified(key: string, bytes: Bytes, sha256: string) returns (result: Result<(), PutError>)
      requires Valid()
      modifies this
      ensures Valid()
      ensures (objects, result) == PutOutcome(old(objects), maxBytes, key, bytes, sha256)
    {
      if !IsLowerHex64(sha256) {
        return Err(MalformedDigest);
      }
      if key in objects {
        if objects[key] == bytes {
          return Ok(());
        }
        return Err(DifferentContent);
      }
      var retained := RetainedBytes(objects);
      if retained.None? || retained.value + |bytes| > U64_MAX || retained.value + |bytes| > maxBytes {
        return Err(CapacityExceeded);
      }
      TotalBytesAdd(objects, key, bytes);
      objects := objects[key := bytes];
      return Ok(());
    }
  }

  /** Which answer a put gets, in terms of the digest's characters, the object
      under the key, and the room left. */
  lemma PutAnswers(objects: Objects, maxBytes: nat, key: string, bytes: Bytes, sha256: string)
    ensures
      var (after, result) := PutOutcome(objects, maxBytes, key, bytes, sha256);
      var wellFormed := |sha256| == 64 && forall c :: c in sha256 ==> c in "0123456789abcdef";
      var fits := (if key in objects then 0 else TotalBytes(objects) + |bytes|) <= maxBytes;
      && (result == Err(MalformedDigest) <==> !wellFormed)
      && (result == Err(DifferentContent) <==> wellFormed && key in objects && objects[key] != bytes)
      && (result == Err(CapacityExceeded) <==> wellFormed && !fits)
      && (result == Ok(()) <==> wellFormed && fits && (key in objects ==> objects[key] == bytes))
      && (result.Ok? ==> after == objects[key := bytes])
    ensures TotalBytes(map[]) == 0
  {
    HexDigits(sha256);
    if key in objects && objects[key] == bytes {
      assert objects[key := bytes] == objects;
    }
  }

  lemma HexDigits(s: string)
    ensures (forall i :: 0 <= i < |s| ==> '0' <= s[i] <= '9' || 'a' <= s[i] <= 'f') <==> forall c :: c in s ==> c in "0123456789abcdef"
  {
    forall c: char
      ensures c in "0123456789abcdef" <==> '0' <= c <= '9' || 'a' <= c <= 'f'
    {
      HexDigit(c);
    }
    assert forall i :: 0 <= i < |s| ==> s[i] in s;
  }

  lemma HexDigit(c: char)
    ensures c in "0123456789abcdef" <==> '0' <= c <= '9' || 'a' <= c <= 'f'
  {
    var digits := "0123456789abcdef";
    if '0' <= c <= '9' {
      assert digits[c as int - '0' as int] == c;
    } else if 'a' <= c <= 'f' {
      assert digits[c as int - 'a' as int + 10] == c;
    }
  }

  /** A key's bytes never change once visible; a successful put makes exactly
      its own bytes visible, a failed one changes nothing; repeating a
      successful put succeeds and changes nothing. */
  lemma PutIsWriteOnce(objects: Objects, maxBytes: nat, key: string, bytes: Bytes, sha256: string)
    ensures
      var (after, result) := PutOutcome(objects, maxBytes, key, bytes, sha256);
      && (forall k :: k in objects ==> k in after && after[k] == objects[k])
      && after.Keys <= objects.Keys + {key}
      && (result.Ok? <==> IsLowerHex64(sha256) && key in after && after[key] == bytes)
      && (result.Err? ==> after == objects)
      && (result.Ok? ==> PutOutcome(after, maxBytes, key, bytes, sha256) == (after, Ok(())))
      && (TotalBytes(objects) <= maxBytes ==> TotalBytes(after) <= maxBytes)
  {
    if key !in objects {
      TotalBytesAdd(objects, key, bytes);
    }
  }

  // ---- Bounded verification of a stored object ----

  function Concat(chunks: seq<Bytes>): Bytes {
    if chunks == [] then [] else chunks[0] + Concat(chunks[1..])
  }

  /** `hash_async_reader` over the non-empty reads a source yields: it stops as
      soon as the source proves longer than expected. */
  method HashReader(digest: Digest, chunks: seq<Bytes>, expectedLen: nat) returns (len: nat, sha256: string)
    ensures |Concat(chunks)| <= expectedLen ==> len == |Concat(chunks)| && sha256 == digest(Concat(chunks))
    ensures |Concat(chunks)| > expectedLen ==> len > expectedLen && sha256 == ""
  {
    len := 0;
    var hashed: Bytes := [];
    var i := 0;
    while i < |chunks|
      invariant 0 <= i <= |chunks|
      invariant Concat(chunks) == hashed + Concat(chunks[i..])
      invariant len == |hashed| <= expectedLen
    {
      assert chunks[i..][1..] == chunks[i + 1..];
      len := len + |chunks[i]|;
      if len > expectedLen {
        return len, "";
      }
      hashed := hashed + chunks[i];
      i := i + 1;
    }
    assert Concat(chunks) == hashed;
    return len, digest(hashed);
  }

  /** `local_object_matches` on an existing regular file: the length is checked
      before the bytes are read. */
  method LocalObjectMatches(digest: Digest, metadataLen: nat, chunks: seq<Bytes>, len: nat, sha256: string)
    returns (matches: bool)
    requires metadataLen == |Concat(chunks)|
    ensures matches <==> ObjectMatches(digest, Concat(chunks), len, sha256)
  {
    if metadataLen != len {
      return false;
    }
    var actual, actualSha := HashReader(digest, chunks, len);
    return actual == len && actualSha == sha256;
  }
}
