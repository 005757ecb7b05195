/** The publisher-key set of one organisation (src/routes/keys.rs) and the
    signature check that relies on it (src/signing.rs). */
module PublisherKeys {
  import opened Prelude

  const MAX_KEYS_PER_ORG: nat := 8

  datatype KeyState = Active | Retired | Revoked

  datatype Key = Key(
    keyId: string, algorithm: string, material: string, state: KeyState, revokedReason: Option<string>)

  /** A `publisher_key` row; `state` is the stored text. */
  datatype KeyRow = KeyRow(
    keyId: string, algorithm: string, material: string, state: string, revokedReason: Option<string>,
    enrolledAt: int)

  datatype PutError = TooManyKeys | InvalidKey | KeyRemoved | KeyRebind | KeyUnrevoke

  function StateName(state: KeyState): string {
    match state
    case Active => "active"
    case Retired => "retired"
    case Revoked => "revoked"
  }

  /** An unrecognised stored state is read as revoked. */
  function ReadState(name: string): KeyState {
    if name == "active" then Active else if name == "retired" then Retired else Revoked
  }

  lemma StateNameReadsBack(state: KeyState)
    ensures ReadState(StateName(state)) == state
  {
    assert StateName(Active)[0] == 'a' && StateName(Retired)[2] == 't' && StateName(Revoked)[2] == 'v';
  }

  function RowToKey(row: KeyRow): Key {
    Key(row.keyId, row.algorithm, row.material, ReadState(row.state), row.revokedReason)
  }

  function LoadKeys(rows: seq<KeyRow>): (keys: seq<Key>)
    ensures |keys| == |rows| && forall i :: 0 <= i < |rows| ==> keys[i] == RowToKey(rows[i])
  {
    seq(|rows|, i requires 0 <= i < |rows| => RowToKey(rows[i]))
  }

  /** Unique index on (org_id, key_id). */
  ghost predicate DistinctRows(rows: seq<KeyRow>) {
    forall i, j :: 0 <= i < j < |rows| ==> rows[i].keyId != rows[j].keyId
  }

  ghost predicate DistinctIds(request: seq<Key>) {
    forall i, j :: 0 <= i < j < |request| ==> request[i].keyId != request[j].keyId
  }

  function First(request: seq<Key>, id: string): Option<Key> {
    if request == [] then None
    else if request[0].keyId == id then Some(request[0])
    else First(request[1..], id)
  }

  function Last(request: seq<Key>, id: string): Option<Key> {
    if request == [] then None
    else
      var later := Last(request[1..], id);
      if later.Some? then later else if request[0].keyId == id then Some(request[0]) else None
  }

  function Lookup(rows: seq<KeyRow>, id: string): Option<KeyRow> {
    if rows == [] then None
    else if rows[0].keyId == id then Some(rows[0])
    else Lookup(rows[1..], id)
  }

  // ---- Admission ----

  /** Why one enrolled key refuses the submitted set. */
  function Objection(previous: Key, request: seq<Key>): Option<PutError> {
    var submitted := First(request, previous.keyId);
    if submitted.None? then Some(KeyRemoved)
    else if submitted.value.material != previous.material then Some(KeyRebind)
    else if previous.state == Revoked && submitted.value.state != Revoked then Some(KeyUnrevoke)
    else None
  }

  function FirstObjection(existing: seq<Key>, request: seq<Key>): Option<PutError> {
    if existing == [] then None
    else
      var objection := Objection(existing[0], request);
      if objection.Some? then objection else FirstObjection(existing[1..], request)
  }

  function Refusal(valid: Key -> bool, rows: seq<KeyRow>, request: seq<Key>): Option<PutError> {
    if |request| > MAX_KEYS_PER_ORG then Some(TooManyKeys)
    else if exists i :: 0 <= i < |request| && !valid(request[i]) then Some(InvalidKey)
    else FirstObjection(LoadKeys(rows), request)
  }

  // ---- Application ----

  /** Update an enrolled row's state, or enroll a new row. */
  function Apply(rows: seq<KeyRow>, key: Key, now: int): seq<KeyRow> {
    if rows == [] then
      [KeyRow(key.keyId, key.algorithm, key.material, StateName(key.state), key.revokedReason, now)]
    else if rows[0].keyId == key.keyId then
      [rows[0].(state := StateName(key.state), revokedReason := key.revokedReason)] + rows[1..]
    else
      [rows[0]] + Apply(rows[1..], key, now)
  }

  function ApplyAll(rows: seq<KeyRow>, request: seq<Key>, now: int): seq<KeyRow>
    decreases |request|
  {
    if request == [] then rows else ApplyAll(Apply(rows, request[0], now), request[1..], now)
  }

  function PutOutcome(valid: Key -> bool, rows: seq<KeyRow>, request: seq<Key>, now: int)
    : (seq<KeyRow>, Option<PutError>)
  {
    var refusal := Refusal(valid, rows, request);
    if refusal.Some? then (rows, refusal) else (ApplyAll(rows, request, now), None)
  }

  class KeyRing {
    var rows: seq<KeyRow>

    constructor ()
      ensures rows == []
    {
      rows := [];
    }

    /** `put_keys`, once authorised: check the whole set, then apply it in one
        transaction. */
    method PutKeys(valid: Key -> bool, request: seq<Key>, now: int) returns (error: Option<PutError>)
      modifies this
      ensures (rows, error) == PutOutcome(valid, old(rows), request, now)
    {
      if |request| > MAX_KEYS_PER_ORG {
        return Some(TooManyKeys);
      }
      var i := 0;
      while i < |request|
        invariant 0 <= i <= |request|
        invariant forall j :: 0 <= j < i ==> valid(request[j])
      {
        if !valid(request[i]) {
          return Some(InvalidKey);
        }
        i := i + 1;
      }
      var existing := LoadKeys(rows);
      i := 0;
      while i < |existing|
        invariant 0 <= i <= |existing|
        invariant FirstObjection(existing, request) == FirstObjection(existing[i..], request)
      {
        assert existing[i..][1..] == existing[i + 1..];
        var objection := Objection(existing[i], request);
        if objection.Some? {
          return objection;
        }
        i := i + 1;
      }
      i := 0;
      while i < |request|
        invariant 0 <= i <= |request|
        invariant ApplyAll(rows, request[i..], now) == ApplyAll(old(rows), request, now)
      {
        assert request[i..][1..] == request[i + 1..];
        rows := Apply(rows, request[i], now);
        i := i + 1;
      }
      return None;
    }
  }

  // ---- What one accepted request does ----

  lemma {:induction false} ApplyLookup(rows: seq<KeyRow>, key: Key, now: int, id: string)
    ensures
      var before, after := Lookup(rows, id), Lookup(Apply(rows, key, now), id);
      if key.keyId != id then after == before
      else if before.Some? then after == Some(before.value.(state := StateName(key.state), revokedReason := key.revokedReason))
      else after == Some(KeyRow(key.keyId, key.algorithm, key.material, StateName(key.state), key.revokedReason, now))
  {
    if rows != [] && rows[0].keyId != key.keyId {
      ApplyLookup(rows[1..], key, now, id);
      assert Apply(rows, key, now)[1..] == Apply(rows[1..], key, now);
    } else if rows != [] {
      assert Apply(rows, key, now)[1..] == rows[1..];
    }
  }

  /** A key's row after the request: old key material if it was enrolled, and
      the state of its last submission. */
  lemma {:induction false} ApplyAllLookup(rows: seq<KeyRow>, request: seq<Key>, now: int, id: string)
    ensures
      var before, after, last := Lookup(rows, id), Lookup(ApplyAll(rows, request, now), id), Last(request, id);
      && (after.Some? <==> before.Some? || last.Some?)
      && (before.Some? ==> after.value.material == before.value.material && after.value.algorithm == before.value.algorithm)
      && (last.Some? ==> after.value.state == StateName(last.value.state))
      && (last.None? ==> after == before)
    decreases |request|
  {
    if request != [] {
      ApplyLookup(rows, request[0], now, id);
      ApplyAllLookup(Apply(rows, request[0], now), request[1..], now, id);
    }
  }

  lemma {:induction false} FirstAndLast(request: seq<Key>, id: string)
    ensures First(request, id).Some? <==> Last(request, id).Some?
    ensures First(request, id).Some? <==> exists i :: 0 <= i < |request| && request[i].keyId == id
    ensures DistinctIds(request) ==> First(request, id) == Last(request, id)
  {
    if request != [] {
      FirstAndLast(request[1..], id);
      if request[0].keyId == id && Last(request[1..], id).Some? {
        var i :| 0 <= i < |request[1..]| && request[1..][i].keyId == id;
        assert request[i + 1].keyId == request[0].keyId;
      } else if request[0].keyId != id && First(request[1..], id).Some? {
        var i :| 0 <= i < |request[1..]| && request[1..][i].keyId == id;
        assert request[i + 1].keyId == id;
      }
    }
  }

  lemma {:induction false} NoObjection(existing: seq<Key>, request: seq<Key>, i: nat)
    requires FirstObjection(existing, request) == None && i < |existing|
    ensures Objection(existing[i], request) == None
  {
    if i > 0 {
      NoObjection(existing[1..], request, i - 1);
    }
  }

  lemma {:induction false} LookupFinds(rows: seq<KeyRow>, id: string) returns (i: nat)
    requires Lookup(rows, id).Some?
    ensures i < |rows| && rows[i] == Lookup(rows, id).value && rows[i].keyId == id
  {
    if rows[0].keyId == id {
      i := 0;
    } else {
      i := LookupFinds(rows[1..], id);
      i := i + 1;
    }
  }

  predicate IsRevoked(row: KeyRow) {
    ReadState(row.state) == Revoked
  }

  lemma AcceptedSubmits(valid: Key -> bool, rows: seq<KeyRow>, request: seq<Key>, id: string)
    requires Refusal(valid, rows, request).None? && Lookup(rows, id).Some?
    ensures First(request, id).Some? && Last(request, id).Some?
    ensures First(request, id).value.material == Lookup(rows, id).value.material
    ensures IsRevoked(Lookup(rows, id).value) ==> First(request, id).value.state == Revoked
  {
    var i := LookupFinds(rows, id);
    NoObjection(LoadKeys(rows), request, i);
    FirstAndLast(request, id);
  }

  /** Any accepted request, even one repeating an id: an enrolled key is never
      lost and never rebound. */
  lemma AcceptedKeepsMaterial(valid: Key -> bool, rows: seq<KeyRow>, request: seq<Key>, now: int, id: string)
    requires Lookup(rows, id).Some?
    ensures
      var after := Lookup(PutOutcome(valid, rows, request, now).0, id);
      after.Some? && after.value.material == Lookup(rows, id).value.material
  {
    ApplyAllLookup(rows, request, now, id);
  }

  /** A revoked key stays revoked exactly when the request's last entry under
      its id says so; the admission check looks at the first entry only. */
  lemma RevocationSurvivesIff(valid: Key -> bool, rows: seq<KeyRow>, request: seq<Key>, now: int, id: string)
    requires Refusal(valid, rows, request).None?
    requires Lookup(rows, id).Some? && IsRevoked(Lookup(rows, id).value)
    ensures Last(request, id).Some? && Lookup(PutOutcome(valid, rows, request, now).0, id).Some?
    ensures IsRevoked(Lookup(PutOutcome(valid, rows, request, now).0, id).value)
       <==> Last(request, id).value.state == Revoked
  {
    AcceptedSubmits(valid, rows, request, id);
    ApplyAllLookup(rows, request, now, id);
    StateNameReadsBack(Last(request, id).value.state);
  }

  /** With distinct key ids in the request, revocation is final. */
  lemma DistinctRequestKeepsRevocation(valid: Key -> bool, rows: seq<KeyRow>, request: seq<Key>, now: int, id: string)
    requires DistinctIds(request)
    requires Lookup(rows, id).Some? && IsRevoked(Lookup(rows, id).value)
    ensures
      var after := Lookup(PutOutcome(valid, rows, request, now).0, id);
      after.Some? && IsRevoked(after.value)
  {
    if Refusal(valid, rows, request).None? {
      AcceptedSubmits(valid, rows, request, id);
      FirstAndLast(request, id);
      RevocationSurvivesIff(valid, rows, request, now, id);
    }
  }

  /** Without distinct ids it is not: one request naming the revoked key twice,
      revoked and then active, is accepted and reinstates it. */
  lemma RepeatedIdReinstates(valid: Key -> bool, revoked: Key, now: int)
    requires revoked.state == Revoked && valid(revoked) && valid(revoked.(state := Active))
    ensures
      var row := KeyRow(revoked.keyId, revoked.algorithm, revoked.material, "revoked", revoked.revokedReason, 0);
      var (after, error) := PutOutcome(valid, [row], [revoked, revoked.(state := Active)], now);
      error.None? && Lookup(after, revoked.keyId).Some? && !IsRevoked(Lookup(after, revoked.keyId).value)
  {
    var id, active := revoked.keyId, revoked.(state := Active);
    var rows := [KeyRow(id, revoked.algorithm, revoked.material, "revoked", revoked.revokedReason, 0)];
    var request := [revoked, active];
    StateNameReadsBack(Revoked);
    var keys := LoadKeys(rows);
    assert keys[0] == revoked && keys[1..] == [];
    assert First(request, id) == Some(revoked);
    assert FirstObjection(keys, request) == FirstObjection([], request);
    assert request[1..] == [active] && [active][1..] == [];
    assert Last([active], id) == Some(active);
    RevocationSurvivesIff(valid, rows, request, now, id);
  }

  lemma {:induction false} ApplyKeepsDistinct(rows: seq<KeyRow>, key: Key, now: int)
    requires DistinctRows(rows)
    ensures DistinctRows(Apply(rows, key, now))
    ensures forall i :: 0 <= i < |Apply(rows, key, now)| ==>
              Apply(rows, key, now)[i].keyId == key.keyId || (exists j :: 0 <= j < |rows| && rows[j].keyId == Apply(rows, key, now)[i].keyId)
  {
    if rows != [] && rows[0].keyId != key.keyId {
      ApplyKeepsDistinct(rows[1..], key, now);
      var tail := Apply(rows[1..], key, now);
      forall i | 0 <= i < |tail|
        ensures tail[i].keyId == key.keyId || (exists j :: 1 <= j < |rows| && rows[j].keyId == tail[i].keyId)
      {
        if tail[i].keyId != key.keyId {
          var j :| 0 <= j < |rows[1..]| && rows[1..][j].keyId == tail[i].keyId;
          assert rows[j + 1].keyId == tail[i].keyId;
        }
      }
    }
  }

  lemma {:induction false} ApplyAllKeepsDistinct(rows: seq<KeyRow>, request: seq<Key>, now: int)
    requires DistinctRows(rows)
    ensures DistinctRows(ApplyAll(rows, request, now))
    decreases |request|
  {
    if request != [] {
      ApplyKeepsDistinct(rows, request[0], now);
      ApplyAllKeepsDistinct(Apply(rows, request[0], now), request[1..], now);
    }
  }

  lemma {:induction false} LookupOfDistinct(rows: seq<KeyRow>, i: nat)
    requires DistinctRows(rows) && i < |rows|
    ensures Lookup(rows, rows[i].keyId) == Some(rows[i])
  {
    if i > 0 {
      assert rows[0].keyId != rows[i].keyId;
      LookupOfDistinct(rows[1..], i - 1);
    }
  }

  function RowIds(rows: seq<KeyRow>): set<string> {
    set i | 0 <= i < |rows| :: rows[i].keyId
  }

  lemma {:induction false} DistinctIdCount(rows: seq<KeyRow>)
    requires DistinctRows(rows)
    ensures |RowIds(rows)| == |rows|
  {
    if rows != [] {
      var front, last := rows[..|rows| - 1], rows[|rows| - 1];
      DistinctIdCount(front);
      assert RowIds(rows) == RowIds(front) + {last.keyId};
      assert last.keyId !in RowIds(front);
    }
  }

  lemma {:induction false} RequestIdCount(request: seq<Key>)
    ensures |set i | 0 <= i < |request| :: request[i].keyId| <= |request|
  {
    if request != [] {
      var front, last := request[..|request| - 1], request[|request| - 1];
      RequestIdCount(front);
      assert (set i | 0 <= i < |request| :: request[i].keyId) == (set i | 0 <= i < |front| :: front[i].keyId) + {last.keyId};
    }
  }

  /** An org never holds more than eight keys, and never two under one id. */
  lemma AcceptedStaysSmall(valid: Key -> bool, rows: seq<KeyRow>, request: seq<Key>, now: int)
    requires DistinctRows(rows) && |rows| <= MAX_KEYS_PER_ORG
    ensures
      var after := PutOutcome(valid, rows, request, now).0;
      DistinctRows(after) && |after| <= MAX_KEYS_PER_ORG
  {
    var after := PutOutcome(valid, rows, request, now).0;
    if Refusal(valid, rows, request).None? {
      ApplyAllKeepsDistinct(rows, request, now);
      var ids := set i | 0 <= i < |request| :: request[i].keyId;
      forall i | 0 <= i < |after|
        ensures after[i].keyId in ids
      {
        var id := after[i].keyId;
        LookupOfDistinct(after, i);
        ApplyAllLookup(rows, request, now, id);
        if Lookup(rows, id).Some? {
          AcceptedSubmits(valid, rows, request, id);
        }
        FirstAndLast(request, id);
      }
      DistinctIdCount(after);
      RequestIdCount(request);
      assert RowIds(after) <= ids;
      SubsetSize(RowIds(after), ids);
    }
  }

  // ---- Signatures ----

  datatype Signature = Signature(keyId: string, algorithm: string, bytes: Bytes)

  /** The cryptographic check against one key's material. */
  type VerifyOne = (Bytes, Signature, string) -> bool

  predicate Verifies(state: KeyState) {
    state != Revoked
  }

  function UsableKey(keys: seq<Key>, id: string): Option<Key> {
    if keys == [] then None
    else if Verifies(keys[0].state) && keys[0].keyId == id then Some(keys[0])
    else UsableKey(keys[1..], id)
  }

  predicate SignatureHolds(verifyOne: VerifyOne, algorithm: string, preimage: Bytes, signature: Signature, keys: seq<Key>) {
    && signature.algorithm == algorithm
    && var key := UsableKey(keys, signature.keyId);
       key.Some? && verifyOne(preimage, signature, key.value.material)
  }

  /** `verify_any`: the key behind the first signature that holds. */
  method VerifyAny(verifyOne: VerifyOne, algorithm: string, preimage: Bytes, signatures: seq<Signature>, keys: seq<Key>)
    returns (accepted: Option<Key>)
    ensures accepted.Some? <==>
              exists i :: 0 <= i < |signatures| && SignatureHolds(verifyOne, algorithm, preimage, signatures[i], keys)
    ensures accepted.Some? ==>
              exists i :: 0 <= i < |signatures| && SignatureHolds(verifyOne, algorithm, preimage, signatures[i], keys)
                && accepted == UsableKey(keys, signatures[i].keyId)
                && forall j :: 0 <= j < i ==> !SignatureHolds(verifyOne, algorithm, preimage, signatures[j], keys)
  {
    if signatures == [] {
      return None;
    }
    if keys == [] {
      return None;
    }
    var i := 0;
    while i < |signatures|
      invariant 0 <= i <= |signatures|
      invariant forall j :: 0 <= j < i ==> !SignatureHolds(verifyOne, algorithm, preimage, signatures[j], keys)
    {
      var signature := signatures[i];
      if signature.algorithm == algorithm {
        var key := UsableKey(keys, signature.keyId);
        if key.Some? && verifyOne(preimage, signature, key.value.material) {
          assert SignatureHolds(verifyOne, algorithm, preimage, signatures[i], keys);
          return key;
        }
      }
      i := i + 1;
    }
    return None;
  }

  // ---- Whole histories ----

  datatype Put = Put(request: seq<Key>, now: int)

  function Run(valid: Key -> bool, rows: seq<KeyRow>, puts: seq<Put>): seq<KeyRow>
    decreases |puts|
  {
    if puts == [] then rows
    else Run(valid, PutOutcome(valid, rows, puts[0].request, puts[0].now).0, puts[1..])
  }

  ghost predicate AllDistinct(puts: seq<Put>) {
    forall i :: 0 <= i < |puts| ==> DistinctIds(puts[i].request)
  }

  /** Over any run of requests, accepted or refused, each with distinct ids: a
      key once enrolled keeps its material for ever, stays revoked once
      revoked, and the org never holds more than eight keys. */
  lemma {:induction false} KeyHistory(valid: Key -> bool, rows: seq<KeyRow>, puts: seq<Put>, id: string)
    requires DistinctRows(rows) && |rows| <= MAX_KEYS_PER_ORG && AllDistinct(puts)
    ensures DistinctRows(Run(valid, rows, puts)) && |Run(valid, rows, puts)| <= MAX_KEYS_PER_ORG
    ensures
      var before, after := Lookup(rows, id), Lookup(Run(valid, rows, puts), id);
      before.Some? ==>
        && after.Some?
        && after.value.material == before.value.material
        && (IsRevoked(before.value) ==> IsRevoked(after.value))
    decreases |puts|
  {
    if puts != [] {
      var put := puts[0];
      assert DistinctIds(put.request);
      AcceptedStaysSmall(valid, rows, put.request, put.now);
      if Lookup(rows, id).Some? {
        AcceptedKeepsMaterial(valid, rows, put.request, put.now, id);
        if IsRevoked(Lookup(rows, id).value) {
          DistinctRequestKeepsRevocation(valid, rows, put.request, put.now, id);
        }
      }
      KeyHistory(valid, PutOutcome(valid, rows, put.request, put.now).0, puts[1..], id);
    }
  }

  lemma {:induction false} UsableIsUnrevokedRow(rows: seq<KeyRow>, id: string)
    requires DistinctRows(rows)
    ensures UsableKey(LoadKeys(rows), id)
         == if Lookup(rows, id).Some? && !IsRevoked(Lookup(rows, id).value) then Some(RowToKey(Lookup(rows, id).value)) else None
  {
    if rows != [] {
      assert LoadKeys(rows)[1..] == LoadKeys(rows[1..]);
      UsableIsUnrevokedRow(rows[1..], id);
      if rows[0].keyId == id && Lookup(rows[1..], id).Some? {
        var i := LookupFinds(rows[1..], id);
        assert false;
      }
    }
  }

  /** A signature that held keeps holding, over any later history of distinct-id
      requests, exactly until its key is revoked. */
  lemma AcceptedUntilRevoked(
    verifyOne: VerifyOne, algorithm: string, preimage: Bytes, signature: Signature,
    valid: Key -> bool, rows: seq<KeyRow>, puts: seq<Put>)
    requires DistinctRows(rows) && |rows| <= MAX_KEYS_PER_ORG && AllDistinct(puts)
    requires SignatureHolds(verifyOne, algorithm, preimage, signature, LoadKeys(rows))
    ensures
      var later := Run(valid, rows, puts);
      && Lookup(later, signature.keyId).Some?
      && (SignatureHolds(verifyOne, algorithm, preimage, signature, LoadKeys(later))
          <==> !IsRevoked(Lookup(later, signature.keyId).value))
  {
    KeyHistory(valid, rows, puts, signature.keyId);
    UsableIsUnrevokedRow(rows, signature.keyId);
    UsableIsUnrevokedRow(Run(valid, rows, puts), signature.keyId);
  }
}
