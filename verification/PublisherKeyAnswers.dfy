/** Which key updates are accepted, why the others are refused, and what an
    accepted one writes, in terms of the rows and the request alone
    (src/routes/keys.rs). */
module PublisherKeyAnswers {
  import opened Prelude
  import opened PublisherKeys

  // ---- States as stored ----

  /** Three texts are known; any other counts as revoked. */
  lemma StateTexts(name: string)
    ensures ReadState(name) == Active <==> name == "active"
    ensures ReadState(name) == Retired <==> name == "retired"
    ensures StateName(Active) == "active" && StateName(Retired) == "retired" && StateName(Revoked) == "revoked"
  {
    assert "active"[0] != "retired"[0];
  }

  // ---- Entries of a request ----

  predicate FirstAt(request: seq<Key>, id: string, j: int) {
    0 <= j < |request| && request[j].keyId == id && forall i :: 0 <= i < j ==> request[i].keyId != id
  }

  predicate LastAt(request: seq<Key>, id: string, j: int) {
    0 <= j < |request| && request[j].keyId == id && forall i :: j < i < |request| ==> request[i].keyId != id
  }

  predicate Names(request: seq<Key>, id: string) {
    exists i :: 0 <= i < |request| && request[i].keyId == id
  }

  lemma {:induction false} FirstIsAt(request: seq<Key>, id: string)
    ensures First(request, id).None? <==> !Names(request, id)
    ensures forall j :: FirstAt(request, id, j) ==> First(request, id) == Some(request[j])
    ensures First(request, id).Some? ==> exists j :: FirstAt(request, id, j)
  {
    if request != [] {
      var rest := request[1..];
      FirstIsAt(rest, id);
      assert forall i :: 1 <= i < |request| ==> request[i] == rest[i - 1];
      if request[0].keyId == id {
        assert FirstAt(request, id, 0);
      } else {
        forall j | FirstAt(request, id, j)
          ensures First(request, id) == Some(request[j])
        {
          assert FirstAt(rest, id, j - 1);
        }
        if Names(rest, id) {
          var i :| 0 <= i < |rest| && rest[i].keyId == id;
          assert request[i + 1].keyId == id;
          var j :| FirstAt(rest, id, j);
          assert FirstAt(request, id, j + 1);
        }
      }
    }
  }

  lemma {:induction false} LastIsAt(request: seq<Key>, id: string)
    ensures Last(request, id).None? <==> !Names(request, id)
    ensures forall j :: LastAt(request, id, j) ==> Last(request, id) == Some(request[j])
    ensures Last(request, id).Some? ==> exists j :: LastAt(request, id, j)
  {
    if request != [] {
      var rest := request[1..];
      LastIsAt(rest, id);
      assert forall i :: 1 <= i < |request| ==> request[i] == rest[i - 1];
      if Names(rest, id) {
        var i :| 0 <= i < |rest| && rest[i].keyId == id;
        assert request[i + 1].keyId == id;
        var j :| LastAt(rest, id, j);
        assert LastAt(request, id, j + 1);
      } else if request[0].keyId == id {
        assert LastAt(request, id, 0);
      }
      forall j | LastAt(request, id, j)
        ensures Last(request, id) == Some(request[j])
      {
        if j > 0 {
          assert LastAt(rest, id, j - 1);
        }
      }
    }
  }

  // ---- Acceptance ----

  /** The first entry under the row's id has its material and, if the row is
      revoked, says so too. */
  ghost predicate Keeps(row: KeyRow, request: seq<Key>) {
    exists j :: FirstAt(request, row.keyId, j) && request[j].material == row.material
                && (row.state != "active" && row.state != "retired" ==> request[j].state == Revoked)
  }

  /** Why a row that is not kept refuses the request. */
  ghost predicate RefusedFor(row: KeyRow, request: seq<Key>, error: PutError) {
    if !Names(request, row.keyId) then error == KeyRemoved
    else
      exists j :: FirstAt(request, row.keyId, j)
                  && error == if request[j].material != row.material then KeyRebind else KeyUnrevoke
  }

  lemma ObjectionMeans(row: KeyRow, request: seq<Key>)
    ensures Objection(RowToKey(row), request).None? <==> Keeps(row, request)
    ensures Objection(RowToKey(row), request).Some? ==> RefusedFor(row, request, Objection(RowToKey(row), request).value)
  {
    hide First, ReadState;
    FirstIsAt(request, row.keyId);
    StateTexts(row.state);
  }

  lemma {:induction false} FirstObjectionMeans(rows: seq<KeyRow>, request: seq<Key>)
    ensures FirstObjection(LoadKeys(rows), request).None? <==> forall r :: 0 <= r < |rows| ==> Keeps(rows[r], request)
    ensures forall r :: 0 <= r < |rows| && !Keeps(rows[r], request) && (forall q :: 0 <= q < r ==> Keeps(rows[q], request)) ==>
              FirstObjection(LoadKeys(rows), request).Some?
              && RefusedFor(rows[r], request, FirstObjection(LoadKeys(rows), request).value)
  {
    hide Objection, Keeps, RefusedFor;
    if rows != [] {
      var rest := rows[1..];
      ObjectionMeans(rows[0], request);
      FirstObjectionMeans(rest, request);
      assert LoadKeys(rows)[1..] == LoadKeys(rest);
      assert forall r :: 1 <= r < |rows| ==> rows[r] == rest[r - 1];
      forall r | 0 <= r < |rows| && !Keeps(rows[r], request) && (forall q :: 0 <= q < r ==> Keeps(rows[q], request))
        ensures FirstObjection(LoadKeys(rows), request).Some?
                && RefusedFor(rows[r], request, FirstObjection(LoadKeys(rows), request).value)
      {
        if r > 0 {
          assert Keeps(rows[0], request);
          assert forall q :: 0 <= q < r - 1 ==> rest[q] == rows[q + 1];
          assert !Keeps(rest[r - 1], request);
        }
      }
    }
  }

  /** A request is accepted exactly when it has at most eight entries, all valid,
      and keeps every enrolled row. Any change of state but away from revoked
      is accepted. */
  lemma AcceptedIff(valid: Key -> bool, rows: seq<KeyRow>, request: seq<Key>, now: int)
    ensures PutOutcome(valid, rows, request, now).1.None?
            <==> && |request| <= 8 && (forall i :: 0 <= i < |request| ==> valid(request[i]))
                 && (forall r :: 0 <= r < |rows| ==> Keeps(rows[r], request))
    ensures PutOutcome(valid, rows, request, now).1.Some? ==> PutOutcome(valid, rows, request, now).0 == rows
  {
    hide Keeps, FirstObjection, ApplyAll;
    FirstObjectionMeans(rows, request);
  }

  /** Which error each refused request gets: its size first, then its entries, then
      the first row it does not keep. */
  lemma RefusedBecause(valid: Key -> bool, rows: seq<KeyRow>, request: seq<Key>, now: int)
    ensures
      var error := PutOutcome(valid, rows, request, now).1;
      var sound := |request| <= 8 && forall i :: 0 <= i < |request| ==> valid(request[i]);
      && (error == Some(TooManyKeys) <==> |request| > 8)
      && (error == Some(InvalidKey) <==> |request| <= 8 && !sound)
      && (forall r :: sound && 0 <= r < |rows| && !Keeps(rows[r], request) && (forall q :: 0 <= q < r ==> Keeps(rows[q], request)) ==>
            error.Some? && RefusedFor(rows[r], request, error.value))
  {
    hide Keeps, RefusedFor, FirstObjection, ApplyAll;
    FirstObjectionMeans(rows, request);
    ObjectionsAreAboutRows(LoadKeys(rows), request);
  }

  lemma {:induction false} ObjectionsAreAboutRows(existing: seq<Key>, request: seq<Key>)
    ensures FirstObjection(existing, request) != Some(TooManyKeys) && FirstObjection(existing, request) != Some(InvalidKey)
  {
    if existing != [] {
      ObjectionsAreAboutRows(existing[1..], request);
    }
  }

  // ---- What is written ----

  lemma {:induction false} ApplyAllWrites(rows: seq<KeyRow>, request: seq<Key>, now: int, id: string)
    ensures
      var before, after := Lookup(rows, id), Lookup(ApplyAll(rows, request, now), id);
      var first, last := First(request, id), Last(request, id);
      && (after.Some? <==> before.Some? || last.Some?) && (first.Some? <==> last.Some?)
      && (last.None? ==> after == before)
      && (last.Some? ==> after.value.state == StateName(last.value.state) && after.value.revokedReason == last.value.revokedReason)
      && (before.Some? ==>
            after.value.keyId == before.value.keyId && after.value.algorithm == before.value.algorithm
            && after.value.material == before.value.material && after.value.enrolledAt == before.value.enrolledAt)
      && (before.None? && first.Some? ==>
            after.value.keyId == id && after.value.algorithm == first.value.algorithm
            && after.value.material == first.value.material && after.value.enrolledAt == now)
    decreases |request|
  {
    hide StateName, Apply, Lookup;
    FirstAndLast(request, id);
    if request != [] {
      FirstAndLast(request[1..], id);
      ApplyLookup(rows, request[0], now, id);
      ApplyAllWrites(Apply(rows, request[0], now), request[1..], now, id);
      FirstHasId(request, id);
    }
  }

  lemma {:induction false} FirstHasId(request: seq<Key>, id: string)
    ensures First(request, id).Some? ==> First(request, id).value.keyId == id
  {
    if request != [] {
      FirstHasId(request[1..], id);
    }
  }

  /** An accepted request leaves one row for each id enrolled or named. The last
      entry decides state and reason; an enrolled row keeps key, algorithm and
      time; a new one takes them from its first entry and the clock. */
  lemma AcceptedWrites(valid: Key -> bool, rows: seq<KeyRow>, request: seq<Key>, now: int, i: nat)
    requires DistinctRows(rows) && PutOutcome(valid, rows, request, now).1.None?
    requires i < |PutOutcome(valid, rows, request, now).0|
    ensures
      var after := PutOutcome(valid, rows, request, now).0[i];
      && (forall j :: LastAt(request, after.keyId, j) ==>
            && after.revokedReason == request[j].revokedReason
            && (after.state == "active" <==> request[j].state == Active)
            && (after.state == "retired" <==> request[j].state == Retired)
            && (after.state == "revoked" <==> request[j].state == Revoked))
      && (forall r :: 0 <= r < |rows| && rows[r].keyId == after.keyId ==>
            after.material == rows[r].material && after.algorithm == rows[r].algorithm && after.enrolledAt == rows[r].enrolledAt)
      && (forall j :: FirstAt(request, after.keyId, j) && (forall r :: 0 <= r < |rows| ==> rows[r].keyId != after.keyId) ==>
            after.material == request[j].material && after.algorithm == request[j].algorithm && after.enrolledAt == now)
  {
    hide FirstObjection, ApplyAll, First, Last, ReadState, StateName, Lookup;
    var all := PutOutcome(valid, rows, request, now).0;
    var id := all[i].keyId;
    ApplyAllKeepsDistinct(rows, request, now);
    LookupOfDistinct(all, i);
    ApplyAllWrites(rows, request, now, id);
    FirstIsAt(request, id);
    LastIsAt(request, id);
    StateTexts("");
    StatesDiffer();
    forall r | 0 <= r < |rows| && rows[r].keyId == id
      ensures Lookup(rows, id) == Some(rows[r])
    {
      LookupOfDistinct(rows, r);
    }
    if Lookup(rows, id).Some? {
      var r := LookupFinds(rows, id);
    }
  }

  lemma StatesDiffer()
    ensures "active" != "retired" && "active" != "revoked" && "retired" != "revoked"
  {
    assert "active"[0] != "retired"[0] && "retired"[2] != "revoked"[2];
  }

  /** No id is lost, and none appears from nowhere. */
  lemma AcceptedIds(valid: Key -> bool, rows: seq<KeyRow>, request: seq<Key>, now: int, id: string)
    requires PutOutcome(valid, rows, request, now).1.None?
    ensures
      var after := PutOutcome(valid, rows, request, now).0;
      (exists i :: 0 <= i < |after| && after[i].keyId == id)
      <==> (exists r :: 0 <= r < |rows| && rows[r].keyId == id) || Names(request, id)
  {
    hide FirstObjection, ApplyAll, First, Last;
    ApplyAllWrites(rows, request, now, id);
    LastIsAt(request, id);
    LookupIff(rows, id);
    LookupIff(ApplyAll(rows, request, now), id);
  }

  lemma {:induction false} LookupIff(rows: seq<KeyRow>, id: string)
    ensures Lookup(rows, id).Some? <==> exists r :: 0 <= r < |rows| && rows[r].keyId == id
  {
    if rows != [] {
      LookupIff(rows[1..], id);
      assert forall r :: 1 <= r < |rows| ==> rows[r] == rows[1..][r - 1];
      if Lookup(rows[1..], id).Some? {
        var r :| 0 <= r < |rows[1..]| && rows[1..][r].keyId == id;
        assert rows[r + 1].keyId == id;
      }
    }
  }

  // ---- Signatures ----

  /** A signature counts exactly if it is of the one algorithm and verifies under
      the material of an enrolled row of its id that is active or retired. */
  lemma HoldsIff(verifyOne: VerifyOne, algorithm: string, preimage: Bytes, signature: Signature, rows: seq<KeyRow>)
    requires DistinctRows(rows)
    ensures SignatureHolds(verifyOne, algorithm, preimage, signature, LoadKeys(rows))
            <==> signature.algorithm == algorithm
                 && exists r :: 0 <= r < |rows| && rows[r].keyId == signature.keyId
                      && rows[r].state in {"active", "retired"} && verifyOne(preimage, signature, rows[r].material)
  {
    hide LoadKeys, Lookup;
    UsableIsUnrevokedRow(rows, signature.keyId);
    LookupIff(rows, signature.keyId);
    if Lookup(rows, signature.keyId).Some? {
      var r := LookupFinds(rows, signature.keyId);
      StateTexts(rows[r].state);
    }
  }
}
