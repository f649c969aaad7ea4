/** The in-memory claim repository (`MemStorage`): a JavaScript `Map` from
    claim id to claim, kept in insertion order. */
module Storage {
  import opened Wrappers
  import opened Json
  import opened Schema
  import Text

  /** The claims in the map's iteration order; each is stored under its own id. */
  type Store = seq<Claim>

  /** No two entries share an id, as for the keys of a `Map`. */
  predicate WellFormed(s: Store)
  {
    forall i, j :: 0 <= i < j < |s| ==> s[i].id != s[j].id
  }

  predicate Has(s: Store, id: string)
  {
    exists i :: 0 <= i < |s| && s[i].id == id
  }

  lemma HasCons(s: Store, id: string)
    requires |s| > 0
    ensures Has(s, id) <==> s[0].id == id || Has(s[1..], id)
  {
    if Has(s[1..], id) {
      var i :| 0 <= i < |s[1..]| && s[1..][i].id == id;
      assert s[i + 1].id == id;
    }
  }

  /** `getClaim(id)`: the entry stored under `id`. */
  function GetClaim(s: Store, id: string): (r: Option<Claim>)
    ensures r.Some? ==> r.value in s && r.value.id == id
    ensures r.None? <==> !Has(s, id)
  {
    if |s| == 0 then None
    else
      HasCons(s, id);
      if s[0].id == id then Some(s[0]) else GetClaim(s[1..], id)
  }

  /** `Map.set(c.id, c)`: replaces the entry in place, or appends a new one. */
  function Put(s: Store, c: Claim): (r: Store)
    ensures GetClaim(r, c.id) == Some(c)
    ensures forall id :: id != c.id ==> GetClaim(r, id) == GetClaim(s, id)
    ensures Has(s, c.id) ==> |r| == |s|
    ensures !Has(s, c.id) ==> r == s + [c]
    ensures forall x :: x in r ==> x in s || x == c
  {
    if |s| == 0 then [c]
    else
      HasCons(s, c.id);
      if s[0].id == c.id then [c] + s[1..]
      else
        var rest := Put(s[1..], c);
        assert ([s[0]] + rest)[1..] == rest;
        [s[0]] + rest
  }

  /** `Map.delete(id)`. */
  function Remove(s: Store, id: string): (r: Store)
    ensures !Has(r, id)
    ensures forall other :: other != id ==> GetClaim(r, other) == GetClaim(s, other)
    ensures !Has(s, id) ==> r == s
    ensures forall x :: x in r ==> x in s
  {
    if |s| == 0 then []
    else
      HasCons(s, id);
      var rest := Remove(s[1..], id);
      if s[0].id == id then rest
      else
        assert ([s[0]] + rest)[1..] == rest;
        HasCons([s[0]] + rest, id);
        [s[0]] + rest
  }

  /** `getClaimByTcarNo(t)`: the first claim in iteration order whose TCAR
      number is `t`. */
  function GetClaimByTcarNo(s: Store, tcarNo: string): (r: Option<Claim>)
    ensures r.Some? ==> r.value in s && r.value.tcarNo == tcarNo
    ensures r.None? <==> forall c :: c in s ==> c.tcarNo != tcarNo
    ensures r.Some? ==> exists i :: 0 <= i < |s| && s[i] == r.value && forall j :: 0 <= j < i ==> s[j].tcarNo != tcarNo
  {
    if |s| == 0 then None
    else if s[0].tcarNo == tcarNo then Some(s[0])
    else
      var r := GetClaimByTcarNo(s[1..], tcarNo);
      FirstMatchShift(s, tcarNo, r);
      r
  }

  lemma FirstMatchShift(s: Store, tcarNo: string, r: Option<Claim>)
    requires |s| > 0 && s[0].tcarNo != tcarNo
    requires r.Some? ==> exists i :: 0 <= i < |s[1..]| && s[1..][i] == r.value && forall j :: 0 <= j < i ==> s[1..][j].tcarNo != tcarNo
    ensures r.Some? ==> exists i :: 0 <= i < |s| && s[i] == r.value && forall j :: 0 <= j < i ==> s[j].tcarNo != tcarNo
  {
    if r.Some? {
      var i :| 0 <= i < |s[1..]| && s[1..][i] == r.value && forall j :: 0 <= j < i ==> s[1..][j].tcarNo != tcarNo;
      assert s[i + 1] == r.value;
      assert forall j :: 0 <= j < i + 1 ==> s[j].tcarNo != tcarNo by {
        forall j | 0 <= j < i + 1 ensures s[j].tcarNo != tcarNo {
          if j > 0 { assert s[j] == s[1..][j - 1]; }
        }
      }
    }
  }

  /** The TCAR numbers stored in `s` that start with `prefix`. */
  predicate StoredWithPrefix(s: Store, prefix: string, t: string)
  {
    exists c :: c in s && c.tcarNo == t && Text.StartsWith(t, prefix)
  }

  /** The greatest of the stored TCAR numbers that start with `prefix`, under
      JavaScript string comparison. */
  function GreatestWithPrefix(s: Store, prefix: string): (r: Option<string>)
    ensures r.None? <==> forall c :: c in s ==> !Text.StartsWith(c.tcarNo, prefix)
    ensures r.Some? ==> StoredWithPrefix(s, prefix, r.value)
    ensures r.Some? ==> forall c :: c in s && Text.StartsWith(c.tcarNo, prefix) ==> !Text.LexLess(r.value, c.tcarNo)
  {
    if |s| == 0 then None
    else
      var rest := GreatestWithPrefix(s[1..], prefix);
      var t := s[0].tcarNo;
      assert forall c :: c in s ==> c == s[0] || c in s[1..];
      if !Text.StartsWith(t, prefix) then
        assert rest.Some? ==> StoredWithPrefix(s[1..], prefix, rest.value);
        rest
      else if rest.None? then
        Text.LexLessIrreflexive(t);
        Some(t)
      else if Text.LexLess(rest.value, t) then
        assert forall c :: c in s[1..] && Text.StartsWith(c.tcarNo, prefix) ==> !Text.LexLess(t, c.tcarNo) by {
          forall c | c in s[1..] && Text.StartsWith(c.tcarNo, prefix)
            ensures !Text.LexLess(t, c.tcarNo)
          {
            if Text.LexLess(t, c.tcarNo) {
              Text.LexLessTransitive(rest.value, t, c.tcarNo);
            }
          }
        }
        Text.LexLessIrreflexive(t);
        Some(t)
      else
        assert StoredWithPrefix(s[1..], prefix, rest.value);
        rest
  }

  /** `getLatestTcarForMonth(yearMonth)`: the first element of the stored
      TCAR numbers carrying the month's prefix, sorted in descending order. */
  function LatestTcarForMonth(s: Store, yearMonth: string): (r: Option<string>)
    ensures r.None? <==> forall c :: c in s ==> !Text.StartsWith(c.tcarNo, yearMonth + "-")
    ensures r.Some? ==> StoredWithPrefix(s, yearMonth + "-", r.value)
    ensures r.Some? ==> forall c :: c in s && Text.StartsWith(c.tcarNo, yearMonth + "-") ==> !Text.LexLess(r.value, c.tcarNo)
  {
    GreatestWithPrefix(s, yearMonth + "-")
  }

  /** The latest TCAR number is determined by the set of stored ones: any two
      answers with the stated properties are equal. */
  lemma LatestIsUnique(s: Store, yearMonth: string, t: string)
    requires StoredWithPrefix(s, yearMonth + "-", t)
    requires forall c :: c in s && Text.StartsWith(c.tcarNo, yearMonth + "-") ==> !Text.LexLess(t, c.tcarNo)
    ensures LatestTcarForMonth(s, yearMonth) == Some(t)
  {
    var r := LatestTcarForMonth(s, yearMonth);
    var c :| c in s && c.tcarNo == t && Text.StartsWith(t, yearMonth + "-");
    var d :| d in s && d.tcarNo == r.value && Text.StartsWith(r.value, yearMonth + "-");
    assert !Text.LexLess(t, r.value);
    assert !Text.LexLess(r.value, t);
    Text.LexLessTotal(t, r.value);
  }

  /** The status a new claim is stored with: `insert.status || 'PENDING_ACCEPTANCE'`. */
  function InitialStatus(status: Option<string>): (r: string)
    ensures r != ""
    ensures status.Some? && status.value != "" ==> r == status.value
    ensures status.None? || status.value == "" ==> r == PendingAcceptance.Name()
  {
    if status.Some? && status.value != "" then status.value else PendingAcceptance.Name()
  }

  /** `attachments ?? []`. */
  function AttachmentsOrEmpty(a: Option<Json>): (r: Json)
    ensures !r.JNull?
    ensures !IsNullish(a) ==> r == a.value
  {
    if IsNullish(a) then JArr([]) else a.value
  }

  /** The claim `createClaim` builds from validated input. */
  function NewClaim(ins: InsertClaim, tcarNo: string, id: string, now: Instant): (c: Claim)
    ensures c.id == id && c.tcarNo == tcarNo
    ensures c.createdAt == now && c.updatedAt == now
    ensures c.fields.status == InitialStatus(ins.status)
    ensures c.fields.attachments == AttachmentsOrEmpty(ins.attachments)
    ensures c.fields.dcItems == ins.dcItems
    ensures c.fields.customerName == ins.customerName && c.fields.defectName == ins.defectName
    ensures c.fields.receivedDate == ins.receivedDate
    ensures c.fields.customerDefectId == ins.customerDefectId && c.fields.partNumber == ins.partNumber
    ensures c.fields.defectCount == ins.defectCount && c.fields.occurrenceDate == ins.occurrenceDate
    ensures c.fields.dueDate == ins.dueDate && c.fields.remarks == ins.remarks
    ensures c.fields.assignee == ins.assignee && c.fields.assigneeTech == ins.assigneeTech
    ensures c.fields.assigneeFactory == ins.assigneeFactory
    ensures c.fields.correctiveAction == ins.correctiveAction && c.fields.preventiveAction == ins.preventiveAction
    ensures c.fields.driveFileId == ins.driveFileId && c.fields.driveFileUrl == ins.driveFileUrl
    ensures c.fields.createdBy == ins.createdBy
  {
    Claim(id, tcarNo,
      ClaimFields(ins.customerDefectId, ins.customerName, ins.partNumber, ins.dcItems, ins.defectName,
                  ins.defectCount, ins.occurrenceDate, InitialStatus(ins.status), ins.receivedDate,
                  ins.dueDate, ins.remarks, ins.assignee, ins.assigneeTech, ins.assigneeFactory,
                  ins.correctiveAction, ins.preventiveAction, ins.driveFileId, ins.driveFileUrl,
                  AttachmentsOrEmpty(ins.attachments), ins.createdBy),
      now, now)
  }

  datatype Created = Created(store: Store, claim: Claim)

  /** `createClaim(insert, tcarNo)` with the fresh UUID `id` and the clock
      reading `now` supplied by the caller. No check on `tcarNo` is made. */
  function CreateClaim(s: Store, ins: InsertClaim, tcarNo: string, id: string, now: Instant): (r: Created)
    ensures r.claim == NewClaim(ins, tcarNo, id, now)
    ensures GetClaim(r.store, id) == Some(r.claim)
    ensures forall other :: other != id ==> GetClaim(r.store, other) == GetClaim(s, other)
    ensures !Has(s, id) ==> r.store == s + [r.claim]
  {
    var c := NewClaim(ins, tcarNo, id, now);
    Created(Put(s, c), c)
  }

  /** A stored claim built from input the creation schema accepted satisfies
      the DC-item invariants. */
  lemma CreateKeepsSchemaInvariants(s: Store, ins: InsertClaim, tcarNo: string, id: string, now: Instant)
    requires ValidInsert(ins)
    ensures |CreateClaim(s, ins, tcarNo, id, now).claim.fields.dcItems| >= 1
    ensures forall i :: 0 <= i < |CreateClaim(s, ins, tcarNo, id, now).claim.fields.dcItems| ==>
              CreateClaim(s, ins, tcarNo, id, now).claim.fields.dcItems[i].quantity >= 1
  {
  }

  /** The in-memory store enforces no TCAR uniqueness: creating under a fresh
      id with a TCAR number already in use yields two claims carrying it. */
  lemma CreateAllowsDuplicateTcarNo(s: Store, ins: InsertClaim, tcarNo: string, id: string, now: Instant)
    requires !Has(s, id)
    requires GetClaimByTcarNo(s, tcarNo).Some?
    ensures var r := CreateClaim(s, ins, tcarNo, id, now).store;
            exists i, j :: 0 <= i < j < |r| && r[i].tcarNo == tcarNo && r[j].tcarNo == tcarNo
  {
    var r := CreateClaim(s, ins, tcarNo, id, now).store;
    var i :| 0 <= i < |s| && s[i] == GetClaimByTcarNo(s, tcarNo).value && forall j :: 0 <= j < i ==> s[j].tcarNo != tcarNo;
    assert r[i].tcarNo == tcarNo && r[|s|].tcarNo == tcarNo;
  }

  /** `Partial<Claim>`: the mutable fields plus the identity and audit keys a
      caller may also put in the object. */
  datatype ClaimPatch = ClaimPatch(
    fields: FieldsPatch,
    id: Option<string>,
    tcarNo: Option<string>,
    createdAt: Option<Instant>,
    updatedAt: Option<Instant>)

  /** The spread `{...old, ...patch}` for one key. */
  function Over<T>(current: T, patch: Option<T>): T
  {
    if patch.Some? then patch.value else current
  }

  /** The spread of the patch over the mutable fields. */
  function ApplyPatch(f: ClaimFields, p: FieldsPatch): ClaimFields
  {
    ClaimFields(
      Over(f.customerDefectId, p.customerDefectId), Over(f.customerName, p.customerName),
      Over(f.partNumber, p.partNumber), Over(f.dcItems, p.dcItems),
      Over(f.defectName, p.defectName), Over(f.defectCount, p.defectCount),
      Over(f.occurrenceDate, p.occurrenceDate), Over(f.status, p.status),
      Over(f.receivedDate, p.receivedDate), Over(f.dueDate, p.dueDate),
      Over(f.remarks, p.remarks), Over(f.assignee, p.assignee),
      Over(f.assigneeTech, p.assigneeTech), Over(f.assigneeFactory, p.assigneeFactory),
      Over(f.correctiveAction, p.correctiveAction), Over(f.preventiveAction, p.preventiveAction),
      Over(f.driveFileId, p.driveFileId), Over(f.driveFileUrl, p.driveFileUrl),
      Over(f.attachments, p.attachments), Over(f.createdBy, p.createdBy))
  }

  /** The patch that overwrites every field with the values of `f`. */
  function FullPatch(f: ClaimFields): FieldsPatch
  {
    FieldsPatch(
      Some(f.customerDefectId), Some(f.customerName), Some(f.partNumber), Some(f.dcItems),
      Some(f.defectName), Some(f.defectCount), Some(f.occurrenceDate), Some(f.status),
      Some(f.receivedDate), Some(f.dueDate), Some(f.remarks), Some(f.assignee),
      Some(f.assigneeTech), Some(f.assigneeFactory), Some(f.correctiveAction),
      Some(f.preventiveAction), Some(f.driveFileId), Some(f.driveFileUrl),
      Some(f.attachments), Some(f.createdBy))
  }

  /** Applying `p` and then `q` is applying `q` over `p`: later keys win. */
  function Then(p: FieldsPatch, q: FieldsPatch): FieldsPatch
  {
    FieldsPatch(
      Later(p.customerDefectId, q.customerDefectId), Later(p.customerName, q.customerName),
      Later(p.partNumber, q.partNumber), Later(p.dcItems, q.dcItems),
      Later(p.defectName, q.defectName), Later(p.defectCount, q.defectCount),
      Later(p.occurrenceDate, q.occurrenceDate), Later(p.status, q.status),
      Later(p.receivedDate, q.receivedDate), Later(p.dueDate, q.dueDate),
      Later(p.remarks, q.remarks), Later(p.assignee, q.assignee),
      Later(p.assigneeTech, q.assigneeTech), Later(p.assigneeFactory, q.assigneeFactory),
      Later(p.correctiveAction, q.correctiveAction), Later(p.preventiveAction, q.preventiveAction),
      Later(p.driveFileId, q.driveFileId), Later(p.driveFileUrl, q.driveFileUrl),
      Later(p.attachments, q.attachments), Later(p.createdBy, q.createdBy))
  }

  function Later<T>(a: Option<T>, b: Option<T>): Option<T>
  {
    if b.Some? then b else a
  }

  /** The empty patch changes nothing. */
  lemma ApplyEmptyPatch(f: ClaimFields)
    ensures ApplyPatch(f, EmptyPatch) == f
  {
  }

  /** A patch that supplies every field replaces the record outright. */
  lemma ApplyFullPatch(f: ClaimFields, g: ClaimFields)
    ensures ApplyPatch(f, FullPatch(g)) == g
  {
  }

  /** Applying the same patch twice is applying it once. */
  lemma ApplyPatchIdempotent(f: ClaimFields, p: FieldsPatch)
    ensures ApplyPatch(ApplyPatch(f, p), p) == ApplyPatch(f, p)
  {
  }

  /** Two successive merges are one merge of the combined patch. */
  lemma ApplyPatchThen(f: ClaimFields, p: FieldsPatch, q: FieldsPatch)
    ensures ApplyPatch(ApplyPatch(f, p), q) == ApplyPatch(f, Then(p, q))
  {
  }

  /** The merge of a patch that supplies only a status changes only the status. */
  lemma StatusOnlyPatch(f: ClaimFields, status: string)
    ensures ApplyPatch(f, EmptyPatch.(status := Some(status))) == f.(status := status)
  {
  }

  datatype Updated = Updated(store: Store, claim: Option<Claim>)

  /** `updateClaim(id, updates)` with the clock reading `now`. */
  function UpdateClaim(s: Store, id: string, p: ClaimPatch, now: Instant): (r: Updated)
    ensures r.claim.None? <==> !Has(s, id)
    ensures r.claim.None? ==> r.store == s
    ensures r.claim.Some? ==>
              var prev := GetClaim(s, id).value;
              && r.claim.value.id == prev.id == id
              && r.claim.value.tcarNo == prev.tcarNo
              && r.claim.value.createdAt == prev.createdAt
              && r.claim.value.updatedAt == now
              && r.claim.value.fields == ApplyPatch(prev.fields, p.fields)
              && GetClaim(r.store, id) == r.claim
              && |r.store| == |s|
    ensures forall other :: other != id ==> GetClaim(r.store, other) == GetClaim(s, other)
  {
    match GetClaim(s, id)
    case None => Updated(s, None)
    case Some(prev) =>
      var c := Claim(prev.id, prev.tcarNo, ApplyPatch(prev.fields, p.fields), prev.createdAt, now);
      Updated(Put(s, c), Some(c))
  }

  /** Whatever identity or audit values the patch carries, the stored id,
      TCAR number and creation time survive and the update time is `now`. */
  lemma UpdateIgnoresIdentityKeys(s: Store, id: string, p: ClaimPatch, q: ClaimPatch, now: Instant)
    requires p.fields == q.fields
    ensures UpdateClaim(s, id, p, now) == UpdateClaim(s, id, q, now)
  {
  }

  datatype Deleted = Deleted(store: Store, existed: bool)

  /** `deleteClaim(id)`: `Map.delete`, reporting whether the key was present. */
  function DeleteClaim(s: Store, id: string): (r: Deleted)
    ensures r.existed <==> Has(s, id)
    ensures GetClaim(r.store, id).None?
    ensures forall other :: other != id ==> GetClaim(r.store, other) == GetClaim(s, other)
    ensures !r.existed ==> r.store == s
  {
    Deleted(Remove(s, id), Has(s, id))
  }

  // ---- the key invariant ----

  lemma {:induction false} PutWellFormed(s: Store, c: Claim)
    requires WellFormed(s)
    ensures WellFormed(Put(s, c))
  {
    var r := Put(s, c);
    if Has(s, c.id) {
      forall i, j | 0 <= i < j < |r|
        ensures r[i].id != r[j].id
      {
        PutSlot(s, c, i);
        PutSlot(s, c, j);
      }
    } else {
      assert r == s + [c];
    }
  }

  /** Position by position, `Put` on a present key keeps every entry except
      the one stored under that key, which becomes `c`. */
  lemma {:induction false} PutSlot(s: Store, c: Claim, i: int)
    requires Has(s, c.id) && 0 <= i < |s|
    ensures |Put(s, c)| == |s|
    ensures Put(s, c)[i] == (if s[i].id == c.id && forall j :: 0 <= j < i ==> s[j].id != c.id then c else s[i])
    decreases |s|
  {
    HasCons(s, c.id);
    if s[0].id != c.id && i > 0 {
      PutSlot(s[1..], c, i - 1);
      forall j | 0 <= j < i - 1 ensures s[1..][j] == s[j + 1] { }
    }
  }

  lemma {:induction false} RemoveWellFormed(s: Store, id: string)
    requires WellFormed(s)
    ensures WellFormed(Remove(s, id))
    ensures Has(s, id) ==> |Remove(s, id)| == |s| - 1
    decreases |s|
  {
    if |s| > 0 {
      HasCons(s, id);
      TailWellFormed(s);
      RemoveWellFormed(s[1..], id);
      if s[0].id != id {
        ConsWellFormed(s[0], Remove(s[1..], id));
      }
    }
  }

  /** The tail of a well-formed map is well formed, and its ids differ from
      the head's. */
  lemma TailWellFormed(s: Store)
    requires WellFormed(s) && |s| > 0
    ensures WellFormed(s[1..])
    ensures forall c :: c in s[1..] ==> c.id != s[0].id
  {
    forall i, j | 0 <= i < j < |s[1..]| ensures s[1..][i].id != s[1..][j].id {
      assert s[1..][i] == s[i + 1] && s[1..][j] == s[j + 1];
    }
    forall c | c in s[1..] ensures c.id != s[0].id {
      var k :| 0 <= k < |s[1..]| && s[1..][k] == c;
      assert s[k + 1] == c;
    }
  }

  lemma ConsWellFormed(x: Claim, rest: Store)
    requires WellFormed(rest)
    requires forall c :: c in rest ==> c.id != x.id
    ensures WellFormed([x] + rest)
  {
    var r := [x] + rest;
    forall i, j | 0 <= i < j < |r| ensures r[i].id != r[j].id {
      assert r[j] == rest[j - 1];
      if i > 0 {
        assert r[i] == rest[i - 1];
      } else {
        assert r[j] in rest;
      }
    }
  }

  /** Every repository operation keeps the ids of the map distinct. */
  lemma OperationsKeepWellFormed(s: Store, ins: InsertClaim, tcarNo: string, id: string, p: ClaimPatch, now: Instant)
    requires WellFormed(s)
    ensures WellFormed(CreateClaim(s, ins, tcarNo, id, now).store)
    ensures WellFormed(UpdateClaim(s, id, p, now).store)
    ensures WellFormed(DeleteClaim(s, id).store)
  {
    PutWellFormed(s, NewClaim(ins, tcarNo, id, now));
    if Has(s, id) {
      var prev := GetClaim(s, id).value;
      PutWellFormed(s, Claim(prev.id, prev.tcarNo, ApplyPatch(prev.fields, p.fields), prev.createdAt, now));
    }
    RemoveWellFormed(s, id);
  }

  /** Creating under a fresh id adds exactly one entry. */
  lemma CreateGrowsByOne(s: Store, ins: InsertClaim, tcarNo: string, id: string, now: Instant)
    requires !Has(s, id)
    ensures |CreateClaim(s, ins, tcarNo, id, now).store| == |s| + 1
    ensures GetClaimByTcarNo(CreateClaim(s, ins, tcarNo, id, now).store, tcarNo).Some?
  {
    var r := CreateClaim(s, ins, tcarNo, id, now).store;
    assert r[|s|] in r;
  }

  /** Deleting a present key on a well-formed map removes exactly one entry,
      and a second delete reports that nothing was there. */
  lemma DeleteTwice(s: Store, id: string)
    requires WellFormed(s)
    ensures var d := DeleteClaim(s, id);
            && (d.existed ==> |d.store| == |s| - 1)
            && !DeleteClaim(d.store, id).existed
            && DeleteClaim(d.store, id).store == d.store
  {
    RemoveWellFormed(s, id);
  }
}
