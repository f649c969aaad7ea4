/** The claim record, its creation and update inputs, and the validation the
    `zod` schemas derived from the `claims` table apply to request bodies. */
module Schema {
  import opened Wrappers
  import opened Json
  import Seqs

  /** The three workflow states of a claim. */
  datatype ClaimStatus = PendingAcceptance | PendingCountermeasure | Completed {
    function Name(): string
    {
      match this
      case PendingAcceptance => "PENDING_ACCEPTANCE"
      case PendingCountermeasure => "PENDING_COUNTERMEASURE"
      case Completed => "COMPLETED"
    }
  }

  /** The enum check of the update schema: which status, if any, a string names. */
  function StatusFromName(s: string): (r: Option<ClaimStatus>)
    ensures r.Some? ==> r.value.Name() == s
    ensures (exists st: ClaimStatus :: st.Name() == s) ==> r.Some?
  {
    if s == "PENDING_ACCEPTANCE" then Some(PendingAcceptance)
    else if s == "PENDING_COUNTERMEASURE" then Some(PendingCountermeasure)
    else if s == "COMPLETED" then Some(Completed)
    else None
  }

  /** The three names are distinct, so a stored status names at most one state. */
  lemma StatusNameInjective(a: ClaimStatus, b: ClaimStatus)
    ensures a.Name() == b.Name() <==> a == b
  {
  }

  /** A point in time together with its local calendar year and month index
      (0 = January), as `getFullYear()` and `getMonth()` report them. */
  datatype Instant = Instant(time: int, year: int, month: int)

  /** One (defect code, quantity) pair. */
  datatype DcItem = DcItem(dc: string, quantity: int)

  predicate ValidDcItem(item: DcItem)
  {
    item.quantity >= 1
  }

  /** Every column of a claim that an update may change. Nullable columns are
      `Option`s; `attachments` is the raw `jsonb` value. */
  datatype ClaimFields = ClaimFields(
    customerDefectId: Option<string>,
    customerName: string,
    partNumber: Option<string>,
    dcItems: seq<DcItem>,
    defectName: string,
    defectCount: Option<int>,
    occurrenceDate: Option<string>,
    status: string,
    receivedDate: string,
    dueDate: Option<string>,
    remarks: Option<string>,
    assignee: Option<string>,
    assigneeTech: Option<string>,
    assigneeFactory: Option<string>,
    correctiveAction: Option<string>,
    preventiveAction: Option<string>,
    driveFileId: Option<string>,
    driveFileUrl: Option<string>,
    attachments: Json,
    createdBy: Option<string>)

  /** A stored claim: identity and audit columns around the mutable fields. */
  datatype Claim = Claim(id: string, tcarNo: string, fields: ClaimFields, createdAt: Instant, updatedAt: Instant)

  /** A validated creation body. `None` is a key that was absent or `null`. */
  datatype InsertClaim = InsertClaim(
    customerDefectId: Option<string>,
    customerName: string,
    partNumber: Option<string>,
    dcItems: seq<DcItem>,
    defectName: string,
    defectCount: Option<int>,
    occurrenceDate: Option<string>,
    status: Option<string>,
    receivedDate: string,
    dueDate: Option<string>,
    remarks: Option<string>,
    assignee: Option<string>,
    assigneeTech: Option<string>,
    assigneeFactory: Option<string>,
    correctiveAction: Option<string>,
    preventiveAction: Option<string>,
    driveFileId: Option<string>,
    driveFileUrl: Option<string>,
    attachments: Option<Json>,
    createdBy: Option<string>)

  /** A partial update of the mutable fields: `None` leaves a field alone. */
  datatype FieldsPatch = FieldsPatch(
    customerDefectId: Option<Option<string>>,
    customerName: Option<string>,
    partNumber: Option<Option<string>>,
    dcItems: Option<seq<DcItem>>,
    defectName: Option<string>,
    defectCount: Option<Option<int>>,
    occurrenceDate: Option<Option<string>>,
    status: Option<string>,
    receivedDate: Option<string>,
    dueDate: Option<Option<string>>,
    remarks: Option<Option<string>>,
    assignee: Option<Option<string>>,
    assigneeTech: Option<Option<string>>,
    assigneeFactory: Option<Option<string>>,
    correctiveAction: Option<Option<string>>,
    preventiveAction: Option<Option<string>>,
    driveFileId: Option<Option<string>>,
    driveFileUrl: Option<Option<string>>,
    attachments: Option<Json>,
    createdBy: Option<Option<string>>)

  /** The patch that supplies nothing. */
  const EmptyPatch := FieldsPatch(None, None, None, None, None, None, None, None, None, None,
                                  None, None, None, None, None, None, None, None, None, None)

  /** Rejection of a request body (HTTP 400), naming the first offending key. */
  datatype ValidationError = InvalidField(key: string)

  // ---- field validators (one per column kind) ----

  /** A required `text` column. */
  function RequiredString(body: map<string, Json>, key: string): Result<string, ValidationError>
  {
    if key in body && body[key].JStr? then Ok(body[key].s) else Err(InvalidField(key))
  }

  /** An optional nullable `text` column of the creation body. */
  function NullableString(body: map<string, Json>, key: string): Result<Option<string>, ValidationError>
  {
    if key !in body || body[key].JNull? then Ok(None)
    else if body[key].JStr? then Ok(Some(body[key].s))
    else Err(InvalidField(key))
  }

  /** An optional nullable `integer` column of the creation body. */
  function NullableInt(body: map<string, Json>, key: string): Result<Option<int>, ValidationError>
  {
    if key !in body || body[key].JNull? then Ok(None)
    else if body[key].JNum? then Ok(Some(body[key].n))
    else Err(InvalidField(key))
  }

  /** One element of `dcItems`: `{dc: string, quantity: int >= 1}`. */
  function ParseDcItem(v: Json): Option<DcItem>
  {
    match v
    case JObj(m) =>
      if "dc" in m && m["dc"].JStr? && "quantity" in m && m["quantity"].JNum? && m["quantity"].n >= 1
      then Some(DcItem(m["dc"].s, m["quantity"].n))
      else None
    case _ => None
  }

  /** Every element of `xs` is a valid DC item, and their values in order. */
  function ParseDcItems(xs: seq<Json>): (r: Option<seq<DcItem>>)
    ensures r.Some? ==> |r.value| == |xs| && forall i :: 0 <= i < |r.value| ==> ValidDcItem(r.value[i])
    ensures r.Some? ==> forall i :: 0 <= i < |xs| ==> ParseDcItem(xs[i]) == Some(r.value[i])
    ensures r.None? <==> exists i :: 0 <= i < |xs| && ParseDcItem(xs[i]).None?
  {
    if |xs| == 0 then Some([])
    else
      match ParseDcItem(xs[0])
      case None => None
      case Some(item) =>
        match ParseDcItems(xs[1..])
        case None => None
        case Some(rest) => Some([item] + rest)
  }

  /** `z.array(dcItemSchema).min(1)`. */
  function DcItemList(body: map<string, Json>): (r: Result<seq<DcItem>, ValidationError>)
    ensures r.Ok? ==> |r.value| >= 1 && forall i :: 0 <= i < |r.value| ==> ValidDcItem(r.value[i])
  {
    if "dcItems" in body && body["dcItems"].JArr? && |body["dcItems"].items| >= 1 then
      match ParseDcItems(body["dcItems"].items)
      case Some(items) => Ok(items)
      case None => Err(InvalidField("dcItems"))
    else Err(InvalidField("dcItems"))
  }

  /** An optional, non-nullable `text` column with a default (`status`). */
  function OptionalString(body: map<string, Json>, key: string): Result<Option<string>, ValidationError>
  {
    if key !in body then Ok(None)
    else if body[key].JStr? then Ok(Some(body[key].s))
    else Err(InvalidField(key))
  }

  /** An optional `jsonb` column with a default (`attachments`); any JSON
      value, `null` included, is accepted. */
  function OptionalJson(body: map<string, Json>, key: string): Option<Json>
  {
    if key in body then Some(body[key]) else None
  }

  /** The keys the creation schema reads; every other key is stripped. */
  const InsertKeys: set<string> := {
    "customerDefectId", "customerName", "partNumber", "dcItems", "defectName", "defectCount",
    "occurrenceDate", "status", "receivedDate", "dueDate", "remarks", "assignee", "assigneeTech",
    "assigneeFactory", "correctiveAction", "preventiveAction", "driveFileId", "driveFileUrl",
    "attachments", "createdBy"}

  /** `insertClaimSchema.parse(body)`. */
  function ParseInsert(body: Json): (r: Result<InsertClaim, ValidationError>)
    ensures r.Ok? ==> ValidInsert(r.value)
  {
    if !body.JObj? then Err(InvalidField(""))
    else
      var m := body.fields;
      var customerDefectId :- NullableString(m, "customerDefectId");
      var customerName :- RequiredString(m, "customerName");
      var partNumber :- NullableString(m, "partNumber");
      var dcItems :- DcItemList(m);
      var defectName :- RequiredString(m, "defectName");
      var defectCount :- NullableInt(m, "defectCount");
      var occurrenceDate :- NullableString(m, "occurrenceDate");
      var status :- OptionalString(m, "status");
      var receivedDate :- RequiredString(m, "receivedDate");
      var dueDate :- NullableString(m, "dueDate");
      var remarks :- NullableString(m, "remarks");
      var assignee :- NullableString(m, "assignee");
      var assigneeTech :- NullableString(m, "assigneeTech");
      var assigneeFactory :- NullableString(m, "assigneeFactory");
      var correctiveAction :- NullableString(m, "correctiveAction");
      var preventiveAction :- NullableString(m, "preventiveAction");
      var driveFileId :- NullableString(m, "driveFileId");
      var driveFileUrl :- NullableString(m, "driveFileUrl");
      var createdBy :- NullableString(m, "createdBy");
      Ok(InsertClaim(customerDefectId, customerName, partNumber, dcItems, defectName, defectCount,
                     occurrenceDate, status, receivedDate, dueDate, remarks, assignee, assigneeTech,
                     assigneeFactory, correctiveAction, preventiveAction, driveFileId, driveFileUrl,
                     OptionalJson(m, "attachments"), createdBy))
  }

  // ---- what the schemas accept, and what they read ----

  /** The required `text` columns of the creation schema. */
  datatype RequiredField = CustomerNameField | DefectNameField | ReceivedDateField {
    /** The body key of the column. */
    function Key(): string
    {
      match this
      case CustomerNameField => "customerName"
      case DefectNameField => "defectName"
      case ReceivedDateField => "receivedDate"
    }
  }

  /** The nullable `text` columns. */
  datatype NullableField =
    | CustomerDefectIdField | PartNumberField | OccurrenceDateField | DueDateField | RemarksField
    | AssigneeField | AssigneeTechField | AssigneeFactoryField | CorrectiveActionField | PreventiveActionField
    | DriveFileIdField | DriveFileUrlField | CreatedByField
  {
    /** The body key of the column. */
    function Key(): string
    {
      match this
      case CustomerDefectIdField => "customerDefectId"
      case PartNumberField => "partNumber"
      case OccurrenceDateField => "occurrenceDate"
      case DueDateField => "dueDate"
      case RemarksField => "remarks"
      case AssigneeField => "assignee"
      case AssigneeTechField => "assigneeTech"
      case AssigneeFactoryField => "assigneeFactory"
      case CorrectiveActionField => "correctiveAction"
      case PreventiveActionField => "preventiveAction"
      case DriveFileIdField => "driveFileId"
      case DriveFileUrlField => "driveFileUrl"
      case CreatedByField => "createdBy"
    }
  }

  /** A validated creation body's required text column. */
  function InsertRequiredText(c: InsertClaim, f: RequiredField): string
  {
    match f
    case CustomerNameField => c.customerName
    case DefectNameField => c.defectName
    case ReceivedDateField => c.receivedDate
  }

  /** A validated creation body's nullable text column. */
  function InsertText(c: InsertClaim, f: NullableField): Option<string>
  {
    match f
    case CustomerDefectIdField => c.customerDefectId
    case PartNumberField => c.partNumber
    case OccurrenceDateField => c.occurrenceDate
    case DueDateField => c.dueDate
    case RemarksField => c.remarks
    case AssigneeField => c.assignee
    case AssigneeTechField => c.assigneeTech
    case AssigneeFactoryField => c.assigneeFactory
    case CorrectiveActionField => c.correctiveAction
    case PreventiveActionField => c.preventiveAction
    case DriveFileIdField => c.driveFileId
    case DriveFileUrlField => c.driveFileUrl
    case CreatedByField => c.createdBy
  }

  /** A patch's required text column. */
  function PatchRequiredText(p: FieldsPatch, f: RequiredField): Option<string>
  {
    match f
    case CustomerNameField => p.customerName
    case DefectNameField => p.defectName
    case ReceivedDateField => p.receivedDate
  }

  /** A patch's nullable text column. */
  function PatchText(p: FieldsPatch, f: NullableField): Option<Option<string>>
  {
    match f
    case CustomerDefectIdField => p.customerDefectId
    case PartNumberField => p.partNumber
    case OccurrenceDateField => p.occurrenceDate
    case DueDateField => p.dueDate
    case RemarksField => p.remarks
    case AssigneeField => p.assignee
    case AssigneeTechField => p.assigneeTech
    case AssigneeFactoryField => p.assigneeFactory
    case CorrectiveActionField => p.correctiveAction
    case PreventiveActionField => p.preventiveAction
    case DriveFileIdField => p.driveFileId
    case DriveFileUrlField => p.driveFileUrl
    case CreatedByField => p.createdBy
  }

  /** The body's string under `key`, if it holds one. */
  function TextOrNone(m: map<string, Json>, key: string): Option<string>
  {
    if key in m && m[key].JStr? then Some(m[key].s) else None
  }

  /** The body's integer under `key`, if it holds one. */
  function IntOrNone(m: map<string, Json>, key: string): Option<int>
  {
    if key in m && m[key].JNum? then Some(m[key].n) else None
  }

  /** A list of DC items every element of which is valid, and at least one. */
  predicate DcListAcceptable(v: Json)
  {
    v.JArr? && |v.items| >= 1 && forall i :: 0 <= i < |v.items| ==> ParseDcItem(v.items[i]).Some?
  }

  /** The bodies the creation schema accepts, key by key. */
  predicate InsertAcceptable(m: map<string, Json>)
  {
    && (forall f: RequiredField :: f.Key() in m && m[f.Key()].JStr?)
    && (forall f: NullableField :: f.Key() !in m || m[f.Key()].JNull? || m[f.Key()].JStr?)
    && ("defectCount" !in m || m["defectCount"].JNull? || m["defectCount"].JNum?)
    && ("status" !in m || m["status"].JStr?)
    && "dcItems" in m && DcListAcceptable(m["dcItems"])
  }

  /** The bodies the update schema accepts, key by key. */
  predicate UpdateAcceptable(m: map<string, Json>)
  {
    && (forall f: RequiredField :: f.Key() !in m || m[f.Key()].JStr?)
    && (forall f: NullableField :: f.Key() !in m || m[f.Key()].JNull? || m[f.Key()].JStr?)
    && ("defectCount" !in m || m["defectCount"].JNull? || m["defectCount"].JNum?)
    && ("status" !in m || (m["status"].JStr? && StatusFromName(m["status"].s).Some?))
    && ("dcItems" !in m || DcListAcceptable(m["dcItems"]))
  }

  /** A DC list read from an accepted body: one item per element, each the
      element's `dc` and `quantity`. */
  predicate DcItemsRead(items: seq<DcItem>, v: Json)
  {
    v.JArr? && |items| == |v.items| && forall i :: 0 <= i < |items| ==> ParseDcItem(v.items[i]) == Some(items[i])
  }

  /** The creation schema accepts exactly the bodies that are objects with a
      string under each required key, a string or `null` (or nothing) under
      each nullable key, and a non-empty list of valid DC items. */
  lemma ParseInsertAccepts(body: Json)
    ensures ParseInsert(body).Ok? <==> body.JObj? && InsertAcceptable(body.fields)
  {
    if body.JObj? {
      var m := body.fields;
      ParseInsertFields(m);
      InsertPassesIffAcceptable(m);
    }
  }

  /** An accepted creation body reads back: every column holds what the body
      carries under its key, and a missing or `null` optional key is `None`. */
  lemma ParseInsertReadsBack(body: Json)
    requires ParseInsert(body).Ok?
    ensures body.JObj?
    ensures var c := ParseInsert(body).value;
            && (forall f: RequiredField :: f.Key() in body.fields && body.fields[f.Key()] == JStr(InsertRequiredText(c, f)))
            && (forall f: NullableField :: InsertText(c, f) == TextOrNone(body.fields, f.Key()))
            && c.defectCount == IntOrNone(body.fields, "defectCount")
            && c.status == TextOrNone(body.fields, "status")
            && "dcItems" in body.fields && DcItemsRead(c.dcItems, body.fields["dcItems"])
            && ("attachments" in body.fields ==> c.attachments == Some(body.fields["attachments"]))
            && ("attachments" !in body.fields ==> c.attachments.None?)
  {
    var m := body.fields;
    ParseInsertFields(m);
    assert ParseInsert(body).value == ParsedInsert(m);
    DcListParses(m);
    InsertTextReadsBack(m);
  }

  lemma InsertTextReadsBack(m: map<string, Json>)
    requires InsertPasses(m)
    ensures forall f: RequiredField :: f.Key() in m && m[f.Key()] == JStr(InsertRequiredText(ParsedInsert(m), f))
    ensures forall f: NullableField :: InsertText(ParsedInsert(m), f) == TextOrNone(m, f.Key())
  {
    var c := ParsedInsert(m);
    forall f: RequiredField ensures f.Key() in m && m[f.Key()] == JStr(InsertRequiredText(c, f)) {
      match f
      case CustomerNameField =>
      case DefectNameField =>
      case ReceivedDateField =>
    }
    forall f: NullableField ensures InsertText(c, f) == TextOrNone(m, f.Key()) {
      match f
      case CustomerDefectIdField =>
      case PartNumberField =>
      case OccurrenceDateField =>
      case DueDateField =>
      case RemarksField =>
      case AssigneeField =>
      case AssigneeTechField =>
      case AssigneeFactoryField =>
      case CorrectiveActionField =>
      case PreventiveActionField =>
      case DriveFileIdField =>
      case DriveFileUrlField =>
      case CreatedByField =>
    }
  }

  /** Every validator of the creation schema passes on the body. */
  predicate InsertPasses(m: map<string, Json>)
  {
    && InsertTextPasses(m)
    && DcItemList(m).Ok?
    && NullableInt(m, "defectCount").Ok?
    && OptionalString(m, "status").Ok?
  }

  /** Every text validator of the creation schema passes on the body. */
  predicate InsertTextPasses(m: map<string, Json>)
  {
    && NullableString(m, "customerDefectId").Ok?
    && RequiredString(m, "customerName").Ok?
    && NullableString(m, "partNumber").Ok?
    && RequiredString(m, "defectName").Ok?
    && NullableString(m, "occurrenceDate").Ok?
    && RequiredString(m, "receivedDate").Ok?
    && NullableString(m, "dueDate").Ok?
    && NullableString(m, "remarks").Ok?
    && NullableString(m, "assignee").Ok?
    && NullableString(m, "assigneeTech").Ok?
    && NullableString(m, "assigneeFactory").Ok?
    && NullableString(m, "correctiveAction").Ok?
    && NullableString(m, "preventiveAction").Ok?
    && NullableString(m, "driveFileId").Ok?
    && NullableString(m, "driveFileUrl").Ok?
    && NullableString(m, "createdBy").Ok?
  }

  /** The claim made of the validators' values. */
  function ParsedInsert(m: map<string, Json>): InsertClaim
    requires InsertPasses(m)
  {
    InsertClaim(NullableString(m, "customerDefectId").value, RequiredString(m, "customerName").value,
                NullableString(m, "partNumber").value, DcItemList(m).value,
                RequiredString(m, "defectName").value, NullableInt(m, "defectCount").value,
                NullableString(m, "occurrenceDate").value, OptionalString(m, "status").value,
                RequiredString(m, "receivedDate").value, NullableString(m, "dueDate").value,
                NullableString(m, "remarks").value, NullableString(m, "assignee").value,
                NullableString(m, "assigneeTech").value, NullableString(m, "assigneeFactory").value,
                NullableString(m, "correctiveAction").value, NullableString(m, "preventiveAction").value,
                NullableString(m, "driveFileId").value, NullableString(m, "driveFileUrl").value,
                OptionalJson(m, "attachments"), NullableString(m, "createdBy").value)
  }

  /** The parse succeeds exactly when every validator passes, and then yields
      their values. */
  lemma ParseInsertFields(m: map<string, Json>)
    ensures ParseInsert(JObj(m)).Ok? <==> InsertPasses(m)
    ensures InsertPasses(m) ==> ParseInsert(JObj(m)).value == ParsedInsert(m)
  {
  }

  lemma InsertPassesIffAcceptable(m: map<string, Json>)
    ensures InsertPasses(m) <==> InsertAcceptable(m)
  {
    if InsertPasses(m) {
      InsertPassesAcceptable(m);
    }
    if InsertAcceptable(m) {
      InsertAcceptablePasses(m);
    }
  }

  lemma InsertPassesAcceptable(m: map<string, Json>)
    requires InsertPasses(m)
    ensures InsertAcceptable(m)
  {
    DcListParses(m);
    forall f: RequiredField ensures f.Key() in m && m[f.Key()].JStr? {
      assert RequiredString(m, f.Key()).Ok? by { match f
        case CustomerNameField =>
        case DefectNameField =>
        case ReceivedDateField =>
      }
    }
    forall f: NullableField ensures f.Key() !in m || m[f.Key()].JNull? || m[f.Key()].JStr? {
      assert NullableString(m, f.Key()).Ok? by { match f
        case CustomerDefectIdField =>
        case PartNumberField =>
        case OccurrenceDateField =>
        case DueDateField =>
        case RemarksField =>
        case AssigneeField =>
        case AssigneeTechField =>
        case AssigneeFactoryField =>
        case CorrectiveActionField =>
        case PreventiveActionField =>
        case DriveFileIdField =>
        case DriveFileUrlField =>
        case CreatedByField =>
      }
    }
  }

  lemma InsertAcceptablePasses(m: map<string, Json>)
    requires InsertAcceptable(m)
    ensures InsertPasses(m)
  {
    DcListParses(m);
    InsertTextAccepted(m);
  }
  /** Key by key, the text columns the creation schema accepts pass their validators. */
  lemma InsertTextAccepted(m: map<string, Json>)
    requires forall f: RequiredField :: f.Key() in m && m[f.Key()].JStr?
    requires forall f: NullableField :: f.Key() !in m || m[f.Key()].JNull? || m[f.Key()].JStr?
    ensures InsertTextPasses(m)
  {
    FieldKeys();
    RequiredFieldPasses(m, CustomerNameField);
    RequiredFieldPasses(m, DefectNameField);
    RequiredFieldPasses(m, ReceivedDateField);
    NullableFieldPasses(m, CustomerDefectIdField);
    NullableFieldPasses(m, PartNumberField);
    NullableFieldPasses(m, OccurrenceDateField);
    NullableFieldPasses(m, DueDateField);
    NullableFieldPasses(m, RemarksField);
    NullableFieldPasses(m, AssigneeField);
    NullableFieldPasses(m, AssigneeTechField);
    NullableFieldPasses(m, AssigneeFactoryField);
    NullableFieldPasses(m, CorrectiveActionField);
    NullableFieldPasses(m, PreventiveActionField);
    NullableFieldPasses(m, DriveFileIdField);
    NullableFieldPasses(m, DriveFileUrlField);
    NullableFieldPasses(m, CreatedByField);
  }


  /** The body keys of the text columns, spelled out. */
  lemma FieldKeys()
    ensures CustomerNameField.Key() == "customerName"
    ensures DefectNameField.Key() == "defectName"
    ensures ReceivedDateField.Key() == "receivedDate"
    ensures CustomerDefectIdField.Key() == "customerDefectId"
    ensures PartNumberField.Key() == "partNumber"
    ensures OccurrenceDateField.Key() == "occurrenceDate"
    ensures DueDateField.Key() == "dueDate"
    ensures RemarksField.Key() == "remarks"
    ensures AssigneeField.Key() == "assignee"
    ensures AssigneeTechField.Key() == "assigneeTech"
    ensures AssigneeFactoryField.Key() == "assigneeFactory"
    ensures CorrectiveActionField.Key() == "correctiveAction"
    ensures PreventiveActionField.Key() == "preventiveAction"
    ensures DriveFileIdField.Key() == "driveFileId"
    ensures DriveFileUrlField.Key() == "driveFileUrl"
    ensures CreatedByField.Key() == "createdBy"
  {
  }

  /** A required text column holding a string passes its validator in the
      creation schema. */
  lemma RequiredFieldPasses(m: map<string, Json>, f: RequiredField)
    requires f.Key() in m && m[f.Key()].JStr?
    ensures RequiredString(m, f.Key()).Ok?
  {
  }

  /** In the update schema a required text column may also be absent. */
  lemma RequiredFieldPatches(m: map<string, Json>, f: RequiredField)
    requires f.Key() !in m || m[f.Key()].JStr?
    ensures PatchString(m, f.Key()).Ok?
  {
  }

  /** A nullable text column that is absent, `null` or a string passes its
      validator in the creation schema, */
  lemma NullableFieldPasses(m: map<string, Json>, f: NullableField)
    requires f.Key() !in m || m[f.Key()].JNull? || m[f.Key()].JStr?
    ensures NullableString(m, f.Key()).Ok?
  {
  }

  /** and in the update schema. */
  lemma NullableFieldPatches(m: map<string, Json>, f: NullableField)
    requires f.Key() !in m || m[f.Key()].JNull? || m[f.Key()].JStr?
    ensures PatchNullable(m, f.Key()).Ok?
  {
  }

  /** The DC list validator accepts exactly an acceptable list. */
  lemma DcListParses(m: map<string, Json>)
    ensures DcItemList(m).Ok? <==> "dcItems" in m && DcListAcceptable(m["dcItems"])
    ensures DcItemList(m).Ok? ==> DcItemsRead(DcItemList(m).value, m["dcItems"])
  {
  }

  /** What the creation schema guarantees: a non-empty list of DC items, each
      with quantity at least 1. */
  predicate ValidInsert(c: InsertClaim)
  {
    |c.dcItems| >= 1 && forall i :: 0 <= i < |c.dcItems| ==> ValidDcItem(c.dcItems[i])
  }

  /** Keys outside the schema never influence the parse: a body cannot smuggle
      in `id`, `tcarNo`, `createdAt` or `updatedAt`. */
  lemma ParseInsertIgnoresOtherKeys(m: map<string, Json>, extra: set<string>)
    requires extra !! InsertKeys
    ensures ParseInsert(JObj(m)) == ParseInsert(JObj(m - extra))
  {
    var m' := m - extra;
    assert forall k :: k in InsertKeys ==> AgreeAt(m, m', k);
    ParseInsertAgree(m, m');
  }

  /** Two bodies that carry the same value (or nothing) under `key`. */
  predicate AgreeAt(m: map<string, Json>, m': map<string, Json>, key: string)
  {
    (key in m <==> key in m') && (key in m ==> m[key] == m'[key])
  }

  lemma ParseInsertAgree(m: map<string, Json>, m': map<string, Json>)
    requires forall k :: k in InsertKeys ==> AgreeAt(m, m', k)
    ensures ParseInsert(JObj(m)) == ParseInsert(JObj(m'))
  {
    forall k | k in InsertKeys
      ensures NullableString(m, k) == NullableString(m', k)
      ensures RequiredString(m, k) == RequiredString(m', k)
      ensures NullableInt(m, k) == NullableInt(m', k)
      ensures OptionalString(m, k) == OptionalString(m', k)
      ensures OptionalJson(m, k) == OptionalJson(m', k)
    {
      assert AgreeAt(m, m', k);
    }
    assert DcItemList(m) == DcItemList(m') by { assert AgreeAt(m, m', "dcItems"); }
  }

  lemma ParseInsertDropsIdentity(m: map<string, Json>)
    ensures ParseInsert(JObj(m)) == ParseInsert(JObj(m - {"id", "tcarNo", "createdAt", "updatedAt"}))
  {
    ParseInsertIgnoresOtherKeys(m, {"id", "tcarNo", "createdAt", "updatedAt"});
  }

  /** An optional non-nullable column of the update body. */
  function PatchString(body: map<string, Json>, key: string): Result<Option<string>, ValidationError>
  {
    OptionalString(body, key)
  }

  /** An optional nullable `text` column of the update body: absent keeps,
      `null` clears, a string sets. */
  function PatchNullable(body: map<string, Json>, key: string): Result<Option<Option<string>>, ValidationError>
  {
    if key !in body then Ok(None)
    else if body[key].JNull? then Ok(Some(None))
    else if body[key].JStr? then Ok(Some(Some(body[key].s)))
    else Err(InvalidField(key))
  }

  function PatchNullableInt(body: map<string, Json>, key: string): Result<Option<Option<int>>, ValidationError>
  {
    if key !in body then Ok(None)
    else if body[key].JNull? then Ok(Some(None))
    else if body[key].JNum? then Ok(Some(Some(body[key].n)))
    else Err(InvalidField(key))
  }

  /** `status: z.enum([...]).optional()`. */
  function PatchStatus(body: map<string, Json>): (r: Result<Option<string>, ValidationError>)
    ensures r.Ok? && r.value.Some? ==> StatusFromName(r.value.value).Some?
  {
    if "status" !in body then Ok(None)
    else if body["status"].JStr? && StatusFromName(body["status"].s).Some? then Ok(Some(body["status"].s))
    else Err(InvalidField("status"))
  }

  function PatchDcItems(body: map<string, Json>): (r: Result<Option<seq<DcItem>>, ValidationError>)
    ensures r.Ok? && r.value.Some? ==> |r.value.value| >= 1
  {
    if "dcItems" !in body then Ok(None)
    else
      var items :- DcItemList(body);
      Ok(Some(items))
  }

  /** `updateClaimSchema.parse(body)`: every creation field optional, status
      restricted to the enum. */
  function ParseUpdate(body: Json): (r: Result<FieldsPatch, ValidationError>)
    ensures r.Ok? ==> ValidPatch(r.value)
  {
    if !body.JObj? then Err(InvalidField(""))
    else
      var m := body.fields;
      var customerDefectId :- PatchNullable(m, "customerDefectId");
      var customerName :- PatchString(m, "customerName");
      var partNumber :- PatchNullable(m, "partNumber");
      var dcItems :- PatchDcItems(m);
      var defectName :- PatchString(m, "defectName");
      var defectCount :- PatchNullableInt(m, "defectCount");
      var occurrenceDate :- PatchNullable(m, "occurrenceDate");
      var status :- PatchStatus(m);
      var receivedDate :- PatchString(m, "receivedDate");
      var dueDate :- PatchNullable(m, "dueDate");
      var remarks :- PatchNullable(m, "remarks");
      var assignee :- PatchNullable(m, "assignee");
      var assigneeTech :- PatchNullable(m, "assigneeTech");
      var assigneeFactory :- PatchNullable(m, "assigneeFactory");
      var correctiveAction :- PatchNullable(m, "correctiveAction");
      var preventiveAction :- PatchNullable(m, "preventiveAction");
      var driveFileId :- PatchNullable(m, "driveFileId");
      var driveFileUrl :- PatchNullable(m, "driveFileUrl");
      var createdBy :- PatchNullable(m, "createdBy");
      Ok(FieldsPatch(customerDefectId, customerName, partNumber, dcItems, defectName, defectCount,
                     occurrenceDate, status, receivedDate, dueDate, remarks, assignee, assigneeTech,
                     assigneeFactory, correctiveAction, preventiveAction, driveFileId, driveFileUrl,
                     OptionalJson(m, "attachments"), createdBy))
  }

  /** What the update schema guarantees: a supplied status is one of the three
      names and a supplied DC list is non-empty. */
  predicate ValidPatch(p: FieldsPatch)
  {
    && (p.status.Some? ==> StatusFromName(p.status.value).Some?)
    && (p.dcItems.Some? ==> |p.dcItems.value| >= 1)
  }

  /** The update schema accepts exactly the objects whose supplied keys pass
      the creation schema's checks, with the status restricted to the enum. */
  lemma ParseUpdateAccepts(body: Json)
    ensures ParseUpdate(body).Ok? <==> body.JObj? && UpdateAcceptable(body.fields)
  {
    if body.JObj? {
      var m := body.fields;
      ParseUpdateFields(m);
      UpdatePassesIffAcceptable(m);
    }
  }

  /** Every validator of the update schema passes on the body. */
  predicate UpdatePasses(m: map<string, Json>)
  {
    && UpdateTextPasses(m)
    && PatchDcItems(m).Ok?
    && PatchNullableInt(m, "defectCount").Ok?
    && PatchStatus(m).Ok?
  }

  /** Every text validator of the update schema passes on the body. */
  predicate UpdateTextPasses(m: map<string, Json>)
  {
    && PatchNullable(m, "customerDefectId").Ok?
    && PatchString(m, "customerName").Ok?
    && PatchNullable(m, "partNumber").Ok?
    && PatchString(m, "defectName").Ok?
    && PatchNullable(m, "occurrenceDate").Ok?
    && PatchString(m, "receivedDate").Ok?
    && PatchNullable(m, "dueDate").Ok?
    && PatchNullable(m, "remarks").Ok?
    && PatchNullable(m, "assignee").Ok?
    && PatchNullable(m, "assigneeTech").Ok?
    && PatchNullable(m, "assigneeFactory").Ok?
    && PatchNullable(m, "correctiveAction").Ok?
    && PatchNullable(m, "preventiveAction").Ok?
    && PatchNullable(m, "driveFileId").Ok?
    && PatchNullable(m, "driveFileUrl").Ok?
    && PatchNullable(m, "createdBy").Ok?
  }

  /** The patch made of the validators' values. */
  function ParsedUpdate(m: map<string, Json>): FieldsPatch
    requires UpdatePasses(m)
  {
    FieldsPatch(PatchNullable(m, "customerDefectId").value, PatchString(m, "customerName").value,
                PatchNullable(m, "partNumber").value, PatchDcItems(m).value,
                PatchString(m, "defectName").value, PatchNullableInt(m, "defectCount").value,
                PatchNullable(m, "occurrenceDate").value, PatchStatus(m).value,
                PatchString(m, "receivedDate").value, PatchNullable(m, "dueDate").value,
                PatchNullable(m, "remarks").value, PatchNullable(m, "assignee").value,
                PatchNullable(m, "assigneeTech").value, PatchNullable(m, "assigneeFactory").value,
                PatchNullable(m, "correctiveAction").value, PatchNullable(m, "preventiveAction").value,
                PatchNullable(m, "driveFileId").value, PatchNullable(m, "driveFileUrl").value,
                OptionalJson(m, "attachments"), PatchNullable(m, "createdBy").value)
  }

  /** The update parse succeeds exactly when every validator passes, and then
      yields their values. */
  lemma ParseUpdateFields(m: map<string, Json>)
    ensures ParseUpdate(JObj(m)).Ok? <==> UpdatePasses(m)
    ensures UpdatePasses(m) ==> ParseUpdate(JObj(m)).value == ParsedUpdate(m)
  {
  }

  lemma UpdatePassesIffAcceptable(m: map<string, Json>)
    ensures UpdatePasses(m) <==> UpdateAcceptable(m)
  {
    if UpdatePasses(m) {
      UpdatePassesAcceptable(m);
    }
    if UpdateAcceptable(m) {
      UpdateAcceptablePasses(m);
    }
  }

  lemma UpdatePassesAcceptable(m: map<string, Json>)
    requires UpdatePasses(m)
    ensures UpdateAcceptable(m)
  {
    DcListParses(m);
    forall f: RequiredField ensures f.Key() !in m || m[f.Key()].JStr? {
      assert PatchString(m, f.Key()).Ok? by { match f
        case CustomerNameField =>
        case DefectNameField =>
        case ReceivedDateField =>
      }
    }
    forall f: NullableField ensures f.Key() !in m || m[f.Key()].JNull? || m[f.Key()].JStr? {
      assert PatchNullable(m, f.Key()).Ok? by { match f
        case CustomerDefectIdField =>
        case PartNumberField =>
        case OccurrenceDateField =>
        case DueDateField =>
        case RemarksField =>
        case AssigneeField =>
        case AssigneeTechField =>
        case AssigneeFactoryField =>
        case CorrectiveActionField =>
        case PreventiveActionField =>
        case DriveFileIdField =>
        case DriveFileUrlField =>
        case CreatedByField =>
      }
    }
  }

  lemma UpdateAcceptablePasses(m: map<string, Json>)
    requires UpdateAcceptable(m)
    ensures UpdatePasses(m)
  {
    DcListParses(m);
    UpdateTextAccepted(m);
  }
  /** Key by key, the text columns the update schema accepts pass their validators. */
  lemma UpdateTextAccepted(m: map<string, Json>)
    requires forall f: RequiredField :: f.Key() !in m || m[f.Key()].JStr?
    requires forall f: NullableField :: f.Key() !in m || m[f.Key()].JNull? || m[f.Key()].JStr?
    ensures UpdateTextPasses(m)
  {
    FieldKeys();
    RequiredFieldPatches(m, CustomerNameField);
    RequiredFieldPatches(m, DefectNameField);
    RequiredFieldPatches(m, ReceivedDateField);
    NullableFieldPatches(m, CustomerDefectIdField);
    NullableFieldPatches(m, PartNumberField);
    NullableFieldPatches(m, OccurrenceDateField);
    NullableFieldPatches(m, DueDateField);
    NullableFieldPatches(m, RemarksField);
    NullableFieldPatches(m, AssigneeField);
    NullableFieldPatches(m, AssigneeTechField);
    NullableFieldPatches(m, AssigneeFactoryField);
    NullableFieldPatches(m, CorrectiveActionField);
    NullableFieldPatches(m, PreventiveActionField);
    NullableFieldPatches(m, DriveFileIdField);
    NullableFieldPatches(m, DriveFileUrlField);
    NullableFieldPatches(m, CreatedByField);
  }


  /** An accepted update reads back: an absent key leaves its field alone,
      `null` under a nullable key clears it, and a value sets it. */
  lemma ParseUpdateReadsBack(body: Json)
    requires ParseUpdate(body).Ok?
    ensures body.JObj?
    ensures var p := ParseUpdate(body).value;
            var m := body.fields;
            && (forall f: RequiredField ::
                  PatchRequiredText(p, f) == if f.Key() in m then Some(m[f.Key()].s) else None)
            && (forall f: NullableField ::
                  PatchText(p, f) == if f.Key() !in m then None else Some(TextOrNone(m, f.Key())))
            && p.defectCount == (if "defectCount" !in m then None else Some(IntOrNone(m, "defectCount")))
            && p.status == (if "status" in m then Some(m["status"].s) else None)
            && ("dcItems" in m ==> p.dcItems.Some? && DcItemsRead(p.dcItems.value, m["dcItems"]))
            && ("dcItems" !in m ==> p.dcItems.None?)
            && ("attachments" in m ==> p.attachments == Some(m["attachments"]))
            && ("attachments" !in m ==> p.attachments.None?)
  {
    var m := body.fields;
    ParseUpdateFields(m);
    assert ParseUpdate(body).value == ParsedUpdate(m);
    if "dcItems" in m {
      DcListParses(m);
    }
    PatchTextReadsBack(m);
  }

  lemma PatchTextReadsBack(m: map<string, Json>)
    requires UpdatePasses(m)
    ensures forall f: RequiredField ::
              PatchRequiredText(ParsedUpdate(m), f) == if f.Key() in m then Some(m[f.Key()].s) else None
    ensures forall f: NullableField ::
              PatchText(ParsedUpdate(m), f) == if f.Key() !in m then None else Some(TextOrNone(m, f.Key()))
  {
    var p := ParsedUpdate(m);
    forall f: RequiredField ensures PatchRequiredText(p, f) == if f.Key() in m then Some(m[f.Key()].s) else None {
      match f
      case CustomerNameField =>
      case DefectNameField =>
      case ReceivedDateField =>
    }
    forall f: NullableField ensures PatchText(p, f) == if f.Key() !in m then None else Some(TextOrNone(m, f.Key())) {
      match f
      case CustomerDefectIdField =>
      case PartNumberField =>
      case OccurrenceDateField =>
      case DueDateField =>
      case RemarksField =>
      case AssigneeField =>
      case AssigneeTechField =>
      case AssigneeFactoryField =>
      case CorrectiveActionField =>
      case PreventiveActionField =>
      case DriveFileIdField =>
      case DriveFileUrlField =>
      case CreatedByField =>
    }
  }

  /** The empty body is a valid update that changes nothing. */
  lemma EmptyUpdateBody()
    ensures ParseUpdate(JObj(map[])) == Ok(EmptyPatch)
  {
  }

  /** A status outside the enum is rejected by the update schema. */
  lemma UpdateRejectsUnknownStatus(m: map<string, Json>, s: string)
    requires StatusFromName(s).None?
    ensures ParseUpdate(JObj(m["status" := JStr(s)])).Err?
  {
    var m' := m["status" := JStr(s)];
    if ParseUpdate(JObj(m')).Ok? {
      assert PatchStatus(m').Err?;
    }
  }
}
