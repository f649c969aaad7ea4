/** The pure part of the REST backend (`SupabaseRestStorage`): translating a
    claim between the camelCase record the application uses and the
    snake_case database row. JSON objects are maps; a key that is absent is
    `undefined`. */
module RestMapping {
  import opened Wrappers
  import opened Json
  import opened Schema
  import Storage
  import Numerals

  /** The columns of the `claims` table. */
  datatype Col =
    | Id | TcarNo | CustomerDefectId | CustomerName | PartNumber | DcItems | DefectName
    | DefectCount | OccurrenceDate | Status | ReceivedDate | DueDate | Remarks | Assignee
    | AssigneeTech | AssigneeFactory | CorrectiveAction | PreventiveAction | DriveFileId
    | DriveFileUrl | Attachments | CreatedBy | CreatedAt | UpdatedAt
  {
    /** The columns whose camelCase and snake_case names coincide. */
    predicate SameName()
    {
      Id? || Status? || Remarks? || Assignee? || Attachments?
    }

    /** The camelCase name. */
    function CamelName(): string
    {
      match this
      case Id => "id" case TcarNo => "tcarNo" case CustomerDefectId => "customerDefectId"
      case CustomerName => "customerName" case PartNumber => "partNumber" case DcItems => "dcItems"
      case DefectName => "defectName" case DefectCount => "defectCount"
      case OccurrenceDate => "occurrenceDate" case Status => "status" case ReceivedDate => "receivedDate"
      case DueDate => "dueDate" case Remarks => "remarks" case Assignee => "assignee"
      case AssigneeTech => "assigneeTech" case AssigneeFactory => "assigneeFactory"
      case CorrectiveAction => "correctiveAction" case PreventiveAction => "preventiveAction"
      case DriveFileId => "driveFileId" case DriveFileUrl => "driveFileUrl"
      case Attachments => "attachments" case CreatedBy => "createdBy"
      case CreatedAt => "createdAt" case UpdatedAt => "updatedAt"
    }

    /** The snake_case name. */
    function SnakeName(): string
    {
      match this
      case Id => "id" case TcarNo => "tcar_no" case CustomerDefectId => "customer_defect_id"
      case CustomerName => "customer_name" case PartNumber => "part_number" case DcItems => "dc_items"
      case DefectName => "defect_name" case DefectCount => "defect_count"
      case OccurrenceDate => "occurrence_date" case Status => "status" case ReceivedDate => "received_date"
      case DueDate => "due_date" case Remarks => "remarks" case Assignee => "assignee"
      case AssigneeTech => "assignee_tech" case AssigneeFactory => "assignee_factory"
      case CorrectiveAction => "corrective_action" case PreventiveAction => "preventive_action"
      case DriveFileId => "drive_file_id" case DriveFileUrl => "drive_file_url"
      case Attachments => "attachments" case CreatedBy => "created_by"
      case CreatedAt => "created_at" case UpdatedAt => "updated_at"
    }

    /** How `normalizeClaim` reads the column. */
    function Reading(): Reading
    {
      match this
      case Id => CamelOnly
      case Status => CamelOnly
      case TcarNo => EitherName
      case CustomerName => EitherName
      case DefectName => EitherName
      case ReceivedDate => EitherName
      case DcItems => OrEmptyList
      case Attachments => OrEmptyList
      case CreatedAt => WhenTruthy
      case UpdatedAt => WhenTruthy
      case _ => OrNull
    }
  }

  /** `c.camel`; `c.camel ?? c.snake`; `... ?? null`; `... ?? []`; and
      `c.camel ? c.camel : c.snake ? c.snake : undefined`. */
  datatype Reading = CamelOnly | EitherName | OrNull | OrEmptyList | WhenTruthy

  /** An object key: a column under its camelCase or its snake_case name. */
  datatype Key = Key(col: Col, snake: bool) {
    function Name(): string
    {
      if snake then col.SnakeName() else col.CamelName()
    }
  }

  function Camel(col: Col): Key
  {
    Key(col, false)
  }

  /** The snake_case key; for the columns whose two names coincide it is the
      camelCase key itself. */
  function Snake(col: Col): Key
  {
    Key(col, !col.SameName())
  }

  /** A JSON object as it arrives from the database or a caller. */
  type Row = map<Key, Json>

  /** A claim object: one camelCase key per column. */
  type Object = map<Col, Json>

  const AllCols: set<Col> := {
    Id, TcarNo, CustomerDefectId, CustomerName, PartNumber, DcItems, DefectName, DefectCount,
    OccurrenceDate, Status, ReceivedDate, DueDate, Remarks, Assignee, AssigneeTech, AssigneeFactory,
    CorrectiveAction, PreventiveAction, DriveFileId, DriveFileUrl, Attachments, CreatedBy,
    CreatedAt, UpdatedAt}

  lemma AllColsComplete()
    ensures forall col: Col :: col in AllCols
  {
    forall col: Col ensures col in AllCols {
      match col
      case Id => case TcarNo => case CustomerDefectId => case CustomerName => case PartNumber =>
      case DcItems => case DefectName => case DefectCount => case OccurrenceDate => case Status =>
      case ReceivedDate => case DueDate => case Remarks => case Assignee => case AssigneeTech =>
      case AssigneeFactory => case CorrectiveAction => case PreventiveAction => case DriveFileId =>
      case DriveFileUrl => case Attachments => case CreatedBy => case CreatedAt => case UpdatedAt =>
    }
  }

  // ---- encoding a claim ----

  function OptString(o: Option<string>): Json
  {
    if o.Some? then JStr(o.value) else JNull
  }

  function OptNumber(o: Option<int>): Json
  {
    if o.Some? then JNum(o.value) else JNull
  }

  function DcItemJson(item: DcItem): Json
  {
    JObj(map["dc" := JStr(item.dc), "quantity" := JNum(item.quantity)])
  }

  function DcItemsJson(items: seq<DcItem>): (r: Json)
    ensures r.JArr? && |r.items| == |items|
  {
    JArr(seq(|items|, i requires 0 <= i < |items| => DcItemJson(items[i])))
  }

  /** How an instant travels in JSON: a non-empty text (the ISO rendering in
      the source; here the decimal epoch milliseconds). */
  function Stamp(t: Instant): (r: Json)
    ensures r.JStr? && r.s != ""
  {
    JStr(Numerals.IntToString(t.time))
  }

  /** The JSON value of one mutable field; `None` for the identity columns. */
  function FieldValue(f: ClaimFields, col: Col): Option<Json>
  {
    match col
    case CustomerDefectId => Some(OptString(f.customerDefectId))
    case CustomerName => Some(JStr(f.customerName))
    case PartNumber => Some(OptString(f.partNumber))
    case DcItems => Some(DcItemsJson(f.dcItems))
    case DefectName => Some(JStr(f.defectName))
    case DefectCount => Some(OptNumber(f.defectCount))
    case OccurrenceDate => Some(OptString(f.occurrenceDate))
    case Status => Some(JStr(f.status))
    case ReceivedDate => Some(JStr(f.receivedDate))
    case DueDate => Some(OptString(f.dueDate))
    case Remarks => Some(OptString(f.remarks))
    case Assignee => Some(OptString(f.assignee))
    case AssigneeTech => Some(OptString(f.assigneeTech))
    case AssigneeFactory => Some(OptString(f.assigneeFactory))
    case CorrectiveAction => Some(OptString(f.correctiveAction))
    case PreventiveAction => Some(OptString(f.preventiveAction))
    case DriveFileId => Some(OptString(f.driveFileId))
    case DriveFileUrl => Some(OptString(f.driveFileUrl))
    case Attachments => Some(f.attachments)
    case CreatedBy => Some(OptString(f.createdBy))
    case _ => None
  }

  /** The JSON value of every column of a stored claim. */
  function ClaimValue(c: Claim, col: Col): Json
  {
    match col
    case Id => JStr(c.id)
    case TcarNo => JStr(c.tcarNo)
    case CreatedAt => Stamp(c.createdAt)
    case UpdatedAt => Stamp(c.updatedAt)
    case _ => FieldValue(c.fields, col).GetOr(JNull)
  }

  /** The camelCase object of a claim. */
  function EncodeClaim(c: Claim): (r: Object)
    ensures forall col :: col in r && r[col] == ClaimValue(c, col)
  {
    AllColsComplete();
    map col | col in AllCols :: ClaimValue(c, col)
  }

  /** The database row of a claim, as the REST interface returns it. */
  function EncodeRow(c: Claim): (r: Row)
    ensures forall col :: Snake(col) in r && r[Snake(col)] == ClaimValue(c, col)
    ensures forall k :: k in r ==> k == Snake(k.col)
  {
    SnakeKeysFacts();
    map k | k in SnakeKeys :: ClaimValue(c, k.col)
  }

  const SnakeKeys: set<Key> := set col | col in AllCols :: Snake(col)

  /** The snake_case keys are exactly one per column. */
  lemma SnakeKeysFacts()
    ensures forall col :: Snake(col).col == col
    ensures forall col :: Snake(col) in SnakeKeys
    ensures forall k :: k in SnakeKeys ==> k == Snake(k.col)
  {
    AllColsComplete();
    forall col ensures Snake(col) in SnakeKeys {
      assert col in AllCols;
    }
  }

  // ---- normalizeClaim ----

  function Field(row: Row, k: Key): Option<Json>
  {
    if k in row then Some(row[k]) else None
  }

  /** `c.camel ?? c.snake`. */
  function Either(row: Row, col: Col): Option<Json>
  {
    Coalesce(Field(row, Camel(col)), Field(row, Snake(col)))
  }

  /** `c.camel ? c.camel : c.snake ? c.snake : undefined`. */
  function FirstTruthy(row: Row, col: Col): (r: Option<Json>)
    ensures r.Some? ==> Truthy(r.value)
  {
    if TruthyOpt(Field(row, Camel(col))) then Field(row, Camel(col))
    else if TruthyOpt(Field(row, Snake(col))) then Field(row, Snake(col))
    else None
  }

  /** The value `normalizeClaim` gives one column; `None` is `undefined`. */
  function Read(row: Row, col: Col): Option<Json>
  {
    match col.Reading()
    case CamelOnly => Field(row, Camel(col))
    case EitherName => Either(row, col)
    case OrNull => Coalesce(Either(row, col), Some(JNull))
    case OrEmptyList => Coalesce(Either(row, col), Some(JArr([])))
    case WhenTruthy => FirstTruthy(row, col)
  }

  /** `normalizeClaim(c)`: every key that would be `undefined` is absent. */
  function NormalizeClaim(row: Row): (r: Object)
    ensures forall col :: col in r <==> Read(row, col).Some?
    ensures forall col :: col in r ==> r[col] == Read(row, col).value
  {
    map col | col in AllCols && Read(row, col).Some? :: Read(row, col).value
  }

  /** Nullable columns default to `null` and the two list columns to `[]`,
      so they are always present; the timestamps are present only when truthy. */
  lemma NormalizeDefaults(row: Row, col: Col)
    ensures col.Reading() == OrNull ==>
              col in NormalizeClaim(row) && (IsNullish(Either(row, col)) ==> NormalizeClaim(row)[col] == JNull)
    ensures col.Reading() == OrEmptyList ==>
              col in NormalizeClaim(row) && (IsNullish(Either(row, col)) ==> NormalizeClaim(row)[col] == JArr([]))
    ensures col.Reading() == WhenTruthy && col in NormalizeClaim(row) ==> Truthy(NormalizeClaim(row)[col])
  {
  }

  /** A camelCase value that is present and not `null` wins over the
      snake_case one; otherwise the snake_case value is used. */
  lemma NormalizePrefersCamel(row: Row, col: Col)
    requires col.Reading() in {EitherName, OrNull, OrEmptyList}
    ensures !IsNullish(Field(row, Camel(col))) ==> NormalizeClaim(row)[col] == row[Camel(col)]
    ensures IsNullish(Field(row, Camel(col))) && !IsNullish(Field(row, Snake(col))) ==>
              NormalizeClaim(row)[col] == row[Snake(col)]
  {
  }

  /** `id` and `status` are copied as they are, `null` included, and get no
      default when missing. */
  lemma NormalizeCopiesPlain(row: Row, col: Col)
    requires col.Reading() == CamelOnly
    ensures Camel(col) in row ==> col in NormalizeClaim(row) && NormalizeClaim(row)[col] == row[Camel(col)]
    ensures Camel(col) !in row ==> col !in NormalizeClaim(row)
  {
  }

  /** A database row reads back as the claim it encodes. */
  lemma NormalizeEncodedRow(c: Claim)
    requires !c.fields.attachments.JNull?
    ensures NormalizeClaim(EncodeRow(c)) == EncodeClaim(c)
  {
    var row := EncodeRow(c);
    forall col ensures Read(row, col) == Some(ClaimValue(c, col)) {
      ReadEncodedColumn(c, col);
    }
    AllColsComplete();
  }

  lemma ReadEncodedColumn(c: Claim, col: Col)
    requires !c.fields.attachments.JNull?
    ensures Read(EncodeRow(c), col) == Some(ClaimValue(c, col))
  {
    var row := EncodeRow(c);
    var v := ClaimValue(c, col);
    RowColumn(c, col);
    ReadingFacts(col);
    ValueFacts(c, col);
    ReadSnakeOnly(row, col, v);
  }

  /** A database row holds each column under its snake_case key only. */
  lemma RowColumn(c: Claim, col: Col)
    ensures Snake(col) in EncodeRow(c) && EncodeRow(c)[Snake(col)] == ClaimValue(c, col)
    ensures col.SameName() || Camel(col) !in EncodeRow(c)
  {
    if !col.SameName() {
      assert Camel(col) != Snake(Camel(col).col);
    }
  }

  lemma ValueFacts(c: Claim, col: Col)
    requires !c.fields.attachments.JNull?
    ensures col == DcItems || col == Attachments ==> !ClaimValue(c, col).JNull?
    ensures col == CreatedAt || col == UpdatedAt ==> Truthy(ClaimValue(c, col))
  {
  }

  /** A row that carries a column only under its snake_case name reads as
      that value, given the value passes the column's default. */
  lemma ReadSnakeOnly(row: Row, col: Col, v: Json)
    requires Snake(col) in row && row[Snake(col)] == v
    requires col.SameName() || Camel(col) !in row
    requires col.Reading() == CamelOnly ==> col.SameName()
    requires col.Reading() == OrEmptyList ==> !v.JNull?
    requires col.Reading() == WhenTruthy ==> Truthy(v)
    ensures Read(row, col) == Some(v)
  {
  }

  /** Which columns each reading applies to. */
  lemma ReadingFacts(col: Col)
    ensures col.Reading() == CamelOnly ==> col.SameName()
    ensures col.Reading() == OrEmptyList ==> col == DcItems || col == Attachments
    ensures col.Reading() == WhenTruthy ==> col == CreatedAt || col == UpdatedAt
  {
    match col
    case Id => case TcarNo => case CustomerDefectId => case CustomerName => case PartNumber =>
    case DcItems => case DefectName => case DefectCount => case OccurrenceDate => case Status =>
    case ReceivedDate => case DueDate => case Remarks => case Assignee => case AssigneeTech =>
    case AssigneeFactory => case CorrectiveAction => case PreventiveAction => case DriveFileId =>
    case DriveFileUrl => case Attachments => case CreatedBy => case CreatedAt => case UpdatedAt =>
  }

  // ---- toSnakeCasePayload ----

  /** The value `toSnakeCasePayload` sends for one column. */
  function InsertValue(ins: InsertClaim, col: Col): Option<Json>
  {
    match col
    case CustomerDefectId => Some(OptString(ins.customerDefectId))
    case CustomerName => Some(JStr(ins.customerName))
    case PartNumber => Some(OptString(ins.partNumber))
    case DcItems => Some(DcItemsJson(ins.dcItems))
    case DefectName => Some(JStr(ins.defectName))
    case DefectCount => Some(OptNumber(ins.defectCount))
    case OccurrenceDate => Some(OptString(ins.occurrenceDate))
    case Status => Some(JStr(Storage.InitialStatus(ins.status)))
    case ReceivedDate => Some(JStr(ins.receivedDate))
    case DueDate => Some(OptString(ins.dueDate))
    case Remarks => Some(OptString(ins.remarks))
    case Assignee => Some(OptString(ins.assignee))
    case AssigneeTech => Some(OptString(ins.assigneeTech))
    case AssigneeFactory => Some(OptString(ins.assigneeFactory))
    case CorrectiveAction => Some(OptString(ins.correctiveAction))
    case PreventiveAction => Some(OptString(ins.preventiveAction))
    case DriveFileId => Some(OptString(ins.driveFileId))
    case DriveFileUrl => Some(OptString(ins.driveFileUrl))
    case Attachments => Some(Storage.AttachmentsOrEmpty(ins.attachments))
    case CreatedBy => Some(OptString(ins.createdBy))
    case _ => None
  }

  /** `toSnakeCasePayload(insert, tcarNo)`: the insert body for the REST
      backend. `tcar_no` is added only when `tcarNo` is non-empty. */
  function SnakeCasePayload(ins: InsertClaim, tcarNo: string): (r: Row)
    ensures Snake(TcarNo) in r <==> tcarNo != ""
    ensures Snake(Id) !in r && Snake(CreatedAt) !in r && Snake(UpdatedAt) !in r
    ensures forall k :: k in r ==> k == Snake(k.col)
  {
    var payload := map k | k in SnakeKeys && InsertValue(ins, k.col).Some? :: InsertValue(ins, k.col).value;
    if tcarNo != "" then payload[Snake(TcarNo) := JStr(tcarNo)] else payload
  }

  /** The columns the database generates when it inserts a row. */
  function Generated(id: string, now: Instant): Row
  {
    map[Snake(Id) := JStr(id), Snake(CreatedAt) := Stamp(now), Snake(UpdatedAt) := Stamp(now)]
  }

  /** The REST backend creates the same claim as the in-memory one: the row
      written from the payload reads back as `createClaim`'s record. */
  lemma RestCreateMatchesMemory(ins: InsertClaim, tcarNo: string, id: string, now: Instant)
    requires tcarNo != ""
    ensures SnakeCasePayload(ins, tcarNo) + Generated(id, now) == EncodeRow(Storage.NewClaim(ins, tcarNo, id, now))
    ensures NormalizeClaim(SnakeCasePayload(ins, tcarNo) + Generated(id, now)) == EncodeClaim(Storage.NewClaim(ins, tcarNo, id, now))
  {
    InsertedRow(ins, tcarNo, id, now);
    NormalizeEncodedRow(Storage.NewClaim(ins, tcarNo, id, now));
  }

  lemma InsertedRow(ins: InsertClaim, tcarNo: string, id: string, now: Instant)
    requires tcarNo != ""
    ensures SnakeCasePayload(ins, tcarNo) + Generated(id, now) == EncodeRow(Storage.NewClaim(ins, tcarNo, id, now))
  {
    var row := SnakeCasePayload(ins, tcarNo) + Generated(id, now);
    var enc := EncodeRow(Storage.NewClaim(ins, tcarNo, id, now));
    forall k | k in row ensures k in enc && row[k] == enc[k] {
      InsertedKey(ins, tcarNo, id, now, k);
    }
    forall k | k in enc ensures k in row {
      InsertedKey(ins, tcarNo, id, now, k);
    }
  }

  lemma InsertedKey(ins: InsertClaim, tcarNo: string, id: string, now: Instant, k: Key)
    requires tcarNo != ""
    ensures var row := SnakeCasePayload(ins, tcarNo) + Generated(id, now);
            var enc := EncodeRow(Storage.NewClaim(ins, tcarNo, id, now));
            (k in row <==> k in enc) && (k in row ==> row[k] == enc[k])
  {
    if k != Snake(k.col) {
      InsertedForeignKey(ins, tcarNo, id, now, k);
    } else if k in Generated(id, now) {
      InsertedGeneratedKey(ins, tcarNo, id, now, k);
    } else {
      InsertedPayloadKey(ins, tcarNo, id, now, k);
    }
  }

  lemma InsertedForeignKey(ins: InsertClaim, tcarNo: string, id: string, now: Instant, k: Key)
    requires tcarNo != "" && k != Snake(k.col)
    ensures var row := SnakeCasePayload(ins, tcarNo) + Generated(id, now);
            var enc := EncodeRow(Storage.NewClaim(ins, tcarNo, id, now));
            (k in row <==> k in enc) && (k in row ==> row[k] == enc[k])
  {
    SnakeKeysFacts();
    assert k !in Generated(id, now);
  }

  lemma InsertedGeneratedKey(ins: InsertClaim, tcarNo: string, id: string, now: Instant, k: Key)
    requires tcarNo != "" && k == Snake(k.col) && k in Generated(id, now)
    ensures var row := SnakeCasePayload(ins, tcarNo) + Generated(id, now);
            var enc := EncodeRow(Storage.NewClaim(ins, tcarNo, id, now));
            (k in row <==> k in enc) && (k in row ==> row[k] == enc[k])
  {
    var row := SnakeCasePayload(ins, tcarNo) + Generated(id, now);
    assert row[k] == Generated(id, now)[k];
    RowColumn(Storage.NewClaim(ins, tcarNo, id, now), k.col);
  }

  lemma InsertedPayloadKey(ins: InsertClaim, tcarNo: string, id: string, now: Instant, k: Key)
    requires tcarNo != "" && k == Snake(k.col) && k !in Generated(id, now)
    ensures var row := SnakeCasePayload(ins, tcarNo) + Generated(id, now);
            var enc := EncodeRow(Storage.NewClaim(ins, tcarNo, id, now));
            (k in row <==> k in enc) && (k in row ==> row[k] == enc[k])
  {
    SnakeKeysFacts();
    InsertColumn(ins, tcarNo, id, now, k.col);
    PayloadEntry(ins, tcarNo, k);
  }

  /** What the insert payload holds under one key. */
  lemma PayloadEntry(ins: InsertClaim, tcarNo: string, k: Key)
    requires tcarNo != "" && k == Snake(k.col)
    ensures k.col == TcarNo ==> k in SnakeCasePayload(ins, tcarNo) && SnakeCasePayload(ins, tcarNo)[k] == JStr(tcarNo)
    ensures k.col != TcarNo ==>
              (k in SnakeCasePayload(ins, tcarNo) <==> InsertValue(ins, k.col).Some?) &&
              (k in SnakeCasePayload(ins, tcarNo) ==> SnakeCasePayload(ins, tcarNo)[k] == InsertValue(ins, k.col).value)
  {
    SnakeKeysFacts();
    assert Snake(TcarNo) != k || k.col == TcarNo;
  }

  /** Column by column, the insert payload carries the value of the claim
      `createClaim` builds; the identity columns come from elsewhere. */
  lemma InsertColumn(ins: InsertClaim, tcarNo: string, id: string, now: Instant, col: Col)
    ensures InsertValue(ins, col).Some? ==> InsertValue(ins, col).value == ClaimValue(Storage.NewClaim(ins, tcarNo, id, now), col)
    ensures InsertValue(ins, col).None? <==> col in {Id, TcarNo, CreatedAt, UpdatedAt}
  {
    match col
    case Id => case TcarNo => case CustomerDefectId => case CustomerName => case PartNumber =>
    case DcItems => case DefectName => case DefectCount => case OccurrenceDate => case Status =>
    case ReceivedDate => case DueDate => case Remarks => case Assignee => case AssigneeTech =>
    case AssigneeFactory => case CorrectiveAction => case PreventiveAction => case DriveFileId =>
    case DriveFileUrl => case Attachments => case CreatedBy => case CreatedAt => case UpdatedAt =>
  }

  // ---- the PATCH body of updateClaim ----

  function Supplied<T>(o: Option<T>, f: T -> Json): Option<Json>
  {
    if o.Some? then Some(f(o.value)) else None
  }

  /** The value the PATCH body carries for one column, if any. */
  function PatchValue(p: FieldsPatch, col: Col, now: Instant): Option<Json>
  {
    match col
    case CustomerDefectId => Supplied(p.customerDefectId, OptString)
    case CustomerName => Supplied(p.customerName, (s: string) => JStr(s))
    case PartNumber => Supplied(p.partNumber, OptString)
    case DcItems => Supplied(p.dcItems, DcItemsJson)
    case DefectName => Supplied(p.defectName, (s: string) => JStr(s))
    case DefectCount => Supplied(p.defectCount, OptNumber)
    case OccurrenceDate => Supplied(p.occurrenceDate, OptString)
    case Status => Supplied(p.status, (s: string) => JStr(s))
    case ReceivedDate => Supplied(p.receivedDate, (s: string) => JStr(s))
    case DueDate => Supplied(p.dueDate, OptString)
    case Remarks => Supplied(p.remarks, OptString)
    case Assignee => Supplied(p.assignee, OptString)
    case AssigneeTech => Supplied(p.assigneeTech, OptString)
    case AssigneeFactory => Supplied(p.assigneeFactory, OptString)
    case CorrectiveAction => Supplied(p.correctiveAction, OptString)
    case PreventiveAction => Supplied(p.preventiveAction, OptString)
    case DriveFileId => Supplied(p.driveFileId, OptString)
    case DriveFileUrl => Supplied(p.driveFileUrl, OptString)
    case Attachments => Supplied(p.attachments, (j: Json) => j)
    case CreatedBy => Supplied(p.createdBy, OptString)
    case UpdatedAt => Some(Stamp(now))
    case _ => None
  }

  /** The snake_case PATCH body of `updateClaim`: one key per supplied field
      plus `updated_at`, with the `undefined` keys deleted. */
  function PatchPayload(p: FieldsPatch, now: Instant): (r: Row)
    ensures Snake(Id) !in r && Snake(TcarNo) !in r && Snake(CreatedAt) !in r
    ensures Snake(UpdatedAt) in r && r[Snake(UpdatedAt)] == Stamp(now)
    ensures forall k :: k in r ==> k == Snake(k.col)
  {
    map k | k in SnakeKeys && PatchValue(p, k.col, now).Some? :: PatchValue(p, k.col, now).value
  }

  /** The columns a patch supplies: the ones it sets, and the update time. */
  predicate Supplies(p: FieldsPatch, col: Col)
  {
    match col
    case CustomerDefectId => p.customerDefectId.Some?
    case CustomerName => p.customerName.Some?
    case PartNumber => p.partNumber.Some?
    case DcItems => p.dcItems.Some?
    case DefectName => p.defectName.Some?
    case DefectCount => p.defectCount.Some?
    case OccurrenceDate => p.occurrenceDate.Some?
    case Status => p.status.Some?
    case ReceivedDate => p.receivedDate.Some?
    case DueDate => p.dueDate.Some?
    case Remarks => p.remarks.Some?
    case Assignee => p.assignee.Some?
    case AssigneeTech => p.assigneeTech.Some?
    case AssigneeFactory => p.assigneeFactory.Some?
    case CorrectiveAction => p.correctiveAction.Some?
    case PreventiveAction => p.preventiveAction.Some?
    case DriveFileId => p.driveFileId.Some?
    case DriveFileUrl => p.driveFileUrl.Some?
    case Attachments => p.attachments.Some?
    case CreatedBy => p.createdBy.Some?
    case UpdatedAt => true
    case Id => false
    case TcarNo => false
    case CreatedAt => false
  }

  /** A column's key is in the PATCH body exactly when the update supplies
      it: every set field, and the update time. */
  lemma PatchPayloadKeys(p: FieldsPatch, now: Instant)
    ensures forall col :: Snake(col) in PatchPayload(p, now) <==> Supplies(p, col)
  {
    forall col ensures Snake(col) in PatchPayload(p, now) <==> Supplies(p, col) {
      PatchEntry(p, now, Snake(col));
      SuppliedValue(p, now, col);
    }
  }

  lemma SuppliedValue(p: FieldsPatch, now: Instant, col: Col)
    ensures PatchValue(p, col, now).Some? <==> Supplies(p, col)
  {
    match col
    case Id => case TcarNo => case CustomerDefectId => case CustomerName => case PartNumber =>
    case DcItems => case DefectName => case DefectCount => case OccurrenceDate => case Status =>
    case ReceivedDate => case DueDate => case Remarks => case Assignee => case AssigneeTech =>
    case AssigneeFactory => case CorrectiveAction => case PreventiveAction => case DriveFileId =>
    case DriveFileUrl => case Attachments => case CreatedBy => case CreatedAt => case UpdatedAt =>
  }

  /** An empty patch sends only the new update time. */
  lemma EmptyPatchPayload(now: Instant)
    ensures PatchPayload(EmptyPatch, now) == map[Snake(UpdatedAt) := Stamp(now)]
  {
    SnakeKeysFacts();
    var e := PatchPayload(EmptyPatch, now);
    forall k | k in e ensures k == Snake(UpdatedAt) {
      EmptyPatchColumn(now, k.col);
    }
    assert Snake(UpdatedAt) in e;
  }

  /** The REST update agrees with the in-memory one: merging the PATCH body
      into the stored row yields the row of the merged claim. */
  lemma RestUpdateMatchesMemory(c: Claim, p: FieldsPatch, now: Instant)
    ensures EncodeRow(c) + PatchPayload(p, now)
              == EncodeRow(c.(fields := Storage.ApplyPatch(c.fields, p), updatedAt := now))
  {
    var lhs := EncodeRow(c) + PatchPayload(p, now);
    var rhs := EncodeRow(c.(fields := Storage.ApplyPatch(c.fields, p), updatedAt := now));
    forall k | k in lhs ensures k in rhs && lhs[k] == rhs[k] {
      UpdatedKey(c, p, now, k);
    }
    forall k | k in rhs ensures k in lhs {
      UpdatedKey(c, p, now, k);
    }
  }

  lemma UpdatedKey(c: Claim, p: FieldsPatch, now: Instant, k: Key)
    ensures var lhs := EncodeRow(c) + PatchPayload(p, now);
            var rhs := EncodeRow(c.(fields := Storage.ApplyPatch(c.fields, p), updatedAt := now));
            (k in lhs <==> k in rhs) && (k in lhs ==> lhs[k] == rhs[k])
  {
    var c' := c.(fields := Storage.ApplyPatch(c.fields, p), updatedAt := now);
    if k == Snake(k.col) {
      RowColumn(c, k.col);
      RowColumn(c', k.col);
      PatchColumn(c, p, now, k.col);
      PatchEntry(p, now, k);
    }
  }

  /** What the PATCH body holds under one key. */
  lemma PatchEntry(p: FieldsPatch, now: Instant, k: Key)
    requires k == Snake(k.col)
    ensures k in PatchPayload(p, now) <==> PatchValue(p, k.col, now).Some?
    ensures k in PatchPayload(p, now) ==> PatchPayload(p, now)[k] == PatchValue(p, k.col, now).value
  {
    SnakeKeysFacts();
  }

  /** Column by column, a supplied value is the merged claim's value and an
      unsupplied column keeps the stored value. */
  lemma PatchColumn(c: Claim, p: FieldsPatch, now: Instant, col: Col)
    ensures PatchValue(p, col, now).Some? ==>
              PatchValue(p, col, now).value == ClaimValue(c.(fields := Storage.ApplyPatch(c.fields, p), updatedAt := now), col)
    ensures PatchValue(p, col, now).None? ==>
              ClaimValue(c, col) == ClaimValue(c.(fields := Storage.ApplyPatch(c.fields, p), updatedAt := now), col)
  {
    match col
    case Id => case TcarNo => case CustomerDefectId => case CustomerName => case PartNumber =>
    case DcItems => case DefectName => case DefectCount => case OccurrenceDate => case Status =>
    case ReceivedDate => case DueDate => case Remarks => case Assignee => case AssigneeTech =>
    case AssigneeFactory => case CorrectiveAction => case PreventiveAction => case DriveFileId =>
    case DriveFileUrl => case Attachments => case CreatedBy => case CreatedAt => case UpdatedAt =>
  }

  lemma EmptyPatchColumn(now: Instant, col: Col)
    ensures PatchValue(EmptyPatch, col, now).Some? <==> col == UpdatedAt
  {
    match col
    case Id => case TcarNo => case CustomerDefectId => case CustomerName => case PartNumber =>
    case DcItems => case DefectName => case DefectCount => case OccurrenceDate => case Status =>
    case ReceivedDate => case DueDate => case Remarks => case Assignee => case AssigneeTech =>
    case AssigneeFactory => case CorrectiveAction => case PreventiveAction => case DriveFileId =>
    case DriveFileUrl => case Attachments => case CreatedBy => case CreatedAt => case UpdatedAt =>
  }
}
