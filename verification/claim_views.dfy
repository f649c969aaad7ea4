/** The read-only views of the claims: the detail mapping
    (`client/src/pages/ClaimDetail.tsx`), the three work queues
    (`AcceptanceList.tsx`, `CountermeasureList.tsx`,
    `TechnicalApprovalList.tsx`) and the searchable claims list
    (`ClaimsList.tsx`), all under `client/src/pages/`. */
module ClaimViews {
  import opened Wrappers
  import opened Schema
  import Seqs
  import Text

  // ---- table rows ----

  /** `ClaimRow`, the record a claims table shows. */
  datatype ClaimRow = ClaimRow(
    id: string,
    tcarNo: string,
    customerDefectId: Option<string>,
    customerName: string,
    partNumber: Option<string>,
    dc: Option<string>,
    defectName: string,
    defectCount: Option<int>,
    occurrenceDate: Option<string>,
    status: string,
    dueDate: Option<string>,
    assignee: Option<string>)

  /** `s || undefined` on a nullable text column: null and "" are dropped. */
  function TruthyText(s: Option<string>): (r: Option<string>)
    ensures r.None? <==> s.None? || s.value == ""
    ensures r.Some? ==> r == s
  {
    if s.Some? && s.value != "" then s else None
  }

  /** `n || undefined` on a nullable integer column: null and 0 are dropped. */
  function TruthyCount(n: Option<int>): (r: Option<int>)
    ensures r.None? <==> n.None? || n.value == 0
    ensures r.Some? ==> r == n
  {
    if n.Some? && n.value != 0 then n else None
  }

  /** The `dc` of the first DC item, when there is one. */
  function FirstDc(items: seq<DcItem>): (r: Option<string>)
    ensures r.Some? <==> |items| > 0
    ensures r.Some? ==> r.value == items[0].dc
  {
    if |items| > 0 then Some(items[0].dc) else None
  }

  /** The row of the claims list: copies the identifying fields, takes the
      first DC, and drops falsy optional fields. */
  function ListRow(c: Claim): (r: ClaimRow)
    ensures r.id == c.id && r.tcarNo == c.tcarNo && r.status == c.fields.status
    ensures r.customerName == c.fields.customerName && r.defectName == c.fields.defectName
    ensures r.dc == FirstDc(c.fields.dcItems)
    ensures r.customerDefectId == TruthyText(c.fields.customerDefectId)
    ensures r.partNumber == TruthyText(c.fields.partNumber)
    ensures r.defectCount == TruthyCount(c.fields.defectCount)
    ensures r.occurrenceDate == TruthyText(c.fields.occurrenceDate)
    ensures r.dueDate == TruthyText(c.fields.dueDate) && r.assignee == TruthyText(c.fields.assignee)
  {
    var f := c.fields;
    ClaimRow(c.id, c.tcarNo, TruthyText(f.customerDefectId), f.customerName, TruthyText(f.partNumber),
             FirstDc(f.dcItems), f.defectName, TruthyCount(f.defectCount), TruthyText(f.occurrenceDate),
             f.status, TruthyText(f.dueDate), TruthyText(f.assignee))
  }

  /** The row of a work queue: the same mapping without `dc` and
      `occurrenceDate`. */
  function QueueRow(c: Claim): (r: ClaimRow)
    ensures r == ListRow(c).(dc := None, occurrenceDate := None)
  {
    var f := c.fields;
    ClaimRow(c.id, c.tcarNo, TruthyText(f.customerDefectId), f.customerName, TruthyText(f.partNumber),
             None, f.defectName, TruthyCount(f.defectCount), None,
             f.status, TruthyText(f.dueDate), TruthyText(f.assignee))
  }

  // ---- work queues ----

  predicate AwaitingAcceptance(c: Claim)
  {
    c.fields.status == PendingAcceptance.Name()
  }

  predicate AwaitingCountermeasure(c: Claim)
  {
    c.fields.status == PendingCountermeasure.Name()
  }

  /** In countermeasure with a document uploaded (`!!c.driveFileUrl`). */
  predicate AwaitingApproval(c: Claim)
  {
    AwaitingCountermeasure(c) && c.fields.driveFileUrl.Some? && c.fields.driveFileUrl.value != ""
  }

  function AcceptanceQueue(claims: seq<Claim>): (r: seq<Claim>)
    ensures forall c :: c in r <==> c in claims && AwaitingAcceptance(c)
  {
    Seqs.Filter(claims, AwaitingAcceptance)
  }

  function CountermeasureQueue(claims: seq<Claim>): (r: seq<Claim>)
    ensures forall c :: c in r <==> c in claims && AwaitingCountermeasure(c)
  {
    Seqs.Filter(claims, AwaitingCountermeasure)
  }

  function ApprovalQueue(claims: seq<Claim>): (r: seq<Claim>)
    ensures forall c :: c in r <==> c in claims && AwaitingApproval(c)
  {
    Seqs.Filter(claims, AwaitingApproval)
  }

  /** The rows a queue page shows, in the order the server listed the claims. */
  function QueueRows(queue: seq<Claim>): (r: seq<ClaimRow>)
    ensures |r| == |queue| && forall i :: 0 <= i < |queue| ==> r[i] == QueueRow(queue[i])
  {
    Seqs.Map(queue, QueueRow)
  }

  /** Each queue lists its claims in server order. */
  lemma QueuesKeepOrder(claims: seq<Claim>)
    ensures Seqs.IsSubsequence(AcceptanceQueue(claims), claims)
    ensures Seqs.IsSubsequence(CountermeasureQueue(claims), claims)
    ensures Seqs.IsSubsequence(ApprovalQueue(claims), claims)
  {
    Seqs.FilterIsSubsequence(claims, AwaitingAcceptance);
    Seqs.FilterIsSubsequence(claims, AwaitingCountermeasure);
    Seqs.FilterIsSubsequence(claims, AwaitingApproval);
  }

  /** No claim waits in both the acceptance and the countermeasure queue, the
      approval queue lies within the countermeasure queue, and a COMPLETED
      claim waits nowhere. */
  lemma QueuesDisjoint(claims: seq<Claim>)
    ensures forall c :: !(c in AcceptanceQueue(claims) && c in CountermeasureQueue(claims))
    ensures forall c :: c in ApprovalQueue(claims) ==> c in CountermeasureQueue(claims)
    ensures forall c :: c in claims && c.fields.status == Completed.Name() ==>
              c !in AcceptanceQueue(claims) && c !in CountermeasureQueue(claims) && c !in ApprovalQueue(claims)
  {
  }

  /** The approval queue keeps the countermeasure queue's order: it is that
      queue filtered by "has a document". */
  lemma {:induction false} ApprovalWithinCountermeasure(claims: seq<Claim>)
    ensures ApprovalQueue(claims) == Seqs.Filter(CountermeasureQueue(claims), AwaitingApproval)
    decreases |claims|
  {
    if |claims| > 0 {
      ApprovalWithinCountermeasure(claims[1..]);
    }
  }

  // ---- routing ----

  /** Where the claims list sends a click on a row. */
  function ListRoute(row: ClaimRow): (path: string)
    ensures row.status == PendingAcceptance.Name() ==> path == "/claims/acceptance/" + row.id
    ensures row.status == PendingCountermeasure.Name() ==> path == "/claims/countermeasure/" + row.id
    ensures row.status != PendingAcceptance.Name() && row.status != PendingCountermeasure.Name() ==>
              path == "/claims/" + row.id
  {
    if row.status == PendingAcceptance.Name() then "/claims/acceptance/" + row.id
    else if row.status == PendingCountermeasure.Name() then "/claims/countermeasure/" + row.id
    else "/claims/" + row.id
  }

  /** Where the three queue pages send a click. */
  function AcceptanceRoute(id: string): string { "/claims/acceptance/" + id }
  function CountermeasureRoute(id: string): string { "/claims/countermeasure/" + id }
  function ApprovalRoute(id: string): string { "/approvals/" + id }

  /** A claim waiting for acceptance or countermeasure opens the same page
      from its queue as from the claims list; a claim in the approval queue
      opens the approval page from there but the countermeasure page from the
      claims list. */
  lemma QueueRoutesAgree(c: Claim)
    ensures AwaitingAcceptance(c) ==> ListRoute(ListRow(c)) == AcceptanceRoute(c.id)
    ensures AwaitingCountermeasure(c) ==> ListRoute(ListRow(c)) == CountermeasureRoute(c.id)
    ensures !AwaitingAcceptance(c) && !AwaitingCountermeasure(c) ==> ListRoute(ListRow(c)) == "/claims/" + c.id
    ensures AwaitingApproval(c) ==> ListRoute(ListRow(c)) != ApprovalRoute(c.id)
  {
    if AwaitingApproval(c) {
      assert ListRoute(ListRow(c))[1] == 'c' && ApprovalRoute(c.id)[1] == 'a';
    }
  }

  /** `filteredClaims.find(c => c.id === id)`: the first shown row with that
      id, routed; nothing happens if no shown row has it. */
  function OpenRow(rows: seq<ClaimRow>, id: string): (r: Option<string>)
    ensures r.None? <==> forall i :: 0 <= i < |rows| ==> rows[i].id != id
    ensures r.Some? ==> exists i :: 0 <= i < |rows| && rows[i].id == id && r.value == ListRoute(rows[i]) &&
                          forall j :: 0 <= j < i ==> rows[j].id != id
    decreases |rows|
  {
    if |rows| == 0 then None
    else if rows[0].id == id then Some(ListRoute(rows[0]))
    else
      var rest := OpenRow(rows[1..], id);
      assert forall i :: 1 <= i < |rows| ==> rows[i] == rows[1..][i - 1];
      rest
  }

  // ---- search and status filter ----

  /** The search and status filter of the claims list: the lower-cased query
      occurs in the lower-cased TCAR number, customer name or defect name, and
      the filter is 'all' or the row's status. */
  predicate Shown(row: ClaimRow, query: string, statusFilter: string)
  {
    var q := Text.ToLower(query);
    && (|| Text.Includes(Text.ToLower(row.tcarNo), q)
        || Text.Includes(Text.ToLower(row.customerName), q)
        || Text.Includes(Text.ToLower(row.defectName), q))
    && (statusFilter == "all" || row.status == statusFilter)
  }

  function FilterRows(rows: seq<ClaimRow>, query: string, statusFilter: string): (r: seq<ClaimRow>)
    ensures forall row :: row in r <==> row in rows && Shown(row, query, statusFilter)
    ensures Seqs.IsSubsequence(r, rows)
  {
    Seqs.FilterIsSubsequence(rows, row => Shown(row, query, statusFilter));
    Seqs.Filter(rows, row => Shown(row, query, statusFilter))
  }

  /** The claims list: every claim mapped to a row, then filtered. */
  function ClaimsList(claims: seq<Claim>, query: string, statusFilter: string): (r: seq<ClaimRow>)
    ensures forall c :: c in claims && Shown(ListRow(c), query, statusFilter) ==> ListRow(c) in r
    ensures forall row :: row in r ==> exists c :: c in claims && row == ListRow(c)
    ensures forall row :: row in r ==> Shown(row, query, statusFilter)
    ensures Seqs.IsSubsequence(r, Seqs.Map(claims, ListRow))
  {
    var rows := Seqs.Map(claims, ListRow);
    forall c | c in claims ensures ListRow(c) in rows {
      var i :| 0 <= i < |claims| && claims[i] == c;
      assert rows[i] == ListRow(c);
    }
    forall row | row in rows ensures exists c :: c in claims && row == ListRow(c) {
      var i :| 0 <= i < |rows| && rows[i] == row;
      assert claims[i] in claims;
    }
    FilterRows(rows, query, statusFilter)
  }

  /** The empty string occurs in every string. */
  lemma EmptyQueryMatches(s: string)
    ensures Text.Includes(s, "")
  {
    assert Text.OccursAt(s, "", 0);
  }

  /** With no query and the filter on 'all', every row is shown, in order. */
  lemma {:induction false} NoFilterShowsAll(rows: seq<ClaimRow>)
    ensures FilterRows(rows, "", "all") == rows
    decreases |rows|
  {
    if |rows| > 0 {
      EmptyQueryMatches(Text.ToLower(rows[0].tcarNo));
      assert Shown(rows[0], "", "all");
      NoFilterShowsAll(rows[1..]);
    }
  }

  /** Narrowing the status filter from 'all' to one status shows exactly the
      rows of that status among those the query already shows. */
  lemma StatusFilterNarrows(rows: seq<ClaimRow>, query: string, status: string)
    requires status != "all"
    ensures forall row :: row in FilterRows(rows, query, status) <==>
              row in FilterRows(rows, query, "all") && row.status == status
  {
  }

  // ---- detail ----

  /** How `createdAt` arrives: a `Date`, a string, or anything else. */
  datatype CreatedAtValue = DateValue(iso: string) | TextValue(text: string) | OtherValue

  /** `ClaimDetail`, the record the detail view shows. */
  datatype Detail = Detail(
    id: string,
    tcarNo: string,
    customerDefectId: Option<string>,
    customerName: string,
    partNumber: Option<string>,
    dc: Option<string>,
    defectName: string,
    defectCount: Option<int>,
    occurrenceDate: Option<string>,
    status: string,
    receivedDate: string,
    dueDate: Option<string>,
    remarks: Option<string>,
    createdBy: Option<string>,
    assigneeTech: Option<string>,
    assigneeFactory: Option<string>,
    correctiveAction: Option<string>,
    preventiveAction: Option<string>,
    createdAt: string)

  /** A `Date` as its ISO string, a string as is, anything else as the
      current time `nowIso`. */
  function CreatedAtText(v: CreatedAtValue, nowIso: string): (r: string)
    ensures v.DateValue? ==> r == v.iso
    ensures v.TextValue? ==> r == v.text
    ensures v.OtherValue? ==> r == nowIso
  {
    match v
    case DateValue(iso) => iso
    case TextValue(t) => t
    case OtherValue => nowIso
  }

  /** `toClaimDetail`: nullable fields keep their value (`?? undefined` maps
      only null away, so "" and 0 survive). */
  function ToDetail(c: Claim, createdAt: CreatedAtValue, nowIso: string): (d: Detail)
    ensures d.id == c.id && d.tcarNo == c.tcarNo && d.status == c.fields.status
    ensures d.customerName == c.fields.customerName && d.defectName == c.fields.defectName
    ensures d.receivedDate == c.fields.receivedDate && d.dc == FirstDc(c.fields.dcItems)
    ensures d.customerDefectId == c.fields.customerDefectId && d.partNumber == c.fields.partNumber
    ensures d.defectCount == c.fields.defectCount && d.occurrenceDate == c.fields.occurrenceDate
    ensures d.dueDate == c.fields.dueDate && d.remarks == c.fields.remarks && d.createdBy == c.fields.createdBy
    ensures d.assigneeTech == c.fields.assigneeTech && d.assigneeFactory == c.fields.assigneeFactory
    ensures d.correctiveAction == c.fields.correctiveAction && d.preventiveAction == c.fields.preventiveAction
    ensures d.createdAt == CreatedAtText(createdAt, nowIso)
  {
    var f := c.fields;
    Detail(c.id, c.tcarNo, f.customerDefectId, f.customerName, f.partNumber, FirstDc(f.dcItems),
           f.defectName, f.defectCount, f.occurrenceDate, f.status, f.receivedDate, f.dueDate,
           f.remarks, f.createdBy, f.assigneeTech, f.assigneeFactory, f.correctiveAction,
           f.preventiveAction, CreatedAtText(createdAt, nowIso))
  }

  /** The list row is the detail with falsy values dropped: the two pages
      agree on every field they both show. */
  function RowOfDetail(d: Detail, dueDate: Option<string>, assignee: Option<string>): ClaimRow
  {
    ClaimRow(d.id, d.tcarNo, TruthyText(d.customerDefectId), d.customerName, TruthyText(d.partNumber),
             d.dc, d.defectName, TruthyCount(d.defectCount), TruthyText(d.occurrenceDate), d.status,
             TruthyText(dueDate), TruthyText(assignee))
  }

  lemma ListRowFromDetail(c: Claim, createdAt: CreatedAtValue, nowIso: string)
    ensures ListRow(c) == RowOfDetail(ToDetail(c, createdAt, nowIso), c.fields.dueDate, c.fields.assignee)
  {
  }

  /** Where they differ: a defect count of 0 shows on the detail page but not
      in the list. */
  lemma ZeroCountOnlyInDetail(c: Claim, createdAt: CreatedAtValue, nowIso: string)
    requires c.fields.defectCount == Some(0)
    ensures ToDetail(c, createdAt, nowIso).defectCount == Some(0)
    ensures ListRow(c).defectCount.None?
  {
  }
}
