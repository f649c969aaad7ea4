/** The claim registration form (`client/src/components/NewClaimForm.tsx`)
    and the page that posts it (`client/src/pages/NewClaim.tsx`): the DC-item
    editor, the quantity input, the re-entrant submit guard, the customer
    options, the received date and the creation payload. */
module NewClaim {
  import opened Wrappers
  import opened Json
  import opened Schema
  import Seqs
  import Text
  import Numerals
  import Storage
  import SD = SettingsDefaults
  import CustomerSettings

  // ---- the form ----

  /** `ClaimFormData` without the selected files (uploads are I/O). */
  datatype FormData = FormData(
    customerDefectId: string,
    customerName: string,
    partNumber: string,
    dcItems: seq<DcItem>,
    defectName: string,
    occurrenceDate: string,
    remarks: string,
    assignee: string)

  /** A fresh DC row: no DC number, quantity 1. */
  const BlankItem := DcItem("", 1)

  /** The form as the page first shows it. */
  const InitialForm := FormData("", "", "", [BlankItem], "", "", "", "")

  /** `addDcItem`: a blank row at the end; the rest of the form is unchanged. */
  function AddDcItem(f: FormData): (r: FormData)
    ensures |r.dcItems| == |f.dcItems| + 1
    ensures r.dcItems[..|f.dcItems|] == f.dcItems && r.dcItems[|f.dcItems|] == BlankItem
    ensures r.(dcItems := f.dcItems) == f
  {
    f.(dcItems := f.dcItems + [BlankItem])
  }

  /** `removeDcItem(index)`: drops the row at `index`, but never the last row. */
  function RemoveDcItem(f: FormData, index: int): (r: FormData)
    ensures |f.dcItems| <= 1 ==> r == f
    ensures |f.dcItems| > 1 && 0 <= index < |f.dcItems| ==>
              r.dcItems == f.dcItems[..index] + f.dcItems[index + 1..]
    ensures |r.dcItems| >= 1 <==> |f.dcItems| >= 1
    ensures r.(dcItems := f.dcItems) == f
  {
    if |f.dcItems| > 1 then f.(dcItems := Seqs.RemoveAt(f.dcItems, index)) else f
  }

  /** `updateDcItem(index, 'dc', value)`. */
  function UpdateDc(f: FormData, index: nat, value: string): (r: FormData)
    requires index < |f.dcItems|
    ensures |r.dcItems| == |f.dcItems|
    ensures r.dcItems[index] == f.dcItems[index].(dc := value)
    ensures forall i :: 0 <= i < |f.dcItems| && i != index ==> r.dcItems[i] == f.dcItems[i]
    ensures r.(dcItems := f.dcItems) == f
  {
    f.(dcItems := f.dcItems[index := f.dcItems[index].(dc := value)])
  }

  /** `updateDcItem(index, 'quantity', value)`. */
  function UpdateQuantity(f: FormData, index: nat, value: int): (r: FormData)
    requires index < |f.dcItems|
    ensures |r.dcItems| == |f.dcItems|
    ensures r.dcItems[index] == f.dcItems[index].(quantity := value)
    ensures forall i :: 0 <= i < |f.dcItems| && i != index ==> r.dcItems[i] == f.dcItems[i]
    ensures r.(dcItems := f.dcItems) == f
  {
    f.(dcItems := f.dcItems[index := f.dcItems[index].(quantity := value)])
  }

  /** `parseInt(raw) || 1`: text that does not start with a number, and zero,
      become 1; any other parsed value is kept, negative ones included. */
  function QuantityInput(raw: string): (q: int)
    ensures q != 0
    ensures Numerals.ParseInt(raw).None? ==> q == 1
    ensures Numerals.ParseInt(raw).Some? && Numerals.ParseInt(raw).value != 0 ==> q == Numerals.ParseInt(raw).value
  {
    match Numerals.ParseInt(raw)
    case None => 1
    case Some(n) => if n == 0 then 1 else n
  }

  /** Without a minus sign the quantity is at least 1, as the schema demands. */
  lemma QuantityInputPositive(raw: string)
    requires '-' !in raw
    ensures QuantityInput(raw) >= 1
  {
    Numerals.ParseIntNonNegative(raw);
  }

  /** With a minus sign it is not: the input's `min="1"` attribute is left to
      the browser's own form validation. */
  lemma QuantityInputKeepsNegative()
    ensures QuantityInput("-3") == -3
  {
    Numerals.ParseDigits("3");
    assert Numerals.DigitsValue("3") == 3;
  }

  // ---- the editor as a sequence of user actions ----

  /** One action on the DC rows, with the row index the page rendered. */
  datatype DcEdit = AddRow | RemoveRow(index: int) | SetDc(index: int, value: string) | SetQuantity(index: int, raw: string)

  /** The row controls exist only for rows on screen. */
  predicate Renders(f: FormData, e: DcEdit)
  {
    match e
    case SetDc(i, _) => 0 <= i < |f.dcItems|
    case SetQuantity(i, _) => 0 <= i < |f.dcItems|
    case _ => true
  }

  function ApplyEdit(f: FormData, e: DcEdit): (r: FormData)
    requires Renders(f, e)
  {
    match e
    case AddRow => AddDcItem(f)
    case RemoveRow(i) => RemoveDcItem(f, i)
    case SetDc(i, v) => UpdateDc(f, i, v)
    case SetQuantity(i, raw) => UpdateQuantity(f, i, QuantityInput(raw))
  }

  /** The form after `edits`, or `None` if some edit names a row not on screen. */
  function Replay(f: FormData, edits: seq<DcEdit>): Option<FormData>
    decreases |edits|
  {
    if |edits| == 0 then Some(f)
    else if Renders(f, edits[0]) then Replay(ApplyEdit(f, edits[0]), edits[1..])
    else None
  }

  /** Every DC quantity is nonzero, and the list is non-empty. */
  predicate EditorInvariant(f: FormData)
  {
    |f.dcItems| >= 1 && forall i :: 0 <= i < |f.dcItems| ==> f.dcItems[i].quantity != 0
  }

  lemma ApplyEditKeepsInvariant(f: FormData, e: DcEdit)
    requires Renders(f, e) && EditorInvariant(f)
    ensures EditorInvariant(ApplyEdit(f, e))
  {
    var g := ApplyEdit(f, e);
    if e.RemoveRow? && |f.dcItems| > 1 && 0 <= e.index < |f.dcItems| {
      forall i | 0 <= i < |g.dcItems| ensures g.dcItems[i].quantity != 0 {
        if i < e.index {
          assert g.dcItems[i] == f.dcItems[i];
        } else {
          assert g.dcItems[i] == f.dcItems[i + 1];
        }
      }
    }
  }

  /** Whatever the user does, the form keeps at least one DC row and no zero
      quantity. */
  lemma {:induction false} EditsKeepInvariant(f: FormData, edits: seq<DcEdit>)
    requires EditorInvariant(f)
    ensures Replay(f, edits).Some? ==> EditorInvariant(Replay(f, edits).value)
    decreases |edits|
  {
    if |edits| > 0 && Renders(f, edits[0]) {
      ApplyEditKeepsInvariant(f, edits[0]);
      EditsKeepInvariant(ApplyEdit(f, edits[0]), edits[1..]);
    }
  }

  lemma DcItemsNeverEmpty(edits: seq<DcEdit>)
    ensures Replay(InitialForm, edits).Some? ==> |Replay(InitialForm, edits).value.dcItems| >= 1
  {
    EditsKeepInvariant(InitialForm, edits);
  }

  // ---- the submit guard ----

  /** A press of the submit button, or the end (success or error) of the
      request it started. */
  datatype SubmitEvent = Click | Settle

  /** `submittingRef.current`, and how many requests were started and ended. */
  datatype Guard = Guard(inFlight: bool, started: nat, settled: nat)

  /** `handleSubmit`: a click while a request runs returns at once; the
      `finally` block clears the flag whether the request succeeded or not. */
  function SubmitStep(g: Guard, e: SubmitEvent): (r: Guard)
    ensures e.Click? && g.inFlight ==> r == g
    ensures e.Click? && !g.inFlight ==> r.inFlight && r.started == g.started + 1 && r.settled == g.settled
    ensures e.Settle? && g.inFlight ==> !r.inFlight && r.started == g.started && r.settled == g.settled + 1
    ensures e.Settle? && !g.inFlight ==> r == g
  {
    match e
    case Click => if g.inFlight then g else Guard(true, g.started + 1, g.settled)
    case Settle => if g.inFlight then Guard(false, g.started, g.settled + 1) else g
  }

  function RunSubmits(events: seq<SubmitEvent>): Guard
    decreases |events|
  {
    if |events| == 0 then Guard(false, 0, 0)
    else SubmitStep(RunSubmits(events[..|events| - 1]), events[|events| - 1])
  }

  /** At most one request is ever in flight: every started request but the
      current one has settled. */
  lemma {:induction false} AtMostOneInFlight(events: seq<SubmitEvent>)
    ensures RunSubmits(events).started == RunSubmits(events).settled + (if RunSubmits(events).inFlight then 1 else 0)
    decreases |events|
  {
    if |events| > 0 {
      AtMostOneInFlight(events[..|events| - 1]);
    }
  }

  // ---- customer options ----

  /** `defaultCustomerOptions`. */
  const DefaultCustomers: seq<string> := [
    "トヨタ自動車株式会社", "日産自動車株式会社", "ホンダ技研工業株式会社", "マツダ株式会社",
    "スバル株式会社", "三菱自動車工業株式会社", "ダイハツ工業株式会社", "スズキ株式会社"]

  /** The stored `customerList` if it is a non-empty list, the defaults if it
      is absent (read as `'[]'`), empty, not a list, or not JSON. */
  function CustomerOptions(stored: SD.Stored): (r: seq<Json>)
    ensures |r| >= 1
    ensures stored.Parsed? && stored.value.JArr? && |stored.value.items| > 0 ==> r == stored.value.items
    ensures !(stored.Parsed? && stored.value.JArr? && |stored.value.items| > 0) ==> r == Strings(DefaultCustomers).items
  {
    if stored.Parsed? && stored.value.JArr? && |stored.value.items| > 0 then stored.value.items
    else Strings(DefaultCustomers).items
  }

  /** The names the settings page saves are the options offered here, unless
      it saved none, in which case the defaults come back. */
  lemma SavedCustomersOffered(list: seq<string>)
    ensures var saved := CustomerSettings.SaveCustomers(list);
            CustomerOptions(SD.Parsed(Strings(saved))) ==
              Strings(if |saved| > 0 then saved else DefaultCustomers).items
  {
  }

  // ---- received date ----

  /** `${year}-${pad2(month + 1)}-${pad2(date)}` from the local clock; `month`
      counts from 0 as `Date.getMonth` does. */
  function ReceivedDate(year: int, month: int, date: int): (r: string)
    requires 0 <= month <= 11 && 1 <= date <= 31
  {
    Numerals.IntToString(year) + "-" + Numerals.Pad2(month + 1) + "-" + Numerals.Pad2(date)
  }

  /** The received date splits at its dashes into the year, the month number
      (1..12) and the day, each two-digit part zero-padded. */
  lemma ReceivedDateReadsBack(year: int, month: int, date: int)
    requires year >= 0 && 0 <= month <= 11 && 1 <= date <= 31
    ensures var parts := Text.Split(ReceivedDate(year, month, date), '-');
            |parts| == 3 &&
            Numerals.ParseInt(parts[0]) == Some(year) &&
            |parts[1]| == 2 && Numerals.ParseInt(parts[1]) == Some(month + 1) &&
            |parts[2]| == 2 && Numerals.ParseInt(parts[2]) == Some(date)
  {
    var y := Numerals.IntToString(year);
    var m := Numerals.Pad2(month + 1);
    var d := Numerals.Pad2(date);
    Numerals.NatStringRoundTrip(year);
    Numerals.PaddedRoundTrip(month + 1, 2);
    Numerals.PaddedRoundTrip(date, 2);
    Numerals.Pad2Digits(month + 1);
    Numerals.Pad2Digits(date);
    Numerals.NoDashInDigits(y);
    Numerals.NoDashInDigits(m);
    Numerals.NoDashInDigits(d);
    SplitThree(y, m, d);
  }

  lemma SplitThree(a: string, b: string, c: string)
    requires '-' !in a && '-' !in b && '-' !in c
    ensures Text.Split(a + "-" + b + "-" + c, '-') == [a, b, c]
  {
    assert Text.Join([b, c], "-") == b + "-" + c;
    assert Text.Join([a, b, c], "-") == a + "-" + (b + "-" + c);
    assert a + "-" + b + "-" + c == a + "-" + (b + "-" + c);
    Text.SplitJoin([a, b, c], '-');
  }

  // ---- the creation payload ----

  /** `s || undefined`. */
  function OrUndefined(s: string): (r: Option<string>)
    ensures r.None? <==> s == ""
    ensures r.Some? ==> r.value == s
  {
    if s == "" then None else Some(s)
  }

  /** The body `handleSubmit` posts; `None` fields are dropped by
      `JSON.stringify`, and `status` is never sent. */
  datatype Payload = Payload(
    customerDefectId: Option<string>,
    customerName: string,
    partNumber: Option<string>,
    dcItems: seq<DcItem>,
    defectName: string,
    occurrenceDate: Option<string>,
    receivedDate: string,
    remarks: Option<string>,
    assignee: Option<string>)

  function MakePayload(f: FormData, receivedDate: string): (p: Payload)
    ensures p.customerName == f.customerName && p.defectName == f.defectName && p.dcItems == f.dcItems
    ensures p.receivedDate == receivedDate
    ensures p.customerDefectId == OrUndefined(f.customerDefectId) && p.partNumber == OrUndefined(f.partNumber)
    ensures p.occurrenceDate == OrUndefined(f.occurrenceDate)
    ensures p.remarks == OrUndefined(f.remarks) && p.assignee == OrUndefined(f.assignee)
  {
    Payload(OrUndefined(f.customerDefectId), f.customerName, OrUndefined(f.partNumber), f.dcItems,
            f.defectName, OrUndefined(f.occurrenceDate), receivedDate, OrUndefined(f.remarks),
            OrUndefined(f.assignee))
  }

  function DcItemJson(item: DcItem): Json
  {
    JObj(map["dc" := JStr(item.dc), "quantity" := JNum(item.quantity)])
  }

  /** A present optional field as a JSON string; an absent one leaves no key. */
  function PutOptional(m: map<string, Json>, key: string, v: Option<string>): (r: map<string, Json>)
  {
    if v.Some? then m[key := JStr(v.value)] else m
  }

  /** The payload as the JSON object the server receives. */
  function PayloadJson(p: Payload): Json
  {
    var required := map[
      "customerName" := JStr(p.customerName),
      "dcItems" := JArr(Seqs.Map(p.dcItems, DcItemJson)),
      "defectName" := JStr(p.defectName),
      "receivedDate" := JStr(p.receivedDate)];
    var m := PutOptional(PutOptional(PutOptional(PutOptional(PutOptional(
      required, "customerDefectId", p.customerDefectId), "partNumber", p.partNumber),
      "occurrenceDate", p.occurrenceDate), "remarks", p.remarks), "assignee", p.assignee);
    JObj(m)
  }

  /** What the creation schema makes of a payload: the fields it carries, and
      nothing for every field the form does not have. */
  function InsertOf(p: Payload): InsertClaim
  {
    InsertClaim(p.customerDefectId, p.customerName, p.partNumber, p.dcItems, p.defectName, None,
                p.occurrenceDate, None, p.receivedDate, None, p.remarks, p.assignee, None, None,
                None, None, None, None, None, None)
  }

  /** Every DC quantity is at least 1 and there is at least one row. */
  predicate DcItemsValid(items: seq<DcItem>)
  {
    |items| >= 1 && forall i :: 0 <= i < |items| ==> ValidDcItem(items[i])
  }

  lemma {:induction false} DcItemsReadBack(items: seq<DcItem>)
    requires forall i :: 0 <= i < |items| ==> ValidDcItem(items[i])
    ensures ParseDcItems(Seqs.Map(items, DcItemJson)) == Some(items)
    decreases |items|
  {
    if |items| > 0 {
      var js := Seqs.Map(items, DcItemJson);
      assert js[1..] == Seqs.Map(items[1..], DcItemJson);
      DcItemsReadBack(items[1..]);
      assert ParseDcItem(js[0]) == Some(items[0]);
      assert items == [items[0]] + items[1..];
    }
  }

  /** A row with quantity below 1 fails the DC-item schema. */
  lemma {:induction false} DcItemsRejected(items: seq<DcItem>, k: int)
    requires 0 <= k < |items| && !ValidDcItem(items[k])
    ensures ParseDcItems(Seqs.Map(items, DcItemJson)) == None
  {
    var js := Seqs.Map(items, DcItemJson);
    assert ParseDcItem(js[k]) == None;
    ParseDcItemsNone(js, k);
  }

  lemma {:induction false} ParseDcItemsNone(js: seq<Json>, k: int)
    requires 0 <= k < |js| && ParseDcItem(js[k]) == None
    ensures ParseDcItems(js) == None
    decreases k
  {
    if k > 0 {
      ParseDcItemsNone(js[1..], k - 1);
    }
  }

  /** Adding one optional field: the field reads back as sent, every other
      key is untouched. */
  lemma PutOptionalFields(m: map<string, Json>, key: string, v: Option<string>)
    requires key !in m
    ensures var r := PutOptional(m, key, v);
            NullableString(r, key) == Ok(v) &&
            forall k :: k in m ==> k in r && r[k] == m[k]
  {
  }

  lemma PutOptionalAbsent(m: map<string, Json>, key: string, v: Option<string>)
    ensures forall k :: k !in m && k != key ==> k !in PutOptional(m, key, v)
  {
  }

  lemma PutOptionalKeeps(m: map<string, Json>, key: string, v: Option<string>, k: string)
    requires k != key
    ensures NullableString(PutOptional(m, key, v), k) == NullableString(m, k)
  {
  }

  /** The payload object, built one optional field at a time. */
  lemma PayloadSteps(p: Payload) returns (m0: map<string, Json>, m1: map<string, Json>, m2: map<string, Json>,
                                          m3: map<string, Json>, m4: map<string, Json>)
    ensures m0 == map[
      "customerName" := JStr(p.customerName),
      "dcItems" := JArr(Seqs.Map(p.dcItems, DcItemJson)),
      "defectName" := JStr(p.defectName),
      "receivedDate" := JStr(p.receivedDate)]
    ensures m1 == PutOptional(m0, "customerDefectId", p.customerDefectId)
    ensures m2 == PutOptional(m1, "partNumber", p.partNumber)
    ensures m3 == PutOptional(m2, "occurrenceDate", p.occurrenceDate)
    ensures m4 == PutOptional(m3, "remarks", p.remarks)
    ensures PayloadJson(p).fields == PutOptional(m4, "assignee", p.assignee)
  {
    m0 := map[
      "customerName" := JStr(p.customerName),
      "dcItems" := JArr(Seqs.Map(p.dcItems, DcItemJson)),
      "defectName" := JStr(p.defectName),
      "receivedDate" := JStr(p.receivedDate)];
    m1 := PutOptional(m0, "customerDefectId", p.customerDefectId);
    m2 := PutOptional(m1, "partNumber", p.partNumber);
    m3 := PutOptional(m2, "occurrenceDate", p.occurrenceDate);
    m4 := PutOptional(m3, "remarks", p.remarks);
  }

  /** The required fields of the payload object. */
  lemma PayloadRequired(p: Payload)
    ensures var m := PayloadJson(p).fields;
            "customerName" in m && m["customerName"] == JStr(p.customerName) &&
            "defectName" in m && m["defectName"] == JStr(p.defectName) &&
            "receivedDate" in m && m["receivedDate"] == JStr(p.receivedDate) &&
            "dcItems" in m && m["dcItems"] == JArr(Seqs.Map(p.dcItems, DcItemJson))
  {
    var m0, m1, m2, m3, m4 := PayloadSteps(p);
    PutOptionalFields(m0, "customerDefectId", p.customerDefectId);
    PutOptionalFields(m1, "partNumber", p.partNumber);
    PutOptionalFields(m2, "occurrenceDate", p.occurrenceDate);
    PutOptionalFields(m3, "remarks", p.remarks);
    PutOptionalFields(m4, "assignee", p.assignee);
  }

  /** The optional fields of the payload object read back as sent. */
  lemma PayloadOptional(p: Payload)
    ensures var m := PayloadJson(p).fields;
            NullableString(m, "customerDefectId") == Ok(p.customerDefectId) &&
            NullableString(m, "partNumber") == Ok(p.partNumber) &&
            NullableString(m, "occurrenceDate") == Ok(p.occurrenceDate) &&
            NullableString(m, "remarks") == Ok(p.remarks) &&
            NullableString(m, "assignee") == Ok(p.assignee)
  {
    var m0, m1, m2, m3, m4 := PayloadSteps(p);
    PutOptionalFields(m0, "customerDefectId", p.customerDefectId);
    PutOptionalFields(m1, "partNumber", p.partNumber);
    PutOptionalFields(m2, "occurrenceDate", p.occurrenceDate);
    PutOptionalFields(m3, "remarks", p.remarks);
    PutOptionalFields(m4, "assignee", p.assignee);
    PutOptionalKeeps(m4, "assignee", p.assignee, "remarks");
    PutOptionalKeeps(m3, "remarks", p.remarks, "occurrenceDate");
    PutOptionalKeeps(m4, "assignee", p.assignee, "occurrenceDate");
    PutOptionalKeeps(m2, "occurrenceDate", p.occurrenceDate, "partNumber");
    PutOptionalKeeps(m3, "remarks", p.remarks, "partNumber");
    PutOptionalKeeps(m4, "assignee", p.assignee, "partNumber");
    PutOptionalKeeps(m1, "partNumber", p.partNumber, "customerDefectId");
    PutOptionalKeeps(m2, "occurrenceDate", p.occurrenceDate, "customerDefectId");
    PutOptionalKeeps(m3, "remarks", p.remarks, "customerDefectId");
    PutOptionalKeeps(m4, "assignee", p.assignee, "customerDefectId");
  }

  /** A key the form does not send is absent from the payload. */
  lemma PayloadLacks(p: Payload, k: string)
    requires k != "customerName" && k != "dcItems" && k != "defectName" && k != "receivedDate"
    requires k != "customerDefectId" && k != "partNumber" && k != "occurrenceDate"
    requires k != "remarks" && k != "assignee"
    ensures k !in PayloadJson(p).fields
  {
    var m0, m1, m2, m3, m4 := PayloadSteps(p);
    PutOptionalAbsent(m0, "customerDefectId", p.customerDefectId);
    PutOptionalAbsent(m1, "partNumber", p.partNumber);
    PutOptionalAbsent(m2, "occurrenceDate", p.occurrenceDate);
    PutOptionalAbsent(m3, "remarks", p.remarks);
    PutOptionalAbsent(m4, "assignee", p.assignee);
  }

  /** The schema fields the form never sends are absent from the payload. */
  lemma PayloadOmits(p: Payload)
    ensures var m := PayloadJson(p).fields;
            "defectCount" !in m && "status" !in m && "dueDate" !in m && "assigneeTech" !in m &&
            "assigneeFactory" !in m && "correctiveAction" !in m && "preventiveAction" !in m &&
            "driveFileId" !in m && "driveFileUrl" !in m && "attachments" !in m && "createdBy" !in m
  {
    PayloadLacks(p, "defectCount");
    PayloadLacks(p, "status");
    PayloadLacks(p, "dueDate");
    PayloadLacks(p, "assigneeTech");
    PayloadLacks(p, "assigneeFactory");
    PayloadLacks(p, "correctiveAction");
    PayloadLacks(p, "preventiveAction");
    PayloadLacks(p, "driveFileId");
    PayloadLacks(p, "driveFileUrl");
    PayloadLacks(p, "attachments");
    PayloadLacks(p, "createdBy");
  }

  /** The server accepts the posted payload exactly when every DC row has a
      quantity of at least 1, and then reads back what the form sent, with no
      status. */
  lemma PayloadAccepted(p: Payload)
    requires |p.dcItems| >= 1
    ensures DcItemsValid(p.dcItems) ==> ParseInsert(PayloadJson(p)) == Ok(InsertOf(p))
    ensures !DcItemsValid(p.dcItems) ==> ParseInsert(PayloadJson(p)).Err?
  {
    PayloadRequired(p);
    PayloadOptional(p);
    PayloadOmits(p);
    if DcItemsValid(p.dcItems) {
      DcItemsReadBack(p.dcItems);
    } else {
      var k :| 0 <= k < |p.dcItems| && !ValidDcItem(p.dcItems[k]);
      DcItemsRejected(p.dcItems, k);
    }
  }

  /** A claim registered through the form starts as PENDING_ACCEPTANCE and
      stores the form's fields, with empty optional fields as null. */
  lemma RegisteredClaimPending(f: FormData, receivedDate: string, s: Storage.Store, tcarNo: string, id: string, now: Instant)
    requires DcItemsValid(f.dcItems)
    ensures var ins := ParseInsert(PayloadJson(MakePayload(f, receivedDate)));
            ins.Ok? &&
            var c := Storage.CreateClaim(s, ins.value, tcarNo, id, now).claim;
            c.fields.status == PendingAcceptance.Name() &&
            c.fields.customerName == f.customerName && c.fields.dcItems == f.dcItems &&
            c.fields.receivedDate == receivedDate &&
            (c.fields.remarks.None? <==> f.remarks == "")
  {
    PayloadAccepted(MakePayload(f, receivedDate));
  }
}
