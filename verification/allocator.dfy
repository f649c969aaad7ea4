/** The TCAR number allocator of `POST /api/claims`: numbers have the form
    `YYYYMM-NNNN`, sequential within a month, and the create is retried a
    bounded number of times when the number turns out to be taken. */
module Allocator {
  import opened Wrappers
  import opened Schema
  import Storage
  import Numerals
  import Text

  /** `${getFullYear()}${String(getMonth() + 1).padStart(2, '0')}`. */
  function YearMonth(now: Instant): (r: string)
    requires 0 <= now.month <= 11
    ensures |r| >= 3
    ensures r[|r| - 2..] == [Numerals.DigitChar((now.month + 1) / 10), Numerals.DigitChar((now.month + 1) % 10)]
    ensures now.year >= 0 ==> Numerals.AllDigits(r) && '-' !in r
  {
    MonthKeyShape(now.year, now.month + 1);
    Numerals.IntToString(now.year) + Numerals.Pad2(now.month + 1)
  }

  /** A year's text followed by a two-digit month. */
  lemma MonthKeyShape(year: int, month: nat)
    requires month <= 99
    ensures var r := Numerals.IntToString(year) + Numerals.Pad2(month);
            && |r| >= 3
            && r[|r| - 2..] == [Numerals.DigitChar(month / 10), Numerals.DigitChar(month % 10)]
            && (year >= 0 ==> Numerals.AllDigits(r) && '-' !in r)
  {
    var y := Numerals.IntToString(year);
    var p := Numerals.Pad2(month);
    Numerals.Pad2Digits(month);
    assert |y| >= 1;
    assert (y + p)[|y + p| - 2..] == p;
    if year >= 0 {
      MonthKeyParts(y, p);
    }
  }

  /** For a four-digit year the month key is six digits and carries no dash,
      so it cannot be confused with the `-` that separates the sequence. */
  lemma YearMonthDigits(now: Instant)
    requires 0 <= now.month <= 11
    requires 1000 <= now.year <= 9999
    ensures |YearMonth(now)| == 6 && Numerals.AllDigits(YearMonth(now))
    ensures '-' !in YearMonth(now)
  {
    var y := Numerals.IntToString(now.year);
    var p := Numerals.Pad2(now.month + 1);
    FourDigits(now.year);
    Numerals.Pad2Digits(now.month + 1);
    MonthKeyParts(y, p);
  }

  /** The month key reads back: its first four characters parse to the year and
      its last two are the month number (1..12) as two digits. */
  lemma YearMonthReadsBack(now: Instant)
    requires 0 <= now.month <= 11
    requires 1000 <= now.year <= 9999
    ensures Numerals.ParseInt(YearMonth(now)[..4]) == Some(now.year)
    ensures YearMonth(now)[4..] == [Numerals.DigitChar((now.month + 1) / 10), Numerals.DigitChar((now.month + 1) % 10)]
  {
    var y := Numerals.IntToString(now.year);
    var p := Numerals.Pad2(now.month + 1);
    FourDigits(now.year);
    MonthKeyParts(y, p);
    Numerals.NatStringRoundTrip(now.year);
    Numerals.Pad2Digits(now.month + 1);
  }

  /** The two halves of a month key: digits throughout, and each half recoverable. */
  lemma MonthKeyParts(y: string, p: string)
    requires Numerals.AllDigits(y) && Numerals.AllDigits(p)
    ensures Numerals.AllDigits(y + p) && '-' !in y + p
    ensures (y + p)[..|y|] == y && (y + p)[|y|..] == p
  {
    assert forall i :: 0 <= i < |y + p| ==> (y + p)[i] == if i < |y| then y[i] else p[i - |y|];
  }

  lemma FourDigits(n: nat)
    requires 1000 <= n <= 9999
    ensures |Numerals.NatToString(n)| == 4
  {
    assert Numerals.NatToString(n) == Numerals.NatToString(n / 10) + [Numerals.DigitChar(n % 10)];
    assert Numerals.NatToString(n / 10) == Numerals.NatToString(n / 100) + [Numerals.DigitChar(n / 10 % 10)];
    assert Numerals.NatToString(n / 100) == Numerals.NatToString(n / 1000) + [Numerals.DigitChar(n / 100 % 10)];
  }

  /** `yearMonth + '-' + String(seq).padStart(4, '0')`. */
  function Candidate(yearMonth: string, n: nat): string
  {
    yearMonth + "-" + Numerals.Pad4(n)
  }

  /** `latest.split('-')[1] || ''`: the segment after the first dash, up to
      the next dash if there is one. */
  function SuffixOf(latest: string): (r: string)
    ensures '-' !in latest ==> r == ""
    ensures '-' in latest ==> r == Text.Before(Text.After(latest, '-'), '-')
    ensures '-' !in r
  {
    var parts := Text.Split(latest, '-');
    Text.SplitSecond(latest, '-');
    if |parts| > 1 then parts[1] else ""
  }

  /** The sequence number `makeNext` proposes after reading `latest`. */
  function NextSeq(latest: Option<string>): (r: nat)
    ensures r >= 1
    ensures latest.None? || latest.value == "" ==> r == 1
    ensures latest.Some? && latest.value != "" ==>
              var num := Numerals.ParseInt(SuffixOf(latest.value));
              r == if num.Some? then num.value + 1 else 1
  {
    if latest.None? || latest.value == "" then 1
    else
      var num := Numerals.ParseInt(SuffixOf(latest.value));
      Numerals.ParseIntNonNegative(SuffixOf(latest.value));
      if num.Some? then num.value + 1 else 1
  }

  /** `makeNext()` given what `getLatestTcarForMonth(yearMonth)` returned. */
  function MakeNext(yearMonth: string, latest: Option<string>): (r: string)
    ensures r == Candidate(yearMonth, NextSeq(latest))
    ensures Text.StartsWith(r, yearMonth + "-")
    ensures |r| == |yearMonth| + 1 + if |Numerals.NatToString(NextSeq(latest))| >= 4 then |Numerals.NatToString(NextSeq(latest))| else 4
  {
    var r := Candidate(yearMonth, NextSeq(latest));
    assert r[..|yearMonth + "-"|] == yearMonth + "-";
    r
  }

  /** The sequence number of a candidate reads back from its suffix, for any
      sequence number (padding never truncates). */
  lemma CandidateRoundTrip(yearMonth: string, n: nat)
    requires '-' !in yearMonth
    ensures SuffixOf(Candidate(yearMonth, n)) == Numerals.Pad4(n)
    ensures Numerals.ParseInt(SuffixOf(Candidate(yearMonth, n))) == Some(n)
  {
    var p := Numerals.Pad4(n);
    var c := Candidate(yearMonth, n);
    Numerals.PaddedRoundTrip(n, 4);
    Numerals.NoDashInDigits(p);
    assert c == yearMonth + ['-'] + p;
    assert c[|yearMonth|] == '-';
    Text.BeforeAfterJoin(yearMonth, '-', p);
    Text.BeforeWithout(p, '-');
    assert SuffixOf(c) == Text.Before(Text.After(c, '-'), '-');
  }

  /** After the candidate for `n`, `makeNext` proposes the candidate for `n + 1`. */
  lemma NextAfterCandidate(yearMonth: string, n: nat)
    requires '-' !in yearMonth
    ensures NextSeq(Some(Candidate(yearMonth, n))) == n + 1
    ensures MakeNext(yearMonth, Some(Candidate(yearMonth, n))) == Candidate(yearMonth, n + 1)
  {
    var c := Candidate(yearMonth, n);
    CandidateRoundTrip(yearMonth, n);
    assert |c| > 0;
    assert NextSeq(Some(c)) == n + 1;
  }

  /** Candidates of one month compare as strings the way their numbers do,
      for numbers up to 9999. */
  lemma CandidateOrder(yearMonth: string, a: nat, b: nat)
    requires a <= 9999 && b <= 9999
    ensures Text.LexLess(Candidate(yearMonth, a), Candidate(yearMonth, b)) <==> a < b
  {
    Numerals.Pad4Order(a, b);
    Text.LexLessCommonPrefix(yearMonth + "-", Numerals.Pad4(a), Numerals.Pad4(b));
  }

  /** Distinct numbers give distinct candidates. */
  lemma CandidateInjective(yearMonth: string, a: nat, b: nat)
    requires '-' !in yearMonth
    ensures Candidate(yearMonth, a) == Candidate(yearMonth, b) <==> a == b
  {
    CandidateRoundTrip(yearMonth, a);
    CandidateRoundTrip(yearMonth, b);
  }

  /** The sequence number the allocator reads back from a TCAR number, or 0
      when the suffix does not parse. */
  function SeqOf(tcarNo: string): nat
  {
    var num := Numerals.ParseInt(SuffixOf(tcarNo));
    if num.Some? && num.value >= 0 then num.value else 0
  }

  /** The TCAR numbers carried by the store's claims. */
  function TcarNos(s: Storage.Store): (r: set<string>)
    ensures forall c :: c in s ==> c.tcarNo in r
  {
    set c | c in s :: c.tcarNo
  }

  /** The month's TCAR numbers in the store are exactly the candidates
      1..m, as sequential allocation produces them. */
  predicate Numbered(s: Storage.Store, yearMonth: string, m: nat)
  {
    OnlyCandidates(s, yearMonth, m) && AllIssued(s, yearMonth, m)
  }

  /** Every TCAR number of the month in the store is a candidate in 1..m. */
  predicate OnlyCandidates(s: Storage.Store, yearMonth: string, m: nat)
  {
    forall c :: c in s ==> InRange(c.tcarNo, yearMonth, m)
  }

  /** A TCAR number outside the month, or the month's candidate for a number in 1..m. */
  predicate InRange(tcarNo: string, yearMonth: string, m: nat)
  {
    Text.StartsWith(tcarNo, yearMonth + "-") ==>
      1 <= SeqOf(tcarNo) <= m && tcarNo == Candidate(yearMonth, SeqOf(tcarNo))
  }

  /** Every candidate in 1..m is carried by a stored claim. */
  predicate AllIssued(s: Storage.Store, yearMonth: string, m: nat)
  {
    forall k: nat :: 1 <= k <= m ==> Candidate(yearMonth, k) in TcarNos(s)
  }

  /** In a store numbered 1..m (m below 9999) the month's latest number is the
      candidate for m and the next one proposed is the candidate for m + 1,
      which no stored claim carries. */
  lemma NextInNumberedStore(s: Storage.Store, yearMonth: string, m: nat)
    requires '-' !in yearMonth
    requires m <= 9999
    requires Numbered(s, yearMonth, m)
    ensures m == 0 ==> Storage.LatestTcarForMonth(s, yearMonth).None?
    ensures m > 0 ==> Storage.LatestTcarForMonth(s, yearMonth) == Some(Candidate(yearMonth, m))
    ensures MakeNext(yearMonth, Storage.LatestTcarForMonth(s, yearMonth)) == Candidate(yearMonth, m + 1)
    ensures forall c :: c in s ==> c.tcarNo != Candidate(yearMonth, m + 1)
  {
    if m == 0 {
      EmptyMonth(s, yearMonth);
    } else {
      LatestOfNumbered(s, yearMonth, m);
      NextAfterCandidate(yearMonth, m);
    }
    NextIsFresh(s, yearMonth, m);
  }

  lemma EmptyMonth(s: Storage.Store, yearMonth: string)
    requires Numbered(s, yearMonth, 0)
    ensures Storage.LatestTcarForMonth(s, yearMonth).None?
  {
  }

  /** The number a month's claim carries in a numbered store. */
  lemma NumberOf(s: Storage.Store, yearMonth: string, m: nat, c: Claim) returns (k: nat)
    requires Numbered(s, yearMonth, m)
    requires c in s && Text.StartsWith(c.tcarNo, yearMonth + "-")
    ensures 1 <= k <= m && c.tcarNo == Candidate(yearMonth, k)
  {
    k := SeqOf(c.tcarNo);
  }

  /** The claim carrying number `k` in a numbered store. */
  lemma HolderOf(s: Storage.Store, yearMonth: string, m: nat, k: nat) returns (c: Claim)
    requires Numbered(s, yearMonth, m)
    requires 1 <= k <= m
    ensures c in s && c.tcarNo == Candidate(yearMonth, k)
  {
    assert Candidate(yearMonth, k) in TcarNos(s);
    c :| c in s && c.tcarNo == Candidate(yearMonth, k);
  }

  lemma CandidateHasPrefix(yearMonth: string, n: nat)
    ensures Text.StartsWith(Candidate(yearMonth, n), yearMonth + "-")
  {
    var t := Candidate(yearMonth, n);
    assert t[..|yearMonth + "-"|] == yearMonth + "-";
  }

  lemma LatestOfNumbered(s: Storage.Store, yearMonth: string, m: nat)
    requires 1 <= m <= 9999
    requires Numbered(s, yearMonth, m)
    ensures Storage.LatestTcarForMonth(s, yearMonth) == Some(Candidate(yearMonth, m))
  {
    var t := Candidate(yearMonth, m);
    var d := HolderOf(s, yearMonth, m, m);
    CandidateHasPrefix(yearMonth, m);
    assert Storage.StoredWithPrefix(s, yearMonth + "-", t);
    forall c | c in s && Text.StartsWith(c.tcarNo, yearMonth + "-")
      ensures !Text.LexLess(t, c.tcarNo)
    {
      var k := NumberOf(s, yearMonth, m, c);
      CandidateOrder(yearMonth, m, k);
    }
    Storage.LatestIsUnique(s, yearMonth, t);
  }

  lemma NextIsFresh(s: Storage.Store, yearMonth: string, m: nat)
    requires '-' !in yearMonth
    requires Numbered(s, yearMonth, m)
    ensures forall c :: c in s ==> c.tcarNo != Candidate(yearMonth, m + 1)
  {
    forall c | c in s ensures c.tcarNo != Candidate(yearMonth, m + 1) {
      if c.tcarNo == Candidate(yearMonth, m + 1) {
        CandidateHasPrefix(yearMonth, m + 1);
        var k := NumberOf(s, yearMonth, m, c);
        CandidateInjective(yearMonth, k, m + 1);
      }
    }
  }

  /** Creating the proposed claim keeps the store numbered, now 1..m + 1:
      sequential creates in a month get 0001, 0002, and so on. */
  lemma CreateKeepsNumbering(s: Storage.Store, yearMonth: string, m: nat, ins: InsertClaim, id: string, now: Instant)
    requires '-' !in yearMonth
    requires m <= 9999
    requires Numbered(s, yearMonth, m)
    requires !Storage.Has(s, id)
    ensures var t := MakeNext(yearMonth, Storage.LatestTcarForMonth(s, yearMonth));
            Numbered(Storage.CreateClaim(s, ins, t, id, now).store, yearMonth, m + 1)
  {
    NextInNumberedStore(s, yearMonth, m);
    var t := Candidate(yearMonth, m + 1);
    var r := Storage.CreateClaim(s, ins, t, id, now);
    assert r.store == s + [r.claim];
    AppendNumbered(s, yearMonth, m, r.claim);
  }

  lemma AppendNumbered(s: Storage.Store, yearMonth: string, m: nat, c: Claim)
    requires '-' !in yearMonth
    requires Numbered(s, yearMonth, m)
    requires c.tcarNo == Candidate(yearMonth, m + 1)
    ensures Numbered(s + [c], yearMonth, m + 1)
  {
    AppendOnlyCandidates(s, yearMonth, m, c);
    AppendAllIssued(s, yearMonth, m, c);
  }

  lemma AppendOnlyCandidates(s: Storage.Store, yearMonth: string, m: nat, c: Claim)
    requires '-' !in yearMonth
    requires OnlyCandidates(s, yearMonth, m)
    requires c.tcarNo == Candidate(yearMonth, m + 1)
    ensures OnlyCandidates(s + [c], yearMonth, m + 1)
  {
    var t := Candidate(yearMonth, m + 1);
    CandidateInRange(yearMonth, m + 1);
    assert InRange(c.tcarNo, yearMonth, m + 1) by {
      assert c.tcarNo == t;
    }
    OnlyCandidatesGrow(s, yearMonth, m);
    OnlyCandidatesAppend(s, yearMonth, m + 1, c);
  }

  /** A store of numbers in 1..m holds only numbers in 1..m+1. */
  lemma OnlyCandidatesGrow(s: Storage.Store, yearMonth: string, m: nat)
    requires OnlyCandidates(s, yearMonth, m)
    ensures OnlyCandidates(s, yearMonth, m + 1)
  {
    forall x | x in s ensures InRange(x.tcarNo, yearMonth, m + 1) {
      InRangeGrows(x.tcarNo, yearMonth, m);
    }
  }

  /** A number in range for `m` is in range for `m + 1`. */
  lemma InRangeGrows(tcarNo: string, yearMonth: string, m: nat)
    requires InRange(tcarNo, yearMonth, m)
    ensures InRange(tcarNo, yearMonth, m + 1)
  {
  }

  /** Appending a claim whose number is in range keeps the store in range. */
  lemma OnlyCandidatesAppend(s: Storage.Store, yearMonth: string, m: nat, c: Claim)
    requires OnlyCandidates(s, yearMonth, m)
    requires InRange(c.tcarNo, yearMonth, m)
    ensures OnlyCandidates(s + [c], yearMonth, m)
  {
    forall x | x in s + [c] ensures InRange(x.tcarNo, yearMonth, m) {
      if x !in s {
        assert x == c;
      }
    }
  }

  /** The candidate for `n` is the month's number `n`. */
  lemma CandidateInRange(yearMonth: string, n: nat)
    requires '-' !in yearMonth
    requires 1 <= n
    ensures InRange(Candidate(yearMonth, n), yearMonth, n)
  {
    CandidateRoundTrip(yearMonth, n);
  }

  lemma AppendAllIssued(s: Storage.Store, yearMonth: string, m: nat, c: Claim)
    requires AllIssued(s, yearMonth, m)
    requires c.tcarNo == Candidate(yearMonth, m + 1)
    ensures AllIssued(s + [c], yearMonth, m + 1)
  {
    TcarNosAppend(s, c);
  }

  lemma TcarNosAppend(s: Storage.Store, c: Claim)
    ensures TcarNos(s + [c]) == TcarNos(s) + {c.tcarNo}
  {
    var r := s + [c];
    forall t | t in TcarNos(r) ensures t in TcarNos(s) + {c.tcarNo} {
      var x :| x in r && x.tcarNo == t;
      if x != c {
        assert x in s;
      }
    }
  }

  /** Why a create attempt failed: the unique index on `tcar_no` rejected it. */
  datatype CreateError = DuplicateTcarNo(tcarNo: string)

  /** The retry bound of the route. */
  const MaxAttempts: nat := 3

  /** One create attempt against the backend. The database backend enforces
      the unique index on `tcar_no`; the in-memory backend never fails. */
  function TryCreate(s: Storage.Store, ins: InsertClaim, tcarNo: string, id: string, now: Instant, enforceUnique: bool)
    : (r: Result<Storage.Created, CreateError>)
    ensures r.Err? <==> enforceUnique && Storage.GetClaimByTcarNo(s, tcarNo).Some?
    ensures r.Err? ==> r.error == DuplicateTcarNo(tcarNo)
    ensures r.Ok? ==> r.value == Storage.CreateClaim(s, ins, tcarNo, id, now)
  {
    if enforceUnique && Storage.GetClaimByTcarNo(s, tcarNo).Some? then Err(DuplicateTcarNo(tcarNo))
    else Ok(Storage.CreateClaim(s, ins, tcarNo, id, now))
  }

  /** The loop of `POST /api/claims`: read the month's latest number, propose
      the next, try to create. Claims other requests commit between the read
      and the write of attempt `i` are `interleaved[i]`. At most three
      attempts are made; the third failure is returned as the error. */
  method CreateWithRetry(s: Storage.Store, ins: InsertClaim, now: Instant, id: string,
                         interleaved: seq<seq<Claim>>, enforceUnique: bool)
    returns (result: Result<Storage.Created, CreateError>, store: Storage.Store, attempts: nat, read: Storage.Store)
    requires 0 <= now.month <= 11
    ensures 1 <= attempts <= MaxAttempts
    ensures read == Raced(s, interleaved, attempts - 1)
    ensures !enforceUnique ==> read == s
    ensures result.Ok? ==>
              var tcarNo := MakeNext(YearMonth(now), Storage.LatestTcarForMonth(read, YearMonth(now)));
              result.value == Storage.CreateClaim(CommitAll(read, Racers(interleaved, attempts - 1)), ins, tcarNo, id, now)
    ensures attempts - 1 == LastAttempt(TakenFlags(s, interleaved, now, enforceUnique), 0)
    ensures result.Ok? <==> !Taken(s, interleaved, now, enforceUnique, attempts - 1)
    ensures result.Err? ==> attempts == MaxAttempts
    ensures result.Err? ==> result.error == DuplicateTcarNo(Proposal(s, interleaved, now, attempts - 1))
    ensures !enforceUnique ==> result.Ok? && attempts == 1
    ensures result.Ok? ==> store == result.value.store
    ensures result.Ok? ==> Text.StartsWith(result.value.claim.tcarNo, YearMonth(now) + "-")
    ensures result.Ok? ==> Storage.GetClaim(store, id) == Some(result.value.claim)
    ensures result.Ok? && enforceUnique ==>
              forall other :: other != id && Storage.GetClaim(store, other).Some? ==>
                Storage.GetClaim(store, other).value.tcarNo != result.value.claim.tcarNo
  {
    var yearMonth := YearMonth(now);
    ghost var flags := TakenFlags(s, interleaved, now, enforceUnique);
    store := s;
    attempts := 0;
    read := s;
    while true
      invariant 0 <= attempts < MaxAttempts
      invariant !enforceUnique ==> attempts == 0
      invariant store == Raced(s, interleaved, attempts)
      invariant LastAttempt(flags, attempts) == LastAttempt(flags, 0)
      decreases MaxAttempts - attempts
    {
      read := store;
      var tcarNo := Proposal(s, interleaved, now, attempts);
      store := CommitAll(store, Racers(interleaved, attempts));
      var outcome := TryCreate(store, ins, tcarNo, id, now, enforceUnique);
      AttemptOutcome(s, ins, now, id, interleaved, enforceUnique, attempts);
      attempts := attempts + 1;
      if outcome.Ok? || attempts >= MaxAttempts {
        if outcome.Ok? {
          AttemptSucceeded(store, ins, tcarNo, id, now, yearMonth, enforceUnique);
          store := outcome.value.store;
        }
        result := outcome;
        return;
      }
    }
  }

  /** The number attempt `k` proposes: the successor of the month's latest
      number in the store as that attempt reads it. */
  function Proposal(s: Storage.Store, interleaved: seq<seq<Claim>>, now: Instant, k: nat): string
    requires 0 <= now.month <= 11
  {
    MakeNext(YearMonth(now), Storage.LatestTcarForMonth(Raced(s, interleaved, k), YearMonth(now)))
  }

  /** Attempt `k` fails: with the unique index enforced, a claim committed by
      the time of its write already carries the number it proposed. */
  predicate Taken(s: Storage.Store, interleaved: seq<seq<Claim>>, now: Instant, enforceUnique: bool, k: nat)
    requires 0 <= now.month <= 11
  {
    && enforceUnique
    && Storage.GetClaimByTcarNo(CommitAll(Raced(s, interleaved, k), Racers(interleaved, k)),
                                Proposal(s, interleaved, now, k)).Some?
  }

  /** Attempt by attempt, whether the number it proposes is taken. */
  function TakenFlags(s: Storage.Store, interleaved: seq<seq<Claim>>, now: Instant, enforceUnique: bool): (taken: seq<bool>)
    requires 0 <= now.month <= 11
    ensures |taken| == MaxAttempts
    ensures forall k :: 0 <= k < MaxAttempts ==> taken[k] == Taken(s, interleaved, now, enforceUnique, k)
  {
    seq(MaxAttempts, k requires 0 <= k => Taken(s, interleaved, now, enforceUnique, k))
  }

  /** The index of the attempt that ends the loop: from attempt `k` on, the
      first whose number is free, or the last one allowed. */
  function LastAttempt(taken: seq<bool>, k: nat): nat
    requires k < |taken|
    decreases |taken| - k
  {
    if k + 1 >= |taken| || !taken[k] then k else LastAttempt(taken, k + 1)
  }

  /** The loop stops at the first free number: every attempt before the last
      found its number taken, and no more attempts are made than allowed. */
  lemma {:induction false} LastAttemptAfterTaken(taken: seq<bool>, k: nat)
    requires k < |taken|
    ensures k <= LastAttempt(taken, k) < |taken|
    ensures !taken[LastAttempt(taken, k)] || LastAttempt(taken, k) == |taken| - 1
    ensures forall j :: k <= j < LastAttempt(taken, k) ==> taken[j]
    decreases |taken| - k
  {
    if k + 1 < |taken| && taken[k] {
      LastAttemptAfterTaken(taken, k + 1);
    }
  }

  /** Attempt `k`, run against the store it writes to: it fails exactly when
      its number is taken, and then reports that number. */
  lemma AttemptOutcome(s: Storage.Store, ins: InsertClaim, now: Instant, id: string,
                       interleaved: seq<seq<Claim>>, enforceUnique: bool, k: nat)
    requires 0 <= now.month <= 11
    requires k < MaxAttempts
    ensures var o := TryCreate(CommitAll(Raced(s, interleaved, k), Racers(interleaved, k)), ins,
                               Proposal(s, interleaved, now, k), id, now, enforceUnique);
            var taken := TakenFlags(s, interleaved, now, enforceUnique);
            && (o.Err? <==> Taken(s, interleaved, now, enforceUnique, k))
            && (o.Err? ==> o.error == DuplicateTcarNo(Proposal(s, interleaved, now, k)))
            && (k + 1 < MaxAttempts && o.Err? ==> LastAttempt(taken, k) == LastAttempt(taken, k + 1))
            && (o.Ok? || k + 1 >= MaxAttempts ==> LastAttempt(taken, k) == k)
  {
  }

  /** What a successful attempt leaves behind: the claim under its id, carrying
      the proposed number, and with the unique index the only one that does. */
  lemma AttemptSucceeded(s: Storage.Store, ins: InsertClaim, tcarNo: string, id: string, now: Instant,
                         yearMonth: string, enforceUnique: bool)
    requires Text.StartsWith(tcarNo, yearMonth + "-")
    requires TryCreate(s, ins, tcarNo, id, now, enforceUnique).Ok?
    ensures var r := TryCreate(s, ins, tcarNo, id, now, enforceUnique).value;
            && r == Storage.CreateClaim(s, ins, tcarNo, id, now)
            && Text.StartsWith(r.claim.tcarNo, yearMonth + "-")
            && Storage.GetClaim(r.store, id) == Some(r.claim)
            && (enforceUnique ==>
                  forall other :: other != id && Storage.GetClaim(r.store, other).Some? ==>
                    Storage.GetClaim(r.store, other).value.tcarNo != r.claim.tcarNo)
  {
    if enforceUnique {
      UniqueAfterCreate(s, ins, tcarNo, id, now);
    }
  }

  /** The claims other requests commit during attempt `i`. */
  function Racers(interleaved: seq<seq<Claim>>, i: nat): seq<Claim>
  {
    if i < |interleaved| then interleaved[i] else []
  }

  /** The store after the racers of the first `n` attempts have committed. */
  function Raced(s: Storage.Store, interleaved: seq<seq<Claim>>, n: nat): Storage.Store
  {
    if n == 0 then s else CommitAll(Raced(s, interleaved, n - 1), Racers(interleaved, n - 1))
  }

  /** Claims committed by concurrent requests. */
  function CommitAll(s: Storage.Store, racers: seq<Claim>): Storage.Store
    decreases |racers|
  {
    if |racers| == 0 then s else CommitAll(Storage.Put(s, racers[0]), racers[1..])
  }

  /** When no stored claim carries the number, the created claim is the only
      one that does. */
  lemma UniqueAfterCreate(s: Storage.Store, ins: InsertClaim, tcarNo: string, id: string, now: Instant)
    requires Storage.GetClaimByTcarNo(s, tcarNo).None?
    ensures var r := Storage.CreateClaim(s, ins, tcarNo, id, now);
            forall other :: other != id && Storage.GetClaim(r.store, other).Some? ==>
              Storage.GetClaim(r.store, other).value.tcarNo != tcarNo
  {
  }
}
