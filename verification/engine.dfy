/** The search loop of crack_zip_password (app.py lines 36-110) as a pure
    fold over the candidate sequence. Extracting the test entry is an oracle
    `check` that says, per candidate, what the extraction did. */
module Engine {
  import opened Wrappers
  import CharClasses
  import Generator

  /** The safety limit on failed attempts. */
  const MaxAttempts: nat := 1_000_000
  /** A running snapshot is written after every this-many failures. */
  const ReportEvery: nat := 100

  const MaxAttemptsMessage: string := "Maximum attempts reached. Password too complex."
  const NotFoundMessage: string := "Password not found. Try increasing maximum length."
  const CandidateErrorPrefix: string := "Error: "
  const ArchiveErrorPrefix: string := "Error processing ZIP file: "
  /** The text of the ZeroDivisionError raised by an int / int division. */
  const DivisionByZeroText: string := "division by zero"
  /** The text of the UnboundLocalError raised by reading `progress` before
      any failure assigned it (CPython 3.11 wording). */
  const UnboundProgressText: string :=
    "cannot access local variable 'progress' where it is not associated with a value"

  datatype Status = Running | Success | Failed | Error

  /** One value written to progress_data[task_id]. Absent keys are None. */
  datatype Snapshot = Snapshot(
    progress: real,
    status: Status,
    attempts: Option<nat>,
    password: Option<string>,
    message: Option<string>)

  /** What extracting the test entry with one candidate did: WrongPassword
      stands for RuntimeError or zipfile.BadZipFile, OtherError for any
      other exception, carrying its text. */
  datatype Attempt = Ok | WrongPassword | OtherError(text: string)

  /** Opening the archive either raises (with the exception's text) or
      yields the archive's entry names. */
  datatype Archive = Unreadable(reason: string) | Opened(names: seq<string>)

  /** One search once the archive is open: the candidates in order, the
      oracle, whether there is a test entry to extract, and the estimated
      total used for the progress percentage. */
  datatype Search = Search(cands: seq<string>, check: string -> Attempt, hasTest: bool, approx: nat)

  /** What a search produces: the candidates handed to the archive, the
      running snapshots written on the way, and the terminal snapshot
      written last. */
  datatype Run = Run(tried: seq<string>, reports: seq<Snapshot>, final: Snapshot)

  function Min(x: real, y: real): real {
    if y < x then y else x
  }

  /** min(99, failures / total * 100): the percentage is exact unless it
      would reach 99, where it is held. */
  function Pct(failures: nat, total: nat): (p: real)
    requires total > 0
    ensures 0.0 <= p <= 99.0
    ensures p < 99.0 ==> p * (total as real) == (failures as real) * 100.0
    ensures p == 99.0 <==> (failures as real) * 100.0 >= 99.0 * (total as real)
  {
    var q := failures as real / total as real;
    assert q * (total as real) == failures as real;
    assert q >= 0.0;
    Min(99.0, q * 100.0)
  }

  /** The estimate of app.py lines 42-44: the sum of k^L over the length
      range, k being the number of class NAMES passed in, capped at the
      attempt limit. */
  function Estimate(classCount: nat, minLength: nat, maxLength: nat): nat {
    var total := Generator.SumPow(classCount, minLength, maxLength);
    if total < MaxAttempts then total else MaxAttempts
  }

  /** What the as-written estimate counts: the candidates over an alphabet
      with as many characters as there are class names, capped at the
      attempt limit. */
  lemma EstimateCounts(a: string, minLength: nat, maxLength: nat)
    ensures var n := |Generator.Candidates(a, minLength, maxLength)|;
            Estimate(|a|, minLength, maxLength) == (if n < MaxAttempts then n else MaxAttempts)
  {
    Generator.CandidatesCount(a, minLength, maxLength);
  }

  /** The number of candidates a search can try before it must stop. */
  function Bound(s: Search): nat {
    if |s.cands| < MaxAttempts then |s.cands| else MaxAttempts
  }

  function Report(failures: nat, approx: nat): Snapshot
    requires approx > 0
  {
    Snapshot(Pct(failures, approx), Running, Some(failures), None, None)
  }

  /** The snapshot the outer exception handler writes (app.py lines 96-101). */
  function ArchiveError(text: string): Snapshot {
    Snapshot(0.0, Error, None, None, Some(ArchiveErrorPrefix + text))
  }

  /** The attempts a snapshot reports, zero when it reports none. */
  function AttemptCount(s: Snapshot): nat {
    match s.attempts
    case Some(n) => n
    case None => 0
  }

  predicate IsTerminal(s: Snapshot) {
    s.status != Running
  }

  /** The shape every snapshot has: progress within 0..100, a password
      exactly on success, a message exactly on failure or error, and a
      running snapshot below 100. */
  predicate WellFormed(s: Snapshot) {
    && 0.0 <= s.progress <= 100.0
    && (s.password.Some? <==> s.status == Success)
    && (s.message.Some? <==> (s.status == Failed || s.status == Error))
    && (s.status == Running ==> s.progress <= 99.0)
  }

  /** A running snapshot written after a positive multiple of 100 failures. */
  predicate IsReport(s: Snapshot, approx: nat) {
    && approx > 0
    && s.attempts.Some? && s.attempts.value > 0 && s.attempts.value % ReportEvery == 0
    && s == Report(s.attempts.value, approx)
  }

  /** Running snapshots after more than i failures and at most as many
      as the search can make. */
  predicate Within(s: Search, i: nat, reports: seq<Snapshot>) {
    forall k :: 0 <= k < |reports| ==>
      IsReport(reports[k], s.approx) && i < AttemptCount(reports[k]) <= Bound(s)
  }

  /** Strictly increasing failure counts. */
  predicate Rising(reports: seq<Snapshot>) {
    forall k, l :: 0 <= k < l < |reports| ==> AttemptCount(reports[k]) < AttemptCount(reports[l])
  }

  /** The running snapshots of a search from index i. */
  predicate Trail(s: Search, i: nat, reports: seq<Snapshot>) {
    Within(s, i, reports) && Rising(reports)
  }

  /** The candidates handed to the archive from index i on are a run of
      consecutive candidates starting at i; none when there is no test
      entry. */
  predicate TriedInOrder(s: Search, i: nat, tried: seq<string>) {
    if s.hasTest then i + |tried| <= |s.cands| && tried == s.cands[i .. i + |tried|]
    else tried == []
  }

  lemma ConsAt<T>(x: T, t: seq<T>, k: nat)
    requires k < 1 + |t|
    ensures ([x] + t)[k] == if k == 0 then x else t[k - 1]
  {
  }

  lemma WithinStep(s: Search, i: nat, rest: seq<Snapshot>)
    requires s.approx > 0 && i < |s.cands| && i < MaxAttempts
    requires Within(s, i + 1, rest)
    ensures Within(s, i, (if (i + 1) % ReportEvery == 0 then [Report(i + 1, s.approx)] else []) + rest)
  {
    var head := if (i + 1) % ReportEvery == 0 then [Report(i + 1, s.approx)] else [];
    var all := head + rest;
    forall k | 0 <= k < |all|
      ensures IsReport(all[k], s.approx) && i < AttemptCount(all[k]) <= Bound(s)
    {
      if k >= |head| { assert all[k] == rest[k - |head|]; }
    }
  }

  lemma RisingStep(s: Search, i: nat, rest: seq<Snapshot>)
    requires s.approx > 0
    requires Within(s, i + 1, rest) && Rising(rest)
    ensures Rising((if (i + 1) % ReportEvery == 0 then [Report(i + 1, s.approx)] else []) + rest)
  {
    var head := if (i + 1) % ReportEvery == 0 then [Report(i + 1, s.approx)] else [];
    var all := head + rest;
    forall k, l | 0 <= k < l < |all|
      ensures AttemptCount(all[k]) < AttemptCount(all[l])
    {
      assert all[l] == rest[l - |head|];
      if k >= |head| { assert all[k] == rest[k - |head|]; }
    }
  }

  lemma TrailStep(s: Search, i: nat, rest: seq<Snapshot>)
    requires s.approx > 0 && i < |s.cands| && i < MaxAttempts
    requires Trail(s, i + 1, rest)
    ensures Trail(s, i, (if (i + 1) % ReportEvery == 0 then [Report(i + 1, s.approx)] else []) + rest)
  {
    WithinStep(s, i, rest);
    RisingStep(s, i, rest);
  }

  lemma TriedStep(s: Search, i: nat, rest: seq<string>)
    requires i < |s.cands|
    requires TriedInOrder(s, i + 1, rest)
    ensures TriedInOrder(s, i, (if s.hasTest then [s.cands[i]] else []) + rest)
  {
    if s.hasTest {
      assert s.cands[i .. i + 1 + |rest|] == [s.cands[i]] + s.cands[i + 1 .. i + 1 + |rest|];
    }
  }

  /** The running snapshots for failures i+1 .. n. */
  function Reports(approx: nat, i: nat, n: nat): seq<Snapshot>
    requires approx > 0 || n <= i
    decreases n - i
  {
    if n <= i then []
    else (if (i + 1) % ReportEvery == 0 then [Report(i + 1, approx)] else [])
         + Reports(approx, i + 1, n)
  }

  /** The loop of app.py lines 51-110 from the candidate at index i,
      ending in the not-found snapshot or, through ArchiveError, the outer
      handler's snapshot. The number of failures so far always equals i:
      every candidate before it failed, or the loop would have returned. */
  function Loop(s: Search, i: nat): Run
    requires i <= |s.cands|
    requires i > 0 ==> s.approx > 0
    decreases |s.cands| - i
  {
    if i == |s.cands| then
      Run([], [], Snapshot(100.0, Failed, Some(i), None, Some(NotFoundMessage)))
    else if i >= MaxAttempts then
      Run([], [], Snapshot(100.0, Failed, Some(i), None, Some(MaxAttemptsMessage)))
    else
      var password := s.cands[i];
      var tried := if s.hasTest then [password] else [];
      var outcome := if s.hasTest then s.check(password) else Ok;
      match outcome
      case Ok =>
        Run(tried, [], Snapshot(100.0, Success, Some(i + 1), Some(password), None))
      case WrongPassword =>
        if s.approx == 0 then
          Run(tried, [], ArchiveError(DivisionByZeroText))
        else
          var rest := Loop(s, i + 1);
          var report := if (i + 1) % ReportEvery == 0 then [Report(i + 1, s.approx)] else [];
          Run(tried + rest.tried, report + rest.reports, rest.final)
      case OtherError(text) =>
        if i == 0 then
          Run(tried, [], ArchiveError(UnboundProgressText))
        else
          Run(tried, [], Snapshot(Pct(i, s.approx), Error, Some(i + 1), None,
                                  Some(CandidateErrorPrefix + text)))
  }

  /** Whether the loop at index i meets a wrong password and goes on to
      the next candidate. */
  predicate Continues(s: Search, i: nat)
    requires i <= |s.cands|
  {
    i < |s.cands| && i < MaxAttempts && s.hasTest && s.approx > 0 && s.check(s.cands[i]) == WrongPassword
  }

  /** The loop always ends in a terminal, well-formed snapshot. */
  lemma {:induction false} LoopFinal(s: Search, i: nat)
    requires i <= |s.cands|
    requires i > 0 ==> s.approx > 0
    ensures IsTerminal(Loop(s, i).final) && WellFormed(Loop(s, i).final)
    decreases |s.cands| - i
  {
    if Continues(s, i) {
      assert Loop(s, i).final == Loop(s, i + 1).final;
      LoopFinal(s, i + 1);
    }
  }

  /** The running snapshots of the loop from index i come only at positive
      multiples of 100 failures beyond i, with rising counts, never beyond
      the attempt bound. */
  lemma {:induction false} LoopTrail(s: Search, i: nat)
    requires i <= |s.cands|
    requires i > 0 ==> s.approx > 0
    ensures Trail(s, i, Loop(s, i).reports)
    decreases |s.cands| - i
  {
    if Continues(s, i) {
      var rest := Loop(s, i + 1).reports;
      var head := if (i + 1) % ReportEvery == 0 then [Report(i + 1, s.approx)] else [];
      assert Loop(s, i).reports == head + rest;
      LoopTrail(s, i + 1);
      TrailStep(s, i, rest);
    }
  }

  /** The candidates the loop from index i hands to the archive are a
      contiguous run in generator order, none without a test entry. */
  lemma {:induction false} LoopTried(s: Search, i: nat)
    requires i <= |s.cands|
    requires i > 0 ==> s.approx > 0
    ensures TriedInOrder(s, i, Loop(s, i).tried)
    decreases |s.cands| - i
  {
    if Continues(s, i) {
      var rest := Loop(s, i + 1).tried;
      assert Loop(s, i).tried == [s.cands[i]] + rest;
      LoopTried(s, i + 1);
      TriedStep(s, i, rest);
    }
  }

  /** What every run of the loop from index i looks like. */
  lemma LoopShape(s: Search, i: nat)
    requires i <= |s.cands|
    requires i > 0 ==> s.approx > 0
    ensures IsTerminal(Loop(s, i).final) && WellFormed(Loop(s, i).final)
    ensures Trail(s, i, Loop(s, i).reports)
    ensures TriedInOrder(s, i, Loop(s, i).tried)
  {
    LoopFinal(s, i);
    LoopTrail(s, i);
    LoopTried(s, i);
  }

  // ---------------------------------------------------------------------
  // The whole operation

  /** Whether `if test_file:` holds: a first entry name exists and is not
      the empty string. */
  function HasTestEntry(names: seq<string>): bool {
    |names| > 0 && names[0] != ""
  }

  /** The search over the generated candidates, given the opened archive's
      names and an estimated total. */
  function Plan(names: seq<string>, check: string -> Attempt, minLength: nat, maxLength: nat,
                charSet: seq<string>, approx: nat): Search
  {
    Search(Generator.Candidates(CharClasses.Alphabet(charSet), minLength, maxLength),
           check, HasTestEntry(names), approx)
  }

  /** generate_passwords yields exactly the strings of a length in
      minLength..maxLength whose every character the class names admit. */
  lemma GeneratedPasswords(charSet: seq<string>, minLength: nat, maxLength: nat, w: string)
    ensures w in Generator.Candidates(CharClasses.Alphabet(charSet), minLength, maxLength) <==>
              minLength <= |w| <= maxLength
              && forall i :: 0 <= i < |w| ==> CharClasses.Admits(charSet, w[i])
  {
    Generator.CandidatesMember(CharClasses.Alphabet(charSet), minLength, maxLength, w);
  }

  /** generate_passwords never yields the same password twice. */
  lemma GeneratedDistinct(charSet: seq<string>, minLength: nat, maxLength: nat)
    ensures var cs := Generator.Candidates(CharClasses.Alphabet(charSet), minLength, maxLength);
            forall i, j :: 0 <= i < j < |cs| ==> cs[i] != cs[j]
  {
    var a := CharClasses.Alphabet(charSet);
    CharClasses.OrderedDistinct(a);
    Generator.CandidatesDistinct(a, minLength, maxLength);
  }

  /** crack_zip_password with the estimated total as a parameter: every
      snapshot is well formed, the last one is terminal, running snapshots
      stay at or below 99 and never go down, and an unreadable archive
      ends at once with an error and progress 0. */
  function SearchArchive(archive: Archive, check: string -> Attempt, minLength: nat, maxLength: nat,
                         charSet: seq<string>, approx: nat): (r: Run)
    ensures IsTerminal(r.final) && WellFormed(r.final)
    ensures forall k :: 0 <= k < |r.reports| ==>
              WellFormed(r.reports[k]) && r.reports[k].status == Running
              && r.reports[k].progress <= 99.0
    ensures forall k, l :: 0 <= k < l < |r.reports| ==> r.reports[k].progress <= r.reports[l].progress
    ensures archive.Unreadable? ==>
              r.tried == [] && r.reports == [] && r.final.status == Error
              && r.final.progress == 0.0 && r.final.attempts == None
  {
    match archive
    case Unreadable(reason) => Run([], [], ArchiveError(reason))
    case Opened(names) =>
      var s := Plan(names, check, minLength, maxLength, charSet, approx);
      var r := Loop(s, 0);
      LoopShape(s, 0);
      TrailMonotone(s, 0, r.reports);
      r
  }

  /** crack_zip_password as written: the estimate counts class names. */
  function Crack(archive: Archive, check: string -> Attempt, minLength: nat, maxLength: nat,
                 charSet: seq<string>): (r: Run)
    ensures IsTerminal(r.final) && WellFormed(r.final)
    ensures forall k, l :: 0 <= k < l < |r.reports| ==> r.reports[k].progress <= r.reports[l].progress
  {
    SearchArchive(archive, check, minLength, maxLength, charSet, Estimate(|charSet|, minLength, maxLength))
  }

  lemma PctMonotone(f: nat, g: nat, total: nat)
    requires total > 0 && f <= g
    ensures Pct(f, total) <= Pct(g, total)
  {
    var t := total as real;
    assert f as real / t <= g as real / t by {
      assert (g as real / t) - (f as real / t) == (g - f) as real / t;
    }
  }

  /** Running snapshots never report less progress than earlier ones. */
  lemma TrailMonotone(s: Search, i: nat, reports: seq<Snapshot>)
    requires Trail(s, i, reports)
    ensures forall k :: 0 <= k < |reports| ==>
              WellFormed(reports[k]) && reports[k].status == Running && reports[k].progress <= 99.0
    ensures forall k, l :: 0 <= k < l < |reports| ==> reports[k].progress <= reports[l].progress
  {
    forall k, l | 0 <= k < l < |reports|
      ensures reports[k].progress <= reports[l].progress
    {
      PctMonotone(AttemptCount(reports[k]), AttemptCount(reports[l]), s.approx);
    }
  }

  // ---------------------------------------------------------------------
  // Outcomes

  /** One wrong password: count it, write a running snapshot when the
      count is a multiple of 100, and carry on with the next candidate. */
  lemma WrongStep(s: Search, i: nat)
    requires i < |s.cands| && i < MaxAttempts && s.hasTest && s.approx > 0
    requires s.check(s.cands[i]) == WrongPassword
    ensures Loop(s, i) == Run([s.cands[i]] + Loop(s, i + 1).tried,
                              Reports(s.approx, i, i + 1) + Loop(s, i + 1).reports,
                              Loop(s, i + 1).final)
  {
    assert Reports(s.approx, i + 1, i + 1) == [];
  }

  lemma ConsSlice<T>(xs: seq<T>, i: nat, n: nat, t: seq<T>)
    requires i < n <= |xs|
    ensures xs[i .. n] + t == [xs[i]] + (xs[i + 1 .. n] + t)
  {
  }

  lemma AppendAssoc<T>(a: seq<T>, b: seq<T>, c: seq<T>)
    ensures (a + b) + c == a + (b + c)
  {
  }

  lemma ReportsCons(approx: nat, i: nat, n: nat, t: seq<Snapshot>)
    requires approx > 0 && i < n
    ensures Reports(approx, i, n) + t == Reports(approx, i, i + 1) + (Reports(approx, i + 1, n) + t)
  {
    var head := if (i + 1) % ReportEvery == 0 then [Report(i + 1, approx)] else [];
    assert Reports(approx, i, i + 1) == head by {
      assert Reports(approx, i + 1, i + 1) == [];
    }
    assert Reports(approx, i, n) == head + Reports(approx, i + 1, n);
    AppendAssoc(head, Reports(approx, i + 1, n), t);
  }

  /** Wrong passwords only add failures: from index i the loop tries the
      candidates up to n in order, writes the running snapshots due on the
      way, and then behaves as it does from n. */
  lemma {:induction false} SkipWrong(s: Search, i: nat, n: nat)
    requires i <= n <= |s.cands| && n <= MaxAttempts
    requires s.hasTest && s.approx > 0
    requires forall m :: i <= m < n ==> s.check(s.cands[m]) == WrongPassword
    ensures Loop(s, i) == Run(s.cands[i .. n] + Loop(s, n).tried,
                              Reports(s.approx, i, n) + Loop(s, n).reports,
                              Loop(s, n).final)
    decreases n - i
  {
    if i < n {
      var next, rest := Loop(s, i + 1), Loop(s, n);
      assert Loop(s, i) == Run([s.cands[i]] + next.tried, Reports(s.approx, i, i + 1) + next.reports,
                               next.final) by {
        WrongStep(s, i);
      }
      assert next == Run(s.cands[i + 1 .. n] + rest.tried, Reports(s.approx, i + 1, n) + rest.reports,
                         rest.final) by {
        SkipWrong(s, i + 1, n);
      }
      ConsSlice(s.cands, i, n, rest.tried);
      ReportsCons(s.approx, i, n, rest.reports);
    }
  }

  /** Success on the first match: if the archive first accepts the
      candidate at index n, the search reports it with n + 1 attempts and
      progress 100, after trying exactly the candidates up to it. */
  lemma FirstMatch(s: Search, n: nat)
    requires n < |s.cands| && n < MaxAttempts && s.hasTest
    requires forall m :: 0 <= m < n ==> s.check(s.cands[m]) == WrongPassword
    requires s.check(s.cands[n]) == Ok
    requires n > 0 ==> s.approx > 0
    ensures Loop(s, 0).final == Snapshot(100.0, Success, Some(n + 1), Some(s.cands[n]), None)
    ensures Loop(s, 0).tried == s.cands[.. n + 1]
  {
    if n > 0 {
      SkipWrong(s, 0, n);
    }
    assert s.cands[.. n + 1] == s.cands[0 .. n] + [s.cands[n]];
  }

  /** The converse: a success names the first candidate the archive
      accepted, every earlier one having been a wrong password, within the
      attempt limit. Without a test entry it is always the first candidate. */
  lemma {:induction false} SuccessIsFirstMatch(s: Search, i: nat)
    requires i <= |s.cands| && (i > 0 ==> s.approx > 0)
    ensures var f := Loop(s, i).final;
            f.status == Success ==>
              && f.attempts.Some? && i < f.attempts.value <= Bound(s)
              && f.password == Some(s.cands[f.attempts.value - 1])
              && (s.hasTest ==> s.check(s.cands[f.attempts.value - 1]) == Ok)
              && (s.hasTest ==> forall m :: i <= m < f.attempts.value - 1 ==> s.check(s.cands[m]) == WrongPassword)
              && (!s.hasTest ==> f.attempts.value == i + 1)
    decreases |s.cands| - i
  {
    if i < |s.cands| && i < MaxAttempts && s.hasTest
       && s.check(s.cands[i]) == WrongPassword && s.approx > 0 {
      assert Loop(s, i).final == Loop(s, i + 1).final by {
        WrongStep(s, i);
      }
      SuccessIsFirstMatch(s, i + 1);
    }
  }

  /** An archive that lists no usable entry skips extraction, so the first
      candidate is reported as the password after one attempt. */
  lemma EmptyArchive(s: Search)
    requires !s.hasTest && |s.cands| > 0
    ensures Loop(s, 0) == Run([], [], Snapshot(100.0, Success, Some(1), Some(s.cands[0]), None))
  {
  }

  /** Any other extraction error stops the search at once. After at least
      one failure it reports the last computed progress and failures + 1
      attempts; before any failure `progress` is unbound, and the outer
      handler reports progress 0 without attempts. */
  lemma FatalError(s: Search, n: nat, text: string)
    requires n < |s.cands| && n < MaxAttempts && s.hasTest
    requires forall m :: 0 <= m < n ==> s.check(s.cands[m]) == WrongPassword
    requires s.check(s.cands[n]) == OtherError(text)
    requires n > 0 ==> s.approx > 0
    ensures n == 0 ==> Loop(s, 0).final == ArchiveError(UnboundProgressText)
    ensures n > 0 ==> Loop(s, 0).final == Snapshot(Pct(n, s.approx), Error, Some(n + 1), None,
                                                   Some(CandidateErrorPrefix + text))
    ensures Loop(s, 0).tried == s.cands[.. n + 1]
  {
    if n > 0 {
      SkipWrong(s, 0, n);
    }
    assert s.cands[.. n + 1] == s.cands[0 .. n] + [s.cands[n]];
  }

  /** The cap is checked before each try: once 1,000,000 failures have
      accrued and a candidate remains, the search fails with the
      maximum-attempts message, having tried exactly 1,000,000 candidates. */
  lemma AttemptCap(s: Search)
    requires MaxAttempts < |s.cands| && s.hasTest && s.approx > 0
    requires forall m :: 0 <= m < MaxAttempts ==> s.check(s.cands[m]) == WrongPassword
    ensures Loop(s, 0).final == Snapshot(100.0, Failed, Some(MaxAttempts), None, Some(MaxAttemptsMessage))
    ensures Loop(s, 0).tried == s.cands[.. MaxAttempts]
    ensures Loop(s, 0).reports == Reports(s.approx, 0, MaxAttempts)
  {
    SkipWrong(s, 0, MaxAttempts);
  }

  /** When the generator runs out first, or exactly at the cap, the search
      fails with the not-found message and reports every candidate as an
      attempt. */
  lemma Exhausted(s: Search)
    requires |s.cands| <= MaxAttempts && s.hasTest && (s.approx > 0 || |s.cands| == 0)
    requires forall m :: 0 <= m < |s.cands| ==> s.check(s.cands[m]) == WrongPassword
    ensures Loop(s, 0).final == Snapshot(100.0, Failed, Some(|s.cands|), None, Some(NotFoundMessage))
    ensures Loop(s, 0).tried == s.cands
    ensures Loop(s, 0).reports == Reports(s.approx, 0, |s.cands|)
  {
    if |s.cands| > 0 {
      SkipWrong(s, 0, |s.cands|);
      assert s.cands[0 .. |s.cands|] == s.cands;
    }
  }

  /** With an estimate of zero the first wrong password divides by zero
      inside the handler; the outer handler reports the error. */
  lemma ZeroEstimate(s: Search)
    requires s.approx == 0 && |s.cands| > 0 && s.hasTest
    requires s.check(s.cands[0]) == WrongPassword
    ensures Loop(s, 0) == Run([s.cands[0]], [], ArchiveError(DivisionByZeroText))
  {
  }

  /** There is one running snapshot per multiple of 100 among the failure
      counts i+1 .. n. */
  lemma {:induction false} ReportsLength(approx: nat, i: nat, n: nat)
    requires approx > 0 && i <= n
    ensures |Reports(approx, i, n)| == n / ReportEvery - i / ReportEvery
    decreases n - i
  {
    if i < n {
      ReportsLength(approx, i + 1, n);
      DivStep(i);
    }
  }

  /** Running snapshots are written exactly at the multiples of 100 among
      the failure counts i+1 .. n, in increasing order. */
  lemma {:induction false} ReportsSchedule(approx: nat, i: nat, n: nat)
    requires approx > 0 && i <= n
    ensures |Reports(approx, i, n)| == n / ReportEvery - i / ReportEvery
    ensures forall k :: 0 <= k < |Reports(approx, i, n)| ==>
              Reports(approx, i, n)[k] == Report(ReportEvery * (i / ReportEvery + k + 1), approx)
    decreases n - i
  {
    ReportsLength(approx, i, n);
    if i < n {
      var rest := Reports(approx, i + 1, n);
      var q := i / ReportEvery;
      ReportsSchedule(approx, i + 1, n);
      DivStep(i);
      if (i + 1) % ReportEvery == 0 {
        var head := Report(i + 1, approx);
        assert Reports(approx, i, n) == [head] + rest;
        forall k | 0 <= k < 1 + |rest|
          ensures ([head] + rest)[k] == Report(ReportEvery * (q + k + 1), approx)
        {
          ConsAt(head, rest, k);
        }
      } else {
        assert Reports(approx, i, n) == rest;
      }
    }
  }

  lemma DivStep(i: nat)
    ensures (i + 1) % ReportEvery == 0 ==>
              (i + 1) / ReportEvery == i / ReportEvery + 1 && i + 1 == ReportEvery * (i / ReportEvery + 1)
    ensures (i + 1) % ReportEvery != 0 ==> (i + 1) / ReportEvery == i / ReportEvery
  {
  }

  // ---------------------------------------------------------------------
  // The estimate: as written, and as evidently intended

  /** The estimate the progress percentage evidently meant: the number of
      candidates the search can try, over the real alphabet, capped. */
  function IntendedEstimate(charSet: seq<string>, minLength: nat, maxLength: nat): (e: nat)
    ensures var n := |Generator.Candidates(CharClasses.Alphabet(charSet), minLength, maxLength)|;
            e == (if n < MaxAttempts then n else MaxAttempts)
  {
    Generator.CandidatesCount(CharClasses.Alphabet(charSet), minLength, maxLength);
    var total := Generator.SumPow(|CharClasses.Alphabet(charSet)|, minLength, maxLength);
    if total < MaxAttempts then total else MaxAttempts
  }

  /** crack_zip_password with the intended estimate: every running snapshot
      reports its failures as a share of the attempts the search can make
      (clipped at 99), never more failures than that. */
  function CrackIntended(archive: Archive, check: string -> Attempt, minLength: nat, maxLength: nat,
                         charSet: seq<string>): (r: Run)
    ensures IsTerminal(r.final) && WellFormed(r.final)
    ensures var b := IntendedEstimate(charSet, minLength, maxLength);
            forall k :: 0 <= k < |r.reports| ==>
              0 < AttemptCount(r.reports[k]) <= b
              && r.reports[k].progress == Pct(AttemptCount(r.reports[k]), b)
  {
    var b := IntendedEstimate(charSet, minLength, maxLength);
    match archive
    case Unreadable(_) => SearchArchive(archive, check, minLength, maxLength, charSet, b)
    case Opened(names) =>
      var s := Plan(names, check, minLength, maxLength, charSet, b);
      assert Bound(s) == b;
      LoopShape(s, 0);
      SearchArchive(archive, check, minLength, maxLength, charSet, b)
  }

  /** With a positive estimate the loop never ends in the division-by-zero
      error. */
  lemma {:induction false} NoZeroDivision(s: Search, i: nat)
    requires i <= |s.cands| && (i > 0 ==> s.approx > 0)
    requires s.approx > 0 || |s.cands| == 0
    ensures Loop(s, i).final != ArchiveError(DivisionByZeroText)
    decreases |s.cands| - i
  {
    assert ArchiveError(UnboundProgressText) != ArchiveError(DivisionByZeroText) by {
      assert |ArchiveErrorPrefix + UnboundProgressText| != |ArchiveErrorPrefix + DivisionByZeroText|;
    }
    if i < |s.cands| && i < MaxAttempts && s.hasTest
       && s.check(s.cands[i]) == WrongPassword && s.approx > 0 {
      assert Loop(s, i).final == Loop(s, i + 1).final by {
        WrongStep(s, i);
      }
      NoZeroDivision(s, i + 1);
    }
  }

  /** Corrected: with the intended estimate no opened archive ends in the
      division-by-zero error, whatever class names are passed. */
  lemma IntendedNeverDividesByZero(archive: Archive, check: string -> Attempt, minLength: nat,
                                   maxLength: nat, charSet: seq<string>)
    requires archive.Opened?
    ensures CrackIntended(archive, check, minLength, maxLength, charSet).final
            != ArchiveError(DivisionByZeroText)
  {
    var b := IntendedEstimate(charSet, minLength, maxLength);
    NoZeroDivision(Plan(archive.names, check, minLength, maxLength, charSet, b), 0);
  }

  /** An oracle for an archive whose password is never among the candidates. */
  function AllWrong(password: string): Attempt {
    WrongPassword
  }

  lemma DefaultRequestSpace()
    ensures CharClasses.Alphabet(["numeric", "lowercase"]) == CharClasses.Digits + CharClasses.Lowercase
    ensures |Generator.Candidates(CharClasses.Alphabet(["numeric", "lowercase"]), 1, 4)| == 1_727_604
  {
    assert |CharClasses.Digits + CharClasses.Lowercase| == 36;
    assert Generator.SumPow(36, 1, 4) == 1_727_604 by {
      assert Generator.Pow(36, 2) == 1296;
      assert Generator.Pow(36, 3) == 46656;
      assert Generator.Pow(36, 4) == 1679616;
    }
  }

  /** As written: for the upload's default request (numeric and lower case,
      lengths 1..4, 1,727,604 candidates) the estimate is 2+4+8+16 = 30, so
      the first running snapshot, after 100 of up to 1,000,000 failures,
      already reads 99. With the intended estimate it reads 0.01. */
  lemma AsWrittenProgressSaturates()
    ensures var r := Crack(Opened(["secret.txt"]), AllWrong, 1, 4, ["numeric", "lowercase"]);
            |r.reports| > 0 && r.reports[0] == Snapshot(99.0, Running, Some(100), None, None)
    ensures var r := CrackIntended(Opened(["secret.txt"]), AllWrong, 1, 4, ["numeric", "lowercase"]);
            |r.reports| > 0 && r.reports[0] == Snapshot(0.01, Running, Some(100), None, None)
  {
    var cs := ["numeric", "lowercase"];
    var r1 := Crack(Opened(["secret.txt"]), AllWrong, 1, 4, cs);
    var r2 := CrackIntended(Opened(["secret.txt"]), AllWrong, 1, 4, cs);
    assert r1.reports == Reports(30, 0, MaxAttempts) by {
      DefaultRequestSpace();
      assert Estimate(|cs|, 1, 4) == 30;
      AttemptCap(Plan(["secret.txt"], AllWrong, 1, 4, cs, 30));
    }
    assert r2.reports == Reports(MaxAttempts, 0, MaxAttempts) by {
      DefaultRequestSpace();
      assert IntendedEstimate(cs, 1, 4) == MaxAttempts;
      AttemptCap(Plan(["secret.txt"], AllWrong, 1, 4, cs, MaxAttempts));
    }
    ReportsSchedule(30, 0, MaxAttempts);
    ReportsSchedule(MaxAttempts, 0, MaxAttempts);
    assert Pct(100, 30) == 99.0;
    assert Pct(100, MaxAttempts) == 0.01 by {
      assert Pct(100, MaxAttempts) < 99.0;
    }
  }

  /** As written: with no class names the generator still falls back to 62
      characters, but the estimate is 0, so the first wrong password raises
      a division by zero and the search ends in an error. With the intended
      estimate all 62 candidates are tried and the password is not found. */
  lemma EmptyClassListDividesByZero()
    ensures Crack(Opened(["secret.txt"]), AllWrong, 1, 1, []).final == ArchiveError(DivisionByZeroText)
    ensures CrackIntended(Opened(["secret.txt"]), AllWrong, 1, 1, []).final
            == Snapshot(100.0, Failed, Some(62), None, Some(NotFoundMessage))
  {
    var a := CharClasses.Alphabet([]);
    assert a == CharClasses.Digits + CharClasses.Lowercase + CharClasses.Uppercase;
    assert |Generator.Candidates(a, 1, 1)| == 62;
    assert Estimate(0, 1, 1) == 0;
    ZeroEstimate(Plan(["secret.txt"], AllWrong, 1, 1, [], 0));
    Exhausted(Plan(["secret.txt"], AllWrong, 1, 1, [], 62));
  }
}
