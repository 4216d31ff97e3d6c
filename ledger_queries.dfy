/** The `LedgerQueries` class: a bounded-retry execute, a one-row fetch built
    on it, and the balance-to-weight tier used for hypernode registration.
    The class has no state (all three are class methods), so they are modelled
    as module-level members taking the database oracle as a parameter. */
module LedgerQueries {
  import opened Database
  import opened Ledger

  /** Failed attempts after which `execute` gives up and stops the process. */
  const MaxTries: nat := 10

  /** Balance units per weight tier, and the highest tier. */
  const WeightUnit: real := 10000.0
  const MaxWeight: int := 3

  const SqlQuickBalanceAll: string :=
    "SELECT sum(a.amount+a.reward)-debit FROM transactions as a , "
    + "(SELECT sum(b.amount+b.fee) as debit FROM transactions b "
    + "WHERE address = ? AND block_height <= ?) "
    + "WHERE a.recipient = ? AND a.block_height <= ?"

  /** A result that either carries a value, or says the process was stopped
      (`exit()`): nothing runs after `Fatal`. */
  datatype Halting<T> = Done(value: T) | Fatal

  /** What `execute` writes to the log, and the pause it takes between attempts. */
  datatype LogEntry =
    | QueryWarning(sql: string)    // "Database query ...: <sql>"
    | RetryReason(reason: string)  // "Database retry reason: <exception>"
    | Slept                        // time.sleep(0.1)
    | ClosingError                 // "Database Error, closing", right before exit()

  // ---------------------------------------------------------------------------
  // execute: call-form dispatch

  /** The call `execute` makes: `executemany` when `many` is set, whatever
      `param` is; otherwise `execute(sql, param)` when `param` is truthy, and
      `execute(sql)` when it is None or empty. */
  function CallForm(sql: string, param: Param, many: bool): (call: Call)
    ensures call.sql == sql
    ensures call.ExecuteMany? <==> many
    ensures call.ExecuteWith? <==> !many && Truthy(param)
    ensures call.ExecutePlain? <==> !many && !Truthy(param)
    ensures !call.ExecutePlain? ==> call.param == param
  {
    if many then ExecuteMany(sql, param)
    else if Truthy(param) then ExecuteWith(sql, param)
    else ExecutePlain(sql)
  }

  // ---------------------------------------------------------------------------
  // execute: the retry policy

  /** The whole of one `execute` call: how it ended, how many failures it
      counted (`tries`), and what it logged. */
  datatype Run = Run(result: Halting<Cursor>, tries: nat, log: seq<LogEntry>)

  /** The retry policy from the moment `tries` failures have been counted:
      attempt `call`; on success return the cursor; on failure log the
      statement and the reason and count it; at the tenth failure log the
      closing error and stop, otherwise pause and try again. */
  function RetryFrom(db: Oracle, call: Call, tries: nat): (run: Run)
    requires tries < MaxTries
    ensures tries <= run.tries <= MaxTries
    ensures run.result.Done? <==> run.tries < MaxTries
    decreases MaxTries - tries
  {
    match db(call, tries)
    case Succeeded(c) => Run(Done(c), tries, [])
    case Failed(e) =>
      var entries := [QueryWarning(call.sql), RetryReason(e)];
      if tries + 1 == MaxTries then Run(Fatal, MaxTries, entries + [ClosingError])
      else
        var rest := RetryFrom(db, call, tries + 1);
        Run(rest.result, rest.tries, entries + [Slept] + rest.log)
  }

  /** `LedgerQueries.execute`, with the retry policy its handler evidently
      means (as written, the handler refers to `self` inside a class method
      and to the never-imported `time`; see `ExecuteAsWritten`). */
  method Execute(db: Oracle, sql: string, param: Param, many: bool)
    returns (r: Halting<Cursor>, tries: nat, log: seq<LogEntry>)
    ensures Run(r, tries, log) == RetryFrom(db, CallForm(sql, param, many), 0)
    ensures tries <= MaxTries
    ensures r.Done? <==> tries < MaxTries
  {
    var call := CallForm(sql, param, many);
    ghost var whole := RetryFrom(db, call, 0);
    tries, log := 0, [];
    assert [] + whole.log == whole.log;
    while true
      invariant tries < MaxTries
      invariant Resumes(whole, log, RetryFrom(db, call, tries))
      decreases MaxTries - tries
    {
      var attempt := db(call, tries);
      if attempt.Succeeded? {
        r := Done(attempt.cursor);
        ResumeAtSuccess(whole, log, db, call, tries);
        return;
      }
      var entries := [QueryWarning(sql), RetryReason(attempt.reason)];
      if tries + 1 >= MaxTries {
        ResumeAtLastFailure(whole, log, db, call, tries);
        log := log + entries + [ClosingError];
        tries, r := tries + 1, Fatal;
        return;
      }
      ResumeAfterFailure(whole, log, db, call, tries);
      log := log + entries + [Slept];
      tries := tries + 1;
    }
  }

  /** `rest` is what remains of the run `whole` once `done` has been logged. */
  ghost predicate Resumes(whole: Run, done: seq<LogEntry>, rest: Run)
  {
    whole.result == rest.result && whole.tries == rest.tries && whole.log == done + rest.log
  }

  lemma ResumeAtSuccess(whole: Run, done: seq<LogEntry>, db: Oracle, call: Call, tries: nat)
    requires tries < MaxTries && db(call, tries).Succeeded?
    requires Resumes(whole, done, RetryFrom(db, call, tries))
    ensures whole == Run(Done(db(call, tries).cursor), tries, done)
  {
    assert done + [] == done;
  }

  lemma ResumeAtLastFailure(whole: Run, done: seq<LogEntry>, db: Oracle, call: Call, tries: nat)
    requires tries + 1 == MaxTries && db(call, tries).Failed?
    requires Resumes(whole, done, RetryFrom(db, call, tries))
    ensures whole == Run(Fatal, MaxTries,
                         done + [QueryWarning(call.sql), RetryReason(db(call, tries).reason)] + [ClosingError])
  {
    RetryStep(db, call, tries);
  }

  lemma ResumeAfterFailure(whole: Run, done: seq<LogEntry>, db: Oracle, call: Call, tries: nat)
    requires tries + 1 < MaxTries && db(call, tries).Failed?
    requires Resumes(whole, done, RetryFrom(db, call, tries))
    ensures Resumes(whole, done + [QueryWarning(call.sql), RetryReason(db(call, tries).reason)] + [Slept],
                    RetryFrom(db, call, tries + 1))
  {
    RetryStep(db, call, tries);
    var entries := [QueryWarning(call.sql), RetryReason(db(call, tries).reason)];
    assert done + ([QueryWarning(call.sql), RetryReason(db(call, tries).reason), Slept] + RetryFrom(db, call, tries + 1).log)
           == done + entries + [Slept] + RetryFrom(db, call, tries + 1).log;
  }

  /** One failed attempt, unfolded. */
  lemma RetryStep(db: Oracle, call: Call, tries: nat)
    requires tries < MaxTries && db(call, tries).Failed?
    ensures var entries := [QueryWarning(call.sql), RetryReason(db(call, tries).reason)];
      RetryFrom(db, call, tries)
      == if tries + 1 == MaxTries then Run(Fatal, MaxTries, entries + [ClosingError])
         else Run(RetryFrom(db, call, tries + 1).result, RetryFrom(db, call, tries + 1).tries,
                  [QueryWarning(call.sql), RetryReason(db(call, tries).reason), Slept]
                  + RetryFrom(db, call, tries + 1).log)
  {
    var entries := [QueryWarning(call.sql), RetryReason(db(call, tries).reason)];
    assert entries + [Slept] == [QueryWarning(call.sql), RetryReason(db(call, tries).reason), Slept];
  }

  /** The statements of the warnings in `log`, in order. */
  function Statements(log: seq<LogEntry>): seq<string>
  {
    if log == [] then []
    else (if log[0].QueryWarning? then [log[0].sql] else []) + Statements(log[1..])
  }

  /** The exception texts of the retry reasons in `log`, in order. */
  function Reasons(log: seq<LogEntry>): seq<string>
  {
    if log == [] then []
    else (if log[0].RetryReason? then [log[0].reason] else []) + Reasons(log[1..])
  }

  /** How many entries of `log` are `e`. */
  function Occurrences(log: seq<LogEntry>, e: LogEntry): nat
  {
    if log == [] then 0 else (if log[0] == e then 1 else 0) + Occurrences(log[1..], e)
  }

  lemma {:induction false} StatementsAppend(a: seq<LogEntry>, b: seq<LogEntry>)
    ensures Statements(a + b) == Statements(a) + Statements(b)
    decreases |a|
  {
    if a == [] {
      assert a + b == b;
    } else {
      assert (a + b)[1..] == a[1..] + b;
      StatementsAppend(a[1..], b);
    }
  }

  lemma {:induction false} ReasonsAppend(a: seq<LogEntry>, b: seq<LogEntry>)
    ensures Reasons(a + b) == Reasons(a) + Reasons(b)
    decreases |a|
  {
    if a == [] {
      assert a + b == b;
    } else {
      assert (a + b)[1..] == a[1..] + b;
      ReasonsAppend(a[1..], b);
    }
  }

  lemma {:induction false} OccurrencesAppend(a: seq<LogEntry>, b: seq<LogEntry>, e: LogEntry)
    ensures Occurrences(a + b, e) == Occurrences(a, e) + Occurrences(b, e)
    decreases |a|
  {
    if a == [] {
      assert a + b == b;
    } else {
      assert (a + b)[1..] == a[1..] + b;
      OccurrencesAppend(a[1..], b, e);
    }
  }

  /** The log of one failed attempt: its warning, its reason, and then the
      pause or the closing error. */
  lemma FailureEntries(sql: string, reason: string, last: LogEntry)
    requires last == Slept || last == ClosingError
    ensures var entries := [QueryWarning(sql), RetryReason(reason), last];
      && Statements(entries) == [sql]
      && Reasons(entries) == [reason]
      && Occurrences(entries, Slept) == (if last == Slept then 1 else 0)
      && Occurrences(entries, ClosingError) == (if last == ClosingError then 1 else 0)
  {
    var entries := [QueryWarning(sql), RetryReason(reason), last];
    var t1, t2: seq<LogEntry> := [RetryReason(reason), last], [last];
    assert entries[1..] == t1 && t1[1..] == t2 && t2[1..] == [];
    assert !last.QueryWarning? && !last.RetryReason? && t2[0] == last;
    assert Statements(t2) == [] + Statements([]);
    assert Reasons(t2) == [] + Reasons([]);
    assert Statements(t1) == [] && Reasons(t1) == [reason];
    assert Occurrences(t1, Slept) == Occurrences(t2, Slept);
    assert Occurrences(t1, ClosingError) == Occurrences(t2, ClosingError);
  }

  /** The attempts a run made are exactly attempts `from` .. `tries`: all of
      them failed except, when a cursor was returned, the last, which produced
      it. A fatal run made exactly ten attempts; no run makes more. */
  lemma {:induction false} RetryCharacterised(db: Oracle, call: Call, from: nat)
    requires from < MaxTries
    ensures var run := RetryFrom(db, call, from);
      && (forall j :: from <= j < run.tries ==> db(call, j).Failed?)
      && (run.result.Done? ==> db(call, run.tries) == Succeeded(run.result.value))
      && (run.result.Fatal? ==> run.tries == MaxTries)
    decreases MaxTries - from
  {
    if db(call, from).Failed? && from + 1 < MaxTries {
      RetryCharacterised(db, call, from + 1);
    }
  }

  /** Every counted failure logs the failing statement and that attempt's
      exception, in attempt order; every failure but the tenth is followed by
      a pause and the tenth by the closing error: at most nine pauses, about
      0.9 s, before a stop. */
  lemma RetryLogged(db: Oracle, call: Call, from: nat)
    requires from < MaxTries
    ensures var run := RetryFrom(db, call, from);
      && |Statements(run.log)| == run.tries - from
      && (forall k :: 0 <= k < |Statements(run.log)| ==> Statements(run.log)[k] == call.sql)
      && |Reasons(run.log)| == run.tries - from
      && (forall k :: 0 <= k < |Reasons(run.log)| ==> db(call, from + k) == Failed(Reasons(run.log)[k]))
      && Occurrences(run.log, Slept) == (if run.result.Fatal? then run.tries - from - 1 else run.tries - from)
      && Occurrences(run.log, ClosingError) == (if run.result.Fatal? then 1 else 0)
  {
    FailuresLogged(db, call, from);
    PausesLogged(db, call, from);
  }

  lemma FailuresLogged(db: Oracle, call: Call, from: nat)
    requires from < MaxTries
    ensures var run := RetryFrom(db, call, from);
      && |Statements(run.log)| == run.tries - from
      && (forall k :: 0 <= k < |Statements(run.log)| ==> Statements(run.log)[k] == call.sql)
      && |Reasons(run.log)| == run.tries - from
      && (forall k :: 0 <= k < |Reasons(run.log)| ==> db(call, from + k) == Failed(Reasons(run.log)[k]))
  {
    StatementsLogged(db, call, from);
    ReasonsLogged(db, call, from);
  }

  lemma {:induction false} StatementsLogged(db: Oracle, call: Call, from: nat)
    requires from < MaxTries
    ensures var run := RetryFrom(db, call, from);
      && |Statements(run.log)| == run.tries - from
      && (forall k :: 0 <= k < |Statements(run.log)| ==> Statements(run.log)[k] == call.sql)
    decreases MaxTries - from
  {
    var run := RetryFrom(db, call, from);
    match db(call, from)
    case Succeeded(_) =>
    case Failed(e) =>
      RetryStep(db, call, from);
      if from + 1 == MaxTries {
        FailureEntries(call.sql, e, ClosingError);
      } else {
        var rest := RetryFrom(db, call, from + 1);
        var entries := [QueryWarning(call.sql), RetryReason(e), Slept];
        StatementsLogged(db, call, from + 1);
        assert run.log == entries + rest.log;
        StatementsAppend(entries, rest.log);
        FailureEntries(call.sql, e, Slept);
        assert Statements(run.log) == [call.sql] + Statements(rest.log);
      }
  }

  lemma {:induction false} ReasonsLogged(db: Oracle, call: Call, from: nat)
    requires from < MaxTries
    ensures var run := RetryFrom(db, call, from);
      && |Reasons(run.log)| == run.tries - from
      && (forall k :: 0 <= k < |Reasons(run.log)| ==> db(call, from + k) == Failed(Reasons(run.log)[k]))
    decreases MaxTries - from
  {
    var run := RetryFrom(db, call, from);
    match db(call, from)
    case Succeeded(_) =>
    case Failed(e) =>
      RetryStep(db, call, from);
      if from + 1 == MaxTries {
        FailureEntries(call.sql, e, ClosingError);
      } else {
        var rest := RetryFrom(db, call, from + 1);
        var entries := [QueryWarning(call.sql), RetryReason(e), Slept];
        ReasonsLogged(db, call, from + 1);
        assert run.log == entries + rest.log;
        ReasonsAppend(entries, rest.log);
        FailureEntries(call.sql, e, Slept);
        assert Reasons(run.log) == [e] + Reasons(rest.log);
        ReasonsShift(db, call, from, e, Reasons(rest.log));
      }
  }

  /** Reasons recorded from attempt `from + 1` on, preceded by the reason of
      attempt `from`, are recorded from attempt `from` on. */
  lemma ReasonsShift(db: Oracle, call: Call, from: nat, e: string, rs: seq<string>)
    requires db(call, from) == Failed(e)
    requires forall k :: 0 <= k < |rs| ==> db(call, from + 1 + k) == Failed(rs[k])
    ensures forall k :: 0 <= k < |[e] + rs| ==> db(call, from + k) == Failed(([e] + rs)[k])
  {
    forall k | 0 <= k < |[e] + rs|
      ensures db(call, from + k) == Failed(([e] + rs)[k])
    {
      if k > 0 {
        assert ([e] + rs)[k] == rs[k - 1];
        assert from + k == from + 1 + (k - 1);
      }
    }
  }

  lemma {:induction false} PausesLogged(db: Oracle, call: Call, from: nat)
    requires from < MaxTries
    ensures var run := RetryFrom(db, call, from);
      && Occurrences(run.log, Slept) == (if run.result.Fatal? then run.tries - from - 1 else run.tries - from)
      && Occurrences(run.log, ClosingError) == (if run.result.Fatal? then 1 else 0)
    decreases MaxTries - from
  {
    var run := RetryFrom(db, call, from);
    match db(call, from)
    case Succeeded(_) =>
    case Failed(e) =>
      RetryStep(db, call, from);
      if from + 1 == MaxTries {
        FailureEntries(call.sql, e, ClosingError);
      } else {
        var rest := RetryFrom(db, call, from + 1);
        var entries := [QueryWarning(call.sql), RetryReason(e), Slept];
        PausesLogged(db, call, from + 1);
        assert run.log == entries + rest.log;
        OccurrencesAppend(entries, rest.log, Slept);
        OccurrencesAppend(entries, rest.log, ClosingError);
        FailureEntries(call.sql, e, Slept);
      }
  }

  /** Where failed attempt `j` of a run begun at `from` counted failures sits
      in `log`: at entry 3·(j - from) its warning with the statement, then its
      reason, then the pause, or the closing error when it is the tenth. */
  ghost predicate FailureLoggedAt(log: seq<LogEntry>, db: Oracle, call: Call, from: nat, j: nat)
    requires from <= j
  {
    var at := 3 * (j - from);
    && at + 3 <= |log|
    && db(call, j).Failed?
    && log[at] == QueryWarning(call.sql)
    && log[at + 1] == RetryReason(db(call, j).reason)
    && log[at + 2] == (if j + 1 == MaxTries then ClosingError else Slept)
  }

  /** The log is laid out attempt by attempt: three entries per counted
      failure and nothing else, the k-th triple being the warning and the
      reason of attempt from + k followed by the pause before the next
      attempt, or by the closing error after the tenth. */
  lemma {:induction false} RetryLogOrdered(db: Oracle, call: Call, from: nat)
    requires from < MaxTries
    ensures var run := RetryFrom(db, call, from);
      && |run.log| == 3 * (run.tries - from)
      && forall j :: from <= j < run.tries ==> FailureLoggedAt(run.log, db, call, from, j)
    decreases MaxTries - from
  {
    var run := RetryFrom(db, call, from);
    match db(call, from)
    case Succeeded(_) =>
    case Failed(e) =>
      RetryStep(db, call, from);
      if from + 1 == MaxTries {
        assert FailureLoggedAt(run.log, db, call, from, from);
      } else {
        var rest := RetryFrom(db, call, from + 1);
        var head := [QueryWarning(call.sql), RetryReason(e), Slept];
        RetryLogOrdered(db, call, from + 1);
        assert run.log == head + rest.log;
        assert FailureLoggedAt(run.log, db, call, from, from);
        forall j | from < j < run.tries
          ensures FailureLoggedAt(run.log, db, call, from, j)
        {
          FailureLoggedShifts(head, rest.log, db, call, from, j);
        }
      }
  }

  /** Prefixing one attempt's three entries moves every later triple along by
      three. */
  lemma FailureLoggedShifts(head: seq<LogEntry>, log: seq<LogEntry>, db: Oracle, call: Call, from: nat, j: nat)
    requires |head| == 3 && from < j
    requires FailureLoggedAt(log, db, call, from + 1, j)
    ensures FailureLoggedAt(head + log, db, call, from, j)
  {
    var at := 3 * (j - (from + 1));
    assert 3 * (j - from) == at + 3;
    assert (head + log)[at + 3] == log[at];
    assert (head + log)[at + 4] == log[at + 1];
    assert (head + log)[at + 5] == log[at + 2];
  }

  /** If the first k < 10 attempts fail and the next succeeds, `execute`
      returns that attempt's cursor after exactly k counted (and k logged)
      failures. */
  lemma SucceedsAfterFailures(db: Oracle, call: Call, k: nat)
    requires k < MaxTries
    requires forall j :: 0 <= j < k ==> db(call, j).Failed?
    requires db(call, k).Succeeded?
    ensures RetryFrom(db, call, 0).result == Done(db(call, k).cursor)
    ensures RetryFrom(db, call, 0).tries == k
    ensures |Reasons(RetryFrom(db, call, 0).log)| == k
  {
    RetryCharacterised(db, call, 0);
    RetryLogged(db, call, 0);
  }

  /** A database that fails ten times in a row ends `execute` in `Fatal`,
      after exactly ten counted failures, with the closing error logged last. */
  lemma FatalAfterTenFailures(db: Oracle, call: Call)
    requires forall j :: 0 <= j < MaxTries ==> db(call, j).Failed?
    ensures RetryFrom(db, call, 0).result == Fatal
    ensures RetryFrom(db, call, 0).tries == MaxTries
    ensures |Reasons(RetryFrom(db, call, 0).log)| == MaxTries
    ensures RetryFrom(db, call, 0).log[|RetryFrom(db, call, 0).log| - 1] == ClosingError
  {
    RetryCharacterised(db, call, 0);
    RetryLogged(db, call, 0);
    LastOfFatalLog(db, call, 0);
  }

  lemma {:induction false} LastOfFatalLog(db: Oracle, call: Call, from: nat)
    requires from < MaxTries
    requires RetryFrom(db, call, from).result.Fatal?
    ensures RetryFrom(db, call, from).log != []
    ensures RetryFrom(db, call, from).log[|RetryFrom(db, call, from).log| - 1] == ClosingError
    decreases MaxTries - from
  {
    if db(call, from).Failed? && from + 1 < MaxTries {
      LastOfFatalLog(db, call, from + 1);
    }
  }

  /** Attempts beyond the tenth are never made: two databases that answer the
      first ten attempts alike give the same run. */
  lemma {:induction false} RetryIgnoresLaterAttempts(db1: Oracle, db2: Oracle, call: Call, from: nat)
    requires from < MaxTries
    requires forall j :: from <= j < MaxTries ==> db1(call, j) == db2(call, j)
    ensures RetryFrom(db1, call, from) == RetryFrom(db2, call, from)
    decreases MaxTries - from
  {
    if db1(call, from).Failed? && from + 1 < MaxTries {
      RetryIgnoresLaterAttempts(db1, db2, call, from + 1);
    }
  }

  // ---------------------------------------------------------------------------
  // execute as written

  /** How `execute` ends as written: the first exception from the handle
      enters the handler, whose `self.app_log` raises NameError (there is no
      `self` in a class method), and that NameError leaves `execute`. */
  datatype AsWritten = Returned(cursor: Cursor) | NameErrorRaised

  function ExecuteAsWritten(db: Oracle, call: Call): (r: AsWritten)
    ensures r.NameErrorRaised? <==> db(call, 0).Failed?
    ensures r.Returned? ==> db(call, 0) == Succeeded(r.cursor)
  {
    match db(call, 0)
    case Succeeded(c) => Returned(c)
    case Failed(_) => NameErrorRaised
  }

  /** A single transient failure: as written, `execute` raises NameError;
      with the evident retry policy it returns the second attempt's cursor
      after one counted failure. */
  lemma FirstFailureRaisesNameError(sql: string, cursor: Cursor)
    ensures var db: Oracle := (call: Call, n: nat) => if n == 0 then Failed("database is locked") else Succeeded(cursor);
      var call := CallForm(sql, NoParam, false);
      && ExecuteAsWritten(db, call) == NameErrorRaised
      && RetryFrom(db, call, 0).result == Done(cursor)
      && RetryFrom(db, call, 0).tries == 1
  {
    var db: Oracle := (call: Call, n: nat) => if n == 0 then Failed("database is locked") else Succeeded(cursor);
    var call := CallForm(sql, NoParam, false);
    SucceedsAfterFailures(db, call, 1);
  }

  // ---------------------------------------------------------------------------
  // fetchone

  /** What `fetchone` returns: None, `tuple(data)`, or `dict(data)`. */
  datatype Fetched = Absent | TupleRow(values: seq<Value>) | DictRow(fields: map<string, Value>)

  /** Column `i` is the first column carrying its name. */
  predicate FirstWithName(cols: seq<Column>, i: nat)
    requires i < |cols|
  {
    forall j :: 0 <= j < i ==> cols[j].name != cols[i].name
  }

  /** `dict(data)` of a row: each column name mapped to the value a lookup by
      that name gives, which is the first column of that name. */
  function AsMapping(cols: seq<Column>): (m: map<string, Value>)
    ensures m.Keys == set c | c in cols :: c.name
  {
    if cols == [] then map[]
    else
      var tail := AsMapping(cols[1..]);
      assert forall c :: c in cols <==> c == cols[0] || c in cols[1..];
      tail[cols[0].name := cols[0].value]
  }

  /** `tuple(data)` of a row: its values in column order. */
  function Values(cols: seq<Column>): (vs: seq<Value>)
    ensures |vs| == |cols|
    ensures forall i :: 0 <= i < |cols| ==> vs[i] == cols[i].value
  {
    if cols == [] then [] else [cols[0].value] + Values(cols[1..])
  }

  /** The mapping form holds every column under its name, with the value of
      the first column of that name. */
  lemma {:induction false} MappingKeepsFirstValue(cols: seq<Column>, i: nat)
    requires i < |cols| && FirstWithName(cols, i)
    ensures AsMapping(cols)[cols[i].name] == cols[i].value
    decreases i
  {
    if i > 0 {
      assert FirstWithName(cols[1..], i - 1) by {
        forall j | 0 <= j < i - 1 ensures cols[1..][j].name != cols[1..][i - 1].name {
          assert cols[1..][j] == cols[j + 1];
        }
      }
      MappingKeepsFirstValue(cols[1..], i - 1);
      assert cols[0].name != cols[i].name;
    }
  }

  /** The part of `fetchone` after the query: an absent or empty row is None;
      any other row comes back as its values in order, or keyed by column name
      when `asDict` is set. */
  function Extract(data: Option<Row>, asDict: bool): (r: Fetched)
    ensures r.Absent? <==> data.None? || data.value.columns == []
    ensures r.TupleRow? ==> !asDict && r.values == Values(data.value.columns)
    ensures r.DictRow? ==> asDict && r.fields == AsMapping(data.value.columns)
    ensures data.Some? && data.value.columns != [] ==> (r.TupleRow? || r.DictRow?)
  {
    match data
    case None => Absent
    case Some(row) =>
      if row.columns == [] then Absent
      else if asDict then DictRow(AsMapping(row.columns))
      else TupleRow(Values(row.columns))
  }

  /** `LedgerQueries.fetchone`: execute (never as a batch), then take the
      first row and shape it; a stop during execute stops the fetch too. */
  method FetchOne(db: Oracle, sql: string, param: Param, asDict: bool)
    returns (r: Halting<Fetched>, log: seq<LogEntry>)
    ensures var run := RetryFrom(db, CallForm(sql, param, false), 0);
      && log == run.log
      && (r.Fatal? <==> run.result.Fatal?)
      && (r.Done? ==> r.value == Extract(FirstRow(run.result.value), asDict))
  {
    var executed, _, executeLog := Execute(db, sql, param, false);
    log := executeLog;
    match executed
    case Fatal =>
      r := Fatal;
    case Done(cursor) =>
      r := Done(Extract(FirstRow(cursor), asDict));
  }

  // ---------------------------------------------------------------------------
  // reg_check_weight

  /** `math.floor(balance / 10000)`, capped at 3 and not clamped below. */
  function Weight(balance: real): (w: int)
    ensures w <= MaxWeight
    ensures w == MaxWeight <==> balance >= MaxWeight as real * WeightUnit
    ensures w < MaxWeight ==> w as real * WeightUnit <= balance < (w + 1) as real * WeightUnit
  {
    var tier := (balance / WeightUnit).Floor;
    if tier > MaxWeight then MaxWeight else tier
  }

  /** For a whole-number balance the weight is integer division by 10000
      (floor division, also for negative balances), capped at 3. */
  lemma WeightOfInteger(balance: int)
    ensures Weight(balance as real) == if balance / 10000 > MaxWeight then MaxWeight else balance / 10000
  {
    var q := balance / 10000;
    assert q * 10000 <= balance < (q + 1) * 10000;
    assert q as real * WeightUnit <= balance as real < (q + 1) as real * WeightUnit;
    assert (balance as real / WeightUnit).Floor == q;
  }

  /** More balance never means a lower weight. */
  lemma WeightMonotone(a: real, b: real)
    requires a <= b
    ensures Weight(a) <= Weight(b)
  {
  }

  /** There is no lower clamp: below one unit the weight is 0 or less, and a
      negative balance gives a negative weight. */
  lemma NoLowerClamp(balance: real)
    ensures 0.0 <= balance < WeightUnit ==> Weight(balance) == 0
    ensures balance < 0.0 ==> Weight(balance) < 0
  {
  }

  /** Why reading the balance out of the fetched row raised, in Python terms. */
  datatype WeightError =
    | NoRow          // res is None: None[0]
    | MissingColumn  // no column 0
    | NullBalance    // the aggregate is NULL: None / 10000
    | NotNumeric     // a text value: str / int

  datatype Result<T> = Ok(value: T) | Err(error: WeightError)

  /** `res[0]`, then the weight of that balance. */
  function BalanceWeight(res: Fetched): (r: Result<int>)
    ensures r.Ok? <==> res.TupleRow? && res.values != [] && (res.values[0].Int? || res.values[0].Real?)
    ensures r.Ok? && res.values[0].Real? ==> r.value == Weight(res.values[0].r)
    ensures r.Ok? && res.values[0].Int? ==> r.value == Weight(res.values[0].i as real)
    ensures r.Ok? ==> r.value <= MaxWeight
    ensures r == Err(NoRow) <==> res.Absent?
    ensures r == Err(NullBalance) <==> res.TupleRow? && res.values != [] && res.values[0].Null?
  {
    match res
    case Absent => Err(NoRow)
    case DictRow(_) => Err(MissingColumn)
    case TupleRow(values) =>
      if values == [] then Err(MissingColumn)
      else match values[0]
        case Int(i) => Ok(Weight(i as real))
        case Real(x) => Ok(Weight(x))
        case Null => Err(NullBalance)
        case Text(_) => Err(NotNumeric)
  }

  /** The bind tuple `(address, height, address, height)`. */
  function BalanceParams(address: string, height: int): (p: Param)
    ensures p.Tuple? && Truthy(p) && |p.values| == 4
    ensures p.values[0] == p.values[2] == Text(address)
    ensures p.values[1] == p.values[3] == Int(height)
  {
    Tuple([Text(address), Int(height), Text(address), Int(height)])
  }

  /** The balance query is issued as `execute(sql, param)` with the four
      values in placeholder order, so it computes the net balance of
      `address` at `height` (or NULL when a side has no rows). */
  lemma BalanceQueryCall(ledger: seq<Tx>, address: string, height: int)
    ensures CallForm(SqlQuickBalanceAll, BalanceParams(address, height), false)
            == ExecuteWith(SqlQuickBalanceAll, BalanceParams(address, height))
    ensures BindQuickBalanceAll(ledger, Main, BalanceParams(address, height).values)
            == Some(if Credits(ledger, Main, address, height) != [] && Debits(ledger, Main, address, height) != []
                    then Real(NetBalance(ledger, Main, address, height)) else Null)
  {
    QuickBalanceAllIsNetBalance(ledger, Main, address, height);
  }

  /** What `reg_check_weight` returns once the balance query's run is known. */
  function WeightOfRun(run: Run): Halting<Result<int>>
  {
    match run.result
    case Fatal => Fatal
    case Done(cursor) => Done(BalanceWeight(Extract(FirstRow(cursor), false)))
  }

  /** `LedgerQueries.reg_check_weight`: fetch the net balance as a tuple and
      turn it into a weight; a stop during the fetch stops it too. */
  method RegCheckWeight(db: Oracle, address: string, height: int)
    returns (r: Halting<Result<int>>, log: seq<LogEntry>)
    ensures var run := RetryFrom(db, ExecuteWith(SqlQuickBalanceAll, BalanceParams(address, height)), 0);
      && log == run.log
      && (r.Fatal? <==> run.result.Fatal?)
      && (r.Done? ==> r.value == BalanceWeight(Extract(FirstRow(run.result.value), false)))
    ensures r == WeightOfRun(RetryFrom(db, ExecuteWith(SqlQuickBalanceAll, BalanceParams(address, height)), 0))
    ensures r.Done? && r.value.Ok? ==> r.value.value <= MaxWeight
  {
    var res;
    res, log := FetchOne(db, SqlQuickBalanceAll, BalanceParams(address, height), false);
    match res
    case Fatal =>
      r := Fatal;
    case Done(fetched) =>
      r := Done(BalanceWeight(fetched));
  }

  // ---------------------------------------------------------------------------
  // the weight over a ledger

  /** The weight of an account's net balance, reading an empty sum as 0. */
  function EstimatedWeight(ledger: seq<Tx>, address: string, height: int): (w: int)
    ensures w <= MaxWeight
  {
    Weight(NetBalance(ledger, Main, address, height))
  }

  /** A cursor holding the one-row answer of the balance query bound to
      `BalanceParams(address, height)`. */
  function BalanceCursor(ledger: seq<Tx>, address: string, height: int, column: string): Cursor
  {
    Cursor([Row([Column(column, BindQuickBalanceAll(ledger, Main, BalanceParams(address, height).values).value)])])
  }

  /** Over a ledger, what `reg_check_weight` computes from the query's answer
      is the capped floor of the account's net balance over 10000 whenever the
      account both received and sent within the window, and the NULL-balance
      error otherwise; the ledger-level weight agrees wherever the query gives
      an answer. */
  lemma EstimatedWeightAgreesWithQuery(ledger: seq<Tx>, address: string, height: int, column: string)
    ensures BalanceWeight(Extract(FirstRow(BalanceCursor(ledger, address, height, column)), false))
            == if Credits(ledger, Main, address, height) != [] && Debits(ledger, Main, address, height) != []
               then Ok(EstimatedWeight(ledger, address, height)) else Err(NullBalance)
  {
    BalanceQueryCall(ledger, address, height);
  }

  /** `reg_check_weight` over a ledger: when the balance query fails k < 10
      times and then answers from the ledger, the result is the weight of the
      account's net balance if it both received and sent within the window,
      and the NULL-balance error otherwise. */
  lemma RegCheckWeightOnLedger(db: Oracle, ledger: seq<Tx>, address: string, height: int, column: string, k: nat)
    requires k < MaxTries
    requires forall j :: 0 <= j < k ==> db(ExecuteWith(SqlQuickBalanceAll, BalanceParams(address, height)), j).Failed?
    requires db(ExecuteWith(SqlQuickBalanceAll, BalanceParams(address, height)), k)
             == Succeeded(BalanceCursor(ledger, address, height, column))
    ensures WeightOfRun(RetryFrom(db, ExecuteWith(SqlQuickBalanceAll, BalanceParams(address, height)), 0))
            == Done(if Credits(ledger, Main, address, height) != [] && Debits(ledger, Main, address, height) != []
                    then Ok(EstimatedWeight(ledger, address, height)) else Err(NullBalance))
  {
    SucceedsAfterFailures(db, ExecuteWith(SqlQuickBalanceAll, BalanceParams(address, height)), k);
    EstimatedWeightAgreesWithQuery(ledger, address, height, column);
  }

  /** Reading an empty sum as 0 gives every account a weight: one that only
      received gets the weight of what it received, one that only sent the
      weight of minus what it sent. */
  lemma OneSidedAccountWeight(ledger: seq<Tx>, address: string, height: int)
    ensures Debits(ledger, Main, address, height) == []
            ==> EstimatedWeight(ledger, address, height) == Weight(Sum(Credits(ledger, Main, address, height)))
    ensures Credits(ledger, Main, address, height) == []
            ==> EstimatedWeight(ledger, address, height) == Weight(-Sum(Debits(ledger, Main, address, height)))
  {
  }

  /** An account that received 50000 at block 100 and never sent anything:
      at height 120 the query answers NULL, so `reg_check_weight` fails on
      `None / 10000`, while its net balance of 50000 gives weight 3. */
  lemma ReceiveOnlyAccountGetsNoWeight(column: string)
    ensures var ledger := [Tx(100, "B", "A", 50000.0, 0.0, 0.0)];
      && QuickBalanceAll(ledger, Main, "A", 120, "A", 120) == Null
      && BalanceWeight(Extract(FirstRow(BalanceCursor(ledger, "A", 120, column)), false)) == Err(NullBalance)
      && EstimatedWeight(ledger, "A", 120) == 3
  {
    var ledger := [Tx(100, "B", "A", 50000.0, 0.0, 0.0)];
    assert ledger[..0] == [];
    assert Credits(ledger, Main, "A", 120) == [50000.0];
    assert Debits(ledger, Main, "A", 120) == [];
    assert Sum([50000.0]) == 50000.0 by {
      assert [50000.0][..0] == [];
    }
  }
}
