# Ledger queries: bounded-retry execution and the balance-to-weight tier

This project models `LedgerQueries`, the read-only query layer that Bismuth
node plugins use to read the transaction ledger. It has three operations:

- `execute` runs one statement on the shared database handle. It chooses
  `executemany(sql, param)`, `execute(sql, param)` or `execute(sql)`. It is
  meant to retry after every exception, logging the statement and the reason
  and pausing 100 ms between attempts, and to log an error and stop the
  process at the tenth failure. As written, the first exception raises
  NameError instead (first row under "## Findings"); the model gives both.
- `fetchone` executes a statement and returns the first row. An absent or
  empty row becomes None. Otherwise the row comes back as a tuple, or as a
  dict keyed by column name.
- `reg_check_weight` reads an account's net balance at a block height with
  `SQL_QUICK_BALANCE_ALL`. Its weight tier is `floor(balance / 10000)`,
  capped at 3.

Modules:

- `Database` (database.dfy) holds what the handle exchanges: values, rows,
  cursors, the `param` argument and the three call forms. The handle itself is
  an oracle `(Call, nat) -> Attempt`, which gives the outcome of the n-th
  attempt of a call: an exception or a cursor.
- `Ledger` (ledger.dfy) holds the `transactions` rows and what the net-balance
  aggregate computes over them. It follows the SQL's own rules: `sum` over no
  rows is NULL, and arithmetic with NULL is NULL. Beside it is `NetBalance`,
  credits minus debits with an empty side counted as 0.
- `LedgerQueries` (ledger_queries.dfy) holds the three operations. `Execute`
  is a method with the source's loop. It is proved against the recursive
  specification `RetryFrom`, and the retry properties are proved as lemmas
  about `RetryFrom`. `FetchOne` and `RegCheckWeight` are methods because they
  call `Execute`. The row shaping (`Extract`) and the weight arithmetic
  (`Weight`, `BalanceWeight`) are functions with lemmas.

The process stop (`exit()`) is the result `Fatal`. Nothing runs after it:
`FetchOne` and `RegCheckWeight` pass it on unchanged. Logging and the pause
are kept as a trace of `LogEntry` values that each call returns.

The docstring of `reg_check_weight` and its code disagree in two places,
and the model follows the code. The docstring promises a weight of 1, 2 or 3
(ledger_queries.py:134), but below 10000 the code returns 0, and a negative
balance gives a negative weight. The docstring also says it raises when the
balance is not enough for a hypernode (ledger_queries.py:127), but the code
never checks that. A NULL balance, where the code fails on `None/10000`, is
an explicit error result (`Err(NullBalance)`).

## Model

| member | source | states |
|---|---|---|
| `LedgerQueries.CallForm` | ledger_queries.py:86-91 | the call form is exclusive and ordered: `many` gives `executemany(sql, param)` whatever `param` is; otherwise a truthy `param` gives `execute(sql, param)`, and None or an empty tuple gives `execute(sql)`; the statement and the param are passed unchanged |
| `LedgerQueries.RetryFrom` | ledger_queries.py:83-102 | the retry policy, from some number of counted failures: the count only grows and never exceeds 10, and a cursor is returned exactly when fewer than 10 failures were counted |
| `LedgerQueries.Execute` | ledger_queries.py:66-102 | the loop's result, its failure count and its log are exactly those of the retry policy for the chosen call form; at most 10 failures are counted, and a cursor is returned exactly when fewer than 10 were |
| `LedgerQueries.RetryCharacterised` | ledger_queries.py:83-100 | every counted attempt failed; a returned cursor is the one produced by the attempt right after those failures; a stop comes after exactly 10 failures |
| `LedgerQueries.RetryLogged` | ledger_queries.py:93-101 | there is one warning and one reason entry per counted failure: every warning carries the failing statement, and the k-th reason is the exception of the k-th attempt; there are as many pauses as failures other than the tenth, and one closing error exactly when the call stops |
| `LedgerQueries.RetryLogOrdered` | ledger_queries.py:93-101 | the log holds three entries per counted failure and nothing else, in attempt order: the k-th triple is the warning with the statement, the reason of attempt k, and then the pause before the next attempt, or the closing error after the tenth |
| `LedgerQueries.SucceedsAfterFailures` | ledger_queries.py:83-102 | if the first k < 10 attempts fail and attempt k+1 succeeds, the call returns that attempt's cursor after exactly k counted and k logged failures |
| `LedgerQueries.FatalAfterTenFailures` | ledger_queries.py:96-100 | ten failures in a row end the call in `Fatal` after exactly ten counted failures, with the closing error as the last log entry |
| `LedgerQueries.RetryIgnoresLaterAttempts` | ledger_queries.py:96-100 | no attempt after the tenth is ever made: two databases that answer the first ten attempts alike give the same run |
| `LedgerQueries.ExecuteAsWritten` | ledger_queries.py:83-95 | as written, only the first attempt is made: it returns that attempt's cursor, or raises NameError exactly when that attempt fails |
| `LedgerQueries.FirstFailureRaisesNameError` | ledger_queries.py:93-101 | one transient failure: the code as written raises NameError, while the retry policy returns the second attempt's cursor after one counted failure |
| `Database.FirstRow` | ledger_queries.py:116 | `cursor.fetchone()` gives no row exactly when the cursor has no pending row, and otherwise the first pending row |
| `LedgerQueries.Values` | ledger_queries.py:121 | `tuple(data)` has one value per column, in column order |
| `LedgerQueries.AsMapping` | ledger_queries.py:119-120 | the keys of `dict(data)` are exactly the row's column names |
| `LedgerQueries.MappingKeepsFirstValue` | ledger_queries.py:119-120 | in `dict(data)` each name maps to the value of the first column with that name |
| `LedgerQueries.Extract` | ledger_queries.py:116-121 | the result is None exactly when the row is absent or empty; any other row comes back as its values in order, or as the name-keyed mapping when `as_dict` is set |
| `LedgerQueries.FetchOne` | ledger_queries.py:104-121 | `fetchone` runs the retry policy with `many` unset; it stops when that stops, and otherwise returns the shaped first row of the cursor |
| `LedgerQueries.Weight` | ledger_queries.py:138-141 | the weight is at most 3; it equals 3 exactly when the balance is at least 30000; below that it is the floor of balance/10000, so weight·10000 ≤ balance < (weight+1)·10000 |
| `LedgerQueries.WeightOfInteger` | ledger_queries.py:138-141 | for a whole-number balance the weight is floor division by 10000, also for negative balances, capped at 3 |
| `LedgerQueries.WeightMonotone` | ledger_queries.py:138-141 | a larger balance never gets a lower weight |
| `LedgerQueries.NoLowerClamp` | ledger_queries.py:138-141 | a balance in [0, 10000) gives weight 0 and a negative balance gives a negative weight |
| `LedgerQueries.BalanceWeight` | ledger_queries.py:137-141 | `res[0]` then the weight: a weight (at most 3) exactly when the first value of a tuple row is a number; None as the row and NULL as the balance are distinct errors |
| `LedgerQueries.BalanceParams` | ledger_queries.py:136 | the bind tuple is truthy and has four values: the address at positions 0 and 2, and the height at positions 1 and 3 |
| `LedgerQueries.BalanceQueryCall` | ledger_queries.py:136 | the balance query is issued as `execute(sql, param)` with `(address, height, address, height)`; in placeholder order this binds the debit subquery first and then the outer credit query, so the answer is the net balance, or NULL when one side has no rows |
| `LedgerQueries.RegCheckWeight` | ledger_queries.py:123-141 | `reg_check_weight` stops when the query's execution stops; otherwise it returns the weight of the first value of the fetched tuple, which is at most 3 |
| `LedgerQueries.RegCheckWeightOnLedger` | ledger_queries.py:123-141 | when the balance query fails k < 10 times and then answers from a ledger with the `(address, height, address, height)` binding, `reg_check_weight` returns the weight of the account's net balance if it both received and sent within the window, and the NULL-balance error otherwise |
| `LedgerQueries.EstimatedWeight` | ledger_queries.py:138-141 | the weight of an account's net balance read from the ledger, with empty sums as 0, is at most 3 |
| `LedgerQueries.EstimatedWeightAgreesWithQuery` | ledger_queries.py:136-141 | over a ledger, the weight `reg_check_weight` gets from the query's answer equals the net-balance weight when the account both received and sent within the window, and is the NULL-balance error otherwise |
| `LedgerQueries.OneSidedAccountWeight` | ledger_queries.py:136-141 | with empty sums read as 0, an account that only received within the window gets the weight of what it received, and one that only sent gets the weight of minus what it sent |
| `LedgerQueries.ReceiveOnlyAccountGetsNoWeight` | ledger_queries.py:44-49 | an account that received 50000 at block 100 and never sent anything gets a NULL balance at height 120, so the weight read fails; its net balance gives weight 3 |
| `Ledger.QuickBalanceAll` | ledger_queries.py:44-49 | the aggregate is a number exactly when both the credit rows (recipient, height window) and the debit rows (sender, height window) exist, and NULL otherwise |
| `Ledger.BindQuickBalanceAll` | ledger_queries.py:44-49 | a text, integer, text, integer tuple binds the four placeholders in order; when the two addresses and the two heights agree, the answer is the net balance if both sides have rows, and NULL otherwise |
| `Ledger.NetBalance` | ledger_queries.py:44-49 | credits minus debits with an empty side read as 0: it equals the query's answer whenever that answer is a number, and for a one-sided account it is the credits alone or minus the debits |
| `Ledger.QuickBalanceAllIsNetBalance` | ledger_queries.py:44-49 | with the same address and height in all four placeholders, the aggregate is credits minus debits when both sides have rows, and NULL otherwise |
| `Ledger.NetBalanceAppend` | ledger_queries.py:44-49 | appending a transaction changes an account's net balance by exactly that transaction's credit minus its debit |
| `Ledger.LaterBlocksDoNotChangeBalance` | ledger_queries.py:44-49 | the balance is a point-in-time value: rows appended above the height change neither the credit and debit terms, nor the net balance, nor the query's answer |
| `Ledger.MirrorAgreesOnNonNegativeHeights` | ledger_queries.py:51-56 | on a ledger with no negative heights, the mirror variant's `abs(block_height)` filter selects the same rows as the main query, so both give the same answer |

## Left out

- test_hn.py, a socket probe against a running node. It has no logic to model.
- The database engine, SQL parsing and connection handling. The handle is an
  oracle of attempt outcomes. `Ledger.QuickBalanceAll` gives the meaning of
  one query over a list of transactions.
- `Ledger.BindQuickBalanceAll` gives a meaning only to text, integer, text,
  integer bindings. SQLite's comparisons between other value types are not
  modelled.
- `LedgerQueries.AsMapping` matches column names case-sensitively. SQLite's
  `Row` matches them case-insensitively. `dict(data)` on a row factory other
  than `sqlite3.Row` is not modelled.
- Floating point. Balances are exact reals, so the rounding of `balance/10000`
  in floating point is not modelled. The weight is a rough estimate anyway.
- The log text. Each warning keeps the statement and the reason but not the
  database name, because the code reads that name from a `self` that does not
  exist.
- The pause is a `Slept` log entry, not a delay. The process stop is a `Fatal`
  result, not a halt.
- The other query constants (block height before a timestamp, timestamp of a
  block, registration scan, last block timestamp, the credit-only and
  debit-only balances). No code in this file uses them.
- Concurrency between calls. The oracle's answers depend only on the call
  form and the attempt number, so time and other callers are seen only
  through those.

## Findings

| source | as written | input that shows it | evidently intended | confidence | as-written member | corrected member |
|---|---|---|---|---|---|---|
| ledger_queries.py:93-101 | `execute` is a class method, but its exception handler uses `self.app_log` and `self.db_name`, and it calls `time.sleep` without importing `time`. So the first database exception becomes a NameError that leaves `execute`. | a database whose first attempt fails and whose second succeeds | log the failure, count it, pause and retry; stop after the tenth failure | high; not executed | `LedgerQueries.ExecuteAsWritten`, `LedgerQueries.FirstFailureRaisesNameError` | `LedgerQueries.Execute` |
| ledger_queries.py:44-49 | SQL `sum` over no rows is NULL, and the query subtracts one sum from the other. An account with credits but no debits (or the reverse) gets NULL, and `reg_check_weight` then fails on `None/10000`. | one transfer of 50000 to A at block 100, queried for A at height 120 | net balance 50000, weight 3 | medium (depends on SQL NULL semantics); not executed | `LedgerQueries.ReceiveOnlyAccountGetsNoWeight` | `LedgerQueries.OneSidedAccountWeight` |
