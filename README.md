# Pairwise quote voting, modelled in Dafny

The application shows two quotes and asks which one is better. It keeps a score
(`points`) and a participation count (`times_competed`) for every quote. Once fewer
than two quotes have competed fewer than two times, it saves a ranked text snapshot
(a `SessionResult`). Saved snapshots can be fetched by id later.

The model has three modules:

- `Text` (`text.dfy`) covers Python's `str()` of an integer and `"\n".join(...)`.
  Each comes with the function that undoes it: `ParseInt` (and `SplitTrailingInt`, which
  reads a signed integer off the end of a string) and `Split`.
- `Quotes` (`quotes.dfy`) holds the `Quote` and `SessionResult` rows and the parts
  of `main.py` that only compute:
  - lookup by primary key;
  - the eligibility filter `times_competed < 2`;
  - the effect of a vote, defined per row by its id;
  - the `ORDER BY points DESC` ranking and the snapshot text.

  It also holds the lemmas about all of these.
- `Store` (`store.dfy`) holds the class `QuoteStore`. Its two fields, `quotes` and
  `sessions`, stand for the two database tables. Its methods are the startup
  sequence and the request handlers. Each method is one committed transaction.

Decisions where the code says less than one would like:

- Ids follow SQLite's rowid rule: a new row gets one more than the largest id in
  its table, or 1 when the table is empty.
- `ORDER BY points DESC` leaves the order of tied scores open. The model ranks
  ties in store order, using a stable insertion sort.
- CSV rows arrive already parsed, as lists of fields. A blank line gives a row
  with no fields. `row[0]` then raises before the commit, so the import adds
  nothing, and startup reports failure.
- A vote whose winner and loser are the same quote changes one row twice. That
  row gets +1 `points` and +2 `times_competed`.
- Each snapshot line ends in the word `очков`.
- The import keeps only the first CSV field of each row.

## Model

| member | source | states |
|---|---|---|
| `Text.NatToString` | main.py:74 | the decimal rendering of a score is non-empty, all digits, and has no leading zero |
| `Text.ParseNatToString` | main.py:74 | reading the rendered digits back gives the number again |
| `Text.IntToString` | main.py:74 | `str(points)` starts with `-` exactly when the score is negative; the rest is a non-empty run of digits with no leading zero |
| `Text.ParseIntToString` | main.py:74 | the rendered score, negative or not, parses back to the same integer |
| `Text.Join` | main.py:74 | `"\n".join(lines)`: the empty list joins to the empty string; splitting the result on newlines gives back `lines` when there is at least one line and none contains a newline |
| `Quotes.MaxQuoteId` | main.py:17 | the largest quote id (0 on an empty table) bounds every id and is itself an id; a new row gets it plus one |
| `Quotes.MaxSessionId` | main.py:24 | the largest session id (0 when there are none) bounds every session id and is itself one when sessions exist; a new session gets it plus one |
| `Quotes.FindQuote` | main.py:62-63 | `get_or_404`: returns a position holding the id, and fails exactly when no quote has that id |
| `Quotes.FindSession` | main.py:88-90 | `get_or_404` on sessions: fails exactly when no session has the id; otherwise returns the text stored under it |
| `Quotes.FindSessionAt` | main.py:89 | with unique ids, the lookup of a stored session's id returns exactly its `result_data` |
| `Quotes.FindSessionAppend` | main.py:75-77 | after appending a session with a new id, the new id finds its text and every other lookup is unchanged |
| `Quotes.Eligible` | main.py:53 | the filter keeps exactly the quotes with `times_competed < 2`, both directions |
| `Quotes.EligibleUniqueIds` | main.py:56 | the eligible quotes still have distinct ids, so two sampled positions are two different quotes |
| `Quotes.EligibleShrinks` | main.py:53-66 | when no counter decreases, the ids of eligible quotes after are a subset of those before, and there are no more of them |
| `Quotes.Bumped` | main.py:64-66 | one quote under a vote keeps its id and text; it gains a point exactly when it is the winner and a comparison exactly when it is the winner or the loser; it gains at most one point, at most two comparisons, and never more points than comparisons |
| `Quotes.VoteApplied` | main.py:64-66 | the table after a vote holds the same quotes (ids, texts) in the same order, with no counter lower |
| `Quotes.VoteInPlace` | main.py:62-66 | updating the winner's row and then the loser's row in place equals the per-id vote effect, including when both ids are the same |
| `Quotes.VoteEffect` | main.py:61-66 | a vote keeps ids and texts; the winner gets +1 points and +1 competed; the loser gets +1 competed; one quote on both sides gets +1 and +2; every other quote is unchanged |
| `Quotes.VotePreservesCounters` | main.py:64-66 | `0 <= points <= times_competed` holds after a vote if it held before |
| `Quotes.VoteAddsTwo` | main.py:64-66 | a vote on two existing ids adds exactly 2 to the sum of `times_competed` |
| `Quotes.VoteSummary` | main.py:61-67 | a successful vote keeps ids unique, adds 2 to the total of `times_competed`, only raises counters, only shrinks the eligible pool and `Deficit`, and preserves the counter invariant |
| `Quotes.RoundProgress` | main.py:53-66 | a vote on a pair that `index` offers (two different eligible quotes) lowers `Deficit`, the comparisons still owed, by exactly 2; with `Quotes.DeficitNeverRises`, at most `Deficit / 2` such votes fit in a round |
| `Quotes.DeficitNeverRises` | main.py:60-66 | no vote, not even one on ineligible quotes or with the same id twice, raises `Deficit`: counters only grow |
| `Quotes.Zeroed` | main.py:30-31 | a reset quote keeps its id and text, satisfies `0 <= points <= times_competed`, is eligible again and owes 2 comparisons |
| `Quotes.ResetState` | main.py:28-32 | after zeroing all counters: the invariant holds, the total is 0, every quote is eligible and owes 2 comparisons |
| `Quotes.InsertByPoints` | main.py:73 | inserting into a list sorted by non-increasing points keeps it sorted and adds exactly that quote |
| `Quotes.SortByPoints` | main.py:73 | the ranking is sorted by non-increasing points and is a permutation of all quotes |
| `Quotes.Line` | main.py:74 | a snapshot line starts with the quote's text; `ParseLine` reads back exactly that text and score from it, checking that the line ends in the word ` очков`, that the score before it is written the way `str()` writes an integer, and that the text and score are separated by ` — `; the line has no newline unless the text has one |
| `Text.SplitTrailingIntOf` | main.py:74 | reading a signed integer off the end of `prefix + str(i)` gives back exactly `prefix` and `i`, for every integer `i` |
| `Quotes.Snapshot` | main.py:74 | the stored `result_data`: empty for an empty table; for a non-empty table whose texts have no newline, splitting it on newlines gives back the snapshot lines, exactly one per quote |
| `Quotes.SnapshotIsRanking` | main.py:73-74 | the snapshot has one line per quote; line `i` renders quote `i` of a sorted permutation of the table |
| `Quotes.SortHeadFirst` | main.py:73 | a quote that scores at least as much as every quote stored after it ranks first, even when some of them tie with it: ties keep store order |
| `Store.QuoteStore.constructor` | main.py:44-45 | opens the two tables with their persisted rows (unique primary keys) |
| `Store.QuoteStore.ResetQuotes` | main.py:28-32 | sets every quote's counters to 0, keeps ids, texts, the number of quotes and all sessions; afterwards every quote is eligible |
| `Store.QuoteStore.ImportRows` | main.py:35-41 | appends one quote per row with `text = row[0]`, zero counters and increasing fresh ids; a row without fields makes it fail with nothing added |
| `Store.QuoteStore.Startup` | main.py:44-48 | reset always runs; import only on an empty table (ids 1..n); either way the counter invariant holds afterwards |
| `Store.QuoteStore.Index` | main.py:51-57 | the round is over exactly when fewer than 2 quotes are eligible; otherwise two stored quotes with different ids, both with `times_competed < 2` |
| `Store.QuoteStore.ApplyVote` | main.py:64-66 | the two row updates together give the table `VoteApplied` describes for the two rows' ids; sessions are untouched |
| `Store.QuoteStore.Vote` | main.py:60-68 | fails exactly when either id is missing, and then nothing changes; otherwise the table becomes the per-id vote effect, the total grows by 2, the eligible pool only shrinks and `Deficit` never rises; sessions are untouched |
| `Store.QuoteStore.SaveResults` | main.py:71-78 | appends exactly one session holding the ranked snapshot under a fresh id; the quotes and every earlier session stay as they were |

## Left out

- Flask routing, `redirect`/`url_for`, `render_template` and the `<pre>` wrapping in `session_detail` are web glue. `session_detail` is modelled by `Quotes.FindSession`.
- `session_list` (main.py:81-84) only renders every stored session, and the session list is the `sessions` field.
- SQLAlchemy sessions and `db.session.commit()`: each method is one atomic transaction over in-memory sequences.
- Opening and parsing `quotes.csv` is file I/O. The rows arrive already split into fields.
- A failed import aborts the process at startup. `Startup` returns `false` instead and leaves the reset table.
- The randomness of `random.sample`: `Index` may return any two different eligible quotes, in either order.
- Port and environment configuration (main.py:93-95).
- Concurrent requests and lost updates are not modelled; each operation runs alone.
- Ids are unbounded naturals. Flask's `<int:…>` converter accepts any string of digits (main.py:60, main.py:87). An id beyond SQLite's 64-bit INTEGER cannot be bound, so the lookup raises an overflow error and the request fails with a 500. The model reports such an id as not found instead: `Store.QuoteStore.Vote` returns `NotFound` and `Quotes.FindSession` returns `None`. Nothing is modified in either case, in the model or in the application.
- `Quotes.ParseLine` is proved to undo `Quotes.Line`; it is not proved to accept only strings of that form.
- The `String(255)` length of `text` is not enforced (SQLite does not enforce it). Counters are unbounded integers, not SQLite's 64-bit ones.
- `Store.QuoteStore.Index`: the source picks uniformly at random; the model only promises some pair of different eligible quotes.
