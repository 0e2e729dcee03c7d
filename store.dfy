/** The database of the application as one object holding its two tables, with the
    request handlers and the startup sequence as methods over it. Each method is one
    committed transaction. */
module Store {
  import opened Text
  import opened Quotes

  /** Outcome of a vote request: done, or 404 because an id is unknown. */
  datatype Status = Ok | NotFound

  /** What the main page does: show two quotes to compare, or go and save the results. */
  datatype Page = RoundOver | Compare(first: Quote, second: Quote)

  class QuoteStore {
    var quotes: seq<Quote>
    var sessions: seq<SessionResult>

    /** Primary keys are unique in both tables. */
    ghost predicate Valid()
      reads this
    {
      UniqueIds(quotes) && UniqueSessionIds(sessions)
    }

    /** Opens the database with whatever the two tables already hold. */
    constructor (storedQuotes: seq<Quote>, storedSessions: seq<SessionResult>)
      requires UniqueIds(storedQuotes) && UniqueSessionIds(storedSessions)
      ensures Valid()
      ensures quotes == storedQuotes && sessions == storedSessions
    {
      quotes := storedQuotes;
      sessions := storedSessions;
    }

    /** Sets both counters of every quote to zero. */
    method ResetQuotes()
      requires Valid()
      modifies this
      ensures Valid() && sessions == old(sessions)
      ensures |quotes| == |old(quotes)|
      ensures forall i :: 0 <= i < |quotes| ==> quotes[i] == Zeroed(old(quotes)[i])
      ensures CountersValid(quotes) && Eligible(quotes) == quotes
    {
      var i := 0;
      while i < |quotes|
        invariant 0 <= i <= |quotes| == |old(quotes)|
        invariant forall k :: 0 <= k < i ==> quotes[k] == Zeroed(old(quotes)[k])
        invariant forall k :: i <= k < |quotes| ==> quotes[k] == old(quotes)[k]
        invariant sessions == old(sessions)
      {
        quotes := quotes[i := quotes[i].(points := 0, timesCompeted := 0)];
        i := i + 1;
      }
      ResetState(old(quotes), quotes);
      assert forall k :: 0 <= k < |quotes| ==> quotes[k].id == old(quotes)[k].id;
    }

    /** Adds one quote per CSV row, its text the row's first field and both counters zero,
        with ids counting up from one past the largest id in the table. A row without fields
        raises before the commit, so then nothing is added. */
    method ImportRows(rows: seq<seq<string>>) returns (ok: bool)
      requires Valid()
      modifies this
      ensures Valid() && sessions == old(sessions)
      ensures ok <==> forall k :: 0 <= k < |rows| ==> |rows[k]| > 0
      ensures !ok ==> quotes == old(quotes)
      ensures ok ==> |quotes| == |old(quotes)| + |rows| && quotes[..|old(quotes)|] == old(quotes)
      ensures ok ==> forall k :: 0 <= k < |rows| ==>
        quotes[|old(quotes)| + k] == Quote(MaxQuoteId(old(quotes)) + 1 + k, rows[k][0], 0, 0)
    {
      var firstId := MaxQuoteId(quotes) + 1;
      var added: seq<Quote> := [];
      var k := 0;
      while k < |rows|
        invariant 0 <= k <= |rows| && |added| == k
        invariant forall j :: 0 <= j < k ==> |rows[j]| > 0 && added[j] == Quote(firstId + j, rows[j][0], 0, 0)
        invariant quotes == old(quotes) && sessions == old(sessions)
      {
        if |rows[k]| == 0 {
          return false;
        }
        added := added + [Quote(firstId + k, rows[k][0], 0, 0)];
        k := k + 1;
      }
      quotes := quotes + added;
      ok := true;
      assert forall j :: 0 <= j < |added| ==> quotes[|old(quotes)| + j] == added[j];
    }

    /** Startup: reset every quote, then import the CSV rows only if the table is empty.
        On an empty table the new quotes get ids 1, 2, ...; `ok` is false when a row has
        no fields, which aborts startup. */
    method Startup(rows: seq<seq<string>>) returns (ok: bool)
      requires Valid()
      modifies this
      ensures Valid() && sessions == old(sessions)
      ensures CountersValid(quotes)
      ensures old(quotes) != [] ==>
        (ok && |quotes| == |old(quotes)| && forall i :: 0 <= i < |quotes| ==> quotes[i] == Zeroed(old(quotes)[i]))
      ensures old(quotes) == [] ==> (ok <==> forall k :: 0 <= k < |rows| ==> |rows[k]| > 0)
      ensures old(quotes) == [] && ok ==>
        (|quotes| == |rows| && forall k :: 0 <= k < |rows| ==> quotes[k] == Quote(k + 1, rows[k][0], 0, 0))
      ensures old(quotes) == [] && !ok ==> quotes == []
    {
      ResetQuotes();
      if |quotes| == 0 {
        ok := ImportRows(rows);
        if ok {
          forall i | 0 <= i < |quotes| ensures quotes[i] == Quote(i + 1, rows[i][0], 0, 0) {
            assert quotes[i] == quotes[0 + i];
          }
        }
      } else {
        ok := true;
      }
    }

    /** The main page: the quotes that competed fewer than two times; with fewer than two
        of them the round is over, otherwise any two different ones are offered. */
    method Index() returns (page: Page)
      requires Valid()
      ensures page.RoundOver? <==> |Eligible(quotes)| < 2
      ensures page.Compare? ==>
        && page.first in quotes && page.second in quotes
        && page.first.timesCompeted < 2 && page.second.timesCompeted < 2
        && page.first.id != page.second.id
    {
      var candidates := Eligible(quotes);
      if |candidates| < 2 {
        return RoundOver;
      }
      EligibleUniqueIds(quotes);
      assert 0 != 1 && 1 < |candidates|;
      var i, j :| 0 <= i < |candidates| && 0 <= j < |candidates| && i != j;
      page := Compare(candidates[i], candidates[j]);
    }

    /** Records that `winnerId` beat `loserId`. Both ids are looked up before anything is
        changed; an unknown id fails with nothing modified. */
    method Vote(winnerId: nat, loserId: nat) returns (status: Status)
      requires Valid()
      modifies this
      ensures Valid() && sessions == old(sessions)
      ensures status == NotFound <==> !HasId(old(quotes), winnerId) || !HasId(old(quotes), loserId)
      ensures status == NotFound ==> quotes == old(quotes)
      ensures status == Ok ==> quotes == VoteApplied(old(quotes), winnerId, loserId)
      ensures status == Ok ==> TotalCompeted(quotes) == TotalCompeted(old(quotes)) + 2
      ensures Progressed(old(quotes), quotes)
      ensures IdsOf(Eligible(quotes)) <= IdsOf(Eligible(old(quotes)))
      ensures Deficit(quotes) <= Deficit(old(quotes))
      ensures CountersValid(old(quotes)) ==> CountersValid(quotes)
    {
      var winner := FindQuote(quotes, winnerId);
      if winner.None? {
        return NotFound;
      }
      var loser := FindQuote(quotes, loserId);
      if loser.None? {
        return NotFound;
      }
      ApplyVote(winner.value, loser.value);
      status := Ok;
      VoteSummary(old(quotes), winnerId, loserId, quotes);
    }

    /** The update itself: one more point and one more comparison for the quote at `w`,
        then one more comparison for the quote at `l`, both in place. The result is the
        vote effect decided by the two quotes' ids. */
    method ApplyVote(w: nat, l: nat)
      requires Valid() && w < |quotes| && l < |quotes|
      modifies this
      ensures sessions == old(sessions)
      ensures quotes == VoteApplied(old(quotes), old(quotes)[w].id, old(quotes)[l].id)
    {
      quotes := quotes[w := quotes[w].(points := quotes[w].points + 1, timesCompeted := quotes[w].timesCompeted + 1)];
      ghost var won := quotes;
      quotes := quotes[l := quotes[l].(timesCompeted := quotes[l].timesCompeted + 1)];
      VoteInPlace(old(quotes), w, l, won, quotes);
    }

    /** Stores the current ranking as a new session, under one past the largest session id,
        and leaves the quotes and the earlier sessions as they were. */
    method SaveResults() returns (sessionId: nat)
      requires Valid()
      modifies this
      ensures Valid() && quotes == old(quotes)
      ensures sessionId == MaxSessionId(old(sessions)) + 1
      ensures sessions == old(sessions) + [SessionResult(sessionId, Snapshot(quotes))]
      ensures FindSession(sessions, sessionId) == Some(Snapshot(quotes))
      ensures forall id :: id != sessionId ==> FindSession(sessions, id) == FindSession(old(sessions), id)
    {
      var resultText := Snapshot(quotes);
      sessionId := MaxSessionId(sessions) + 1;
      var saved := SessionResult(sessionId, resultText);
      forall id {
        FindSessionAppend(sessions, saved, id);
      }
      sessions := sessions + [saved];
    }
  }
}
