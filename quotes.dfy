/** The records of the quote-voting application and the parts of it that only
    compute: lookup by id, the eligibility filter, the effect of a vote, the
    ranking order of a snapshot and its text. */
module Quotes {
  import opened Text


  /** A row of the quote table. */
  datatype Quote = Quote(id: nat, text: string, points: int, timesCompeted: int)

  /** A row of the saved-results table: one rendered ranking. */
  datatype SessionResult = SessionResult(id: nat, resultData: string)

  // ---------------------------------------------------------------------------
  // Primary keys

  predicate UniqueIds(qs: seq<Quote>) {
    forall i, j :: 0 <= i < j < |qs| ==> qs[i].id != qs[j].id
  }

  predicate UniqueSessionIds(ss: seq<SessionResult>) {
    forall i, j :: 0 <= i < j < |ss| ==> ss[i].id != ss[j].id
  }

  predicate HasId(qs: seq<Quote>, id: nat) {
    exists i :: 0 <= i < |qs| && qs[i].id == id
  }

  /** The largest quote id, or 0 for an empty table; SQLite gives a new row this plus one. */
  function MaxQuoteId(qs: seq<Quote>): (m: nat)
    ensures forall i :: 0 <= i < |qs| ==> qs[i].id <= m
    ensures qs == [] ==> m == 0
    ensures qs != [] ==> HasId(qs, m)
  {
    if qs == [] then 0
    else
      var m := MaxQuoteId(qs[..|qs| - 1]);
      if qs[|qs| - 1].id > m then qs[|qs| - 1].id else m
  }

  /** The largest session id, or 0 when no session was saved yet. */
  function MaxSessionId(ss: seq<SessionResult>): (m: nat)
    ensures forall i :: 0 <= i < |ss| ==> ss[i].id <= m
    ensures ss == [] ==> m == 0
    ensures ss != [] ==> exists i :: 0 <= i < |ss| && ss[i].id == m
  {
    if ss == [] then 0
    else
      var m := MaxSessionId(ss[..|ss| - 1]);
      if ss[|ss| - 1].id > m then ss[|ss| - 1].id else m
  }

  /** `Quote.query.get(id)`: the position of the quote with that id, if any. */
  function FindQuote(qs: seq<Quote>, id: nat): (r: Option<nat>)
    ensures r.Some? ==> r.value < |qs| && qs[r.value].id == id
    ensures r.None? <==> !HasId(qs, id)
  {
    if qs == [] then None
    else if qs[0].id == id then Some(0)
    else match FindQuote(qs[1..], id)
      case None =>
        assert forall i :: 0 < i < |qs| ==> qs[i] == qs[1..][i - 1];
        None
      case Some(k) => Some(k + 1)
  }

  /** `SessionResult.query.get(id)`: the stored text of the session with that id, if any. */
  function FindSession(ss: seq<SessionResult>, id: nat): (r: Option<string>)
    ensures r.None? <==> forall i :: 0 <= i < |ss| ==> ss[i].id != id
    ensures r.Some? ==> exists i :: 0 <= i < |ss| && ss[i].id == id && ss[i].resultData == r.value
  {
    if ss == [] then None
    else if ss[0].id == id then Some(ss[0].resultData)
    else
      var r := FindSession(ss[1..], id);
      assert forall i :: 0 < i < |ss| ==> ss[i] == ss[1..][i - 1];
      r
  }

  /** With unique ids, the lookup returns exactly the text stored under the id. */
  lemma FindSessionAt(ss: seq<SessionResult>, i: nat)
    requires UniqueSessionIds(ss) && i < |ss|
    ensures FindSession(ss, ss[i].id) == Some(ss[i].resultData)
  {
  }

  /** Appending a session with a new id keeps every earlier lookup and makes the new one succeed. */
  lemma {:induction false} FindSessionAppend(ss: seq<SessionResult>, s: SessionResult, id: nat)
    requires forall i :: 0 <= i < |ss| ==> ss[i].id != s.id
    ensures FindSession(ss + [s], id) == if id == s.id then Some(s.resultData) else FindSession(ss, id)
  {
    if ss != [] {
      assert (ss + [s])[1..] == ss[1..] + [s];
      FindSessionAppend(ss[1..], s, id);
    }
  }

  // ---------------------------------------------------------------------------
  // Counters

  /** Every quote has `0 <= points <= times_competed`. */
  predicate CountersValid(qs: seq<Quote>) {
    forall i :: 0 <= i < |qs| ==> 0 <= qs[i].points <= qs[i].timesCompeted
  }

  /** A quote with both counters set back to zero: the same quote, satisfying the counter
      invariant, back in the pool with two comparisons to go. */
  function Zeroed(q: Quote): (r: Quote)
    ensures r.id == q.id && r.text == q.text
    ensures 0 <= r.points <= r.timesCompeted && r.timesCompeted < 2 && Need(r) == 2
  {
    q.(points := 0, timesCompeted := 0)
  }

  /** The counters only grew from `before` to `after`; ids, texts and order are kept. */
  predicate Progressed(before: seq<Quote>, after: seq<Quote>) {
    |after| == |before| &&
    forall i :: 0 <= i < |before| ==>
      after[i].id == before[i].id && after[i].text == before[i].text &&
      before[i].points <= after[i].points && before[i].timesCompeted <= after[i].timesCompeted
  }

  function TotalCompeted(qs: seq<Quote>): int {
    if qs == [] then 0 else qs[0].timesCompeted + TotalCompeted(qs[1..])
  }

  /** Comparisons a quote still has to take part in before it leaves the pool. */
  function Need(q: Quote): nat {
    if q.timesCompeted < 2 then 2 - q.timesCompeted else 0
  }

  /** Comparisons still owed by the whole table; it bounds how long a round can go on. */
  function Deficit(qs: seq<Quote>): nat {
    if qs == [] then 0 else Need(qs[0]) + Deficit(qs[1..])
  }

  function CountId(qs: seq<Quote>, id: nat): nat {
    if qs == [] then 0 else (if qs[0].id == id then 1 else 0) + CountId(qs[1..], id)
  }

  function CountEligibleId(qs: seq<Quote>, id: nat): nat {
    if qs == [] then 0
    else (if qs[0].id == id && qs[0].timesCompeted < 2 then 1 else 0) + CountEligibleId(qs[1..], id)
  }

  /** With unique ids, a present id is counted once, and once among the eligible iff it is eligible. */
  lemma {:induction false} CountPresentId(qs: seq<Quote>, i: nat)
    requires UniqueIds(qs) && i < |qs|
    ensures CountId(qs, qs[i].id) == 1
    ensures CountEligibleId(qs, qs[i].id) == if qs[i].timesCompeted < 2 then 1 else 0
  {
    if i == 0 {
      CountAbsentId(qs[1..], qs[0].id);
    } else {
      CountPresentId(qs[1..], i - 1);
    }
  }

  lemma {:induction false} CountAbsentId(qs: seq<Quote>, id: nat)
    requires forall i :: 0 <= i < |qs| ==> qs[i].id != id
    ensures CountId(qs, id) == 0 && CountEligibleId(qs, id) == 0
  {
    if qs != [] {
      CountAbsentId(qs[1..], id);
    }
  }

  // ---------------------------------------------------------------------------
  // Eligibility (the filter `times_competed < 2`)

  /** The quotes that still need comparisons, in store order. */
  function Eligible(qs: seq<Quote>): (r: seq<Quote>)
    ensures forall q :: q in r <==> q in qs && q.timesCompeted < 2
    ensures |r| <= |qs|
  {
    if qs == [] then []
    else if qs[0].timesCompeted < 2 then [qs[0]] + Eligible(qs[1..])
    else Eligible(qs[1..])
  }

  /** The filter keeps ids unique, so two different positions are two different quotes. */
  lemma {:induction false} EligibleUniqueIds(qs: seq<Quote>)
    requires UniqueIds(qs)
    ensures UniqueIds(Eligible(qs))
  {
    if qs != [] {
      EligibleUniqueIds(qs[1..]);
      var rest := Eligible(qs[1..]);
      if qs[0].timesCompeted < 2 {
        forall j | 0 <= j < |rest| ensures rest[j].id != qs[0].id {
          assert rest[j] in qs[1..];
        }
      }
    }
  }

  function IdsOf(qs: seq<Quote>): set<nat> {
    if qs == [] then {} else {qs[0].id} + IdsOf(qs[1..])
  }

  /** When counters only grow, the pool of eligible quotes can only shrink. */
  lemma {:induction false} EligibleShrinks(before: seq<Quote>, after: seq<Quote>)
    requires Progressed(before, after)
    ensures IdsOf(Eligible(after)) <= IdsOf(Eligible(before))
    ensures |Eligible(after)| <= |Eligible(before)|
  {
    if before != [] {
      assert Progressed(before[1..], after[1..]) by {
        forall i | 0 <= i < |before| - 1
          ensures after[1..][i].id == before[1..][i].id && after[1..][i].text == before[1..][i].text
          ensures before[1..][i].points <= after[1..][i].points
          ensures before[1..][i].timesCompeted <= after[1..][i].timesCompeted
        {
          assert before[1..][i] == before[i + 1] && after[1..][i] == after[i + 1];
        }
      }
      EligibleShrinks(before[1..], after[1..]);
      if before[0].timesCompeted < 2 {
        assert Eligible(before) == [before[0]] + Eligible(before[1..]);
        assert ([before[0]] + Eligible(before[1..]))[1..] == Eligible(before[1..]);
      }
      if after[0].timesCompeted < 2 {
        assert Eligible(after) == [after[0]] + Eligible(after[1..]);
        assert ([after[0]] + Eligible(after[1..]))[1..] == Eligible(after[1..]);
      }
    }
  }

  // ---------------------------------------------------------------------------
  // Voting

  /** What one vote does to a quote, decided by its id alone: the same quote, no counter
      lower, at most one more point and never more points than comparisons gained, and
      untouched unless it is the winner or the loser. */
  function Bumped(q: Quote, winnerId: nat, loserId: nat): (r: Quote)
    ensures r.id == q.id && r.text == q.text
    ensures q.points <= r.points <= q.points + 1
    ensures r.points - q.points <= r.timesCompeted - q.timesCompeted <= 2
    ensures r.points > q.points <==> q.id == winnerId
    ensures r.timesCompeted > q.timesCompeted <==> q.id == winnerId || q.id == loserId
  {
    var won := if q.id == winnerId then 1 else 0;
    var played := won + (if q.id == loserId then 1 else 0);
    q.(points := q.points + won, timesCompeted := q.timesCompeted + played)
  }

  /** The table after a successful vote: the same quotes in the same order, no counter lower. */
  function VoteApplied(qs: seq<Quote>, winnerId: nat, loserId: nat): (r: seq<Quote>)
    ensures Progressed(qs, r)
  {
    if qs == [] then []
    else
      var rest := VoteApplied(qs[1..], winnerId, loserId);
      var r := [Bumped(qs[0], winnerId, loserId)] + rest;
      assert forall i :: 0 < i < |r| ==> r[i] == rest[i - 1] && qs[i] == qs[1..][i - 1];
      r
  }

  lemma {:induction false} VoteAppliedAt(qs: seq<Quote>, winnerId: nat, loserId: nat, i: nat)
    requires i < |qs|
    ensures VoteApplied(qs, winnerId, loserId)[i] == Bumped(qs[i], winnerId, loserId)
  {
    if i > 0 {
      VoteAppliedAt(qs[1..], winnerId, loserId, i - 1);
    }
  }

  /** The handler changes the winner's row and then the loser's row in place; when both ids
      name the same row the second change sees the first. That is the id-based update above. */
  lemma VoteInPlace(qs: seq<Quote>, w: nat, l: nat, won: seq<Quote>, both: seq<Quote>)
    requires UniqueIds(qs) && w < |qs| && l < |qs|
    requires won == qs[w := qs[w].(points := qs[w].points + 1, timesCompeted := qs[w].timesCompeted + 1)]
    requires both == won[l := won[l].(timesCompeted := won[l].timesCompeted + 1)]
    ensures both == VoteApplied(qs, qs[w].id, qs[l].id)
  {
    var r := VoteApplied(qs, qs[w].id, qs[l].id);
    forall i | 0 <= i < |qs| ensures both[i] == r[i] {
      VoteAppliedAt(qs, qs[w].id, qs[l].id, i);
      assert i != w ==> qs[i].id != qs[w].id;
      assert i != l ==> qs[i].id != qs[l].id;
      VoteInPlaceAt(qs, w, l, won, both, i);
    }
  }

  /** One row of the in-place update: the row that only the position says is changed is
      exactly the row the ids say is changed. */
  lemma VoteInPlaceAt(qs: seq<Quote>, w: nat, l: nat, won: seq<Quote>, both: seq<Quote>, i: nat)
    requires w < |qs| && l < |qs| && i < |qs|
    requires i != w ==> qs[i].id != qs[w].id
    requires i != l ==> qs[i].id != qs[l].id
    requires won == qs[w := qs[w].(points := qs[w].points + 1, timesCompeted := qs[w].timesCompeted + 1)]
    requires both == won[l := won[l].(timesCompeted := won[l].timesCompeted + 1)]
    ensures both[i] == Bumped(qs[i], qs[w].id, qs[l].id)
  {
  }

  /** A vote touches only the winner and the loser: the winner gains a point and a comparison,
      the loser a comparison, the same quote on both sides gains a point and two comparisons,
      and every other quote is left exactly as it was. */
  lemma VoteEffect(qs: seq<Quote>, winnerId: nat, loserId: nat, i: nat)
    requires i < |qs|
    ensures var q, q' := qs[i], VoteApplied(qs, winnerId, loserId)[i];
      && q'.id == q.id && q'.text == q.text
      && (q.id != winnerId && q.id != loserId ==> q' == q)
      && (q.id == winnerId && q.id != loserId ==>
            q'.points == q.points + 1 && q'.timesCompeted == q.timesCompeted + 1)
      && (q.id == loserId && q.id != winnerId ==>
            q'.points == q.points && q'.timesCompeted == q.timesCompeted + 1)
      && (q.id == winnerId && q.id == loserId ==>
            q'.points == q.points + 1 && q'.timesCompeted == q.timesCompeted + 2)
  {
    VoteAppliedAt(qs, winnerId, loserId, i);
  }

  /** `0 <= points <= times_competed` survives a vote. */
  lemma VotePreservesCounters(qs: seq<Quote>, winnerId: nat, loserId: nat)
    requires CountersValid(qs)
    ensures CountersValid(VoteApplied(qs, winnerId, loserId))
  {
    forall i | 0 <= i < |qs| {
      VoteAppliedAt(qs, winnerId, loserId, i);
    }
  }

  lemma {:induction false} VoteTotal(qs: seq<Quote>, winnerId: nat, loserId: nat)
    ensures TotalCompeted(VoteApplied(qs, winnerId, loserId))
         == TotalCompeted(qs) + CountId(qs, winnerId) + CountId(qs, loserId)
  {
    if qs != [] {
      VoteTotal(qs[1..], winnerId, loserId);
    }
  }

  /** A successful vote adds exactly two to the total of `times_competed`. */
  lemma VoteAddsTwo(qs: seq<Quote>, winnerId: nat, loserId: nat)
    requires UniqueIds(qs) && HasId(qs, winnerId) && HasId(qs, loserId)
    ensures TotalCompeted(VoteApplied(qs, winnerId, loserId)) == TotalCompeted(qs) + 2
  {
    VoteTotal(qs, winnerId, loserId);
    var w :| 0 <= w < |qs| && qs[w].id == winnerId;
    var l :| 0 <= l < |qs| && qs[l].id == loserId;
    CountPresentId(qs, w);
    CountPresentId(qs, l);
  }

  lemma {:induction false} VoteDeficit(qs: seq<Quote>, winnerId: nat, loserId: nat)
    requires winnerId != loserId
    ensures Deficit(VoteApplied(qs, winnerId, loserId)) + CountEligibleId(qs, winnerId) + CountEligibleId(qs, loserId)
         == Deficit(qs)
  {
    if qs != [] {
      VoteDeficit(qs[1..], winnerId, loserId);
    }
  }

  /** When no counter decreases, the comparisons still owed do not grow. */
  lemma {:induction false} DeficitNeverRises(before: seq<Quote>, after: seq<Quote>)
    requires Progressed(before, after)
    ensures Deficit(after) <= Deficit(before)
  {
    if before != [] {
      assert Progressed(before[1..], after[1..]) by {
        forall i | 0 <= i < |before| - 1
          ensures after[1..][i].id == before[1..][i].id && after[1..][i].text == before[1..][i].text
          ensures before[1..][i].points <= after[1..][i].points
          ensures before[1..][i].timesCompeted <= after[1..][i].timesCompeted
        {
          assert before[1..][i] == before[i + 1] && after[1..][i] == after[i + 1];
        }
      }
      DeficitNeverRises(before[1..], after[1..]);
    }
  }

  /** Everything a successful vote keeps or changes, in one place: ids stay unique, the total
      of `times_competed` grows by two, counters only grow, the eligible pool and the
      comparisons still owed only shrink, and `0 <= points <= times_competed` survives. */
  lemma VoteSummary(qs: seq<Quote>, winnerId: nat, loserId: nat, after: seq<Quote>)
    requires UniqueIds(qs) && HasId(qs, winnerId) && HasId(qs, loserId)
    requires after == VoteApplied(qs, winnerId, loserId)
    ensures
      && UniqueIds(after)
      && TotalCompeted(after) == TotalCompeted(qs) + 2
      && Progressed(qs, after)
      && IdsOf(Eligible(after)) <= IdsOf(Eligible(qs))
      && Deficit(after) <= Deficit(qs)
      && (CountersValid(qs) ==> CountersValid(after))
  {
    VoteAddsTwo(qs, winnerId, loserId);
    EligibleShrinks(qs, after);
    DeficitNeverRises(qs, after);
    if CountersValid(qs) {
      VotePreservesCounters(qs, winnerId, loserId);
    }
  }

  /** A vote on two different eligible quotes, which is what the pair selection offers,
      lowers the outstanding comparisons by exactly two. So at most `Deficit / 2` votes on
      offered pairs fit in a round. Votes sent for other ids need not lower it, but they never
      raise it either (`DeficitNeverRises`). */
  lemma RoundProgress(qs: seq<Quote>, w: nat, l: nat)
    requires UniqueIds(qs) && w < |qs| && l < |qs| && w != l
    requires qs[w].timesCompeted < 2 && qs[l].timesCompeted < 2
    ensures Deficit(VoteApplied(qs, qs[w].id, qs[l].id)) == Deficit(qs) - 2
  {
    VoteDeficit(qs, qs[w].id, qs[l].id);
    CountPresentId(qs, w);
    CountPresentId(qs, l);
  }

  /** Right after a reset every quote is eligible and owes two comparisons. */
  lemma {:induction false} ResetState(qs: seq<Quote>, rs: seq<Quote>)
    requires |rs| == |qs| && forall i :: 0 <= i < |qs| ==> rs[i] == Zeroed(qs[i])
    ensures CountersValid(rs) && TotalCompeted(rs) == 0
    ensures Eligible(rs) == rs
    ensures Deficit(rs) == 2 * |rs|
  {
    if qs != [] {
      ResetState(qs[1..], rs[1..]);
      assert [rs[0]] + rs[1..] == rs;
    }
  }

  // ---------------------------------------------------------------------------
  // Snapshot: `ORDER BY points DESC`, one line per quote, joined by newlines

  predicate SortedByPoints(qs: seq<Quote>) {
    forall i, j :: 0 <= i < j < |qs| ==> qs[i].points >= qs[j].points
  }

  /** Puts `q` before the first quote that does not score more, so `q` comes ahead of
      the quotes already there with the same score. */
  function InsertByPoints(q: Quote, sorted: seq<Quote>): (r: seq<Quote>)
    requires SortedByPoints(sorted)
    ensures SortedByPoints(r)
    ensures multiset(r) == multiset(sorted) + multiset{q}
    ensures |r| == |sorted| + 1 && (r[0] == q || (sorted != [] && r[0] == sorted[0]))
  {
    if sorted == [] || sorted[0].points <= q.points then
      SortedCons(q, sorted);
      assert multiset([q] + sorted) == multiset{q} + multiset(sorted);
      [q] + sorted
    else
      var tail := sorted[1..];
      SortedTail(sorted);
      var rest := InsertByPoints(q, tail);
      assert sorted == [sorted[0]] + tail;
      ConsAhead(sorted[0], q, tail, rest);
      [sorted[0]] + rest
  }

  /** The recursive step of the insertion: a head that scores more than `q` stays in front
      of the insertion into the tail. */
  lemma ConsAhead(x: Quote, q: Quote, tail: seq<Quote>, rest: seq<Quote>)
    requires SortedByPoints(rest) && multiset(rest) == multiset(tail) + multiset{q}
    requires |rest| == |tail| + 1 && (rest[0] == q || (tail != [] && rest[0] == tail[0]))
    requires q.points < x.points && (tail != [] ==> tail[0].points <= x.points)
    ensures SortedByPoints([x] + rest)
    ensures multiset([x] + rest) == multiset([x] + tail) + multiset{q}
  {
    SortedCons(x, rest);
    assert multiset([x] + rest) == multiset{x} + multiset(rest);
    assert multiset([x] + tail) == multiset{x} + multiset(tail);
  }

  lemma SortedTail(sorted: seq<Quote>)
    requires SortedByPoints(sorted) && sorted != []
    ensures SortedByPoints(sorted[1..])
    ensures |sorted| > 1 ==> sorted[0].points >= sorted[1].points
  {
    forall i, j | 0 <= i < j < |sorted| - 1 ensures sorted[1..][i].points >= sorted[1..][j].points {
      assert sorted[1..][i] == sorted[i + 1] && sorted[1..][j] == sorted[j + 1];
    }
  }

  /** A quote that scores at least as much as the head of a sorted list can go in front of it. */
  lemma SortedCons(x: Quote, rest: seq<Quote>)
    requires SortedByPoints(rest) && (rest == [] || rest[0].points <= x.points)
    ensures SortedByPoints([x] + rest)
  {
    var r := [x] + rest;
    forall i, j | 0 <= i < j < |r| ensures r[i].points >= r[j].points {
      assert r[j] == rest[j - 1];
      if i > 0 {
        assert r[i] == rest[i - 1];
      } else {
        assert rest[0].points >= rest[j - 1].points;
      }
    }
  }

  /** All quotes by non-increasing points; equal scores keep store order. */
  function SortByPoints(qs: seq<Quote>): (r: seq<Quote>)
    ensures SortedByPoints(r)
    ensures multiset(r) == multiset(qs)
  {
    if qs == [] then []
    else
      assert qs == [qs[0]] + qs[1..];
      InsertByPoints(qs[0], SortByPoints(qs[1..]))
  }

  /** What stands between a quote's text and its score in a snapshot line. */
  const Dash := " — "

  /** What follows the score in a snapshot line ("points", in Russian). */
  const ScoreUnit := " очков"

  /** Reads a snapshot line back: it must end in the closing word, with the score written
      as Python writes an integer right before it, and the dash before the score; what
      stands before the dash is the text. */
  function ParseLine(line: string): Option<(string, int)> {
    var body := StripSuffix(line, ScoreUnit);
    if body.None? then None
    else
      var score := SplitTrailingInt(body.value);
      if score.None? then None
      else
        var text := StripSuffix(score.value.0, Dash);
        if text.None? then None
        else Some((text.value, score.value.1))
  }

  /** One line of the snapshot: text, an em dash, the score and the word "очков". The line
      starts with the quote's text, reads back as exactly that text and score, and holds no
      newline unless the text does. */
  function Line(q: Quote): (r: string)
    ensures |r| >= |q.text| && r[..|q.text|] == q.text
    ensures ParseLine(r) == Some((q.text, q.points))
    ensures '\n' !in q.text ==> '\n' !in r
  {
    LinePrefix(q.text, q.points);
    LineParses(q.text, q.points);
    LineNewlines(q.text, q.points);
    q.text + Dash + IntToString(q.points) + ScoreUnit
  }

  lemma LinePrefix(text: string, i: int)
    ensures var r := text + Dash + IntToString(i) + ScoreUnit; |r| >= |text| && r[..|text|] == text
  {
    var r := text + Dash + IntToString(i) + ScoreUnit;
    assert r[..|text|] == text;
  }

  /** A line written from a text and a score parses back to that text and score. */
  lemma LineParses(text: string, i: int)
    ensures ParseLine(text + Dash + IntToString(i) + ScoreUnit) == Some((text, i))
  {
    var prefix := text + Dash;
    StripSuffixOf(prefix + IntToString(i), ScoreUnit);
    assert prefix[|prefix| - 1] == ' ';
    SplitTrailingIntOf(prefix, i);
    StripSuffixOf(text, Dash);
  }

  /** A line holds a newline only where its text does. */
  lemma LineNewlines(text: string, i: int)
    ensures '\n' !in text ==> '\n' !in text + Dash + IntToString(i) + ScoreUnit
  {
    var score := IntToString(i);
    assert '\n' !in score by {
      if i < 0 {
        assert score == [score[0]] + score[1..];
      }
    }
    assert '\n' !in Dash && '\n' !in ScoreUnit;
  }

  function Lines(qs: seq<Quote>): seq<string> {
    if qs == [] then [] else [Line(qs[0])] + Lines(qs[1..])
  }

  /** The lines of a snapshot, best score first. */
  function SnapshotLines(qs: seq<Quote>): seq<string> {
    Lines(SortByPoints(qs))
  }

  /** The text stored as `result_data`. When the table is not empty and no quote text holds
      a newline, splitting it on newlines gives back the snapshot lines, one per quote. */
  function Snapshot(qs: seq<Quote>): (r: string)
    ensures qs == [] ==> r == ""
    ensures |qs| > 0 && (forall i :: 0 <= i < |qs| ==> '\n' !in qs[i].text) ==>
      Split(r, '\n') == SnapshotLines(qs) && |Split(r, '\n')| == |qs|
  {
    SnapshotIsRanking(qs);
    SnapshotLinesWithoutNewline(qs);
    Join(SnapshotLines(qs), '\n')
  }

  lemma {:induction false} LinesAt(qs: seq<Quote>, i: nat)
    requires i < |qs|
    ensures |Lines(qs)| == |qs| && Lines(qs)[i] == Line(qs[i])
  {
    if i > 0 {
      LinesAt(qs[1..], i - 1);
    } else {
      LinesLength(qs);
    }
  }

  lemma {:induction false} LinesLength(qs: seq<Quote>)
    ensures |Lines(qs)| == |qs|
  {
    if qs != [] {
      LinesLength(qs[1..]);
    }
  }

  /** The snapshot has exactly one line per quote; line `i` renders the `i`-th quote of an
      arrangement of all quotes (same multiset) whose points never increase. */
  lemma SnapshotIsRanking(qs: seq<Quote>)
    ensures var ranked := SortByPoints(qs);
      && |SnapshotLines(qs)| == |qs| == |ranked|
      && multiset(ranked) == multiset(qs)
      && (forall i, j :: 0 <= i < j < |ranked| ==> ranked[i].points >= ranked[j].points)
      && (forall i :: 0 <= i < |ranked| ==> SnapshotLines(qs)[i] == Line(ranked[i]))
  {
    var ranked := SortByPoints(qs);
    assert |multiset(ranked)| == |multiset(qs)|;
    LinesLength(ranked);
    forall i | 0 <= i < |ranked| ensures SnapshotLines(qs)[i] == Line(ranked[i]) {
      LinesAt(ranked, i);
    }
  }

  lemma SnapshotLinesWithoutNewline(qs: seq<Quote>)
    ensures (forall i :: 0 <= i < |qs| ==> '\n' !in qs[i].text) ==>
      forall k :: 0 <= k < |SnapshotLines(qs)| ==> '\n' !in SnapshotLines(qs)[k]
  {
    if forall i :: 0 <= i < |qs| ==> '\n' !in qs[i].text {
      SnapshotIsRanking(qs);
      var ranked := SortByPoints(qs);
      forall k | 0 <= k < |SnapshotLines(qs)| ensures '\n' !in SnapshotLines(qs)[k] {
        assert ranked[k] in multiset(qs);
      }
    }
  }

  /** Ties are ranked in store order: a quote that scores at least as much as every quote
      stored after it comes first in the ranking, even when some of them score the same. */
  lemma {:induction false} SortHeadFirst(qs: seq<Quote>)
    requires qs != []
    requires forall j :: 0 < j < |qs| ==> qs[j].points <= qs[0].points
    ensures |SortByPoints(qs)| == |qs| && SortByPoints(qs)[0] == qs[0]
  {
    var tail := qs[1..];
    var rest := SortByPoints(tail);
    assert [qs[0]] + tail == qs;
    SortCons(qs[0], tail);
    if rest != [] {
      assert rest[0] in multiset(rest);
      var j :| 0 <= j < |tail| && tail[j] == rest[0];
      assert tail[j] == qs[j + 1];
    }
    InsertFront(qs[0], rest);
  }

  lemma SortCons(q: Quote, qs: seq<Quote>)
    ensures SortByPoints([q] + qs) == InsertByPoints(q, SortByPoints(qs))
  {
    assert ([q] + qs)[1..] == qs;
  }

  lemma InsertFront(q: Quote, sorted: seq<Quote>)
    requires SortedByPoints(sorted) && (sorted == [] || sorted[0].points <= q.points)
    ensures InsertByPoints(q, sorted) == [q] + sorted
  {
  }

}
