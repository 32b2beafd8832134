/** The search query handlers (server/index.js, "SearchQuery API"). */
module QueryApi {
  import opened Wrappers
  import opened Text
  import opened Seqs
  import opened Db

  /** POST /api/rounds/:roundId/queries: the query text is mandatory after
      trimming and stored trimmed, the execution date must be present, and a
      round that does not exist breaks the foreign key (404). `executedAt` is
      None when the field is absent or empty. */
  function CreateQuery(st: Store, roundId: nat, queryText: Option<string>,
                       executedAt: Option<nat>, notes: Option<string>): (r: Reply<nat>)
    ensures !(Filled(queryText) && executedAt.Some?) ==>
              r == Reply(st, Failure(Validation(MissingField)))
    ensures Filled(queryText) && executedAt.Some? && roundId !in RoundIds(st) ==>
              r == Reply(st, Failure(NotFound))
    ensures r.result.Success? <==> Filled(queryText) && executedAt.Some? && roundId in RoundIds(st)
    ensures r.result.Success? ==>
              && r.result.value == st.nextId
              && |r.store.queries| == |st.queries| + 1
              && var q := r.store.queries[|st.queries|];
                 && r.store == Tick(st).(queries := st.queries + [q])
                 && q.id == r.result.value && q.roundId == roundId
                 && q.queryText == Trim(queryText.value) && q.executedAt == executedAt.value
                 && q.notes == notes
  {
    if !Filled(queryText) || executedAt.None? then
      Reply(st, Failure(Validation(MissingField)))
    else if roundId !in RoundIds(st) then
      Reply(st, Failure(NotFound))
    else
      var q := Query(st.nextId, roundId, Trim(queryText.value), executedAt.value, notes, st.clock);
      Reply(Tick(st).(queries := st.queries + [q]), Success(q.id))
  }

  /** The listing order of queries: execution date first, creation time second. */
  predicate ListedBefore(a: Query, b: Query) {
    a.executedAt < b.executedAt || (a.executedAt == b.executedAt && a.createdAt <= b.createdAt)
  }

  ghost predicate SortedByExecution(s: seq<Query>) {
    forall i, j :: 0 <= i < j < |s| ==> ListedBefore(s[i], s[j])
  }

  /** Puts `x` into its place in a sorted sequence. */
  function InsertByExecution(x: Query, s: seq<Query>): (r: seq<Query>)
    requires SortedByExecution(s)
    ensures SortedByExecution(r)
    ensures multiset(r) == multiset(s) + multiset{x}
  {
    if |s| == 0 then [x]
    else if ListedBefore(x, s[0]) then [x] + s
    else
      var t := InsertByExecution(x, s[1..]);
      assert s == [s[0]] + s[1..];
      HeadFirst(s);
      assert forall y :: y in t ==> y in multiset(t);
      ConsSorted(s[0], t);
      [s[0]] + t
  }

  /** The head of a sorted sequence comes before all of its tail. */
  lemma HeadFirst(s: seq<Query>)
    requires |s| > 0 && SortedByExecution(s)
    ensures forall y :: y in s[1..] ==> ListedBefore(s[0], y)
  {
    forall y | y in s[1..]
      ensures ListedBefore(s[0], y)
    {
      var m :| 0 <= m < |s[1..]| && s[1..][m] == y;
      assert s[m + 1] == y;
    }
  }

  /** A row that comes before every row of a sorted sequence can head it. */
  lemma ConsSorted(a: Query, t: seq<Query>)
    requires SortedByExecution(t)
    requires forall y :: y in t ==> ListedBefore(a, y)
    ensures SortedByExecution([a] + t)
  {
    var s := [a] + t;
    forall i, j | 0 <= i < j < |s|
      ensures ListedBefore(s[i], s[j])
    {
      assert s[j] == t[j - 1];
      if i > 0 {
        assert s[i] == t[i - 1];
      } else {
        assert s[j] in t;
      }
    }
  }

  /** Insertion sort into listing order. */
  function SortByExecution(s: seq<Query>): (r: seq<Query>)
    ensures SortedByExecution(r)
    ensures multiset(r) == multiset(s)
  {
    if |s| == 0 then []
    else
      assert s == [s[0]] + s[1..];
      InsertByExecution(s[0], SortByExecution(s[1..]))
  }

  /** GET /api/rounds/:roundId/queries: the round's queries, by execution date
      and then by creation time. */
  function ListQueries(st: Store, roundId: nat): (r: seq<Query>)
    ensures SortedByExecution(r)
    ensures multiset(r) == multiset(Select(st.queries, QueryRound, roundId))
    ensures forall q :: q in r <==> q in st.queries && q.roundId == roundId
  {
    var rows := Select(st.queries, QueryRound, roundId);
    var r := SortByExecution(rows);
    forall q
      ensures q in r <==> q in rows
    {
      assert q in r <==> q in multiset(r);
      assert q in rows <==> q in multiset(rows);
    }
    r
  }

  // ---------------------------------------------------------------------------
  // Properties

  /** The head of a sorted sequence comes before each of its rows. */
  lemma SortedMin(s: seq<Query>, x: Query)
    requires SortedByExecution(s) && x in s
    ensures ListedBefore(s[0], x)
  {
    var k :| 0 <= k < |s| && s[k] == x;
    if k > 0 {
      assert ListedBefore(s[0], s[k]);
    }
  }

  /** Removing equal heads from equal multisets leaves equal multisets. */
  lemma TailMultiset(a: seq<Query>, b: seq<Query>)
    requires |a| > 0 && |b| > 0 && a[0] == b[0] && multiset(a) == multiset(b)
    ensures multiset(a[1..]) == multiset(b[1..])
  {
    assert a == [a[0]] + a[1..] && b == [b[0]] + b[1..];
    assert multiset(a) == multiset([a[0]]) + multiset(a[1..]);
    assert multiset(b) == multiset([b[0]]) + multiset(b[1..]);
    calc {
      multiset(a[1..]);
      multiset(a) - multiset([a[0]]);
      multiset(b) - multiset([b[0]]);
      multiset(b[1..]);
    }
  }

  /** Two sorted arrangements of the same rows are the same sequence when no
      two distinct rows tie on both sort keys. */
  lemma {:induction false} SortedUnique(a: seq<Query>, b: seq<Query>)
    requires SortedByExecution(a) && SortedByExecution(b)
    requires multiset(a) == multiset(b)
    requires forall x, y :: x in a && y in a && ListedBefore(x, y) && ListedBefore(y, x) ==> x == y
    ensures a == b
  {
    assert |a| == |multiset(a)| == |multiset(b)| == |b|;
    if |a| > 0 {
      assert a[0] in multiset(b) && b[0] in multiset(a);
      SortedMin(b, a[0]);
      SortedMin(a, b[0]);
      assert a[0] == b[0];
      TailMultiset(a, b);
      assert SortedByExecution(a[1..]) && SortedByExecution(b[1..]);
      assert forall x :: x in a[1..] ==> x in a;
      SortedUnique(a[1..], b[1..]);
      assert a == [a[0]] + a[1..] && b == [b[0]] + b[1..];
    }
  }

  /** Distinct rows of a chronological table never tie on creation time. */
  lemma CreationTimesUnique(s: seq<Query>)
    requires Increasing(s, QueryAt)
    ensures forall x, y :: x in s && y in s && x.createdAt == y.createdAt ==> x == y
  {
    forall x, y | x in s && y in s && x.createdAt == y.createdAt
      ensures x == y
    {
      var i :| 0 <= i < |s| && s[i] == x;
      var j :| 0 <= j < |s| && s[j] == y;
      assert QueryAt(s[i]) == QueryAt(s[j]);
    }
  }

  /** The query listing is determined by the rows alone: whatever order the
      datastore keeps a round's queries in, sorting them gives the listing. */
  lemma ListQueriesDeterministic(st: Store, roundId: nat, rows: seq<Query>)
    requires Valid(st)
    requires multiset(rows) == multiset(Select(st.queries, QueryRound, roundId))
    ensures SortByExecution(rows) == ListQueries(st, roundId)
  {
    var a := SortByExecution(rows);
    var b := ListQueries(st, roundId);
    CreationTimesUnique(st.queries);
    forall x, y | x in a && y in a && ListedBefore(x, y) && ListedBefore(y, x)
      ensures x == y
    {
      assert x in multiset(a) && y in multiset(a);
    }
    SortedUnique(a, b);
  }

  lemma CreateQueryValid(st: Store, roundId: nat, queryText: Option<string>,
                         executedAt: Option<nat>, notes: Option<string>)
    requires Valid(st)
    ensures Valid(CreateQuery(st, roundId, queryText, executedAt, notes).store)
  {
    var r := CreateQuery(st, roundId, queryText, executedAt, notes);
    if r.result.Success? {
      InsertQueryValid(st, r.store.queries[|st.queries|]);
    }
  }
}
