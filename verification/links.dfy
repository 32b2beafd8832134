/** The round/source junction handlers (server/index.js: link, unlink and the
    per-round source listing). */
module LinkApi {
  import opened Wrappers
  import opened Seqs
  import opened Db

  /** The junction-table upsert keyed on the (round, source) pair: the pair
      is present afterwards; an existing pair is left as it was. */
  function UpsertLink(links: seq<Link>, l: Link): (r: seq<Link>)
    ensures forall x :: x in r <==> x in links || x == l
    ensures |links| <= |r| <= |links| + 1 && r[..|links|] == links
  {
    if l in links then links else links + [l]
  }

  /** POST /api/rounds/:roundId/sources/:sourceId/link: a round or source that
      does not exist breaks a foreign key, which this handler answers with
      500; otherwise the pair is upserted. */
  function LinkSource(st: Store, roundId: nat, sourceId: nat): (r: Reply<()>)
    ensures r.result.Failure? <==> roundId !in RoundIds(st) || sourceId !in SourceIds(st)
    ensures r.result.Failure? ==> r == Reply(st, Failure(StorageFailure))
    ensures r.result.Success? ==>
              && r.store == st.(links := r.store.links)
              && forall x :: x in r.store.links <==> x in st.links || x == Link(roundId, sourceId)
  {
    if roundId !in RoundIds(st) || sourceId !in SourceIds(st) then
      Reply(st, Failure(StorageFailure))
    else
      Reply(st.(links := UpsertLink(st.links, Link(roundId, sourceId))), Success(()))
  }

  /** DELETE /api/rounds/:roundId/sources/:sourceId/link: the pair is removed
      if present; its absence is not an error. */
  function Unlink(st: Store, roundId: nat, sourceId: nat): (r: Reply<()>)
    ensures r.result == Success(())
    ensures r.store == st.(links := r.store.links)
    ensures forall x :: x in r.store.links <==> x in st.links && x != Link(roundId, sourceId)
  {
    Reply(st.(links := Without(st.links, LinkPair, Link(roundId, sourceId))), Success(()))
  }

  /** The ids of the sources a sequence of links points at. */
  function LinkedIds(ls: seq<Link>): set<nat> {
    set l | l in ls :: l.sourceId
  }

  /** The source row embedded in each link, in link order; a link whose
      source row is missing contributes nothing. */
  function JoinSources(ls: seq<Link>, sources: seq<Source>): (r: seq<Source>)
    ensures |r| <= |ls|
    ensures forall s :: s in r ==> s in sources && s.id in LinkedIds(ls)
  {
    if |ls| == 0 then []
    else
      var hits := Select(sources, SourceId, ls[0].sourceId);
      (if |hits| > 0 then [hits[0]] else []) + JoinSources(ls[1..], sources)
  }

  /** GET /api/rounds/:roundId/sources: the source rows linked to the round. */
  function RoundSources(st: Store, roundId: nat): (r: seq<Source>)
    ensures forall s :: s in r ==> s in st.sources && Link(roundId, s.id) in st.links
  {
    var ls := Select(st.links, LinkRound, roundId);
    var r := JoinSources(ls, st.sources);
    assert forall s :: s in r ==> s.id in LinkedIds(ls);
    r
  }

  // ---------------------------------------------------------------------------
  // Properties

  /** Linking twice is linking once: the second call changes nothing. */
  lemma LinkIdempotent(st: Store, roundId: nat, sourceId: nat)
    ensures var r := LinkSource(st, roundId, sourceId);
            LinkSource(r.store, roundId, sourceId) == r
  {
  }

  /** After a link, the pair is in the junction table exactly once. */
  lemma LinkedExactlyOnce(st: Store, roundId: nat, sourceId: nat)
    requires Valid(st)
    requires LinkSource(st, roundId, sourceId).result.Success?
    ensures |Select(LinkSource(st, roundId, sourceId).store.links, LinkPair, Link(roundId, sourceId))| == 1
  {
    LinkValid(st, roundId, sourceId);
    var links := LinkSource(st, roundId, sourceId).store.links;
    SelectAtMostOne(links, LinkPair, Link(roundId, sourceId));
    assert Link(roundId, sourceId) in Select(links, LinkPair, Link(roundId, sourceId));
  }

  /** Unlinking a pair that a link had just added restores the junction table. */
  lemma UnlinkUndoesLink(st: Store, roundId: nat, sourceId: nat)
    requires Link(roundId, sourceId) !in st.links
    requires LinkSource(st, roundId, sourceId).result.Success?
    ensures Unlink(LinkSource(st, roundId, sourceId).store, roundId, sourceId).store == st
  {
    var l := Link(roundId, sourceId);
    WhereAppend(st.links, l, LinkPair, l, false);
    WhereAll(st.links, LinkPair, l, false);
  }

  /** Unlinking twice is unlinking once. */
  lemma UnlinkIdempotent(st: Store, roundId: nat, sourceId: nat)
    ensures var r := Unlink(st, roundId, sourceId);
            Unlink(r.store, roundId, sourceId) == r
  {
    var l := Link(roundId, sourceId);
    WhereAll(Without(st.links, LinkPair, l), LinkPair, l, false);
  }

  lemma {:induction false} JoinSourcesExact(ls: seq<Link>, sources: seq<Source>)
    requires Distinct(sources, SourceId)
    requires forall l :: l in ls ==> l.sourceId in (set s | s in sources :: s.id)
    ensures forall s :: s in JoinSources(ls, sources) <==> s in sources && s.id in LinkedIds(ls)
  {
    if |ls| > 0 {
      JoinSourcesExact(ls[1..], sources);
      var hits := Select(sources, SourceId, ls[0].sourceId);
      SelectAtMostOne(sources, SourceId, ls[0].sourceId);
      assert ls[0] in ls;
      var w :| w in sources && w.id == ls[0].sourceId;
      assert w in hits;
      forall s | s in sources && s.id in LinkedIds(ls)
        ensures s in JoinSources(ls, sources)
      {
        var l :| l in ls && l.sourceId == s.id;
        if l == ls[0] {
          assert s in hits;
        } else {
          assert l in ls[1..];
        }
      }
    }
  }

  lemma {:induction false} JoinSourcesDistinct(ls: seq<Link>, sources: seq<Source>)
    requires Distinct(ls, LinkSourceId)
    ensures Distinct(JoinSources(ls, sources), SourceId)
  {
    if |ls| > 0 {
      DistinctTail(ls, LinkSourceId);
      JoinSourcesDistinct(ls[1..], sources);
      var rest := JoinSources(ls[1..], sources);
      forall y | y in rest
        ensures SourceId(y) != ls[0].sourceId
      {
        var l :| l in ls[1..] && l.sourceId == y.id;
      }
      var hits := Select(sources, SourceId, ls[0].sourceId);
      if |hits| > 0 {
        assert hits[0] in hits;
        DistinctCons(hits[0], rest, SourceId);
      }
    }
  }

  function LinkSourceId(l: Link): nat { l.sourceId }

  /** Within one round, the junction table's uniqueness on (round, source)
      makes the source ids unique. */
  lemma RoundLinksDistinct(links: seq<Link>, roundId: nat)
    requires Distinct(links, LinkPair)
    ensures Distinct(Select(links, LinkRound, roundId), LinkSourceId)
  {
    var ls := Select(links, LinkRound, roundId);
    WhereDistinct(links, LinkRound, roundId, true, LinkPair);
    forall i, j | 0 <= i < j < |ls|
      ensures LinkSourceId(ls[i]) != LinkSourceId(ls[j])
    {
      assert ls[i] in ls && ls[j] in ls;
      assert LinkPair(ls[i]) != LinkPair(ls[j]);
    }
  }

  /** The round's source listing holds exactly the sources linked to the
      round, each once. */
  lemma RoundSourcesExact(st: Store, roundId: nat)
    requires Valid(st)
    ensures forall s :: s in RoundSources(st, roundId) <==> s in st.sources && Link(roundId, s.id) in st.links
    ensures Distinct(RoundSources(st, roundId), SourceId)
  {
    var ls := Select(st.links, LinkRound, roundId);
    OrderedIdsUnique(st);
    JoinSourcesExact(ls, st.sources);
    forall s | s in st.sources && Link(roundId, s.id) in st.links
      ensures s.id in LinkedIds(ls)
    {
      assert Link(roundId, s.id) in ls;
    }
    RoundLinksDistinct(st.links, roundId);
    JoinSourcesDistinct(ls, st.sources);
  }

  lemma LinkValid(st: Store, roundId: nat, sourceId: nat)
    requires Valid(st)
    ensures Valid(LinkSource(st, roundId, sourceId).store)
  {
    var l := Link(roundId, sourceId);
    if roundId in RoundIds(st) && sourceId in SourceIds(st) && l !in st.links {
      InsertLinkValid(st, l);
    }
  }

  lemma UnlinkValid(st: Store, roundId: nat, sourceId: nat)
    requires Valid(st)
    ensures Valid(Unlink(st, roundId, sourceId).store)
  {
    RemoveLinkValid(st, Link(roundId, sourceId));
  }
}
