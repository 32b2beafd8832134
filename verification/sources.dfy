/** The source handlers (server/index.js, "Source (Sacred Provenance) API"):
    acquisition with per-project deduplication on the normalized URL, the
    listings, the detail lookup and the soft archive. */
module SourceApi {
  import opened Wrappers
  import opened Text
  import opened Seqs
  import opened Canonical
  import opened Db
  import opened LinkApi

  /** The body of POST /api/projects/:projectId/sources. */
  datatype AcquireRequest = AcquireRequest(
    url: Option<string>,
    sourceType: Option<string>,
    roundId: Option<nat>,
    title: Option<string>,
    author: Option<string>,
    publisher: Option<string>,
    publishedAt: Option<string>,
    summary: Option<string>,
    notes: Option<string>)

  /** The 201 answer: the source's id and whether an existing row was reused. */
  datatype Acquired = Acquired(id: nat, reused: bool)

  /** A request that passes the handler's four checks: a URL that is not
      blank, a source type, a round id, and a trimmed URL that parses. */
  predicate Accepted(parse: Parser, req: AcquireRequest) {
    Filled(req.url) && Truthy(req.sourceType) && IdGiven(req.roundId) && parse(Trim(req.url.value)).Some?
  }

  /** The sources of a project that carry a given normalized URL, archived
      or not. */
  function Matches(st: Store, projectId: nat, key: string): (r: seq<Source>)
    ensures forall s :: s in r <==> s in st.sources && s.projectId == projectId && s.normalizedUrl == key
  {
    Select(st.sources, SourceKey, (projectId, key))
  }

  /** The row the handler inserts when no source matches. */
  function NewSource(st: Store, projectId: nat, req: AcquireRequest, key: string): (r: Source)
    requires req.url.Some? && req.sourceType.Some?
    ensures r.id == st.nextId && r.createdAt == st.clock && r.projectId == projectId && !r.isArchived
    ensures r.url == Trim(req.url.value) && r.normalizedUrl == key && r.sourceType == req.sourceType.value
    ensures r.title == req.title && r.author == req.author && r.publisher == req.publisher
    ensures r.summary == req.summary && r.notes == req.notes
    ensures r.publishedAt.Some? <==> Truthy(req.publishedAt)
    ensures Truthy(req.publishedAt) ==> r.publishedAt == req.publishedAt
  {
    Source(st.nextId, projectId, Trim(req.url.value), key, req.sourceType.value,
           req.title, req.author, req.publisher,
           if Truthy(req.publishedAt) then req.publishedAt else None,
           req.summary, req.notes, false, st.clock)
  }

  /** Step 2 of acquisition: the (round, source) upsert. A round that does not
      exist breaks the foreign key, answered here with 404. */
  function AttachToRound(st: Store, roundId: nat, a: Acquired): (r: Reply<Acquired>)
    ensures roundId !in RoundIds(st) ==> r == Reply(st, Failure(NotFound))
    ensures roundId in RoundIds(st) ==>
              && r.result == Success(a)
              && r.store == st.(links := r.store.links)
              && forall x :: x in r.store.links <==> x in st.links || x == Link(roundId, a.id)
  {
    if roundId !in RoundIds(st) then Reply(st, Failure(NotFound))
    else Reply(st.(links := UpsertLink(st.links, Link(roundId, a.id))), Success(a))
  }

  /** POST /api/projects/:projectId/sources.

      Rejections (400, nothing written): a blank URL, a missing source type
      or a missing round id, in that order; then a trimmed URL that does not
      parse. Otherwise the project's rows with the normalized URL are looked
      up: more than one is a storage error (`maybeSingle`); one is reused;
      none means a new row is inserted (a project that does not exist breaks
      the foreign key: 500). The source is then linked to the round; when the
      round does not exist the answer is 404, and a source inserted just
      before stays in the store. */
  function Acquire(st: Store, parse: Parser, projectId: nat, req: AcquireRequest): (r: Reply<Acquired>)
    ensures !Filled(req.url) || !Truthy(req.sourceType) || !IdGiven(req.roundId) ==>
              r == Reply(st, Failure(Validation(MissingField)))
    ensures Filled(req.url) && Truthy(req.sourceType) && IdGiven(req.roundId)
              && parse(Trim(req.url.value)).None? ==>
              r == Reply(st, Failure(Validation(InvalidUrl)))
    ensures r.result.Failure? && r.result.error.Validation? <==> !Accepted(parse, req)
    ensures Accepted(parse, req) ==>
              var u := parse(Trim(req.url.value)).value;
              var hits := Matches(st, projectId, NormalizeUrl(parse, req.url));
              && (|hits| > 1 ==> r == Reply(st, Failure(StorageFailure)))
              && (|hits| == 1 ==>
                    && r.store.sources == st.sources
                    && (r.result.Success? ==> r.result.value == Acquired(hits[0].id, true))
                    && (req.roundId.value !in RoundIds(st) ==> r == Reply(st, Failure(NotFound))))
              && (|hits| == 0 && projectId !in ProjectIds(st) ==> r == Reply(st, Failure(StorageFailure)))
              && (|hits| == 0 && projectId in ProjectIds(st) ==>
                    && |r.store.sources| == |st.sources| + 1
                    && r.store.sources[..|st.sources|] == st.sources
                    && r.store.nextId == st.nextId + 1
                    && var s := r.store.sources[|st.sources|];
                       && s.id == st.nextId && s.projectId == projectId && !s.isArchived
                       && s.url == Trim(req.url.value)
                       && s.normalizedUrl == Lower(u.host) + PathKey(u.pathname)
                       && s.sourceType == req.sourceType.value
                       && s.title == req.title && s.author == req.author && s.publisher == req.publisher
                       && s.summary == req.summary && s.notes == req.notes
                       && (s.publishedAt.Some? <==> Truthy(req.publishedAt))
                       && (Truthy(req.publishedAt) ==> s.publishedAt == req.publishedAt)
                       && (r.result.Success? ==> r.result.value == Acquired(s.id, false))
                       && (r.result.Failure? ==> r.store == Tick(st).(sources := r.store.sources)))
    ensures r.result.Success? ==>
              && r.store.projects == st.projects && r.store.rounds == st.rounds
              && r.store.queries == st.queries && r.store.extracts == st.extracts
              && r.store.evidence == st.evidence
              && forall x :: x in r.store.links <==> x in st.links || x == Link(req.roundId.value, r.result.value.id)
    ensures Accepted(parse, req) ==>
              var hits := Matches(st, projectId, NormalizeUrl(parse, req.url));
              var stored := |hits| == 1 || (|hits| == 0 && projectId in ProjectIds(st));
              && (r.result.Success? <==> stored && req.roundId.value in RoundIds(st))
              && (r.result == Failure(NotFound) <==> stored && req.roundId.value !in RoundIds(st))
  {
    if !Filled(req.url) || !Truthy(req.sourceType) || !IdGiven(req.roundId) then
      Reply(st, Failure(Validation(MissingField)))
    else if parse(Trim(req.url.value)).None? then
      Reply(st, Failure(Validation(InvalidUrl)))
    else
      var key := NormalizeUrl(parse, req.url);
      var hits := Matches(st, projectId, key);
      if |hits| > 1 then Reply(st, Failure(StorageFailure))
      else if |hits| == 1 then AttachToRound(st, req.roundId.value, Acquired(hits[0].id, true))
      else if projectId !in ProjectIds(st) then Reply(st, Failure(StorageFailure))
      else
        InsertAndAttach(st, projectId, req, key)
  }

  /** The no-match path of acquisition: the new row is inserted, then linked
      to the round; a missing round leaves the row in place and answers 404. */
  function InsertAndAttach(st: Store, projectId: nat, req: AcquireRequest, key: string): (r: Reply<Acquired>)
    requires req.url.Some? && req.sourceType.Some? && req.roundId.Some?
    ensures |r.store.sources| == |st.sources| + 1
    ensures r.store.sources == st.sources + [NewSource(st, projectId, req, key)]
    ensures r.store.nextId == st.nextId + 1
    ensures r.result.Success? <==> req.roundId.value in RoundIds(st)
    ensures r.result.Failure? ==> r.result == Failure(NotFound)
    ensures r.result.Failure? ==> r.store == Tick(st).(sources := st.sources + [NewSource(st, projectId, req, key)])
    ensures r.result.Success? ==>
              && r.result.value == Acquired(st.nextId, false)
              && r.store.projects == st.projects && r.store.rounds == st.rounds
              && r.store.queries == st.queries && r.store.extracts == st.extracts
              && r.store.evidence == st.evidence
              && forall x :: x in r.store.links <==> x in st.links || x == Link(req.roundId.value, st.nextId)
  {
    var s := NewSource(st, projectId, req, key);
    var st1 := Tick(st).(sources := st.sources + [s]);
    assert RoundIds(st1) == RoundIds(st);
    AttachToRound(st1, req.roundId.value, Acquired(s.id, false))
  }

  /** GET /api/projects/:projectId/sources: the project's sources, archived
      ones only when asked for, newest first. */
  function ListSources(st: Store, projectId: nat, includeArchived: bool): (r: seq<Source>)
    ensures forall s :: s in r <==> s in st.sources && s.projectId == projectId && (includeArchived || !s.isArchived)
  {
    var mine := Select(st.sources, SourceProject, projectId);
    var rows := if includeArchived then mine else Select(mine, SourceArchived, false);
    ReverseMembers(rows);
    Reverse(rows)
  }

  /** GET /api/sources/:sourceId: the single row with the id (`.single()`),
      archived or not; 404 otherwise. */
  function GetSource(st: Store, sourceId: nat): (r: Result<Source, Error>)
    ensures r.Success? ==> r.value in st.sources && r.value.id == sourceId
    ensures r.Failure? ==> r.error == NotFound
  {
    var hits := Select(st.sources, SourceId, sourceId);
    if |hits| == 1 then Success(hits[0]) else Failure(NotFound)
  }

  /** POST /api/sources/:sourceId/archive: sets the flag on the row with the
      id, if any; never an error. Links, extracts and evidence stay. */
  function Archive(st: Store, sourceId: nat): (r: Reply<()>)
    ensures r.result == Success(())
    ensures r.store == st.(sources := r.store.sources)
    ensures |r.store.sources| == |st.sources|
    ensures forall i :: 0 <= i < |st.sources| ==>
              && r.store.sources[i].isArchived == (st.sources[i].isArchived || st.sources[i].id == sourceId)
              && r.store.sources[i].(isArchived := st.sources[i].isArchived) == st.sources[i]
  {
    Reply(st.(sources := SetArchived(st.sources, sourceId)), Success(()))
  }

  // ---------------------------------------------------------------------------
  // Deduplication

  /** The only row of a project with a key is the one a lookup finds. */
  lemma MatchesUnique(st: Store, projectId: nat, key: string, s: Source)
    requires Deduplicated(st)
    requires s in st.sources && s.projectId == projectId && s.normalizedUrl == key
    ensures Matches(st, projectId, key) == [s]
  {
    var hits := Matches(st, projectId, key);
    SelectAtMostOne(st.sources, SourceKey, (projectId, key));
    assert s in hits;
  }

  /** Acquiring a URL whose normalized form a source of the project already
      carries reuses that source, archived or not, and inserts nothing. */
  lemma AcquireReuses(st: Store, parse: Parser, projectId: nat, req: AcquireRequest, s: Source)
    requires Valid(st) && Accepted(parse, req)
    requires s in st.sources && s.projectId == projectId && s.normalizedUrl == NormalizeUrl(parse, req.url)
    ensures var r := Acquire(st, parse, projectId, req);
            && r.store.sources == st.sources && r.store.nextId == st.nextId
            && (req.roundId.value in RoundIds(st) <==> r.result == Success(Acquired(s.id, true)))
  {
    MatchesUnique(st, projectId, NormalizeUrl(parse, req.url), s);
  }

  /** Acquiring the same normalized URL for the same round a second time
      returns the first call's source, marked reused, and changes nothing. */
  lemma AcquireTwice(st: Store, parse: Parser, projectId: nat, req1: AcquireRequest, req2: AcquireRequest)
    requires Valid(st)
    requires Acquire(st, parse, projectId, req1).result.Success?
    requires Accepted(parse, req2) && req2.roundId == req1.roundId
    requires NormalizeUrl(parse, req2.url) == NormalizeUrl(parse, req1.url)
    ensures var r1 := Acquire(st, parse, projectId, req1);
            Acquire(r1.store, parse, projectId, req2) == Reply(r1.store, Success(Acquired(r1.result.value.id, true)))
  {
    var s := AcquireStored(st, parse, projectId, req1);
    var r1 := Acquire(st, parse, projectId, req1);
    MatchesUnique(r1.store, projectId, NormalizeUrl(parse, req1.url), s);
    AcquireHit(r1.store, parse, projectId, req2, s);
  }

  /** After a successful acquisition the answered source is stored in the
      project under the request's key, and linked to the round. */
  lemma AcquireStored(st: Store, parse: Parser, projectId: nat, req: AcquireRequest) returns (s: Source)
    requires Valid(st)
    requires Acquire(st, parse, projectId, req).result.Success?
    ensures var r := Acquire(st, parse, projectId, req);
            && s in r.store.sources && s.id == r.result.value.id
            && s.projectId == projectId && s.normalizedUrl == NormalizeUrl(parse, req.url)
            && Link(req.roundId.value, s.id) in r.store.links
            && req.roundId.value in RoundIds(r.store)
            && Valid(r.store)
  {
    var r := Acquire(st, parse, projectId, req);
    AcquireValid(st, parse, projectId, req);
    var hits := Matches(st, projectId, NormalizeUrl(parse, req.url));
    if |hits| == 1 {
      s := hits[0];
      assert s in hits;
    } else {
      s := r.store.sources[|st.sources|];
    }
    assert RoundIds(r.store) == RoundIds(st);
  }

  /** A request whose key finds exactly one source, already linked to an
      existing round, is answered with that source and changes nothing. */
  lemma AcquireHit(st: Store, parse: Parser, projectId: nat, req: AcquireRequest, s: Source)
    requires Accepted(parse, req)
    requires Matches(st, projectId, NormalizeUrl(parse, req.url)) == [s]
    requires Link(req.roundId.value, s.id) in st.links && req.roundId.value in RoundIds(st)
    ensures Acquire(st, parse, projectId, req) == Reply(st, Success(Acquired(s.id, true)))
  {
  }

  /** Acquisition adds sources to the requested project only. */
  lemma AcquireSourcesOf(st: Store, parse: Parser, projectId: nat, req: AcquireRequest)
    ensures forall y :: y in Acquire(st, parse, projectId, req).store.sources ==>
              y in st.sources || y.projectId == projectId
  {
    var r := Acquire(st, parse, projectId, req);
    if Accepted(parse, req) {
      var hits := Matches(st, projectId, NormalizeUrl(parse, req.url));
      if |hits| == 0 && projectId in ProjectIds(st) {
        var x := r.store.sources[|st.sources|];
        assert r.store.sources == st.sources + [x];
      }
    }
  }

  /** The same URL acquired in another project yields a distinct source:
      deduplication never crosses project boundaries. */
  lemma AcquireOtherProject(st: Store, parse: Parser, p1: nat, p2: nat, req: AcquireRequest)
    requires Valid(st) && p1 != p2
    requires Acquire(st, parse, p1, req).result.Success?
    requires p2 in ProjectIds(st)
    requires Matches(st, p2, NormalizeUrl(parse, req.url)) == []
    ensures var r1 := Acquire(st, parse, p1, req);
            var r2 := Acquire(r1.store, parse, p2, req);
            && r2.result.Success? && !r2.result.value.reused
            && r2.result.value.id != r1.result.value.id
  {
    var r1 := Acquire(st, parse, p1, req);
    var st1 := r1.store;
    var key := NormalizeUrl(parse, req.url);
    var s := AcquireStored(st, parse, p1, req);
    AcquireSourcesOf(st, parse, p1, req);
    forall y | y in st1.sources
      ensures SourceKey(y) != (p2, key)
    {
      if y in st.sources {
        assert y !in Matches(st, p2, key);
      }
    }
    WhereNone(st1.sources, SourceKey, (p2, key), true);
    assert s.id < st1.nextId;
  }

  // ---------------------------------------------------------------------------
  // Listing, lookup and archive

  lemma ListSourcesNewestFirst(st: Store, projectId: nat, includeArchived: bool)
    requires Valid(st)
    ensures Decreasing(ListSources(st, projectId, includeArchived), SourceAt)
  {
    var mine := Select(st.sources, SourceProject, projectId);
    WhereIncreasing(st.sources, SourceProject, projectId, true, SourceAt);
    WhereIncreasing(mine, SourceArchived, false, true, SourceAt);
    var rows := if includeArchived then mine else Select(mine, SourceArchived, false);
    ReverseDecreasing(rows, SourceAt);
  }

  /** Under the invariant, a source's detail is found exactly when a source
      has the id. */
  lemma GetSourceFound(st: Store, sourceId: nat)
    requires Valid(st)
    ensures GetSource(st, sourceId).Success? <==> sourceId in SourceIds(st)
  {
    if sourceId in SourceIds(st) {
      OrderedIdsUnique(st);
      var s :| s in st.sources && s.id == sourceId;
      SelectAtMostOne(st.sources, SourceId, sourceId);
      assert s in Select(st.sources, SourceId, sourceId);
    }
  }

  /** Archiving twice is archiving once. */
  lemma ArchiveIdempotent(st: Store, sourceId: nat)
    ensures var r := Archive(st, sourceId);
            Archive(r.store, sourceId) == r
  {
    var a := SetArchived(st.sources, sourceId);
    var b := SetArchived(a, sourceId);
    assert a == b;
  }

  /** An archived source drops out of the default listing but stays in the
      full listing, and its detail, links and evidence stay reachable. */
  lemma ArchiveHides(st: Store, projectId: nat, sourceId: nat)
    requires Valid(st)
    ensures var st' := Archive(st, sourceId).store;
            && (forall s :: s in ListSources(st', projectId, false) ==> s.id != sourceId)
            && |ListSources(st', projectId, true)| == |ListSources(st, projectId, true)|
            && (GetSource(st', sourceId).Success? <==> GetSource(st, sourceId).Success?)
            && (GetSource(st', sourceId).Success? ==> GetSource(st', sourceId).value.isArchived)
            && st'.links == st.links && st'.extracts == st.extracts && st'.evidence == st.evidence
  {
    ArchiveHidden(st, projectId, sourceId);
    ArchiveKeepsCount(st, projectId, sourceId);
    ArchiveKeepsDetail(st, sourceId);
  }

  lemma ArchiveHidden(st: Store, projectId: nat, sourceId: nat)
    ensures forall s :: s in ListSources(Archive(st, sourceId).store, projectId, false) ==> s.id != sourceId
  {
    var st' := Archive(st, sourceId).store;
    forall s | s in ListSources(st', projectId, false)
      ensures s.id != sourceId
    {
      var i :| 0 <= i < |st'.sources| && st'.sources[i] == s;
    }
  }

  lemma ArchiveKeepsCount(st: Store, projectId: nat, sourceId: nat)
    ensures |ListSources(Archive(st, sourceId).store, projectId, true)| == |ListSources(st, projectId, true)|
  {
    var st' := Archive(st, sourceId).store;
    SetArchivedColumns(st.sources, sourceId);
    WhereCount(st.sources, st'.sources, projectId);
  }

  lemma ArchiveKeepsDetail(st: Store, sourceId: nat)
    requires Valid(st)
    ensures var st' := Archive(st, sourceId).store;
            && (GetSource(st', sourceId).Success? <==> GetSource(st, sourceId).Success?)
            && (GetSource(st', sourceId).Success? ==> GetSource(st', sourceId).value.isArchived)
  {
    var st' := Archive(st, sourceId).store;
    SetArchivedValid(st, sourceId);
    GetSourceFound(st, sourceId);
    GetSourceFound(st', sourceId);
    SetArchivedIds(st, sourceId);
    if GetSource(st', sourceId).Success? {
      var s := GetSource(st', sourceId).value;
      var i :| 0 <= i < |st'.sources| && st'.sources[i] == s;
    }
  }

  /** Archiving keeps every row's project, so each project keeps its count. */
  lemma {:induction false} WhereCount(s: seq<Source>, t: seq<Source>, projectId: nat)
    requires |s| == |t|
    requires forall i :: 0 <= i < |s| ==> SourceProject(t[i]) == SourceProject(s[i])
    ensures |Select(t, SourceProject, projectId)| == |Select(s, SourceProject, projectId)|
  {
    if |s| > 0 {
      WhereCount(s[1..], t[1..], projectId);
    }
  }

  // ---------------------------------------------------------------------------
  // The store invariant

  lemma AcquireValid(st: Store, parse: Parser, projectId: nat, req: AcquireRequest)
    requires Valid(st)
    ensures Valid(Acquire(st, parse, projectId, req).store)
  {
    if Accepted(parse, req) {
      var key := NormalizeUrl(parse, req.url);
      var hits := Matches(st, projectId, key);
      if |hits| == 1 {
        assert hits[0] in hits;
        AttachValid(st, req.roundId.value, Acquired(hits[0].id, true));
      } else if |hits| == 0 && projectId in ProjectIds(st) {
        InsertAndAttachValid(st, projectId, req, key);
      }
    }
  }

  lemma AttachValid(st: Store, roundId: nat, a: Acquired)
    requires Valid(st) && a.id in SourceIds(st)
    ensures Valid(AttachToRound(st, roundId, a).store)
  {
    var l := Link(roundId, a.id);
    if roundId in RoundIds(st) && l !in st.links {
      InsertLinkValid(st, l);
    }
  }

  lemma InsertAndAttachValid(st: Store, projectId: nat, req: AcquireRequest, key: string)
    requires Valid(st) && req.url.Some? && req.sourceType.Some? && req.roundId.Some?
    requires projectId in ProjectIds(st) && Matches(st, projectId, key) == []
    ensures Valid(InsertAndAttach(st, projectId, req, key).store)
  {
    var s := NewSource(st, projectId, req, key);
    forall y | y in st.sources
      ensures SourceKey(y) != SourceKey(s)
    {
      assert y !in Matches(st, projectId, key);
    }
    InsertSourceValid(st, s);
    var st1 := Tick(st).(sources := st.sources + [s]);
    assert s in st1.sources;
    AttachValid(st1, req.roundId.value, Acquired(s.id, false));
  }

  lemma ArchiveValid(st: Store, sourceId: nat)
    requires Valid(st)
    ensures Valid(Archive(st, sourceId).store)
  {
    SetArchivedValid(st, sourceId);
  }
}
