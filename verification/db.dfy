/** The records of the research datastore, the store that holds them, the
    error taxonomy of the handlers, and the store invariant every handler
    preserves.

    The relational datastore is abstracted to one sequence per table, in
    insertion order. Every insert takes the next id from one counter shared by
    all tables (`nextId`, starting at 1) and the next tick of a monotone clock
    standing for `created_at`. The datastore's serial columns count per table;
    the shared counter keeps ids unique per table all the same, but the
    concrete id values differ from the datastore's. */
module Db {
  import opened Wrappers
  import opened Seqs

  datatype ProjectStatus = Active | Archived

  datatype Project = Project(
    id: nat,
    title: string,
    researchQuestion: string,
    hypothesis: Option<string>,
    timespanStart: Option<string>,
    timespanEnd: Option<string>,
    status: ProjectStatus,
    createdAt: nat)

  datatype Round = Round(
    id: nat,
    projectId: nat,
    roundLabel: string,
    objective: string,
    createdAt: nat)

  /** A search query log entry. `executedAt` is an opaque, ordered date key. */
  datatype Query = Query(
    id: nat,
    roundId: nat,
    queryText: string,
    executedAt: nat,
    notes: Option<string>,
    createdAt: nat)

  datatype Source = Source(
    id: nat,
    projectId: nat,
    url: string,
    normalizedUrl: string,
    sourceType: string,
    title: Option<string>,
    author: Option<string>,
    publisher: Option<string>,
    publishedAt: Option<string>,
    summary: Option<string>,
    notes: Option<string>,
    isArchived: bool,
    createdAt: nat)

  /** A row of the round/source junction table. */
  datatype Link = Link(roundId: nat, sourceId: nat)

  datatype Extract = Extract(
    id: nat,
    sourceId: nat,
    extractType: string,
    extractText: string,
    contextText: string,
    locationRef: string,
    createdAt: nat)

  /** `extractId` is a weak back-reference: no cascade, no blocking. */
  datatype Evidence = Evidence(
    id: nat,
    sourceId: nat,
    extractId: Option<nat>,
    evidenceType: string,
    evidenceText: string,
    contextText: string,
    locationRef: string,
    whyRelevant: string,
    createdAt: nat)

  datatype Store = Store(
    projects: seq<Project>,
    rounds: seq<Round>,
    queries: seq<Query>,
    sources: seq<Source>,
    links: seq<Link>,
    extracts: seq<Extract>,
    evidence: seq<Evidence>,
    nextId: nat,
    clock: nat)

  /** The empty datastore. */
  const Empty: Store := Store([], [], [], [], [], [], [], 1, 0)

  /** Why a request was rejected with HTTP 400. */
  datatype Invalid =
    | MissingField           // a mandatory field absent or blank after trimming
    | InvalidType            // an enumerated type outside its allowed values
    | InvalidUrl             // the trimmed URL does not parse
    | InvalidExtract         // the referenced extract could not be fetched
    | ExtractSourceMismatch  // the referenced extract belongs to another source

  /** HTTP 400, 404 and 500 respectively. */
  datatype Error = Validation(reason: Invalid) | NotFound | StorageFailure

  /** What a mutating handler leaves behind: the store after every datastore
      call it made (no rollback on a late failure) and its answer. */
  datatype Reply<+T> = Reply(store: Store, result: Result<T, Error>)

  // ---------------------------------------------------------------------------
  // Columns, as functions, so that lookups and deletes can be keyed by them

  function ProjectId(p: Project): nat { p.id }
  function ProjectAt(p: Project): nat { p.createdAt }
  function ProjectStatusOf(p: Project): ProjectStatus { p.status }
  function RoundId(r: Round): nat { r.id }
  function RoundAt(r: Round): nat { r.createdAt }
  function RoundProject(r: Round): nat { r.projectId }
  function QueryId(q: Query): nat { q.id }
  function QueryAt(q: Query): nat { q.createdAt }
  function QueryRound(q: Query): nat { q.roundId }
  function SourceId(s: Source): nat { s.id }
  function SourceAt(s: Source): nat { s.createdAt }
  function SourceProject(s: Source): nat { s.projectId }
  function SourceArchived(s: Source): bool { s.isArchived }
  /** The deduplication key: normalized URL within its project. */
  function SourceKey(s: Source): (nat, string) { (s.projectId, s.normalizedUrl) }
  function LinkRound(l: Link): nat { l.roundId }
  function LinkPair(l: Link): Link { l }
  function ExtractId(e: Extract): nat { e.id }
  function ExtractAt(e: Extract): nat { e.createdAt }
  function ExtractSource(e: Extract): nat { e.sourceId }
  function EvidenceId(e: Evidence): nat { e.id }
  function EvidenceAt(e: Evidence): nat { e.createdAt }
  function EvidenceSource(e: Evidence): nat { e.sourceId }

  function ProjectIds(st: Store): set<nat> { set p | p in st.projects :: p.id }
  function RoundIds(st: Store): set<nat> { set r | r in st.rounds :: r.id }
  function SourceIds(st: Store): set<nat> { set s | s in st.sources :: s.id }
  function ExtractIds(st: Store): set<nat> { set e | e in st.extracts :: e.id }
  function EvidenceIds(st: Store): set<nat> { set e | e in st.evidence :: e.id }

  /** JavaScript truthiness of an id field: present and not `0`. */
  predicate IdGiven(id: Option<nat>) {
    id.Some? && id.value != 0
  }

  /** The store after one insert: the id and the clock tick are used up. */
  function Tick(st: Store): (st': Store)
    ensures st'.nextId > st.nextId && st'.clock > st.clock
  {
    st.(nextId := st.nextId + 1, clock := st.clock + 1)
  }

  /** The round delete as the datastore performs it: the round row goes, and
      the schema's ON DELETE CASCADE rules on `search_queries.round_id` and
      `round_sources.round_id` take the round's queries and links with it.
      The cascade is an assumption about the schema, which is not part of
      this model; nothing else is touched. */
  function DeleteRoundCascade(st: Store, roundId: nat): (st': Store)
    ensures forall x :: x in st'.rounds <==> x in st.rounds && x.id != roundId
    ensures forall q :: q in st'.queries <==> q in st.queries && q.roundId != roundId
    ensures forall l :: l in st'.links <==> l in st.links && l.roundId != roundId
    ensures st' == st.(rounds := st'.rounds, queries := st'.queries, links := st'.links)
  {
    st.(rounds := Without(st.rounds, RoundId, roundId),
        queries := Without(st.queries, QueryRound, roundId),
        links := Without(st.links, LinkRound, roundId))
  }

  /** The archive update on the sources table: every row with the id gets its
      archived flag set, and no other row or column changes. */
  function SetArchived(s: seq<Source>, sourceId: nat): (r: seq<Source>)
    ensures |r| == |s|
    ensures forall i :: 0 <= i < |s| ==>
              r[i] == if s[i].id == sourceId then s[i].(isArchived := true) else s[i]
  {
    if |s| == 0 then []
    else [if s[0].id == sourceId then s[0].(isArchived := true) else s[0]] + SetArchived(s[1..], sourceId)
  }

  // ---------------------------------------------------------------------------
  // The store invariant

  /** An append-only table under the id counter and the clock: ids and
      creation times strictly increase in stored order, and both lie below
      the next values to be handed out. */
  ghost predicate Chronological<T>(s: seq<T>, id: T -> nat, at: T -> nat, nextId: nat, clock: nat) {
    && Increasing(s, id)
    && Increasing(s, at)
    && (forall x :: x in s ==> 0 < id(x) < nextId && at(x) < clock)
  }

  ghost predicate Ordered(st: Store) {
    && 0 < st.nextId
    && Chronological(st.projects, ProjectId, ProjectAt, st.nextId, st.clock)
    && Chronological(st.rounds, RoundId, RoundAt, st.nextId, st.clock)
    && Chronological(st.queries, QueryId, QueryAt, st.nextId, st.clock)
    && Chronological(st.sources, SourceId, SourceAt, st.nextId, st.clock)
    && Chronological(st.extracts, ExtractId, ExtractAt, st.nextId, st.clock)
    && Chronological(st.evidence, EvidenceId, EvidenceAt, st.nextId, st.clock)
  }

  /** The foreign keys of the schema: every reference names an existing row.
      (Evidence's `extractId` is deliberately not one of them.) */
  ghost predicate Referential(st: Store) {
    && (forall r :: r in st.rounds ==> r.projectId in ProjectIds(st))
    && (forall q :: q in st.queries ==> q.roundId in RoundIds(st))
    && (forall s :: s in st.sources ==> s.projectId in ProjectIds(st))
    && (forall l :: l in st.links ==> l.roundId in RoundIds(st) && l.sourceId in SourceIds(st))
    && (forall e :: e in st.extracts ==> e.sourceId in SourceIds(st))
    && (forall e :: e in st.evidence ==> e.sourceId in SourceIds(st))
  }

  /** No two sources of one project share a normalized URL. */
  ghost predicate Deduplicated(st: Store) {
    Distinct(st.sources, SourceKey)
  }

  /** Every (round, source) pair is linked at most once. */
  ghost predicate LinksUnique(st: Store) {
    Distinct(st.links, LinkPair)
  }

  /** Evidence promoted from an extract names an extract of its own source,
      for as long as that extract exists. */
  ghost predicate Provenance(st: Store) {
    && (forall ev, ex :: ev in st.evidence && ex in st.extracts && ev.extractId == Some(ex.id) ==>
          ex.sourceId == ev.sourceId)
    && (forall ev :: ev in st.evidence && ev.extractId.Some? ==> ev.extractId.value < st.nextId)
  }

  ghost predicate Valid(st: Store) {
    && Ordered(st)
    && Referential(st)
    && Deduplicated(st)
    && LinksUnique(st)
    && Provenance(st)
  }

  /** The empty store satisfies the invariant. */
  lemma EmptyValid()
    ensures Valid(Empty)
  {
  }

  /** Ids are unique in every table of an ordered store. */
  lemma OrderedIdsUnique(st: Store)
    requires Ordered(st)
    ensures Distinct(st.rounds, RoundId) && Distinct(st.sources, SourceId)
    ensures Distinct(st.extracts, ExtractId) && Distinct(st.evidence, EvidenceId)
  {
    IncreasingDistinct(st.rounds, RoundId);
    IncreasingDistinct(st.sources, SourceId);
    IncreasingDistinct(st.extracts, ExtractId);
    IncreasingDistinct(st.evidence, EvidenceId);
  }

  // ---------------------------------------------------------------------------
  // The invariant under the table operations the handlers perform

  lemma ChronologicalTick<T>(s: seq<T>, id: T -> nat, at: T -> nat, nextId: nat, clock: nat)
    requires Chronological(s, id, at, nextId, clock)
    ensures Chronological(s, id, at, nextId + 1, clock + 1)
  {
  }

  /** Appending a row that takes the next id and clock tick keeps a table chronological. */
  lemma ChronologicalAppend<T>(s: seq<T>, x: T, id: T -> nat, at: T -> nat, nextId: nat, clock: nat)
    requires Chronological(s, id, at, nextId, clock)
    requires id(x) == nextId > 0 && at(x) == clock
    ensures Chronological(s + [x], id, at, nextId + 1, clock + 1)
  {
    IncreasingAppend(s, x, id);
    IncreasingAppend(s, x, at);
  }

  lemma TickOrdered(st: Store)
    requires Ordered(st)
    ensures Ordered(Tick(st))
  {
    ChronologicalTick(st.projects, ProjectId, ProjectAt, st.nextId, st.clock);
    ChronologicalTick(st.rounds, RoundId, RoundAt, st.nextId, st.clock);
    ChronologicalTick(st.queries, QueryId, QueryAt, st.nextId, st.clock);
    ChronologicalTick(st.sources, SourceId, SourceAt, st.nextId, st.clock);
    ChronologicalTick(st.extracts, ExtractId, ExtractAt, st.nextId, st.clock);
    ChronologicalTick(st.evidence, EvidenceId, EvidenceAt, st.nextId, st.clock);
  }

  lemma InsertProjectValid(st: Store, p: Project)
    requires Valid(st)
    requires p.id == st.nextId && p.createdAt == st.clock
    ensures Valid(Tick(st).(projects := st.projects + [p]))
  {
    var st' := Tick(st).(projects := st.projects + [p]);
    TickOrdered(st);
    ChronologicalAppend(st.projects, p, ProjectId, ProjectAt, st.nextId, st.clock);
    assert Ordered(st');
    assert ProjectIds(st') == ProjectIds(st) + {p.id};
    assert Referential(st') by {
      assert RoundIds(st') == RoundIds(st);
      assert SourceIds(st') == SourceIds(st);
    }
    assert Deduplicated(st') && LinksUnique(st');
    assert Provenance(st');
  }

  lemma InsertRoundValid(st: Store, x: Round)
    requires Valid(st)
    requires x.id == st.nextId && x.createdAt == st.clock && x.projectId in ProjectIds(st)
    ensures Valid(Tick(st).(rounds := st.rounds + [x]))
  {
    var st' := Tick(st).(rounds := st.rounds + [x]);
    TickOrdered(st);
    ChronologicalAppend(st.rounds, x, RoundId, RoundAt, st.nextId, st.clock);
    assert Ordered(st');
    assert Referential(st') by {
      assert ProjectIds(st') == ProjectIds(st);
      assert RoundIds(st') == RoundIds(st) + {x.id};
      assert SourceIds(st') == SourceIds(st);
    }
    assert Deduplicated(st') && LinksUnique(st');
    assert Provenance(st');
  }

  lemma InsertQueryValid(st: Store, x: Query)
    requires Valid(st)
    requires x.id == st.nextId && x.createdAt == st.clock && x.roundId in RoundIds(st)
    ensures Valid(Tick(st).(queries := st.queries + [x]))
  {
    var st' := Tick(st).(queries := st.queries + [x]);
    TickOrdered(st);
    ChronologicalAppend(st.queries, x, QueryId, QueryAt, st.nextId, st.clock);
    assert Ordered(st');
    assert Referential(st') by {
      assert ProjectIds(st') == ProjectIds(st);
      assert RoundIds(st') == RoundIds(st);
      assert SourceIds(st') == SourceIds(st);
    }
    assert Deduplicated(st') && LinksUnique(st');
    assert Provenance(st');
  }

  /** A new source keeps the store deduplicated when no source of its project
      has its normalized URL. */
  lemma InsertSourceValid(st: Store, x: Source)
    requires Valid(st)
    requires x.id == st.nextId && x.createdAt == st.clock && x.projectId in ProjectIds(st)
    requires forall y :: y in st.sources ==> SourceKey(y) != SourceKey(x)
    ensures Valid(Tick(st).(sources := st.sources + [x]))
  {
    var st' := Tick(st).(sources := st.sources + [x]);
    TickOrdered(st);
    ChronologicalAppend(st.sources, x, SourceId, SourceAt, st.nextId, st.clock);
    assert Ordered(st');
    assert Referential(st') by {
      assert ProjectIds(st') == ProjectIds(st);
      assert RoundIds(st') == RoundIds(st);
      assert SourceIds(st') == SourceIds(st) + {x.id};
    }
    DistinctAppend(st.sources, x, SourceKey);
    assert Deduplicated(st') && LinksUnique(st');
    assert Provenance(st');
  }

  lemma InsertLinkValid(st: Store, x: Link)
    requires Valid(st)
    requires x.roundId in RoundIds(st) && x.sourceId in SourceIds(st) && x !in st.links
    ensures Valid(st.(links := st.links + [x]))
  {
    var st' := st.(links := st.links + [x]);
    assert Ordered(st');
    assert Referential(st') by {
      assert ProjectIds(st') == ProjectIds(st);
      assert RoundIds(st') == RoundIds(st);
      assert SourceIds(st') == SourceIds(st);
    }
    DistinctAppend(st.links, x, LinkPair);
    assert Deduplicated(st') && LinksUnique(st');
    assert Provenance(st');
  }

  lemma InsertExtractValid(st: Store, x: Extract)
    requires Valid(st)
    requires x.id == st.nextId && x.createdAt == st.clock && x.sourceId in SourceIds(st)
    ensures Valid(Tick(st).(extracts := st.extracts + [x]))
  {
    var st' := Tick(st).(extracts := st.extracts + [x]);
    TickOrdered(st);
    ChronologicalAppend(st.extracts, x, ExtractId, ExtractAt, st.nextId, st.clock);
    assert Ordered(st');
    assert Referential(st') by {
      assert ProjectIds(st') == ProjectIds(st);
      assert RoundIds(st') == RoundIds(st);
      assert SourceIds(st') == SourceIds(st);
    }
    assert Deduplicated(st') && LinksUnique(st');
    assert Provenance(st');
  }

  /** New evidence keeps provenance when the extract it names, if any, belongs
      to its source. */
  lemma InsertEvidenceValid(st: Store, x: Evidence)
    requires Valid(st)
    requires x.id == st.nextId && x.createdAt == st.clock && x.sourceId in SourceIds(st)
    requires x.extractId.Some? ==> x.extractId.value in ExtractIds(st)
    requires forall ex :: ex in st.extracts && x.extractId == Some(ex.id) ==> ex.sourceId == x.sourceId
    ensures Valid(Tick(st).(evidence := st.evidence + [x]))
  {
    var st' := Tick(st).(evidence := st.evidence + [x]);
    TickOrdered(st);
    ChronologicalAppend(st.evidence, x, EvidenceId, EvidenceAt, st.nextId, st.clock);
    assert Ordered(st');
    assert Referential(st') by {
      assert ProjectIds(st') == ProjectIds(st);
      assert RoundIds(st') == RoundIds(st);
      assert SourceIds(st') == SourceIds(st);
    }
    assert Deduplicated(st') && LinksUnique(st');
    assert Provenance(st');
  }

  lemma DeleteRoundCascadeValid(st: Store, roundId: nat)
    requires Valid(st)
    ensures Valid(DeleteRoundCascade(st, roundId))
  {
    var st' := DeleteRoundCascade(st, roundId);
    WhereIncreasing(st.rounds, RoundId, roundId, false, RoundId);
    WhereIncreasing(st.rounds, RoundId, roundId, false, RoundAt);
    WhereIncreasing(st.queries, QueryRound, roundId, false, QueryId);
    WhereIncreasing(st.queries, QueryRound, roundId, false, QueryAt);
    assert Ordered(st');
    assert Referential(st') by {
      assert ProjectIds(st') == ProjectIds(st);
      assert SourceIds(st') == SourceIds(st);
      forall q | q in st'.queries
        ensures q.roundId in RoundIds(st')
      {
        var x :| x in st.rounds && x.id == q.roundId;
        assert x in st'.rounds;
      }
      forall l | l in st'.links
        ensures l.roundId in RoundIds(st')
      {
        var x :| x in st.rounds && x.id == l.roundId;
        assert x in st'.rounds;
      }
    }
    WhereDistinct(st.links, LinkRound, roundId, false, LinkPair);
    assert Deduplicated(st') && LinksUnique(st');
    assert Provenance(st');
  }

  lemma RemoveLinkValid(st: Store, x: Link)
    requires Valid(st)
    ensures Valid(st.(links := Without(st.links, LinkPair, x)))
  {
    var st' := st.(links := Without(st.links, LinkPair, x));
    assert Ordered(st');
    assert Referential(st') by {
      assert ProjectIds(st') == ProjectIds(st);
      assert RoundIds(st') == RoundIds(st);
      assert SourceIds(st') == SourceIds(st);
    }
    WhereDistinct(st.links, LinkPair, x, false, LinkPair);
    assert Deduplicated(st') && LinksUnique(st');
    assert Provenance(st');
  }

  lemma RemoveExtractValid(st: Store, extractId: nat)
    requires Valid(st)
    ensures Valid(st.(extracts := Without(st.extracts, ExtractId, extractId)))
  {
    var st' := st.(extracts := Without(st.extracts, ExtractId, extractId));
    WhereIncreasing(st.extracts, ExtractId, extractId, false, ExtractId);
    WhereIncreasing(st.extracts, ExtractId, extractId, false, ExtractAt);
    assert Ordered(st');
    assert Referential(st') by {
      assert ProjectIds(st') == ProjectIds(st);
      assert RoundIds(st') == RoundIds(st);
      assert SourceIds(st') == SourceIds(st);
    }
    assert Deduplicated(st') && LinksUnique(st');
    assert Provenance(st');
  }

  lemma RemoveEvidenceValid(st: Store, evidenceId: nat)
    requires Valid(st)
    ensures Valid(st.(evidence := Without(st.evidence, EvidenceId, evidenceId)))
  {
    var st' := st.(evidence := Without(st.evidence, EvidenceId, evidenceId));
    WhereIncreasing(st.evidence, EvidenceId, evidenceId, false, EvidenceId);
    WhereIncreasing(st.evidence, EvidenceId, evidenceId, false, EvidenceAt);
    assert Ordered(st');
    assert Referential(st') by {
      assert ProjectIds(st') == ProjectIds(st);
      assert RoundIds(st') == RoundIds(st);
      assert SourceIds(st') == SourceIds(st);
    }
    assert Deduplicated(st') && LinksUnique(st');
    assert Provenance(st');
  }

  /** Archiving changes no id, creation time, project or normalized URL. */
  lemma SetArchivedColumns(s: seq<Source>, sourceId: nat)
    ensures var t := SetArchived(s, sourceId);
            forall i :: 0 <= i < |s| ==>
              && SourceId(t[i]) == SourceId(s[i]) && SourceAt(t[i]) == SourceAt(s[i])
              && SourceKey(t[i]) == SourceKey(s[i]) && SourceProject(t[i]) == SourceProject(s[i])
  {
  }

  lemma SetArchivedOrdered(s: seq<Source>, sourceId: nat, nextId: nat, clock: nat)
    requires Chronological(s, SourceId, SourceAt, nextId, clock)
    requires Distinct(s, SourceKey)
    ensures Chronological(SetArchived(s, sourceId), SourceId, SourceAt, nextId, clock)
    ensures Distinct(SetArchived(s, sourceId), SourceKey)
  {
    var t := SetArchived(s, sourceId);
    SetArchivedColumns(s, sourceId);
    forall x | x in t
      ensures 0 < x.id < nextId && x.createdAt < clock
    {
      var i :| 0 <= i < |t| && t[i] == x;
      assert s[i] in s;
    }
  }

  lemma SetArchivedIds(st: Store, sourceId: nat)
    requires forall y :: y in st.sources ==> y.projectId in ProjectIds(st)
    ensures var st' := st.(sources := SetArchived(st.sources, sourceId));
            && SourceIds(st') == SourceIds(st)
            && forall x :: x in st'.sources ==> x.projectId in ProjectIds(st)
  {
    var s := st.sources;
    var t := SetArchived(s, sourceId);
    var st' := st.(sources := t);
    SetArchivedColumns(s, sourceId);
    forall x | x in t
      ensures x.id in SourceIds(st) && x.projectId in ProjectIds(st)
    {
      var i :| 0 <= i < |t| && t[i] == x;
      assert s[i] in s && s[i].id == x.id && s[i].projectId == x.projectId;
    }
    forall x | x in s
      ensures x.id in SourceIds(st')
    {
      var i :| 0 <= i < |s| && s[i] == x;
      assert t[i] in t && t[i].id == x.id;
    }
    assert forall k :: k in SourceIds(st') <==> k in SourceIds(st);
  }

  lemma SetArchivedValid(st: Store, sourceId: nat)
    requires Valid(st)
    ensures Valid(st.(sources := SetArchived(st.sources, sourceId)))
  {
    var st' := st.(sources := SetArchived(st.sources, sourceId));
    SetArchivedOrdered(st.sources, sourceId, st.nextId, st.clock);
    SetArchivedIds(st, sourceId);
    assert Ordered(st');
    assert Referential(st') by {
      assert ProjectIds(st') == ProjectIds(st);
      assert RoundIds(st') == RoundIds(st);
    }
    assert Deduplicated(st') && LinksUnique(st');
    assert Provenance(st');
  }
}
