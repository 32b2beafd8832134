/** The evidence handlers (server/index.js, "Evidence API"), including the
    check that evidence promoted from an extract stays on the extract's
    source. */
module EvidenceApi {
  import opened Wrappers
  import opened Text
  import opened Seqs
  import opened Db
  import opened ExtractApi

  /** The body of POST /api/sources/:sourceId/evidence. */
  datatype EvidenceRequest = EvidenceRequest(
    evidenceType: Option<string>,
    evidenceText: Option<string>,
    contextText: Option<string>,
    locationRef: Option<string>,
    whyRelevant: Option<string>,
    extractId: Option<nat>)

  /** The values `evidence_type` may take. */
  const EvidenceTypes: set<string> := {"quote", "passage", "screenshot", "note"}

  /** The four text fields are not blank and a type is given. */
  predicate Complete(req: EvidenceRequest) {
    && Filled(req.evidenceText) && Filled(req.contextText) && Filled(req.locationRef)
    && Filled(req.whyRelevant) && Truthy(req.evidenceType)
  }

  /** The extract lookup of the handler (`.single()` on the id): a referenced
      extract must be the one row with its id and belong to the source. */
  function CheckExtract(st: Store, sourceId: nat, extractId: nat): (r: Option<Invalid>)
    ensures r.None? ==> exists ex :: ex in st.extracts && ex.id == extractId && ex.sourceId == sourceId
    ensures r.Some? ==> r.value in {InvalidExtract, ExtractSourceMismatch}
    ensures extractId !in ExtractIds(st) ==> r == Some(InvalidExtract)
  {
    var hits := Select(st.extracts, ExtractId, extractId);
    if |hits| != 1 then Some(InvalidExtract)
    else
      assert hits[0] in hits;
      if hits[0].sourceId != sourceId then Some(ExtractSourceMismatch) else None
  }

  /** POST /api/sources/:sourceId/evidence. The text fields are mandatory
      after trimming and stored trimmed; the type must be one of the four
      allowed values; a referenced extract (an id of `0` counts as none) must
      exist and belong to the same source. A source that does not exist then
      breaks the foreign key, which this handler answers with 500. */
  function Record(st: Store, sourceId: nat, req: EvidenceRequest): (r: Reply<nat>)
    ensures !Complete(req) ==> r == Reply(st, Failure(Validation(MissingField)))
    ensures Complete(req) && req.evidenceType.value !in EvidenceTypes ==>
              r == Reply(st, Failure(Validation(InvalidType)))
    ensures Complete(req) && req.evidenceType.value in EvidenceTypes && IdGiven(req.extractId)
              && (forall ex :: ex in st.extracts && ex.id == req.extractId.value ==> ex.sourceId != sourceId) ==>
              r.store == st && r.result.Failure? && r.result.error.Validation?
    ensures r.result.Failure? ==> r.store == st
    ensures Complete(req) && req.evidenceType.value in EvidenceTypes
              && (!IdGiven(req.extractId) || CheckExtract(st, sourceId, req.extractId.value).None?)
              && sourceId !in SourceIds(st) ==>
              r == Reply(st, Failure(StorageFailure))
    ensures r.result.Success? ==>
              && Complete(req) && req.evidenceType.value in EvidenceTypes && sourceId in SourceIds(st)
              && (IdGiven(req.extractId) ==>
                    exists ex :: ex in st.extracts && ex.id == req.extractId.value && ex.sourceId == sourceId)
    ensures r.result.Success? ==>
              && r.result.value == st.nextId
              && |r.store.evidence| == |st.evidence| + 1
              && var x := r.store.evidence[|st.evidence|];
                 && r.store == Tick(st).(evidence := st.evidence + [x])
                 && x.id == r.result.value && x.sourceId == sourceId
                 && x.extractId == (if IdGiven(req.extractId) then req.extractId else None)
                 && x.evidenceType == req.evidenceType.value
                 && x.evidenceText == Trim(req.evidenceText.value)
                 && x.contextText == Trim(req.contextText.value)
                 && x.locationRef == Trim(req.locationRef.value)
                 && x.whyRelevant == Trim(req.whyRelevant.value)
  {
    if !Complete(req) then
      Reply(st, Failure(Validation(MissingField)))
    else if req.evidenceType.value !in EvidenceTypes then
      Reply(st, Failure(Validation(InvalidType)))
    else if IdGiven(req.extractId) && CheckExtract(st, sourceId, req.extractId.value).Some? then
      Reply(st, Failure(Validation(CheckExtract(st, sourceId, req.extractId.value).value)))
    else if sourceId !in SourceIds(st) then
      Reply(st, Failure(StorageFailure))
    else
      var x := Evidence(st.nextId, sourceId, if IdGiven(req.extractId) then req.extractId else None,
                        req.evidenceType.value, Trim(req.evidenceText.value), Trim(req.contextText.value),
                        Trim(req.locationRef.value), Trim(req.whyRelevant.value), st.clock);
      Reply(Tick(st).(evidence := st.evidence + [x]), Success(x.id))
  }

  /** GET /api/sources/:sourceId/evidence: the source's evidence, oldest first. */
  function ListEvidence(st: Store, sourceId: nat): (r: seq<Evidence>)
    ensures forall e :: e in r <==> e in st.evidence && e.sourceId == sourceId
  {
    Select(st.evidence, EvidenceSource, sourceId)
  }

  /** The ids of a project's sources. */
  function ProjectSourceIds(st: Store, projectId: nat): set<nat> {
    set s | s in st.sources && s.projectId == projectId :: s.id
  }

  /** Whether an evidence row hangs off one of the given sources. */
  function OnSources(ids: set<nat>): Evidence -> bool {
    (e: Evidence) => e.sourceId in ids
  }

  /** GET /api/projects/:projectId/evidence: the evidence whose source belongs
      to the project (an inner join through sources), oldest first. */
  function ListProjectEvidence(st: Store, projectId: nat): (r: seq<Evidence>)
    ensures forall e :: e in r <==>
              e in st.evidence && exists s :: s in st.sources && s.id == e.sourceId && s.projectId == projectId
  {
    Select(st.evidence, OnSources(ProjectSourceIds(st, projectId)), true)
  }

  /** DELETE /api/evidence/:evidenceId: 404 when no row had the id; otherwise
      the row goes and nothing else changes. */
  function DeleteEvidence(st: Store, evidenceId: nat): (r: Reply<()>)
    ensures r.result.Failure? <==> evidenceId !in EvidenceIds(st)
    ensures r.result.Failure? ==> r == Reply(st, Failure(NotFound))
    ensures r.store == st.(evidence := r.store.evidence)
    ensures forall e :: e in r.store.evidence <==> e in st.evidence && e.id != evidenceId
  {
    if evidenceId !in EvidenceIds(st) then Reply(st, Failure(NotFound))
    else Reply(st.(evidence := Without(st.evidence, EvidenceId, evidenceId)), Success(()))
  }

  // ---------------------------------------------------------------------------
  // Provenance

  /** Under the invariant, a complete request for an existing source is
      recorded exactly when it names no extract or an extract of the same
      source; a missing extract and a foreign one are told apart. */
  lemma RecordExtractCheck(st: Store, sourceId: nat, req: EvidenceRequest)
    requires Valid(st)
    requires Complete(req) && req.evidenceType.value in EvidenceTypes && sourceId in SourceIds(st)
    ensures var r := Record(st, sourceId, req);
            && (r.result.Success? <==>
                  !IdGiven(req.extractId)
                  || exists ex :: ex in st.extracts && ex.id == req.extractId.value && ex.sourceId == sourceId)
            && (IdGiven(req.extractId) && req.extractId.value !in ExtractIds(st) ==>
                  r.result == Failure(Validation(InvalidExtract)))
            && (IdGiven(req.extractId) && req.extractId.value in ExtractIds(st)
                && !(exists ex :: ex in st.extracts && ex.id == req.extractId.value && ex.sourceId == sourceId) ==>
                  r.result == Failure(Validation(ExtractSourceMismatch)))
  {
    RecordOutcome(st, sourceId, req);
    if IdGiven(req.extractId) {
      OrderedIdsUnique(st);
      CheckExtractExact(st, sourceId, req.extractId.value);
    }
  }

  /** The answer to a complete request for an existing source is decided by
      the extract check alone. */
  lemma RecordOutcome(st: Store, sourceId: nat, req: EvidenceRequest)
    requires Complete(req) && req.evidenceType.value in EvidenceTypes && sourceId in SourceIds(st)
    ensures var r := Record(st, sourceId, req).result;
            && (!IdGiven(req.extractId) ==> r.Success?)
            && (IdGiven(req.extractId) ==>
                  var c := CheckExtract(st, sourceId, req.extractId.value);
                  && (c.None? ==> r.Success?)
                  && (c.Some? ==> r == Failure(Validation(c.value))))
  {
  }

  /** When ids are unique, the extract check passes exactly for an extract of
      the same source, and tells a missing extract from a foreign one. */
  lemma CheckExtractExact(st: Store, sourceId: nat, extractId: nat)
    requires Distinct(st.extracts, ExtractId)
    ensures CheckExtract(st, sourceId, extractId).None? <==>
              exists ex :: ex in st.extracts && ex.id == extractId && ex.sourceId == sourceId
    ensures extractId !in ExtractIds(st) ==> CheckExtract(st, sourceId, extractId) == Some(InvalidExtract)
    ensures extractId in ExtractIds(st)
              && !(exists ex :: ex in st.extracts && ex.id == extractId && ex.sourceId == sourceId) ==>
              CheckExtract(st, sourceId, extractId) == Some(ExtractSourceMismatch)
  {
    if extractId in ExtractIds(st) {
      var ex :| ex in st.extracts && ex.id == extractId;
      MatchesOne(st, extractId, ex);
    }
  }

  /** Under the invariant, the lookup of an existing extract id finds it. */
  lemma MatchesOne(st: Store, extractId: nat, ex: Extract)
    requires Distinct(st.extracts, ExtractId)
    requires ex in st.extracts && ex.id == extractId
    ensures Select(st.extracts, ExtractId, extractId) == [ex]
  {
    SelectAtMostOne(st.extracts, ExtractId, extractId);
    assert ex in Select(st.extracts, ExtractId, extractId);
  }

  /** Deleting an extract leaves the evidence promoted from it in place: the
      listings of every source and project are unchanged, and the store
      invariant holds. */
  lemma ExtractDeleteKeepsEvidence(st: Store, extractId: nat, sourceId: nat, projectId: nat)
    requires Valid(st)
    ensures var st' := DeleteExtract(st, extractId).store;
            && ListEvidence(st', sourceId) == ListEvidence(st, sourceId)
            && ListProjectEvidence(st', projectId) == ListProjectEvidence(st, projectId)
            && Valid(st')
  {
    DeleteExtractValid(st, extractId);
  }

  // ---------------------------------------------------------------------------
  // Listings

  lemma ListEvidenceOldestFirst(st: Store, sourceId: nat)
    requires Valid(st)
    ensures Increasing(ListEvidence(st, sourceId), EvidenceAt)
  {
    WhereIncreasing(st.evidence, EvidenceSource, sourceId, true, EvidenceAt);
  }

  lemma ListProjectEvidenceOldestFirst(st: Store, projectId: nat)
    requires Valid(st)
    ensures Increasing(ListProjectEvidence(st, projectId), EvidenceAt)
  {
    WhereIncreasing(st.evidence, OnSources(ProjectSourceIds(st, projectId)), true, true, EvidenceAt);
  }

  /** Each evidence row belongs to at most one project's aggregate view. */
  lemma ProjectEvidenceDisjoint(st: Store, p1: nat, p2: nat, e: Evidence)
    requires Valid(st) && p1 != p2
    requires e in ListProjectEvidence(st, p1)
    ensures e !in ListProjectEvidence(st, p2)
  {
    OrderedIdsUnique(st);
    var s1 :| s1 in st.sources && s1.id == e.sourceId && s1.projectId == p1;
    forall s2 | s2 in st.sources && s2.id == e.sourceId
      ensures s2.projectId == p1
    {
      assert s2 == s1;
    }
  }

  /** The aggregate view of a project is the union of its sources' evidence. */
  lemma ProjectEvidenceOfSources(st: Store, projectId: nat, s: Source)
    requires s in st.sources && s.projectId == projectId
    ensures forall e :: e in ListEvidence(st, s.id) ==> e in ListProjectEvidence(st, projectId)
  {
  }

  // ---------------------------------------------------------------------------
  // Delete and the store invariant

  /** Deleting just-recorded evidence restores every table; only the id and
      the clock tick stay used up. */
  lemma DeleteUndoesRecord(st: Store, sourceId: nat, req: EvidenceRequest)
    requires Valid(st)
    requires Record(st, sourceId, req).result.Success?
    ensures var r := Record(st, sourceId, req);
            DeleteEvidence(r.store, r.result.value) == Reply(Tick(st), Success(()))
  {
    var r := Record(st, sourceId, req);
    var x := r.store.evidence[|st.evidence|];
    assert x.id in EvidenceIds(r.store);
    assert forall e :: e in st.evidence ==> EvidenceId(e) < x.id;
    WithoutAppended(st.evidence, x, EvidenceId, x.id);
  }

  lemma DeleteEvidenceTwice(st: Store, evidenceId: nat)
    ensures var r := DeleteEvidence(DeleteEvidence(st, evidenceId).store, evidenceId);
            r.result == Failure(NotFound)
  {
  }

  lemma RecordValid(st: Store, sourceId: nat, req: EvidenceRequest)
    requires Valid(st)
    ensures Valid(Record(st, sourceId, req).store)
  {
    var r := Record(st, sourceId, req);
    if r.result.Success? {
      var x := r.store.evidence[|st.evidence|];
      if IdGiven(req.extractId) {
        var k := req.extractId.value;
        var ex :| ex in st.extracts && ex.id == k && ex.sourceId == sourceId;
        OrderedIdsUnique(st);
        forall ex' | ex' in st.extracts && x.extractId == Some(ex'.id)
          ensures ex'.sourceId == x.sourceId
        {
          assert ex' == ex;
        }
      }
      InsertEvidenceValid(st, x);
    }
  }

  lemma DeleteEvidenceValid(st: Store, evidenceId: nat)
    requires Valid(st)
    ensures Valid(DeleteEvidence(st, evidenceId).store)
  {
    RemoveEvidenceValid(st, evidenceId);
  }
}
