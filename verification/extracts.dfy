/** The extract handlers (server/index.js, "Extract (Quotes & Passages) API"). */
module ExtractApi {
  import opened Wrappers
  import opened Text
  import opened Seqs
  import opened Db

  /** The body of POST /api/sources/:sourceId/extracts. */
  datatype ExtractRequest = ExtractRequest(
    extractType: Option<string>,
    extractText: Option<string>,
    contextText: Option<string>,
    locationRef: Option<string>)

  /** The values `extract_type` may take. */
  const ExtractTypes: set<string> := {"quote", "passage"}

  /** The three text fields are not blank and a type is given. */
  predicate Complete(req: ExtractRequest) {
    Filled(req.extractText) && Filled(req.contextText) && Filled(req.locationRef) && Truthy(req.extractType)
  }

  /** POST /api/sources/:sourceId/extracts: text, context and location are
      mandatory after trimming and stored trimmed; the type must be one of
      `quote` and `passage`, compared untrimmed; a source that does not exist
      breaks the foreign key (404). */
  function Capture(st: Store, sourceId: nat, req: ExtractRequest): (r: Reply<nat>)
    ensures !Complete(req) ==> r == Reply(st, Failure(Validation(MissingField)))
    ensures Complete(req) && req.extractType.value !in ExtractTypes ==>
              r == Reply(st, Failure(Validation(InvalidType)))
    ensures Complete(req) && req.extractType.value in ExtractTypes && sourceId !in SourceIds(st) ==>
              r == Reply(st, Failure(NotFound))
    ensures r.result.Success? <==>
              Complete(req) && req.extractType.value in ExtractTypes && sourceId in SourceIds(st)
    ensures r.result.Success? ==>
              && r.result.value == st.nextId
              && |r.store.extracts| == |st.extracts| + 1
              && var x := r.store.extracts[|st.extracts|];
                 && r.store == Tick(st).(extracts := st.extracts + [x])
                 && x.id == r.result.value && x.sourceId == sourceId
                 && x.extractType in ExtractTypes && x.extractType == req.extractType.value
                 && x.extractText == Trim(req.extractText.value)
                 && x.contextText == Trim(req.contextText.value)
                 && x.locationRef == Trim(req.locationRef.value)
                 && x.extractText != [] && x.contextText != [] && x.locationRef != []
  {
    if !Complete(req) then
      Reply(st, Failure(Validation(MissingField)))
    else if req.extractType.value !in ExtractTypes then
      Reply(st, Failure(Validation(InvalidType)))
    else if sourceId !in SourceIds(st) then
      Reply(st, Failure(NotFound))
    else
      var x := Extract(st.nextId, sourceId, req.extractType.value, Trim(req.extractText.value),
                       Trim(req.contextText.value), Trim(req.locationRef.value), st.clock);
      Reply(Tick(st).(extracts := st.extracts + [x]), Success(x.id))
  }

  /** GET /api/sources/:sourceId/extracts: the source's extracts, oldest first. */
  function ListExtracts(st: Store, sourceId: nat): (r: seq<Extract>)
    ensures forall x :: x in r <==> x in st.extracts && x.sourceId == sourceId
  {
    Select(st.extracts, ExtractSource, sourceId)
  }

  /** DELETE /api/extracts/:extractId: 404 when no row had the id; otherwise
      the row goes and nothing else changes. Evidence promoted from the
      extract is kept: its `extractId` is a weak reference. */
  function DeleteExtract(st: Store, extractId: nat): (r: Reply<()>)
    ensures r.result.Failure? <==> extractId !in ExtractIds(st)
    ensures r.result.Failure? ==> r == Reply(st, Failure(NotFound))
    ensures r.store == st.(extracts := r.store.extracts)
    ensures forall x :: x in r.store.extracts <==> x in st.extracts && x.id != extractId
  {
    if extractId !in ExtractIds(st) then Reply(st, Failure(NotFound))
    else Reply(st.(extracts := Without(st.extracts, ExtractId, extractId)), Success(()))
  }

  // ---------------------------------------------------------------------------
  // Properties

  lemma ListExtractsOldestFirst(st: Store, sourceId: nat)
    requires Valid(st)
    ensures Increasing(ListExtracts(st, sourceId), ExtractAt)
  {
    WhereIncreasing(st.extracts, ExtractSource, sourceId, true, ExtractAt);
  }

  /** A captured extract is listed last for its source. */
  lemma CapturedListedLast(st: Store, sourceId: nat, req: ExtractRequest)
    requires Capture(st, sourceId, req).result.Success?
    ensures var r := Capture(st, sourceId, req);
            ListExtracts(r.store, sourceId) == ListExtracts(st, sourceId) + [r.store.extracts[|st.extracts|]]
  {
    var r := Capture(st, sourceId, req);
    WhereAppend(st.extracts, r.store.extracts[|st.extracts|], ExtractSource, sourceId, true);
  }

  /** Deleting a just-captured extract restores every table; only the id and
      the clock tick stay used up. */
  lemma DeleteUndoesCapture(st: Store, sourceId: nat, req: ExtractRequest)
    requires Valid(st)
    requires Capture(st, sourceId, req).result.Success?
    ensures var r := Capture(st, sourceId, req);
            DeleteExtract(r.store, r.result.value) == Reply(Tick(st), Success(()))
  {
    var r := Capture(st, sourceId, req);
    var x := r.store.extracts[|st.extracts|];
    assert x.id in ExtractIds(r.store);
    assert forall e :: e in st.extracts ==> ExtractId(e) < x.id;
    WithoutAppended(st.extracts, x, ExtractId, x.id);
  }

  /** A second delete of the same extract reports not-found. */
  lemma DeleteExtractTwice(st: Store, extractId: nat)
    ensures var r := DeleteExtract(DeleteExtract(st, extractId).store, extractId);
            r.result == Failure(NotFound)
  {
  }

  lemma CaptureValid(st: Store, sourceId: nat, req: ExtractRequest)
    requires Valid(st)
    ensures Valid(Capture(st, sourceId, req).store)
  {
    var r := Capture(st, sourceId, req);
    if r.result.Success? {
      InsertExtractValid(st, r.store.extracts[|st.extracts|]);
    }
  }

  lemma DeleteExtractValid(st: Store, extractId: nat)
    requires Valid(st)
    ensures Valid(DeleteExtract(st, extractId).store)
  {
    RemoveExtractValid(st, extractId);
  }
}
