/** The search round handlers (server/index.js, "SearchRound API"). */
module RoundApi {
  import opened Wrappers
  import opened Text
  import opened Seqs
  import opened Db

  /** POST /api/projects/:projectId/rounds: label and objective are mandatory
      after trimming and stored trimmed; a project that does not exist breaks
      the foreign key and is answered with 404. */
  function CreateRound(st: Store, projectId: nat, roundLabel: Option<string>,
                       objective: Option<string>): (r: Reply<nat>)
    ensures !(Filled(roundLabel) && Filled(objective)) ==>
              r == Reply(st, Failure(Validation(MissingField)))
    ensures Filled(roundLabel) && Filled(objective) && projectId !in ProjectIds(st) ==>
              r == Reply(st, Failure(NotFound))
    ensures r.result.Success? <==>
              Filled(roundLabel) && Filled(objective) && projectId in ProjectIds(st)
    ensures r.result.Success? ==>
              && r.result.value == st.nextId
              && |r.store.rounds| == |st.rounds| + 1
              && var x := r.store.rounds[|st.rounds|];
                 && r.store == Tick(st).(rounds := st.rounds + [x])
                 && x.id == r.result.value && x.projectId == projectId
                 && x.roundLabel == Trim(roundLabel.value) && x.objective == Trim(objective.value)
  {
    if !Filled(roundLabel) || !Filled(objective) then
      Reply(st, Failure(Validation(MissingField)))
    else if projectId !in ProjectIds(st) then
      Reply(st, Failure(NotFound))
    else
      var x := Round(st.nextId, projectId, Trim(roundLabel.value), Trim(objective.value), st.clock);
      Reply(Tick(st).(rounds := st.rounds + [x]), Success(x.id))
  }

  /** GET /api/projects/:projectId/rounds: the project's rounds, oldest first. */
  function ListRounds(st: Store, projectId: nat): (r: seq<Round>)
    ensures forall x :: x in r <==> x in st.rounds && x.projectId == projectId
  {
    Select(st.rounds, RoundProject, projectId)
  }

  /** DELETE /api/rounds/:roundId: 404 when no round row has the id; otherwise
      the round is removed, its queries and links with it through the
      store's cascade, and no project, source, extract or evidence row is
      touched. */
  function DeleteRound(st: Store, roundId: nat): (r: Reply<()>)
    ensures r.result == Failure(NotFound) <==> roundId !in RoundIds(st)
    ensures roundId !in RoundIds(st) ==> r.store == st
    ensures r.result.Success? <==> roundId in RoundIds(st)
    ensures r.result.Success? ==>
              && (forall x :: x in r.store.rounds <==> x in st.rounds && x.id != roundId)
              && (forall q :: q in r.store.queries <==> q in st.queries && q.roundId != roundId)
              && (forall l :: l in r.store.links <==> l in st.links && l.roundId != roundId)
              && r.store.projects == st.projects && r.store.sources == st.sources
              && r.store.extracts == st.extracts && r.store.evidence == st.evidence
              && r.store.nextId == st.nextId && r.store.clock == st.clock
  {
    if roundId !in RoundIds(st) then Reply(st, Failure(NotFound))
    else Reply(DeleteRoundCascade(st, roundId), Success(()))
  }

  // ---------------------------------------------------------------------------
  // Properties

  /** Rounds are listed in creation order. */
  lemma ListRoundsOldestFirst(st: Store, projectId: nat)
    requires Valid(st)
    ensures Increasing(ListRounds(st, projectId), RoundAt)
  {
    WhereIncreasing(st.rounds, RoundProject, projectId, true, RoundAt);
  }

  /** A created round is listed last for its project, after the rounds that
      were there before. */
  lemma CreatedRoundListedLast(st: Store, projectId: nat, roundLabel: Option<string>,
                               objective: Option<string>)
    requires CreateRound(st, projectId, roundLabel, objective).result.Success?
    ensures var r := CreateRound(st, projectId, roundLabel, objective);
            ListRounds(r.store, projectId) == ListRounds(st, projectId) + [r.store.rounds[|st.rounds|]]
  {
    var r := CreateRound(st, projectId, roundLabel, objective);
    WhereAppend(st.rounds, r.store.rounds[|st.rounds|], RoundProject, projectId, true);
  }

  /** A second delete of the same round reports not-found: "already gone" is
      never mistaken for "just removed". */
  lemma DeleteRoundTwice(st: Store, roundId: nat)
    requires DeleteRound(st, roundId).result.Success?
    ensures DeleteRound(DeleteRound(st, roundId).store, roundId).result == Failure(NotFound)
  {
  }

  lemma CreateRoundValid(st: Store, projectId: nat, roundLabel: Option<string>,
                         objective: Option<string>)
    requires Valid(st)
    ensures Valid(CreateRound(st, projectId, roundLabel, objective).store)
  {
    var r := CreateRound(st, projectId, roundLabel, objective);
    if r.result.Success? {
      InsertRoundValid(st, r.store.rounds[|st.rounds|]);
    }
  }

  lemma DeleteRoundValid(st: Store, roundId: nat)
    requires Valid(st)
    ensures Valid(DeleteRound(st, roundId).store)
  {
    DeleteRoundCascadeValid(st, roundId);
  }
}
