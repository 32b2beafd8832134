/** Properties that span several handlers: what a round delete and a source
    archive leave reachable, and a complete acquisition-to-evidence run. */
module Lifecycle {
  import opened Wrappers
  import opened Text
  import opened Seqs
  import opened Canonical
  import opened Db
  import opened ProjectApi
  import opened RoundApi
  import opened LinkApi
  import opened SourceApi
  import opened ExtractApi
  import opened EvidenceApi

  /** Deleting a round empties its source listing and leaves every source,
      extract and evidence row, and every other round's links, as they were. */
  lemma DeleteRoundKeepsContent(st: Store, roundId: nat, other: nat, sourceId: nat)
    requires Valid(st) && other != roundId
    requires DeleteRound(st, roundId).result.Success?
    ensures var st' := DeleteRound(st, roundId).store;
            && RoundSources(st', roundId) == []
            && RoundSources(st', other) == RoundSources(st, other)
            && GetSource(st', sourceId) == GetSource(st, sourceId)
            && ListExtracts(st', sourceId) == ListExtracts(st, sourceId)
            && ListEvidence(st', sourceId) == ListEvidence(st, sourceId)
            && Valid(st')
  {
    var st' := DeleteRound(st, roundId).store;
    WhereNone(st'.links, LinkRound, roundId, true);
    KeepOtherRounds(st.links, roundId, other);
    DeleteRoundValid(st, roundId);
  }

  /** Removing one round's links does not change another round's links. */
  lemma {:induction false} KeepOtherRounds(links: seq<Link>, roundId: nat, other: nat)
    requires other != roundId
    ensures Select(Without(links, LinkRound, roundId), LinkRound, other) == Select(links, LinkRound, other)
  {
    if |links| > 0 {
      KeepOtherRounds(links[1..], roundId, other);
    }
  }

  /** Archiving a source does not change whether evidence can be recorded
      against it. */
  lemma ArchivedSourceTakesEvidence(st: Store, sourceId: nat, req: EvidenceRequest)
    requires Valid(st)
    ensures Record(Archive(st, sourceId).store, sourceId, req).result.Success?
        <==> Record(st, sourceId, req).result.Success?
  {
    SetArchivedIds(st, sourceId);
    RecordDependsOnIds(Archive(st, sourceId).store, st, sourceId, req);
  }

  /** Whether evidence is recorded depends only on the extracts and on which
      source ids exist. */
  lemma RecordDependsOnIds(st1: Store, st2: Store, sourceId: nat, req: EvidenceRequest)
    requires st1.extracts == st2.extracts && SourceIds(st1) == SourceIds(st2)
    ensures Record(st1, sourceId, req).result.Success? <==> Record(st2, sourceId, req).result.Success?
  {
    if IdGiven(req.extractId) {
      assert CheckExtract(st1, sourceId, req.extractId.value) == CheckExtract(st2, sourceId, req.extractId.value);
    }
  }

  function SourceRequest(url: string, roundId: nat): AcquireRequest {
    AcquireRequest(Some(url), Some("article"), Some(roundId), None, None, None, None, None, None)
  }

  /** A store holding nothing but the given projects and rounds. */
  predicate Bare(st: Store) {
    st.sources == [] && st.links == [] && st.extracts == [] && st.evidence == []
  }

  /** The workflow a researcher follows, run on an empty store: a project, a round, a
      source acquired twice under two spellings of one URL that differ in
      scheme, host case and a trailing `/` (created, then reused, linked
      once), an extract, evidence promoted from it with the extract's own
      text, and the extract's deletion, after which the evidence is still
      listed with its own copy of the text. The URL parser's answers for the
      two spellings are premises; the free-text fields are any non-blank
      strings. */
  lemma EndToEnd(parse: Parser, u1: string, u2: string,
                 title: string, question: string, roundLabel: string, objective: string,
                 text: string, context: string, location: string, why: string)
    requires Filled(Some(u1)) && Filled(Some(u2))
    requires parse(Trim(u1)).Some? && parse(Trim(u2)).Some?
    requires Lower(parse(Trim(u1)).value.host) == Lower(parse(Trim(u2)).value.host)
    requires var p := parse(Trim(u2)).value.pathname;
             p != [] && !EndsWithSlash(p) && parse(Trim(u1)).value.pathname == p + "/"
    requires Filled(Some(title)) && Filled(Some(question)) && Filled(Some(roundLabel)) && Filled(Some(objective))
    requires Filled(Some(text)) && Filled(Some(context)) && Filled(Some(location)) && Filled(Some(why))
    ensures var p := CreateProject(Empty, Some(title), Some(question), None, None, None);
            var rd := CreateRound(p.store, 1, Some(roundLabel), Some(objective));
            var a1 := Acquire(rd.store, parse, 1, SourceRequest(u1, 2));
            var a2 := Acquire(a1.store, parse, 1, SourceRequest(u2, 2));
            var ex := Capture(a2.store, 3, ExtractRequest(Some("quote"), Some(text), Some(context), Some(location)));
            var ev := Record(ex.store, 3, EvidenceRequest(Some("quote"), Some(text), Some(context),
                                                          Some(location), Some(why), Some(4)));
            var del := DeleteExtract(ev.store, 4);
            && p.result == Success(1) && rd.result == Success(2)
            && a1.result == Success(Acquired(3, false))
            && a2.result == Success(Acquired(3, true)) && a2.store == a1.store
            && |RoundSources(a2.store, 2)| == 1
            && ex.result == Success(4)
            && ev.result == Success(5)
            && del.result == Success(())
            && |ListEvidence(del.store, 3)| == 1
            && ListEvidence(del.store, 3)[0].extractId == Some(4)
            && ListEvidence(del.store, 3)[0].evidenceText == Trim(text)
  {
    IgnoresTrailingSlash(parse, u1, u2);
    var rd := SetUp(title, question, roundLabel, objective);
    var a2 := AcquireBothSpellings(rd, parse, u1, u2);
    PromoteThenDelete(a2, text, context, location, why);
  }

  /** The project and its round. */
  lemma SetUp(title: string, question: string, roundLabel: string, objective: string) returns (st: Store)
    requires Filled(Some(title)) && Filled(Some(question)) && Filled(Some(roundLabel)) && Filled(Some(objective))
    ensures var p := CreateProject(Empty, Some(title), Some(question), None, None, None);
            var rd := CreateRound(p.store, 1, Some(roundLabel), Some(objective));
            && p.result == Success(1) && rd.result == Success(2) && st == rd.store
    ensures Valid(st) && Bare(st) && st.nextId == 3 && 1 in ProjectIds(st) && 2 in RoundIds(st)
  {
    var ps := FirstProject(title, question);
    st := FirstRound(ps, roundLabel, objective);
  }

  /** The first project of an empty store gets id 1. */
  lemma FirstProject(title: string, question: string) returns (st: Store)
    requires Filled(Some(title)) && Filled(Some(question))
    ensures var p := CreateProject(Empty, Some(title), Some(question), None, None, None);
            p.result == Success(1) && st == p.store
    ensures Valid(st) && Bare(st) && st.nextId == 2 && 1 in ProjectIds(st)
  {
    EmptyValid();
    var p := CreateProject(Empty, Some(title), Some(question), None, None, None);
    assert p.result.Success?;
    CreateProjectValid(Empty, Some(title), Some(question), None, None, None);
    var x := p.store.projects[0];
    assert x.id == 1 && x in p.store.projects;
    st := p.store;
  }

  /** A round of project 1 in a store whose next id is 2 gets id 2. */
  lemma FirstRound(ps: Store, roundLabel: string, objective: string) returns (st: Store)
    requires Valid(ps) && Bare(ps) && ps.nextId == 2 && 1 in ProjectIds(ps)
    requires Filled(Some(roundLabel)) && Filled(Some(objective))
    ensures var rd := CreateRound(ps, 1, Some(roundLabel), Some(objective));
            rd.result == Success(2) && st == rd.store
    ensures Valid(st) && Bare(st) && st.nextId == 3 && 1 in ProjectIds(st) && 2 in RoundIds(st)
  {
    var rd := CreateRound(ps, 1, Some(roundLabel), Some(objective));
    CreateRoundValid(ps, 1, Some(roundLabel), Some(objective));
    var x := rd.store.rounds[|ps.rounds|];
    assert x.id == 2 && x in rd.store.rounds;
    assert rd.store.projects == ps.projects;
    st := rd.store;
  }

  /** Two spellings of one URL acquired for the same round: created, then
      reused, linked once. */
  lemma AcquireBothSpellings(st: Store, parse: Parser, u1: string, u2: string) returns (st': Store)
    requires Valid(st) && Bare(st) && st.nextId == 3 && 1 in ProjectIds(st) && 2 in RoundIds(st)
    requires Filled(Some(u1)) && Filled(Some(u2))
    requires parse(Trim(u1)).Some? && parse(Trim(u2)).Some?
    requires NormalizeUrl(parse, Some(u1)) == NormalizeUrl(parse, Some(u2))
    ensures var a1 := Acquire(st, parse, 1, SourceRequest(u1, 2));
            var a2 := Acquire(a1.store, parse, 1, SourceRequest(u2, 2));
            && a1.result == Success(Acquired(3, false))
            && a2 == Reply(a1.store, Success(Acquired(3, true)))
            && st' == a2.store
            && |RoundSources(st', 2)| == 1
    ensures Valid(st') && st'.extracts == [] && st'.evidence == [] && st'.nextId == 4 && 3 in SourceIds(st')
  {
    var r1 := SourceRequest(u1, 2);
    var r2 := SourceRequest(u2, 2);
    assert Accepted(parse, r1) && Accepted(parse, r2);
    var a1 := Acquire(st, parse, 1, r1);
    assert a1.result == Success(Acquired(3, false));
    AcquireTwice(st, parse, 1, r1, r2);
    AcquireValid(st, parse, 1, r1);
    st' := a1.store;
    assert st'.sources[0] in st'.sources;
    RoundSourcesExact(st', 2);
    var r := RoundSources(st', 2);
    assert forall x :: x in r ==> SourceId(x) == 3;
    WhereAll(r, SourceId, 3, true);
    SelectAtMostOne(r, SourceId, 3);
    assert st'.sources[0] in r;
  }

  /** An extract, evidence promoted from it, and the extract's deletion. */
  lemma PromoteThenDelete(st: Store, text: string, context: string, location: string, why: string)
    requires Valid(st) && st.extracts == [] && st.evidence == [] && st.nextId == 4 && 3 in SourceIds(st)
    requires Filled(Some(text)) && Filled(Some(context)) && Filled(Some(location)) && Filled(Some(why))
    ensures var ex := Capture(st, 3, ExtractRequest(Some("quote"), Some(text), Some(context), Some(location)));
            var ev := Record(ex.store, 3, EvidenceRequest(Some("quote"), Some(text), Some(context),
                                                          Some(location), Some(why), Some(4)));
            var del := DeleteExtract(ev.store, 4);
            && ex.result == Success(4)
            && ev.result == Success(5)
            && del.result == Success(())
            && |ListEvidence(del.store, 3)| == 1
            && ListEvidence(del.store, 3)[0].extractId == Some(4)
            && ListEvidence(del.store, 3)[0].evidenceText == Trim(text)
  {
    var x := CaptureStep(st, text, context, location);
    var ex := Capture(st, 3, ExtractRequest(Some("quote"), Some(text), Some(context), Some(location)));
    var e := RecordStep(ex.store, x, text, context, location, why);
    var ev := Record(ex.store, 3, EvidenceRequest(Some("quote"), Some(text), Some(context),
                                                  Some(location), Some(why), Some(4)));
    DeleteStep(ev.store, x, e);
  }

  /** The first extract of source 3 gets id 4. */
  lemma CaptureStep(st: Store, text: string, context: string, location: string) returns (x: Extract)
    requires st.extracts == [] && st.nextId == 4 && 3 in SourceIds(st)
    requires Filled(Some(text)) && Filled(Some(context)) && Filled(Some(location))
    ensures var ex := Capture(st, 3, ExtractRequest(Some("quote"), Some(text), Some(context), Some(location)));
            && ex.result == Success(4)
            && ex.store == Tick(st).(extracts := [x])
            && x.id == 4 && x.sourceId == 3
  {
    var ex := Capture(st, 3, ExtractRequest(Some("quote"), Some(text), Some(context), Some(location)));
    assert "quote" in ExtractTypes;
    x := ex.store.extracts[0];
  }

  /** Evidence promoted from extract 4 of source 3 is stored with that
      reference and the trimmed text. */
  lemma RecordStep(st: Store, x: Extract, text: string, context: string, location: string, why: string)
    returns (e: Evidence)
    requires st.extracts == [x] && x.id == 4 && x.sourceId == 3 && 3 in SourceIds(st) && st.evidence == []
    requires Filled(Some(text)) && Filled(Some(context)) && Filled(Some(location)) && Filled(Some(why))
    ensures var ev := Record(st, 3, EvidenceRequest(Some("quote"), Some(text), Some(context),
                                                    Some(location), Some(why), Some(4)));
            && ev.result == Success(st.nextId)
            && ev.store == Tick(st).(evidence := [e])
            && e.sourceId == 3 && e.extractId == Some(4) && e.evidenceText == Trim(text)
  {
    var req := EvidenceRequest(Some("quote"), Some(text), Some(context), Some(location), Some(why), Some(4));
    assert EvidenceApi.Complete(req) && "quote" in EvidenceTypes && IdGiven(req.extractId);
    assert CheckExtract(st, 3, 4) == None by {
      assert Select([x], ExtractId, 4) == [x];
    }
    var ev := Record(st, 3, req);
    assert ev.result.Success?;
    e := ev.store.evidence[0];
    assert st.evidence + [e] == [e];
  }

  /** Deleting extract 4 leaves the evidence promoted from it listed. */
  lemma DeleteStep(st: Store, x: Extract, e: Evidence)
    requires st.extracts == [x] && x.id == 4 && st.evidence == [e] && e.sourceId == 3
    ensures var del := DeleteExtract(st, 4);
            del.result == Success(()) && ListEvidence(del.store, 3) == [e]
  {
    assert x in st.extracts;
    assert Select([e], EvidenceSource, 3) == [e];
  }
}
