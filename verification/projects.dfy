/** The project handlers (server/index.js, "Research (Projects) API"). */
module ProjectApi {
  import opened Wrappers
  import opened Text
  import opened Seqs
  import opened Db

  /** POST /api/projects: title and research question are mandatory after
      trimming and stored trimmed; the other fields are stored as given; the
      status starts `active`. */
  function CreateProject(st: Store, title: Option<string>, question: Option<string>,
                         hypothesis: Option<string>, timespanStart: Option<string>,
                         timespanEnd: Option<string>): (r: Reply<nat>)
    ensures !(Filled(title) && Filled(question)) <==> r.result.Failure?
    ensures r.result.Failure? ==> r == Reply(st, Failure(Validation(MissingField)))
    ensures r.result.Success? ==>
              && r.result.value == st.nextId
              && |r.store.projects| == |st.projects| + 1
              && var p := r.store.projects[|st.projects|];
                 && r.store == Tick(st).(projects := st.projects + [p])
                 && p.id == r.result.value && p.status == Active
                 && p.title == Trim(title.value) && p.researchQuestion == Trim(question.value)
                 && p.hypothesis == hypothesis
                 && p.timespanStart == timespanStart && p.timespanEnd == timespanEnd
  {
    if !Filled(title) || !Filled(question) then
      Reply(st, Failure(Validation(MissingField)))
    else
      var p := Project(st.nextId, Trim(title.value), Trim(question.value), hypothesis,
                       timespanStart, timespanEnd, Active, st.clock);
      Reply(Tick(st).(projects := st.projects + [p]), Success(p.id))
  }

  /** GET /api/projects: active projects only unless archived ones are asked
      for, newest first. */
  function ListProjects(st: Store, includeArchived: bool): (r: seq<Project>)
    ensures forall p :: p in r <==> p in st.projects && (includeArchived || p.status == Active)
  {
    ReverseMembers(Select(st.projects, ProjectStatusOf, Active));
    ReverseMembers(st.projects);
    Reverse(if includeArchived then st.projects else Select(st.projects, ProjectStatusOf, Active))
  }

  // ---------------------------------------------------------------------------
  // Properties

  /** The project listing is ordered by creation time, newest first. */
  lemma ListProjectsNewestFirst(st: Store, includeArchived: bool)
    requires Valid(st)
    ensures Decreasing(ListProjects(st, includeArchived), ProjectAt)
  {
    WhereIncreasing(st.projects, ProjectStatusOf, Active, true, ProjectAt);
    var rows := if includeArchived then st.projects else Select(st.projects, ProjectStatusOf, Active);
    ReverseDecreasing(rows, ProjectAt);
  }

  /** A created project is listed, first, by the default listing. */
  lemma CreatedProjectListedFirst(st: Store, title: Option<string>, question: Option<string>,
                                  hypothesis: Option<string>, timespanStart: Option<string>,
                                  timespanEnd: Option<string>)
    requires Valid(st)
    requires Filled(title) && Filled(question)
    ensures var r := CreateProject(st, title, question, hypothesis, timespanStart, timespanEnd);
            var l := ListProjects(r.store, false);
            |l| > 0 && l[0].id == r.result.value && l[0] in r.store.projects
  {
    var r := CreateProject(st, title, question, hypothesis, timespanStart, timespanEnd);
    var p := r.store.projects[|st.projects|];
    WhereAppend(st.projects, p, ProjectStatusOf, Active, true);
  }

  /** Creating a project preserves the store invariant. */
  lemma CreateProjectValid(st: Store, title: Option<string>, question: Option<string>,
                           hypothesis: Option<string>, timespanStart: Option<string>,
                           timespanEnd: Option<string>)
    requires Valid(st)
    ensures Valid(CreateProject(st, title, question, hypothesis, timespanStart, timespanEnd).store)
  {
    var r := CreateProject(st, title, question, hypothesis, timespanStart, timespanEnd);
    if r.result.Success? {
      InsertProjectValid(st, r.store.projects[|st.projects|]);
    }
  }
}
