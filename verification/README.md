# Provenance and deduplication core of the research server

This Dafny project models the request handlers of `server/index.js`. That server is an Express API over a relational datastore for a research-provenance tool:

- a project holds search rounds;
- a round logs search queries and is linked to sources;
- a source carries extracts (quotes and passages) and evidence.

Evidence may be promoted from an extract of the same source.

The core is the URL canonicaliser `normalizeUrl`. It is the per-project deduplication key of source acquisition. Around it sit:

- the acquisition handler: validate, look up by key, reuse or insert, link to the round;
- the junction-table operations: link, unlink, and listing a round's sources;
- the extract and evidence stores, with the cross-source check on a referenced extract;
- the deletes, the soft archive and the ordering rules of every listing.

How the model works:

- **Store.** The datastore is an immutable `Db.Store` with one sequence per table, in insertion order. It hands out ids from one counter that starts at 1 and is shared by all tables, so ids are unique within each table but their values differ from the datastore's per-table serial columns. `created_at` is a monotone clock.
- **Handlers.** Every handler is a pure function from the store and the request to a `Reply`. A `Reply` holds the store after every datastore call the handler made and its answer: a value, or `Validation(reason)`, `NotFound` or `StorageFailure` (HTTP 400, 404 and 500).
- **URL parser.** The WHATWG `URL` parser is a parameter of type `Parser` (`string -> Option<ParsedUrl>`). The canonicaliser and the handlers are specified for every parser.
- **Invariant.** `Db.Valid` is the store invariant:
  - ids and creation times increase in stored order;
  - the schema's foreign keys hold;
  - no two sources of one project share a normalized URL;
  - no (round, source) pair is linked twice;
  - evidence promoted from an extract names an extract of its own source.

  Every mutating handler preserves `Db.Valid` (the `…Valid` lemmas). Deduplication and the lookups rely on it.

Modules, in dependency order:

- `Wrappers` (`Option`, `Result`)
- `Seqs`: filters keyed by a column, ordering and distinctness
- `Text`: ECMAScript `trim`, ASCII `toLowerCase`, truthiness of an optional field
- `Canonical`: `normalizeUrl`
- `Db`
- `ProjectApi`, `RoundApi`, `QueryApi`, `LinkApi`, `SourceApi`, `ExtractApi`, `EvidenceApi`
- `Lifecycle`: properties that span handlers, and the end-to-end run

Where the code and its design notes disagree, the model follows the code:

- Acquisition only checks that `source_type` is present. It does not check that it is one of the documented kinds.
- Acquisition does not check that the round belongs to the project whose source is being acquired.
- Of the optional source fields, only `published_at` is turned from an empty string into null. The other fields are stored as given.
- The round delete handler deletes only the round row. The removal of the round's queries and links is the schema's `ON DELETE CASCADE`, which is an explicit assumption of the store (`Db.DeleteRoundCascade`). It is not derived from the handler.
- Evidence recorded against a source that does not exist breaks the foreign key on insert, and the handler answers 500 for any insert error. The design wants a missing referent reported as not-found. Extract capture maps the same violation to 404, but the evidence handler does not.
- Manually linking a missing round or source also answers 500 rather than not-found, for the same reason.

## Model

| member | source | states |
|---|---|---|
| Canonical.NormalizeUrl | server/index.js:25-46 | An absent or empty input gives the empty key. When the trimmed input parses, the key is exactly the lower-cased host followed by the path with one trailing `/` removed unless the path is `/`. When it does not parse, the key is the lower-cased trimmed input with one trailing `/` removed. The function is total. |
| Canonical.PathKey | server/index.js:34-38 | The path changes only when it is longer than one character and ends in `/`, and then exactly by dropping that `/`. The root path `/` is kept. |
| Canonical.IgnoresSchemeQueryFragment | server/index.js:30-41 | Two parsed URLs with the same host up to case and the same path share a key, whatever their scheme, query and fragment. |
| Canonical.IgnoresTrailingSlash | server/index.js:34-41 | A parsed path and the same path plus one trailing `/` give the same key. |
| Canonical.PathKeyTrailingSlash | server/index.js:35-37 | A non-empty path without a trailing `/` is its own key, and so is the path with one `/` appended. |
| Canonical.IgnoresPadding | server/index.js:28 | White space around the URL never changes its key. |
| Canonical.StripSlash | server/index.js:44 | The fallback's last step changes the string only when it ends in `/`, and then by removing exactly that one `/`. |
| Canonical.FallbackIgnoresCase | server/index.js:42-45 | On the fallback path, inputs equal up to letter case share a key, and that key is already lower case. |
| Canonical.StructuredHostPrefix | server/index.js:32-41 | A structured key begins with the lower-cased host, which is its own lower case. |
| Text.Lower | server/index.js:32-44 | Lower-casing keeps the length and maps each character on its own, upper-case ASCII letters to lower case. |
| Text.Trim | server/index.js:28 | `trim` yields a slice of the input that neither starts nor ends with white space, and only white space lies outside it. |
| Text.TrimEmptyIff | server/index.js:162 | A string trims to nothing exactly when it is all white space. |
| Text.FilledIff | server/index.js:52-53 | A field passes `!f?.trim()` exactly when it is present and not all white space. |
| Text.TrimLower | server/index.js:44 | Trimming and lower-casing commute. |
| Text.TrimIdempotent | server/index.js:28 | Trimming a trimmed string changes nothing. |
| Db.DeleteRoundCascade | server/index.js:111-115 | The round row goes, and with it exactly the round's queries and links. Every other table is untouched. |
| Db.SetArchived | server/index.js:303-306 | The row with the id gets the archived flag. Every other row, and every other column, stays as it was. |
| Db.OrderedIdsUnique | server/index.js:186-205 | Under the invariant, the ids of rounds, sources, extracts and evidence are unique, so a lookup by id finds at most one row. |
| ProjectApi.CreateProject | server/index.js:50-66 | Title and research question are required after trimming. If either is missing, the answer is a validation error and the store is unchanged. Otherwise one project is appended with the trimmed values, the next id and status `active`. |
| ProjectApi.ListProjects | server/index.js:68-76 | The listing holds the active projects, or every project when archived ones are asked for. |
| ProjectApi.ListProjectsNewestFirst | server/index.js:73 | Projects are listed newest first. |
| ProjectApi.CreatedProjectListedFirst | server/index.js:50-76 | A created project heads the default listing. |
| ProjectApi.CreateProjectValid | server/index.js:50-66 | Creating a project preserves the store invariant. |
| RoundApi.CreateRound | server/index.js:80-98 | Label and objective are required after trimming. A missing project answers 404 with the store unchanged. Otherwise one round is appended with the trimmed values. |
| RoundApi.ListRounds | server/index.js:100-109 | The listing holds exactly the project's rounds. |
| RoundApi.ListRoundsOldestFirst | server/index.js:105 | Rounds are listed oldest first. |
| RoundApi.CreatedRoundListedLast | server/index.js:80-109 | A created round comes last in its project's listing, after the rounds listed before. |
| RoundApi.DeleteRound | server/index.js:111-120 | The answer is not-found exactly when no round has the id, and then the store is unchanged. Otherwise the round, its queries and its links go, and no project, source, extract or evidence row changes. |
| RoundApi.DeleteRoundTwice | server/index.js:118 | Deleting the same round again reports not-found. |
| RoundApi.CreateRoundValid | server/index.js:80-98 | Creating a round preserves the store invariant. |
| RoundApi.DeleteRoundValid | server/index.js:111-120 | Deleting a round preserves the store invariant. |
| QueryApi.CreateQuery | server/index.js:124-140 | Query text after trimming and an execution date are required. A missing round answers 404 with the store unchanged. Otherwise one query is appended with the trimmed text. |
| QueryApi.ListQueries | server/index.js:142-152 | The listing is sorted by execution date, then by creation time. It is a permutation of the round's queries and holds exactly them. |
| QueryApi.SortByExecution | server/index.js:147-148 | Sorting yields a permutation of its input, sorted by execution date, then by creation time. |
| QueryApi.ListQueriesDeterministic | server/index.js:147-148 | The two sort keys determine the listing: sorting the round's queries in any stored order gives the same sequence. |
| QueryApi.CreateQueryValid | server/index.js:124-140 | Logging a query preserves the store invariant. |
| LinkApi.UpsertLink | server/index.js:211-213 | After the upsert the pair is present, and the rows already there are kept in place. The sequence grows by at most one row. |
| LinkApi.LinkSource | server/index.js:252-264 | A missing round or source answers 500 with the store unchanged. Otherwise only the junction table changes, and it then holds exactly the old pairs plus this one. |
| LinkApi.Unlink | server/index.js:267-276 | Unlinking always succeeds and changes only the junction table, which then holds exactly the old pairs minus this one. |
| LinkApi.RoundSources | server/index.js:279-299 | Every listed source is a stored source linked to the round. |
| LinkApi.RoundSourcesExact | server/index.js:279-299 | Under the invariant, a round's listing holds exactly the sources linked to it, each once. |
| LinkApi.JoinSources | server/index.js:283-296 | The join yields at most one row per link, and every row is a stored source that one of the links points at. |
| LinkApi.JoinSourcesExact | server/index.js:283-296 | Embedding the source of each link, where every link names an existing source, yields exactly the linked sources. |
| LinkApi.JoinSourcesDistinct | server/index.js:283-296 | Links with distinct source ids embed distinct sources. |
| LinkApi.LinkIdempotent | server/index.js:255-257 | Linking a pair twice answers and stores the same as linking it once. |
| LinkApi.LinkedExactlyOnce | server/index.js:255-257 | After a successful link, the pair is in the junction table exactly once. |
| LinkApi.UnlinkUndoesLink | server/index.js:252-276 | Unlinking a pair that a link had just added restores the store. |
| LinkApi.UnlinkIdempotent | server/index.js:267-276 | Unlinking twice is unlinking once, and an absent pair is no error. |
| LinkApi.LinkValid | server/index.js:252-264 | Linking preserves the store invariant. |
| LinkApi.UnlinkValid | server/index.js:267-276 | Unlinking preserves the store invariant. |
| SourceApi.Matches | server/index.js:172-177 | The lookup finds exactly the project's sources, archived or not, that carry the key. |
| SourceApi.NewSource | server/index.js:186-203 | The inserted row takes the next id and clock tick, the project, the trimmed URL, the key, the type and the optional fields as given, and is not archived. `published_at` is stored exactly when it is a non-empty string, and null otherwise. |
| SourceApi.AttachToRound | server/index.js:209-218 | A missing round answers 404 with the store unchanged. Otherwise the pair is upserted and only the junction table changes. |
| SourceApi.Acquire | server/index.js:157-225 | Validation order and outcomes: a blank URL, a missing type or a missing round id answer MissingField; a trimmed URL that does not parse answers InvalidUrl; each of these leaves the store unchanged, and a validation error arises exactly for such requests. More than one match is a storage error. One match is reused without touching the sources. No match inserts exactly one source, with the trimmed URL, the computed key and `published_at` null when empty; a missing project fails before any insert. On success only sources and links change, and the links gain exactly the (round, source) pair. Success and not-found are each characterised by whether a source was stored and whether the round exists. Not-found on the reuse path leaves the store unchanged; on the insert path only the new row, the used id and the clock tick remain. |
| SourceApi.InsertAndAttach | server/index.js:186-218 | On the no-match path, the new row is appended whatever happens to the link. A missing round then answers 404, and the store differs from the old one only by that row, the used id and the clock tick. |
| SourceApi.MatchesUnique | server/index.js:169-181 | Under the invariant, a project has at most one source per key. |
| SourceApi.AcquireReuses | server/index.js:169-185 | Under the invariant, acquiring a URL whose key a project source already carries (archived or not) inserts nothing, and answers that source's id with `reused` exactly when the round exists. |
| SourceApi.AcquireTwice | server/index.js:157-225 | After a successful acquisition, a second request with the same key for the same project and round answers the first call's source id with `reused` and leaves the store unchanged. |
| SourceApi.AcquireOtherProject | server/index.js:172-176 | The same request, acquired in a second existing project that had no source with the key, creates a new source there, with an id different from the first project's source. |
| SourceApi.ListSources | server/index.js:228-237 | The listing holds the project's sources, and the archived ones only when they are asked for. |
| SourceApi.ListSourcesNewestFirst | server/index.js:234 | Sources are listed newest first. |
| SourceApi.GetSource | server/index.js:240-249 | A found source is the stored row with the id. Anything else is not-found. |
| SourceApi.GetSourceFound | server/index.js:240-249 | Under the invariant, the detail lookup succeeds exactly when a source has the id, archived or not. |
| SourceApi.Archive | server/index.js:302-310 | Archiving always succeeds. It sets the flag on the row with the id, and nothing else in the store changes. |
| SourceApi.ArchiveIdempotent | server/index.js:302-310 | Archiving twice is archiving once. |
| SourceApi.ArchiveHides | server/index.js:228-249 | After archiving, the source is gone from the default listing and the full listing keeps its length. The detail lookup still finds it, now archived. Links, extracts and evidence are untouched. |
| SourceApi.AcquireValid | server/index.js:157-225 | Acquisition preserves the store invariant, including per-project uniqueness of the key. |
| SourceApi.ArchiveValid | server/index.js:302-310 | Archiving preserves the store invariant. |
| ExtractApi.Capture | server/index.js:315-348 | In order: a missing type or a blank text, context or location answers MissingField; a type other than `quote` or `passage` answers InvalidType; a missing source answers 404. Each leaves the store unchanged. Otherwise one extract is appended with the trimmed, non-empty fields. |
| ExtractApi.ListExtracts | server/index.js:351-360 | The listing holds exactly the source's extracts. |
| ExtractApi.ListExtractsOldestFirst | server/index.js:356 | Extracts are listed oldest first. |
| ExtractApi.CapturedListedLast | server/index.js:315-360 | A captured extract comes last in its source's listing. |
| ExtractApi.DeleteExtract | server/index.js:363-372 | The answer is not-found exactly when no extract has the id, and then the store is unchanged. Otherwise exactly that row goes and no other table changes. |
| ExtractApi.DeleteUndoesCapture | server/index.js:315-372 | Deleting a just-captured extract restores every table. Only the used id and clock tick remain. |
| ExtractApi.DeleteExtractTwice | server/index.js:370 | Deleting the same extract again reports not-found. |
| ExtractApi.CaptureValid | server/index.js:315-348 | Capturing preserves the store invariant. |
| ExtractApi.DeleteExtractValid | server/index.js:363-372 | Deleting an extract preserves the store invariant, with evidence keeping its reference. |
| EvidenceApi.CheckExtract | server/index.js:405-418 | The extract lookup passes only for an existing extract of the same source. An unknown id answers InvalidExtract. |
| EvidenceApi.CheckExtractExact | server/index.js:405-418 | When extract ids are unique, the lookup passes exactly for an extract of the same source. It answers InvalidExtract for an unknown id and ExtractSourceMismatch for an extract of another source. |
| EvidenceApi.Record | server/index.js:377-434 | A missing type or a blank field answers MissingField; a type outside the four allowed ones answers InvalidType. A referenced extract with no row of the same source is rejected as a validation error before any insert. A complete, well-typed request that passes the extract check but names a missing source answers 500. Every failure leaves the store unchanged. Success implies an existing source and, when an extract is named, an existing extract of that source. The row stores the trimmed fields and the supplied extract id, or null when none was given. |
| EvidenceApi.RecordExtractCheck | server/index.js:405-423 | Under the invariant, complete evidence for an existing source is recorded exactly when it names no extract or an extract of the same source. A missing extract and one of another source are told apart. |
| EvidenceApi.ListEvidence | server/index.js:437-446 | The listing holds exactly the source's evidence. |
| EvidenceApi.ListEvidenceOldestFirst | server/index.js:442 | Evidence is listed oldest first. |
| EvidenceApi.ListProjectEvidence | server/index.js:449-459 | The aggregate holds exactly the evidence whose source belongs to the project. |
| EvidenceApi.ListProjectEvidenceOldestFirst | server/index.js:455 | The aggregate is listed oldest first. |
| EvidenceApi.ProjectEvidenceDisjoint | server/index.js:449-459 | Under the invariant, no evidence row appears in two projects' aggregates. |
| EvidenceApi.ProjectEvidenceOfSources | server/index.js:437-459 | Each source's evidence appears in its project's aggregate. |
| EvidenceApi.DeleteEvidence | server/index.js:462-471 | The answer is not-found exactly when no evidence row has the id, and then the store is unchanged. Otherwise exactly that row goes and no other table changes. |
| EvidenceApi.ExtractDeleteKeepsEvidence | server/index.js:363-372 | Deleting an extract changes no evidence listing, and the invariant survives. |
| EvidenceApi.DeleteUndoesRecord | server/index.js:377-471 | Deleting just-recorded evidence restores every table. Only the used id and clock tick remain. |
| EvidenceApi.DeleteEvidenceTwice | server/index.js:469 | Deleting the same evidence again reports not-found. |
| EvidenceApi.RecordValid | server/index.js:377-434 | Recording evidence preserves the store invariant, including provenance. |
| EvidenceApi.DeleteEvidenceValid | server/index.js:462-471 | Deleting evidence preserves the store invariant. |
| Lifecycle.DeleteRoundKeepsContent | server/index.js:111-120 | After a round delete, that round lists no sources, other rounds list the same sources, and every source, extract and evidence lookup is unchanged. |
| Lifecycle.ArchivedSourceTakesEvidence | server/index.js:302-310 | Archiving a source does not change whether evidence can be recorded against it. |
| Lifecycle.EndToEnd | server/index.js:50-471 | On an empty store, with the ids the model's shared counter hands out: project 1, round 2; source 3 created from one spelling of a URL and reused for another, linked once; extract 4; evidence 5 promoted from it; the extract deleted. The evidence is still listed, naming extract 4 and holding its own trimmed text. |
| Lifecycle.AcquireBothSpellings | server/index.js:157-225 | Two spellings with one key, acquired for one round: the first call creates the source, and the second reuses it without changing the store. The round then lists one source. |
| Lifecycle.PromoteThenDelete | server/index.js:315-471 | An extract captured, evidence promoted from it and the extract deleted: the evidence survives with its reference. |

## Left out

- The client (`client/src/App.jsx`) is UI code with React state, `fetch` calls and dialogs. Its report export calls an endpoint that has no handler in the server, so there is no aggregator to model.
- Express, helmet, morgan and cors set-up, JSON body parsing, logging and server start-up are I/O plumbing.
- The datastore client is replaced by the abstract store:
  - The errors it can raise on its own (network, permissions, a failed `select`) are not modelled.
  - A `StorageFailure` arises only where the modelled store forces one: a foreign key broken on insert, or a `maybeSingle` lookup that finds several rows.
- The WHATWG URL parser is the `Parser` parameter. Its internals and its notion of `host` (which includes a port) are not modelled.
- `Text.Lower` lower-cases ASCII letters only. `toLowerCase` also maps non-ASCII letters.
- The window between the deduplication lookup and the insert is not modelled, because concurrent requests are out of scope. Every handler runs atomically on the store.
- `Db.Store` hands out ids from one counter shared by all tables. The datastore's serial columns count per table, so on an empty store it would give project 1, round 1 and source 1. The model keeps ids unique within each table, which is all the handlers rely on. The concrete ids in `Lifecycle.EndToEnd` are the model's.
- LinkApi.RoundSources: the per-round select has no ordering, so the program leaves the listing's order unspecified. The model lists sources in link order, and `Lifecycle.DeleteRoundKeepsContent`'s equality of other rounds' listings depends on that choice. Which sources are listed does not depend on it (`LinkApi.RoundSourcesExact`).
- `created_at` is a counter ticked by every insert. `executed_at` is an opaque ordered key, not a parsed date.
- Path parameters and the body's `roundId`, `extract_id` are natural numbers. `parseInt`, numeric strings and `NaN` are not modelled. A JSON value `0` counts as absent (`Db.IdGiven`), as JavaScript truthiness makes it.
- The schema is not part of this model. Its foreign keys, the cascade of a round delete, the default status `active` and the `unique (round_id, source_id)` constraint are assumptions of `Db.Store`.
- Record update of a project (status changes) and deletes of projects and sources have no handlers in the server, so there is nothing to model.
- Lifecycle.EndToEnd: the URL parser's answers for the two spellings are premises (same host up to case, paths differing by one trailing `/`), not facts about concrete URL strings, because the parser is a parameter.
