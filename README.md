# mini-context-sphere, modelled in Dafny

This project models the core of mini-context-sphere, a small pipeline that turns markdown notes into a
typed hypergraph in a SQLite file and answers bounded retrieval queries over it.

**The hypergraph writer** (`writer.dfy`, over the data model in `store.dfy`). A session opens the
database file and creates the four tables. In it, callers upsert:
- nodes and edges;
- hyperedges with their participants.

The session then rebuilds the full-text index and installs the triggers that keep it in step with
`nodes`. It commits on a normal exit and rolls back on an exception.
- Every table is a map from its primary key to the rest of the row.
- The connection's uncommitted view and the committed file are two states of the
  `HypergraphWriter` and `Database` classes.
- The foreign keys and the index's agreement with `nodes` are the invariant that every operation
  keeps.

**The query routine** (`query.dfy`, with SQLite's `LIKE` in `sql_like.dfy`).
- Seed nodes come from the text index; the search falls back to a `LIKE` scan when the index is
  unusable.
- The edges that touch a seed are collected, under a budget.
- The nodes at their far ends are appended.

Whatever SQLite decides and the model leaves open is a parameter, the `Engine`:
- whether FTS5 exists and whether `MATCH` accepts a term;
- which index rows a term matches (`MATCH` searches both the `id` and the `content` column);
- how `data` is serialised;
- the order in which tables are scanned.

**The markdown loader** (`markdown_loader.dfy`). It does three things:
- it splits off a front-matter block;
- it parses `key: value` header lines into metadata;
- it yields one document per file in sorted path order.

**The release scripts** (`release_notes.dfy`, `version_badge.dfy`, `script_version.dfy`).
- Release notes: extract a version's section from a changelog and trim its blank lines.
- Version badge:
  - infer the badge colour from a version string or an override;
  - lay out the badge;
  - prefix the displayed version with `v`.
- Both scripts share how the version argument is resolved.

**The AI backend factory** (`ai_client.dfy`). It picks a backend from a provider name, ignoring case
and surrounding whitespace.

**Shared helpers.** `py_strings.dfy` gives Python's `str` operations their Python meaning:
- `strip`, `lstrip` and `rstrip` over `isspace` whitespace;
- `lower`, `find` and `in`;
- `split` with `maxsplit`, `join` and `splitlines`;
- the order of `<`.

`dicts.dfy` models keyed assignment in order. A run of `d[k] = v` statements and a batch of primary-key
upserts both share it.

`wrappers.dfy` holds `Option` and `Result`.

The code and the design documentation of the repository disagree in places; the model follows the code:
- The design describes ranking neighbour edges by endpoint degree. The code has no ranking: it keeps
  the first `neighbor_budget` edges in scan order (`NeighborEdgeIds`).
- The design describes the fallback search as a substring match. The code uses SQL `LIKE`. That
  folds ASCII case and treats `%` and `_` in the term as wildcards. `LikeContains` shows the two agree
  for a term without wildcards.
- The design says a non-positive limit becomes 10. The code replaces only a missing or zero limit
  (`opts.limit or 10`). A negative limit reaches SQLite, where `LIMIT -1` places no bound
  (`EffectiveLimit`, `Limit`).
- Neighbour expansion tests the budget's truthiness (`neighbor_budget` non-zero), not `> 0`. A
  negative budget expands without bound.

## Model

| member | source | states |
|---|---|---|
| Store.IndexOf | pipeline/hypergraph_writer.py:267-276 | the rebuilt index has exactly one entry per node |
| Store.IndexOfUpdate | pipeline/hypergraph_writer.py:293-302 | changing one node changes its own index entry and no other |
| Store.Database.constructor | pipeline/hypergraph_writer.py:90-137 | a new file holds the four empty tables and no index, and satisfies the integrity invariant |
| Writer.PutNode | pipeline/hypergraph_writer.py:151-162 | a node upsert keeps the foreign keys and the index consistent |
| Writer.PutNodeReplaces | pipeline/hypergraph_writer.py:153-162 | the node's row becomes its type and data; every other node and every other table is unchanged; the node count grows by one exactly when the id was new |
| Writer.PutNodeIdempotent | pipeline/hypergraph_writer.py:155-159 | repeating an identical upsert changes nothing |
| Writer.PutNodes | pipeline/hypergraph_writer.py:187-200 | a node batch keeps the integrity invariant |
| Writer.PutNodesIsAssign | pipeline/hypergraph_writer.py:187-200 | a node batch assigns rows, and index entries when the index exists, in order (last occurrence wins); edges, hyperedges and participants are unchanged |
| Writer.PutNodesSnoc | pipeline/hypergraph_writer.py:191-200 | one more node assigns one more row and index entry |
| Writer.IncrementalIndexIsRebuild | pipeline/hypergraph_writer.py:278-303 | the index the triggers maintain through any node batch equals a full rebuild from the nodes |
| Writer.PutEdge | pipeline/hypergraph_writer.py:164-185 | an edge upsert, refused when an endpoint is missing, keeps the integrity invariant |
| Writer.PutEdges | pipeline/hypergraph_writer.py:202-217 | an edge batch keeps the integrity invariant |
| Writer.FirstDangling | pipeline/hypergraph_writer.py:109-110 | the first edge with a missing endpoint: every earlier edge resolves, and None means all do |
| Writer.PutEdgesIsAssign | pipeline/hypergraph_writer.py:202-217 | a batch succeeds exactly when every endpoint exists, then assigns all edges; otherwise it stops with an integrity error, keeping the edges before the first dangling one and only those |
| Writer.EdgesStoppedBefore | pipeline/hypergraph_writer.py:206-217 | a batch already stopped stays stopped at the same edge |
| Writer.EdgesStopAtLast | pipeline/hypergraph_writer.py:206-217 | a dangling last edge stops the batch after the others are applied |
| Writer.EdgesAllResolved | pipeline/hypergraph_writer.py:206-217 | a resolving last edge is assigned after the others |
| Writer.SelfLoopAccepted | pipeline/hypergraph_writer.py:109-110 | a self-loop on a stored node satisfies both foreign keys and is stored |
| Writer.PutEdgeIdempotent | pipeline/hypergraph_writer.py:176-184 | repeating an accepted edge upsert changes nothing |
| Writer.PutParticipant | pipeline/hypergraph_writer.py:242-250 | one participant upsert keeps the integrity invariant |
| Writer.PutParticipants | pipeline/hypergraph_writer.py:231-250 | a participant batch keeps the integrity invariant |
| Writer.FirstUnresolved | pipeline/hypergraph_writer.py:132-133 | the first participant whose hyperedge or entity is missing; all earlier ones resolve |
| Writer.PutParticipantsIsAssign | pipeline/hypergraph_writer.py:232-250 | participant data is assigned per (hyperedge, entity, role or "", ordinal or 0) key, last occurrence winning, up to the first unresolved participant, which stops the batch with an integrity error |
| Writer.ParticipantsStoppedBefore | pipeline/hypergraph_writer.py:242-250 | a stopped participant batch stays stopped at the same place |
| Writer.ParticipantsStopAtLast | pipeline/hypergraph_writer.py:242-250 | an unresolved last participant stops the batch |
| Writer.ParticipantsAllResolved | pipeline/hypergraph_writer.py:242-250 | a resolving last participant is assigned after the others |
| Writer.PutParticipantsStep | pipeline/hypergraph_writer.py:242-250 | after a prefix that went through, the next participant is one more single upsert |
| Writer.PutHyperedge | pipeline/hypergraph_writer.py:219-250 | a hyperedge upsert keeps the integrity invariant |
| Writer.HyperedgeParticipantsAdditive | pipeline/hypergraph_writer.py:242-250 | re-upserting a hyperedge never deletes a participant row; keys not mentioned keep their data, and each mentioned key holds the data of its last occurrence |
| Writer.ParticipantBatchFacts | pipeline/hypergraph_writer.py:244-247 | the same additive facts for any participant map and batch |
| Writer.HyperedgeAssigns | pipeline/hypergraph_writer.py:219-250 | with every entity stored, the hyperedge upsert succeeds and assigns all its participants |
| Writer.PutHyperedges | pipeline/hypergraph_writer.py:252-254 | a hyperedge batch keeps the integrity invariant |
| Writer.RebuildIndex | pipeline/hypergraph_writer.py:256-312 | after `finalize_fts` the index exists and equals the rebuild from the nodes; no table changes |
| Writer.RebuildThenWrites | pipeline/hypergraph_writer.py:265-303 | after a rebuild, node writes leave an index that a second rebuild would not change |
| Writer.PutEdgesStopsForGood | pipeline/hypergraph_writer.py:206-217 | once an edge batch has stopped, later edges do not run |
| Writer.PutParticipantsStopsForGood | pipeline/hypergraph_writer.py:242-250 | once a participant batch has stopped, later participants do not run |
| Writer.PutHyperedgesStopsForGood | pipeline/hypergraph_writer.py:252-254 | once a hyperedge fails, later hyperedges do not run |
| Writer.HypergraphWriter.constructor | pipeline/hypergraph_writer.py:52-55 | a writer starts with no open connection |
| Writer.HypergraphWriter.Enter | pipeline/hypergraph_writer.py:57-72 | entering opens a connection that sees the committed tables; the invariant is kept |
| Writer.HypergraphWriter.Exit | pipeline/hypergraph_writer.py:74-82 | a normal exit commits the pending tables, an exception discards them; the connection is closed |
| Writer.HypergraphWriter.Conn | pipeline/hypergraph_writer.py:84-88 | the connection property fails with NotInSession exactly when no session is open |
| Writer.HypergraphWriter.UpsertNode | pipeline/hypergraph_writer.py:151-162 | outside a session: NotInSession and no change; inside: the pending tables become `PutNode` of them |
| Writer.HypergraphWriter.UpsertNodes | pipeline/hypergraph_writer.py:187-200 | an empty batch returns at once, even outside a session; otherwise as `PutNodes` |
| Writer.HypergraphWriter.UpsertEdge | pipeline/hypergraph_writer.py:164-185 | outside a session: NotInSession; inside: the outcome and tables of `PutEdge` |
| Writer.HypergraphWriter.UpsertEdges | pipeline/hypergraph_writer.py:202-217 | an empty batch returns at once; otherwise the outcome and tables of `PutEdges` |
| Writer.HypergraphWriter.UpsertHyperedge | pipeline/hypergraph_writer.py:219-250 | the outcome and tables of `PutHyperedge`: the row first, then the participants |
| Writer.HypergraphWriter.UpsertHyperedges | pipeline/hypergraph_writer.py:252-254 | each hyperedge in turn, stopping at the first failure |
| Writer.HypergraphWriter.FinalizeFts | pipeline/hypergraph_writer.py:256-312 | with FTS5 present, rebuilds the index, installs the triggers and commits everything pending; without it, the first statement fails with `OperationalError`, nothing changes and nothing is committed |
| Writer.HypergraphWriter.EnsureIndexes | pipeline/hypergraph_writer.py:139-149 | commits everything pending; the performance indexes change no table |
| Query.Limit | app/query.py:91-111 | `LIMIT n` keeps a prefix: `n` rows at most when `n >= 0`, all rows when negative |
| Query.EffectiveLimit | app/query.py:80 | a missing or zero limit becomes 10; every other limit is kept, negative ones included |
| Query.EnsuredIndex | app/query.py:17-75 | `_ensure_fts` leaves the four tables alone and leaves the index present |
| Query.EnsuredIndexBackfillsOnlyEmpty | app/query.py:61-74 | the backfill runs exactly when the index is missing or empty, and then equals the writer's rebuild; a non-empty index is kept even when stale |
| Query.EnsuredIndexKeepsIntegrity | app/query.py:17-75 | the setup keeps the integrity invariant and is idempotent |
| Query.EnsureFts | app/query.py:17-75 | without FTS5 nothing changes; otherwise the tables become `EnsuredIndex` of them |
| Query.SeedIds | app/query.py:89-111 | seeds are hits (an index hit is judged on the row's `id` and `content` columns); there are at most `limit` of them when the limit is non-negative; every hit is a seed when the limit does not cut; seeds are distinct |
| Query.NeighborEdgeIds | app/query.py:119-129 | returned edges touch a seed; at most `budget` of them when the budget is non-negative; all touching edges when the budget does not cut |
| Query.EdgesOf | app/query.py:131-140 | each returned edge is the stored edge for its id |
| Query.CollectNeighborIds | app/query.py:143-148 | the loop gathers exactly the endpoints of the edges that are not seeds |
| Query.StoredAmong | app/query.py:150-157 | the ids found are exactly the stored ones requested, in scan order, without repeats |
| Query.NeighborIds | app/query.py:142-165 | neighbours are stored, are endpoints of the returned edges, are not seeds, and all such nodes are included |
| Query.AppendStoredNodes | app/query.py:149-165 | the appending loop yields the earlier nodes followed by the stored rows among the requested ids, in scan order |
| Query.AppendedStep | app/query.py:158-165 | one more scanned id appends its row exactly when it is stored and requested |
| Query.Retrieve | app/query.py:113-167 | the seed, edge and neighbour steps compute `Answer` |
| Query.RunQuery | app/query.py:78-169 | the index is used exactly when it can be created and `MATCH` accepts the term; otherwise the LIKE fallback; the tables change only by `_ensure_fts` |
| Query.IdColumnSearched | app/query.py:22-23 | two nodes with the same index content are told apart by the `id` column: a term that `MATCH` finds only in n1's id makes n1 the only seed |
| Query.AnswerSeeds | app/query.py:113-117 | the answer begins with the seeds, all hits, at most `limit` of them when the limit is positive |
| Query.AnswerEdgesTouchSeeds | app/query.py:119-140 | edges appear only when expansion was asked with a non-zero budget and a seed was found; each is a stored edge touching a seed; a positive budget bounds them |
| Query.AnswerNeighbors | app/query.py:142-165 | the nodes after the seeds are exactly the stored non-seed endpoints of the returned edges |
| Query.AnswerDistinct | app/query.py:142-165 | no node appears twice in the answer |
| Query.AnswerShape | app/query.py:114-167 | the answer's node ids are the seeds followed by the neighbours |
| Query.SeedsDistinct | app/query.py:113-117 | seeds are distinct when the scan orders are scans of the tables |
| Query.FallbackSeedsContainTerm | app/query.py:101-111 | for a wildcard-free term and a limit that does not cut, a node is a fallback seed exactly when its serialised data or its type contains the term, ASCII case ignored |
| Query.AliceIsSeed | tests/test_query.py:7-36 | in the two-person example, "Alice" picks n1 as a seed through the index |
| Query.AliceEdge | tests/test_query.py:52-66 | with expansion, the edge e1 from n1 to n2 is returned |
| Query.PeopleScansFit | tests/test_query.py:7-36 | the example's scan orders are scans of its tables once the index is filled |
| Query.AliceNeighbour | tests/test_query.py:52-66 | with expansion, Bob (n2) is in the answer |
| Query.AliceAnswer | tests/test_query.py:52-66 | with expansion, the answer holds n1, n2 and the edge e1 |
| Query.AliceWithNeighbors | tests/test_query.py:52-66 | `run_query` with expansion returns both people and their edge |
| Query.AliceAlone | tests/test_query.py:39-49 | `run_query` without expansion finds n1 and returns no edge |
| SqlLike.LikeContains | app/query.py:107-110 | `LIKE '%term%'` for a wildcard-free term holds exactly when the term occurs, ASCII case folded |
| SqlLike.ContainsIsLike | app/query.py:107-110 | a verbatim occurrence is always found by the fallback |
| MarkdownLoader.FrontMatterShape | pipeline/markdown_loader.py:56-60 | there is front matter exactly when the text opens with "---\n" and "---" occurs again; the text is then `---` header `---` rest, and the header holds no "---" |
| MarkdownLoader.OpeningCut | pipeline/markdown_loader.py:58 | the opening marker is the split's first cut, leaving an empty first part |
| MarkdownLoader.ClosingCut | pipeline/markdown_loader.py:58-60 | the second cut is at the first later "---"; header and rest are what lie around it |
| MarkdownLoader.HeaderEntryIsSplit | pipeline/markdown_loader.py:66-67 | the line is cut at its first ':' exactly as `split(":", 1)` does |
| MarkdownLoader.HeaderEntryShape | pipeline/markdown_loader.py:62-68 | a line contributes an entry exactly when, stripped, it is non-empty, not a comment and holds ':'; the key is stripped and free of ':', the value stripped |
| MarkdownLoader.HeaderEntryRoundTrip | pipeline/markdown_loader.py:62-68 | a line written `key: value` reads back as that key and value |
| MarkdownLoader.HeaderEntryOfStripped | pipeline/markdown_loader.py:63-68 | a stripped line `key:rest` gives the stripped key and the stripped rest |
| MarkdownLoader.HeaderMetadataIsAssign | pipeline/markdown_loader.py:62-68 | metadata is the entries assigned in order: a repeated key keeps its last value |
| MarkdownLoader.HeaderMetadataKeys | pipeline/markdown_loader.py:66-68 | every metadata key is stripped and free of ':' |
| MarkdownLoader.HeaderMetadataStep | pipeline/markdown_loader.py:62-68 | one more line adds its entry, or nothing |
| MarkdownLoader.ParseWithoutFrontMatter | pipeline/markdown_loader.py:51-70 | without complete front matter the metadata is empty and the body is the whole text |
| MarkdownLoader.ParsedKeys | pipeline/markdown_loader.py:62-68 | every key of a parsed document is stripped and free of ':' |
| MarkdownLoader.ParsedBody | pipeline/markdown_loader.py:61 | the body is what follows the closing marker less its leading newlines, and nothing more |
| MarkdownLoader.LoadSingle | pipeline/markdown_loader.py:51-70 | `_load_single` on a file's text builds `ParseDocument` |
| MarkdownLoader.ReadHeader | pipeline/markdown_loader.py:62-68 | the header loop builds `HeaderMetadata` |
| MarkdownLoader.ReadEntry | pipeline/markdown_loader.py:63-68 | the loop body for one line computes `HeaderEntry` |
| MarkdownLoader.PathLessIsStrictTotal | pipeline/markdown_loader.py:42 | the path order is a strict total order |
| MarkdownLoader.Sorted | pipeline/markdown_loader.py:42 | `sorted` of a set lists each element once, in strictly increasing order |
| MarkdownLoader.SortStep | pipeline/markdown_loader.py:42 | appending the least remaining element keeps the list sorted and below the rest |
| MarkdownLoader.IterMarkdown | pipeline/markdown_loader.py:25-48 | a missing root yields nothing; otherwise one document per file, in strictly increasing path order, each parsed by `_load_single` |
| ScriptVersion.ResolveVersionCases | scripts/generate_release_notes.py:59-61 | a non-empty option wins; otherwise the variable without leading `v`s is used, and the script stops exactly when only `v`s or nothing is left |
| ReleaseNotes.HeaderKeyIsSplit | scripts/generate_release_notes.py:25 | the key is `split("[", 1)[1].split("]", 1)[0].strip()`, and the first split always has two parts |
| ReleaseNotes.HeaderKeyRoundTrip | scripts/generate_release_notes.py:18-25 | the header "## [k]..." reads back as `k` for a trimmed `k` without ']' |
| ReleaseNotes.HeaderKeyTrimmed | scripts/generate_release_notes.py:25 | a key is trimmed and holds no ']' |
| ReleaseNotes.SectionBodyExists | scripts/generate_release_notes.py:17-42 | a version has a section exactly when some header names it |
| ReleaseNotes.SectionPlace | scripts/generate_release_notes.py:17-36 | a section starts after the last header naming the version and runs to the next header or the end |
| ReleaseNotes.DropLeading | scripts/generate_release_notes.py:45-46 | what is dropped is blank; what remains is a suffix that does not start blank |
| ReleaseNotes.DropTrailing | scripts/generate_release_notes.py:47-48 | what is dropped is blank; what remains is a prefix that does not end blank |
| ReleaseNotes.DropLeadingStep | scripts/generate_release_notes.py:45-46 | popping one blank front line leads to the same result |
| ReleaseNotes.DropTrailingStep | scripts/generate_release_notes.py:47-48 | popping one blank last line leads to the same result |
| ReleaseNotes.TrimBlankShape | scripts/generate_release_notes.py:44-48 | the trimmed body is one slice of the body with only blank lines around it and no blank line at either end |
| ReleaseNotes.ScanIsScanned | scripts/generate_release_notes.py:17-31 | the scan loop keeps its invariant through every line |
| ReleaseNotes.ScanStep | scripts/generate_release_notes.py:17-31 | one line preserves the scan invariant |
| ReleaseNotes.ScanPlainLine | scripts/generate_release_notes.py:18 | a line that is not a header changes nothing |
| ReleaseNotes.ScanHeaderLine | scripts/generate_release_notes.py:18-31 | a header closes the open section and opens its own |
| ReleaseNotes.HeaderStarts | scripts/generate_release_notes.py:28-30 | each key's start is the line after its last header so far |
| ReleaseNotes.HeaderEnds | scripts/generate_release_notes.py:20-22 | each closed section ends at the next header |
| ReleaseNotes.ClosedSections | scripts/generate_release_notes.py:17-36 | after the loop and the final close, the recorded sections are exactly the declarative sections |
| ReleaseNotes.ClosedOpenSection | scripts/generate_release_notes.py:34-36 | the section open at the end runs to the end of the file |
| ReleaseNotes.ExtractSection | scripts/generate_release_notes.py:9-49 | `extract_section` computes `Extract`: the trimmed section, or VersionNotFound when no header names the version |
| ReleaseNotes.ScanSections | scripts/generate_release_notes.py:17-36 | the loop and the final close compute the closed scan |
| ReleaseNotes.CloseLast | scripts/generate_release_notes.py:34-36 | closing the open section at the end |
| ReleaseNotes.ScanLine | scripts/generate_release_notes.py:18-31 | the loop body for one line |
| ReleaseNotes.PopLeading | scripts/generate_release_notes.py:45-46 | the front-popping loop computes `DropLeading` |
| ReleaseNotes.PopTrailing | scripts/generate_release_notes.py:47-48 | the back-popping loop computes `DropTrailing` |
| ReleaseNotes.RenderNotes | scripts/generate_release_notes.py:64 | the output ends in exactly one newline, with no whitespace before it |
| ReleaseNotes.RenderNotesIsJoin | scripts/generate_release_notes.py:64 | the output is the joined lines less trailing whitespace, plus the newline |
| VersionBadge.MarkerThenDigitsIff | scripts/update_version_badge.py:35-39 | `marker\d*$` holds exactly when the marker occurs with only digits after it |
| VersionBadge.RcSuffixImpliesRc | scripts/update_version_badge.py:39 | the `rc\d*$` test never fires when `"rc" in v` has not |
| VersionBadge.ColourOf | scripts/update_version_badge.py:33-43 | the colour of a version is one of the five release colours |
| VersionBadge.InferColourOfVersion | scripts/update_version_badge.py:33-43 | without an override, the colour is a release colour and depends only on the lower-cased version |
| VersionBadge.InferColourOverride | scripts/update_version_badge.py:23-31 | an override is looked up case-insensitively among the five names, otherwise returned verbatim |
| VersionBadge.InferColourOrder | scripts/update_version_badge.py:33-43 | red exactly when an alpha test passes; orange exactly when none does and a beta test passes; yellow exactly when those fail and a release-candidate test passes; blue exactly when those fail and a development test passes; green exactly when none of the eleven tests passes |
| VersionBadge.BetaIsRed | scripts/update_version_badge.py:35 | "v1.0-beta" comes out red |
| VersionBadge.EndingBetaIsRed | scripts/update_version_badge.py:35 | every version whose letters end in "beta" comes out red |
| VersionBadge.NumberedBetaIsOrange | scripts/update_version_badge.py:37 | "v1.0-beta.1" comes out orange |
| VersionBadge.IntendedColourOf | scripts/update_version_badge.py:13-18 | the corrected colour is a release colour and differs from the original only where the original said red or orange |
| VersionBadge.IntendedInferColour | scripts/update_version_badge.py:10-43 | overrides are as in `infer_color`; without one, a release colour |
| VersionBadge.EndingBetaIsOrange | scripts/update_version_badge.py:15 | under the corrected tests, a version ending in "beta" and naming no alpha is orange |
| VersionBadge.PepAlphaIsRed | scripts/update_version_badge.py:14 | under the corrected tests, a PEP 440 alpha suffix is still red, after a digit or a separator (`1.0a1`, `1.0-a1`, `1.0.a1`) |
| VersionBadge.LayoutWidths | scripts/update_version_badge.py:49-52 | the value side is 64 pixels or 8 per character, whichever is more; the badge is both sides |
| VersionBadge.LayoutMonotone | scripts/update_version_badge.py:51 | a longer version never gives a narrower badge |
| VersionBadge.VersionOutNormalises | scripts/update_version_badge.py:88 | the displayed version starts with `v`, adds at most that `v`, and is a fixed point |
| VersionBadge.BadgeFor | scripts/update_version_badge.py:88-91 | the rendered badge shows the `v`-prefixed version, is wide enough for it, and is filled with the colour `infer_color` gives that text, as written |
| VersionBadge.BadgeForPrefixed | scripts/update_version_badge.py:88 | a version given with or without its `v` renders the same badge |
| VersionBadge.BetaBadgeIsRed | scripts/update_version_badge.py:88-91 | as written, the badge for "1.0-beta" is red |
| VersionBadge.IntendedBadgeFor | scripts/update_version_badge.py:13-18 | the badge with the corrected tests differs from `main`'s only in its fill, and not at all under an override |
| VersionBadge.IntendedBetaBadgeIsOrange | scripts/update_version_badge.py:15 | with the corrected tests, the badge for "1.0-beta" is orange |
| AiClient.BuildBackend | pipeline/ai_client.py:62-81 | the no-op backend exactly when the normalised name is not a provider; each provider name gives its backend carrying the model |
| AiClient.Complete | pipeline/ai_client.py:17-59 | every backend fails; the no-op one exactly with the not-configured error |
| AiClient.PaddingIgnored | pipeline/ai_client.py:68 | whitespace around the provider name does not change the backend |
| AiClient.CaseIgnored | pipeline/ai_client.py:68 | letter case of the provider name does not change the backend |
| AiClient.NoProviderIsNoop | pipeline/ai_client.py:68-72 | a missing or empty provider gives the no-op backend, whose `complete` fails |
| AiClient.NormalName | pipeline/ai_client.py:68 | a trimmed lower-case name is its own normal form |
| AiClient.NoneIsNoop | tests/test_ai_client.py:11-15 | "none" gives the no-op backend |
| AiClient.OpenAiExample | tests/test_ai_client.py:18-20 | "openai" gives the OpenAI backend |
| AiClient.GeminiExample | tests/test_ai_client.py:23-25 | "gemini" gives the Gemini backend |
| AiClient.OllamaExample | tests/test_ai_client.py:28-30 | "ollama" gives the Ollama backend |
| AiClient.UnknownIsNoop | tests/test_ai_client.py:33-36 | an unknown name falls back to the no-op backend |
| Dicts.AssignLastWins | pipeline/markdown_loader.py:68 | after assignments in order, the keys are the old ones plus the batch's; a batch key holds its last value; other keys keep theirs |
| Dicts.AssignTwice | pipeline/hypergraph_writer.py:191-200 | repeating a batch of upserts changes nothing |
| PyStrings.Strip | pipeline/markdown_loader.py:63 | `strip()` returns a string with no whitespace at either end, no longer than its input |
| PyStrings.StripIsSlice | pipeline/markdown_loader.py:63 | `strip()` keeps one slice of its input and removes only whitespace around it |
| PyStrings.StripIdempotent | pipeline/markdown_loader.py:63 | stripping twice is stripping once |
| PyStrings.StripNoop | pipeline/markdown_loader.py:63 | `strip()` leaves a string alone exactly when it is trimmed |
| PyStrings.StripLower | pipeline/ai_client.py:68 | stripping and lower-casing commute |
| PyStrings.LStrip | pipeline/markdown_loader.py:61 | `lstrip(chars)` drops the longest prefix of those characters |
| PyStrings.RStrip | scripts/generate_release_notes.py:64 | `rstrip()` drops the longest suffix of whitespace |
| PyStrings.Lower | pipeline/ai_client.py:68 | `lower()` maps each character on its own, keeping the length |
| PyStrings.Split | pipeline/markdown_loader.py:58 | `split(sep, n)` gives at most n+1 parts that join back to the input; each cut is at the leftmost occurrence (no occurrence starts inside a part before its cut); fewer than n cuts leave no separator in the last part |
| PyStrings.SplitOverlapping | pipeline/markdown_loader.py:58 | with overlapping occurrences the cut is at the leftmost one: "a----b" on "---" gives "a" and "-b" |
| PyStrings.SplitAtChar | pipeline/markdown_loader.py:67 | `split(c, 1)` cuts at the first `c`, or returns the whole string |
| PyStrings.SplitLines | scripts/generate_release_notes.py:10 | `splitlines()` gives lines without line breaks, and none for empty text |
| PyStrings.SplitLinesJoin | scripts/generate_release_notes.py:10 | splitting lines joined with "\n" gives them back |
| PyStrings.StrLessIsStrictTotal | pipeline/markdown_loader.py:42 | `<` on strings is a strict total order |
| PyStrings.LexOrder | pipeline/markdown_loader.py:42 | the lexicographic extension of a strict total order is one |
| PyStrings.LeastExists | pipeline/markdown_loader.py:42 | a finite non-empty set under a strict total order has a least element |

## Findings

| source | as written | input that shows it | evidently intended | confidence | as-written member | corrected member |
|---|---|---|---|---|---|---|
| scripts/update_version_badge.py:35 | the alpha test `re.search(r"a\d*$", v)` matches any version whose last letter is `a`, so it fires for every version ending in "beta" | `infer_color("v1.0-beta")` gives red (#e05d44) | the docstring maps beta to orange and means the PEP 440 `aN` suffix, which follows a digit or a separator (`1.0a1`, `1.0-a1`) and not a letter: `(?<![a-z])a\d*$` | high (not executed) | VersionBadge.EndingBetaIsRed | VersionBadge.EndingBetaIsOrange |

The corrected tests are `IntendedColourOf` and `IntendedInferColour`, and `IntendedBadgeFor` is the
badge they give. `ColourOf`, `InferColour` and `BadgeFor` (what `main` renders) remain as written.
`BetaIsRed` and `BetaBadgeIsRed` give the concrete input, and `IntendedBetaBadgeIsOrange` the
corrected result for it. `PepAlphaIsRed` shows that the correction keeps the PEP 440 alpha suffix red,
with or without a separator. The `b\d*$` test has the same shape, and the correction anchors it in the
same way.

## Left out

- SQL itself is not modelled. This covers statement text, parameter binding, `PRAGMA`s, cursors,
  `executemany` batching and row factories. Each statement is a function on the tables.
- `build_mode` is left out. Its only effects are journal and synchronous `PRAGMA`s and
  performance indexes, none of them visible in the tables.
- `ensure_indexes` creates performance indexes only. It is modelled as a commit.
- Whether the SQLite build has FTS5 is a parameter of `FinalizeFts`, as it is an `Engine` flag of the
  query routine.
- JSON is not modelled. `json_dumps`, SQLite's `json()` and `json.loads` are left abstract: `data` is a
  map, its serialisation an `Engine` parameter, and `json_extract` text a `Value`.
- FTS5 is not modelled:
  - its tokenizer and porter stemming;
  - its `MATCH` query syntax;
  - its relevance order.
  `MATCH` acceptance and matching are `Engine` predicates, and result order is an `Engine` scan order.
- Which database errors `_ensure_fts` and `MATCH` raise is an `Engine` flag and predicate. A `MATCH`
  error is read as the fallback case; the source then runs the fallback statement on the same cursor.
- `ON DELETE CASCADE` is not modelled: nothing in the core deletes nodes. The `nodes_ad` trigger exists
  only as part of `fts.Some?`.
- Logging is left out, and so are `logger` calls and their `extra` fields.
- File I/O is left to callers:
  - `read_text` of markdown files and the changelog;
  - the directory walk `rglob("*.md")`, taken as a map from paths to texts;
  - writing the badge SVG;
  - writing or printing release notes.
- `argparse` and `os.getenv` are parameters. `ResolveVersion` takes the option and the variable as
  `Option`s.
- `render_svg`'s SVG text is left out: the model keeps only the sizes, the fill and the shown version
  (`Layout`). Its float text positions (`:.1f`) are left out too.
- The `--out` default path and the "changed or not" comparison of `main` in `update_version_badge.py`
  are I/O and are left out.
- The `order` list in `extract_section` is appended to and never read. It is left out.
- The `except Exception: continue` branch in `extract_section` cannot run: a line that starts with
  "## [" always splits into two parts at "[", as `HeaderKeyIsSplit` states.
- `AiClient.Complete`: the three provider stubs raise `NotImplementedError` and are modelled as that
  error. There is no SDK behind them.
- `PyStrings.Lower` folds only ASCII letters, while Python's `lower()` is Unicode. Only two non-ASCII
  characters lower to something containing an ASCII letter:
  - KELVIN SIGN lowers to 'k', and no name or marker the core compares against contains a 'k';
  - LATIN CAPITAL LETTER I WITH DOT ABOVE lowers to 'i' followed by a combining dot, which no name or
    marker contains.
  So neither changes the outcome of any comparison.
- `\d` in the badge's patterns is ASCII digits only. Python's `re` also accepts other Unicode decimal
  digits.
- Concurrency is not modelled: several connections or processes on one file, and SQLite locking.
