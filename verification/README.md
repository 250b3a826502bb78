# Agentic RAG chatbot: the decision and consistency logic, in Dafny

This project models the deterministic core of a retrieval-augmented chatbot
that answers questions about uploaded PDF papers and keeps a markdown memory
of facts about the user and the company. Every call into a language model,
the vector store or the JSON library is an input of the model, so what
remains is the logic around those calls:

- **Ingestion** (`Chunker`). Each chunk's elements are split into text,
  table HTML and image payloads, with the sorted list of content types. A
  chunk gets an AI summary as its indexed text only when it kept a table or
  an image. A failed or empty summary falls back to the raw text. Chunks are
  numbered from 1.
- **Context formatting** (`Retriever`). The retrieved documents become
  numbered blocks. Each block is headed by a citation marker
  `[Source: name, Chunk n]`, and a document's tables are appended to its
  block.
- **Answer post-processing** (`Marker`, `Scan`, `Generator`).
  - The markers in the model's reply are found with Python `re.findall`
    semantics.
  - They are deduplicated by (stripped name, chunk number) in first-seen
    order, and each one is resolved to a 200-character snippet of the first
    document it names.
  - The reply is shown with one left-to-right pass of `re.sub` applied:
    the leftmost non-overlapping spans of a whitespace run followed by a
    marker are cut out and every other character is kept, in order. One
    pass is all the code does, so a marker that the cut splices together
    from the pieces around a removed span stays in the answer.
  - `RoundTrip` proves that the header the formatter writes is read back by
    the extractor as the document's key.
- **Routing** (`Router`). The classifier's reply is decoded into
  `document_search`, `memory_lookup` or `general`, with a downgrade when no
  documents are loaded and `general` as the fallback. The iteration order
  of the route set is a parameter.
- **Memory** (`MemoryExtractor`, `MemoryManager`, `MemoryWriter`,
  `BulletReader`).
  - The curator's JSON reply is unfenced and decoded, with defaults and
    fail-to-default.
  - A confidence gate decides whether to write. The facts fan out to two
    files, each modelled as `Option<string>`, with case-insensitive
    deduplication and append-only writes.
  - The bullet reader of the sanity script serves as the oracle for a
    write/read round trip.

`Common` (Option, Python float), `Text` (strip, lower, substring, join,
decimal digits), `Seqs` (filter, map, and the one-pass loop that builds a
value per element and records the selected positions) and `Documents` (the retrieved
document and its metadata) are shared.

Facts about the code the model keeps:
- Append mode creates a missing memory file, and the new file holds only
  the appended block.
- The code neither checks nor clamps the confidence, so the model allows
  any Python float, infinities and NaN included.
- The docstring of `process_memory` (src/app/memory/memory_manager.py:29)
  states the gate as `confidence >= threshold`, while the code skips when
  `confidence < threshold`. The two differ on NaN (see Findings).
- Files are read in text mode, so `read_memory` turns `"\r\n"` and a lone
  `"\r"` into `"\n"`. Writes are modelled as on POSIX, where text mode
  writes every character as it is.

## Model

| member | source | states |
|---|---|---|
| Scan.FindAllIsLeftmost | src/app/generation/generator.py:35 | the scan returns matches that are each the pattern's match at its start, in text order, non-overlapping, with no match starting in a gap |
| Scan.LeftmostIsFindAll | src/app/generation/generator.py:35 | any sequence of matches with those three properties is the scan's result, so `findall` is determined by the matcher |
| Scan.FindAllEmptyIff | src/app/generation/generator.py:35 | `findall` returns nothing exactly when the pattern matches at no position |
| Scan.FindAllSkipTo | src/app/generation/generator.py:35 | positions where nothing matches are passed over, and the first match found opens the result, with the scan resuming at its end |
| Scan.CutOut | src/app/generation/generator.py:99 | `re.sub` with an empty replacement never lengthens the text, and with no span leaves it unchanged |
| Scan.CutOutLength | src/app/generation/generator.py:99 | the text loses exactly as many characters as the removed spans cover |
| Scan.CutOutKeepsUncovered | src/app/generation/generator.py:99 | what the substitution leaves is exactly the characters no removed span covers, in their order, and nothing else |
| Marker.TailAtSound | src/app/generation/generator.py:34 | what the tail matcher finds is in the language `,\s*Chunk\s*\d+\]` |
| Marker.TailUnique | src/app/generation/generator.py:34 | the tail `,\s*Chunk\s*\d+\]` can match at a position in only one way, capturing the whole digit run |
| Marker.Lazy | src/app/generation/generator.py:34 | the lazy name group takes the shortest name that is followed by a tail and never crosses a line feed |
| Marker.GreedyFirst | src/app/generation/generator.py:34 | the greedy `\s*` after `[Source:` prefers the most leading whitespace, then the shortest name, and misses no candidate |
| Marker.ChoiceSpec | src/app/generation/generator.py:34 | the pattern matches at a position exactly when some candidate exists there, and picks the backtracking engine's first candidate |
| Marker.ChosenUnique | src/app/generation/generator.py:34 | the engine's preferred candidate at a position is unique |
| Marker.ChosenIsMatch | src/app/generation/generator.py:34 | the match at a position is the preferred candidate's span with its name and digit groups |
| Marker.MatchAt | src/app/generation/generator.py:34 | a match starts where it is tried, is non-empty, stays in the text, and captures only digits in the chunk group |
| Marker.NoBracketNoMatch | src/app/generation/generator.py:34 | no marker starts anywhere but at a `[` |
| Marker.FindMarkersSpec | src/app/generation/generator.py:34-35 | `re.findall` with the citation pattern returns exactly the leftmost non-overlapping marker matches |
| Marker.FindMarkersFirst | src/app/generation/generator.py:34-35 | with no `[` before a marker, that marker is the first one found |
| Marker.StripMatchSpec | src/app/generation/generator.py:99 | the stripping pattern matches at a position exactly when a marker follows the whole whitespace run there, and the span runs from the position to the marker's end |
| Marker.StripSpans | src/app/generation/generator.py:99 | the spans `re.sub` removes are the leftmost non-overlapping matches of the stripping pattern |
| Marker.FindMarkers | src/app/generation/generator.py:34-35 | `re.findall` with the citation pattern; its partner `FindMarkersSpec` proves it returns the leftmost non-overlapping marker matches and is the only such sequence |
| Marker.RemoveMarkers | src/app/generation/generator.py:99 | the substitution of the stripping pattern; its partners `RemoveMarkersKeeps` and `NoMarkerNoRemoval` state what it keeps |
| Marker.RemoveMarkersKeeps | src/app/generation/generator.py:99 | the displayed reply keeps exactly the characters outside the leftmost stripping-pattern spans, in order |
| Marker.NoMarkerNoRemoval | src/app/generation/generator.py:99 | a reply in which `findall` finds no marker is not changed by the substitution |
| Generator.MarkerKeyOfMatch | src/app/generation/generator.py:40-41 | the key of the j-th marker match is its name group stripped and the integer value of its digit group |
| Generator.MarkerKeysCount | src/app/generation/generator.py:35-41 | one key per marker match |
| Generator.KeyOf | src/app/generation/generator.py:41 | the `(source.strip(), int(chunk))` key of a match; `MarkerKeyOfMatch` and `RoundTrip.HeaderKey` state what it yields for a match and for a header |
| Generator.Dedup | src/app/generation/generator.py:37-44 | first-seen deduplication never lengthens its input; `DedupElems`, `DedupDistinct` and `DedupFirstSeenOrder` pin down the rest |
| Generator.DedupElems | src/app/generation/generator.py:37-44 | first-seen deduplication keeps exactly the elements of its input |
| Generator.DedupDistinct | src/app/generation/generator.py:37-44 | first-seen deduplication leaves no repeats |
| Generator.DedupFirstSeenOrder | src/app/generation/generator.py:37-44 | the kept elements are listed in the order of their first occurrences |
| Generator.DedupRepeat | src/app/generation/generator.py:42-43 | a repeated key is dropped: `[a, b, a]` gives `[a, b]` and `[a, a]` gives `[a]` |
| Generator.FirstIndex | src/app/generation/generator.py:42-44 | the position of the first occurrence holds the element, and no earlier position does |
| Generator.Snippet | src/app/generation/generator.py:46-52 | a snippet has at most 200 characters |
| Generator.SnippetSpec | src/app/generation/generator.py:46-52 | the snippet is the first 200 characters of the first document, in list order, whose source and chunk id equal the key, and is empty when none does |
| Generator.CitationsOf | src/app/generation/generator.py:37-58 | one citation per distinct key |
| Generator.CiteKeys | src/app/generation/generator.py:37-60 | the loop with its `seen` set computes the citations of the first-seen distinct keys |
| Generator.ExtractCitations | src/app/generation/generator.py:34-60 | `_extract_citations` returns the citations of the reply's marker keys |
| Generator.CitedKeysDedup | src/app/generation/generator.py:37-58 | the cited keys are the keys deduplicated: each key once, pairwise distinct, first-seen order, no more than the keys, and none exactly when there are no keys |
| Generator.CitationsOfReply | src/app/generation/generator.py:34-58 | for a reply, the cited keys are its marker keys deduplicated, no more than the marker matches, and a reply without markers has no citations |
| Generator.CitationSnippets | src/app/generation/generator.py:46-57 | each citation's snippet comes from the first context document naming its key, or is empty |
| Generator.SourcesSpec | src/app/generation/generator.py:96 | a source is used exactly when some citation names it, and none is used exactly when there are no citations |
| Generator.SourcesOfKeys | src/app/generation/generator.py:96 | the sources of the citations are the sources named by the keys |
| Generator.Sources | src/app/generation/generator.py:96 | the set of cited sources; `SourcesSpec` proves a source is in it exactly when a citation names it |
| Generator.SourcesUsed | src/app/generation/generator.py:95-96 | `sources_used` is the set of stripped marker names in the reply and is empty exactly when there are no citations |
| Generator.GenerateAnswer | src/app/generation/generator.py:99-100 | the displayed answer has no leading or trailing whitespace |
| Generator.NoMarkerAnswer | src/app/generation/generator.py:95-111 | a reply without markers is shown stripped and otherwise unchanged, with no citations and no sources |
| Retriever.TableLines | src/app/retrieval/retriever.py:81-83 | one line per table, the j-th being `Table j+1: t` |
| Retriever.Blocks | src/app/retrieval/retriever.py:66-87 | one block per document, in input order, numbered from 1 |
| Retriever.Header | src/app/retrieval/retriever.py:72 | the citation header `[Source: s, Chunk c]`; `RoundTrip.HeaderMatchKey` proves the marker pattern reads it back as the key `(s stripped, c)` |
| Retriever.Content | src/app/retrieval/retriever.py:73-83 | the page content, then the tables when any decode; `ContentStartsWithPage`, `ContentIsPageIff` and `ContentWithTables` state its shape |
| Retriever.Block | src/app/retrieval/retriever.py:66-87 | one document's block; `HeaderInBlock` and `PageInBlock` prove it holds the header and the page content |
| Retriever.FormatContext | src/app/retrieval/retriever.py:48-89 | `format_context`; `FormatContextEmptyIff`, `FormatContextStartsWithFirstBlock` and `FormatContextHasEveryBlock` state what it produces |
| Retriever.FormatContextEmptyIff | src/app/retrieval/retriever.py:61-62 | the placeholder text is produced exactly for an empty document list |
| Retriever.FormatContextStartsWithFirstBlock | src/app/retrieval/retriever.py:64-89 | the context starts with the first document's block |
| Retriever.FormatContextHasEveryBlock | src/app/retrieval/retriever.py:64-89 | every document's block, header and page content occur in the context |
| Retriever.HeaderInBlock | src/app/retrieval/retriever.py:72-87 | each block holds its document's citation header |
| Retriever.PageInBlock | src/app/retrieval/retriever.py:73-87 | each block holds its document's page content |
| Retriever.ContentStartsWithPage | src/app/retrieval/retriever.py:73-83 | a block's content starts with the page content |
| Retriever.ContentIsPageIff | src/app/retrieval/retriever.py:76-83 | the content is just the page content exactly when there is no table list to append |
| Retriever.ContentWithTables | src/app/retrieval/retriever.py:80-83 | with tables, the content is the page content, the `TABLES:` heading and the numbered table lines, each of which it contains |
| Retriever.UndecodableKeepsPage | src/app/retrieval/retriever.py:76-85 | an undecodable or missing `original_content`, or `has_tables` unset, leaves the content equal to the page content |
| Retriever.MissingLabels | src/app/retrieval/retriever.py:67-68 | a missing source reads as `unknown` and a missing chunk id as `?` |
| Retriever.SingleDocExample | src/app/retrieval/retriever.py:66-89 | one labelled document gives exactly `--- Document 1 ---`, its header and its content |
| RoundTrip.PlainSourceSplit | src/app/generation/generator.py:41 | a source name splits into the leading whitespace and the rest that `lstrip` keeps |
| RoundTrip.HeaderTail | src/app/generation/generator.py:34 | after the source name of a header, the tail matches and captures the chunk digits |
| RoundTrip.HeaderCandidate | src/app/generation/generator.py:34 | a header is a candidate match, with its whole leading whitespace and the rest of the name as the group |
| RoundTrip.HeaderBest | src/app/generation/generator.py:34 | no candidate beats the header's, because the name holds no comma |
| RoundTrip.HeaderMatch | src/app/generation/generator.py:34 | the pattern at a header matches the whole header, capturing the name without its leading whitespace and the chunk digits |
| RoundTrip.HeaderKey | src/app/generation/generator.py:41 | the key read from a header is the stripped source name and the chunk number |
| RoundTrip.HeaderMatchKey | src/app/retrieval/retriever.py:72 | the match at a header spans it and yields the key of the source and chunk the formatter wrote |
| RoundTrip.FirstKeyAt | src/app/generation/generator.py:34-44 | a header with no `[` before it gives the first key; when it ends the text, the only citation |
| RoundTrip.FirstKeyIsHeader | src/app/generation/generator.py:34-41 | whatever follows it, a header after `[`-free text gives the first key read |
| RoundTrip.HeaderAloneCitation | src/app/retrieval/retriever.py:72 | a reply that is a header alone yields exactly one citation, for the stripped source and the chunk number |
| RoundTrip.ContextFirstKey | src/app/retrieval/retriever.py:66-87 | the first key read from a formatted context is the first document's source and chunk |
| RoundTrip.QuotedHeaderCitesDocument | src/app/generation/generator.py:34-58 | a reply quoting a document's header cites that document with its snippet |
| Router.Downgrade | src/app/routing/router.py:59-61 | only `document_search` is changed, to `general`, and `document_search` survives only with a vector store |
| Router.FirstWhere | src/app/routing/router.py:56-57 | the search finds a route of the order that satisfies the test, or none exactly when no route does |
| Router.FirstWhereAt | src/app/routing/router.py:56-63 | the search stops at the first route in the order whose name occurs |
| Router.FirstWhereOnly | src/app/routing/router.py:56-63 | when exactly one route qualifies, every order finds it |
| Router.Decide | src/app/routing/router.py:56-67 | no `document_search` without a vector store, and a route other than `general` is named in the reply |
| Router.DecideSpec | src/app/routing/router.py:56-67 | the result is the downgraded first route of the order whose name occurs, or `general` when none does |
| Router.RouteQuery | src/app/routing/router.py:49-71 | a failed model call gives `general`; no `document_search` without a vector store; a non-`general` route is named in the normalised reply |
| Router.DecodeRoute | src/app/routing/router.py:53-67 | the loop that returns from inside computes the route |
| Router.NoNameIsGeneral | src/app/routing/router.py:65-67 | a reply naming no route decodes to `general` |
| Router.OneNameAnyOrder | src/app/routing/router.py:56-63 | when exactly one name occurs, the result is that route, downgraded when needed, for every iteration order |
| Router.UpperCaseReply | src/app/routing/router.py:53 | `DOCUMENT_SEARCH` decodes to `document_search`, or to `general` without a vector store |
| Router.PaddedReply | src/app/routing/router.py:53 | surrounding whitespace is ignored: a padded `memory_lookup` decodes to `memory_lookup` |
| Router.InvalidReply | src/app/routing/router.py:65-67 | `invalid_route_name` decodes to `general` |
| Router.Normalise | src/app/routing/router.py:53 | `strip().lower()` of the reply; `UpperCaseReply` and `PaddedReply` show case and padding are ignored |
| MemoryWriter.NewFacts | src/app/memory/memory_writer.py:74 | no more facts are kept than given |
| MemoryWriter.NewFactsSpec | src/app/memory/memory_writer.py:74 | the facts kept are exactly those that are non-blank and not yet in the file, one per such position |
| MemoryWriter.ReadMemory | src/app/memory/memory_writer.py:15-28 | a missing file reads as empty; a present one reads back no longer than stored, with no carriage return left, and unchanged when it holds none; `NewlinesPrefix` and `NewlinesAppend` state how an append changes what is read |
| MemoryWriter.NewlinesPlain | src/app/memory/memory_writer.py:27-28 | text without a carriage return reads back unchanged |
| MemoryWriter.NewlinesPrefix | src/app/memory/memory_writer.py:27-28 | appending to a file only extends what is read from it: the old reading is a prefix of the new one |
| MemoryWriter.ReadKeepsInfix | src/app/memory/memory_writer.py:27-28 | a piece without carriage returns that does not start with a line feed is still found in what is read back |
| MemoryWriter.IsDuplicate | src/app/memory/memory_writer.py:31-44 | the case-insensitive substring test; `PresentStaysPresent`, `AllPresentAfter` and `CarriageReturnNeverDuplicate` state when it holds |
| MemoryWriter.SessionHeader | src/app/memory/memory_writer.py:81-82 | the default header; `BulletReader.SessionHeaderNotBullet` proves it is never read back as a fact |
| MemoryWriter.EntryHeader | src/app/memory/memory_writer.py:81-82 | the given header, or the session header when it is empty; `BulletReader.BlockLines` places it on the block's second line |
| MemoryWriter.Block | src/app/memory/memory_writer.py:84-90 | the text appended; `BulletReader.BlockLines` states its lines and `BulletReader.BlockReadBack` that it reads back as the facts |
| MemoryWriter.Bullets | src/app/memory/memory_writer.py:85-86 | one bullet `- f` per kept fact, in order |
| MemoryWriter.AppendFacts | src/app/memory/memory_writer.py:47-93 | the count is at most the number of facts; an empty list or a count of 0 leaves the file unchanged; otherwise the old contents are a prefix of the new file |
| MemoryWriter.AppendFactsSpec | src/app/memory/memory_writer.py:71-93 | the count is the number of non-blank facts not found in what was read, and the new file is the old raw contents followed by their block |
| MemoryWriter.AppendNothing | src/app/memory/memory_writer.py:68-69 | no facts: count 0, file unchanged, a missing file stays missing |
| MemoryWriter.BlockHasFact | src/app/memory/memory_writer.py:84-87 | every kept fact occurs in the appended block |
| MemoryWriter.AllPresentAfter | src/app/memory/memory_writer.py:44-90 | after an append every fact of the batch that holds no carriage return counts as a duplicate |
| MemoryWriter.PresentStaysPresent | src/app/memory/memory_writer.py:44 | a fact present before an append is present after it |
| MemoryWriter.AppendTwice | src/app/memory/memory_writer.py:68-93 | appending the same facts again, none holding a carriage return, writes nothing and leaves the file as it was |
| MemoryWriter.CarriageReturnNeverDuplicate | src/app/memory/memory_writer.py:27-44 | a fact whose stripped form holds a carriage return is never found in what is read back, so it is never a duplicate |
| MemoryWriter.CarriageReturnWrittenAgain | src/app/memory/memory_writer.py:27-93 | `"a\rb"` is written by one call and written again by the next |
| MemoryWriter.AppendOne | src/app/memory/memory_writer.py:74-93 | a single fact that is non-blank and not yet present is written |
| MemoryWriter.BatchDuplicatesWritten | src/app/memory/memory_writer.py:74 | two equal new facts in one batch are both written |
| BulletReader.FirstBreak | scripts/run_sanity.py:189 | the first line boundary at or after a position, with no boundary before it |
| BulletReader.SplitLines | scripts/run_sanity.py:189 | `splitlines`; `SplitTerminated` proves it gives back the lines of line-terminated text |
| BulletReader.ReadLine | scripts/run_sanity.py:190-195 | a line yields one fact exactly when it is a bullet once stripped |
| BulletReader.StripAll | scripts/run_sanity.py:194 | each fact stripped, in order |
| BulletReader.SplitTerminated | scripts/run_sanity.py:189 | `splitlines` of line-terminated text gives back its lines when none holds a boundary |
| BulletReader.JoinTerminated | src/app/memory/memory_writer.py:87-90 | joining with a trailing empty part ends every part with a line feed |
| BulletReader.BlockLines | src/app/memory/memory_writer.py:84-90 | the block is two empty lines, the header, an empty line and the bullets, each line-terminated |
| BulletReader.ReadBullet | scripts/run_sanity.py:190-194 | a bullet for a non-blank fact reads back as the stripped fact |
| BulletReader.ReadLinesAppend | scripts/run_sanity.py:189-195 | the facts of two runs of lines are the facts of each, in order |
| BulletReader.BulletsReadBack | scripts/run_sanity.py:189-195 | the bullet lines read back as the stripped facts, in order |
| BulletReader.NonBulletsReadNothing | scripts/run_sanity.py:191 | lines none of which is a bullet contribute no fact |
| BulletReader.HeadNotBullet | scripts/run_sanity.py:190-191 | a line starting with neither whitespace nor `-` is not a bullet |
| BulletReader.SessionHeaderNotBullet | src/app/memory/memory_writer.py:82 | the default session header is not read as a bullet |
| BulletReader.BlockReadBack | scripts/run_sanity.py:189-203 | reading a written block back gives exactly the facts written, stripped and in order |
| BulletReader.AppendReadBack | src/app/memory/memory_writer.py:84-90 | after a write, the appended text reads back as the kept facts, stripped and in order |
| MemoryExtractor.FirstIndexOf | src/app/memory/memory_extractor.py:68 | the first position of a character, or none when it does not occur |
| MemoryExtractor.LastIndexOf | src/app/memory/memory_extractor.py:69 | the last occurrence of the fence, or none exactly when it does not occur |
| MemoryExtractor.AfterFirstLine | src/app/memory/memory_extractor.py:68 | what `split("\n", 1)[-1]` keeps is a suffix |
| MemoryExtractor.BeforeLastFence | src/app/memory/memory_extractor.py:69 | what `rsplit("```", 1)[0]` keeps is a prefix |
| MemoryExtractor.Unfence | src/app/memory/memory_extractor.py:67-70 | unfenced text passes unchanged; fenced text becomes a stripped piece of the reply |
| MemoryExtractor.FirstLineDropped | src/app/memory/memory_extractor.py:68 | the split drops the first line through its line feed |
| MemoryExtractor.LastFenceAtEnd | src/app/memory/memory_extractor.py:69 | a closing fence at the end is the one cut off |
| MemoryExtractor.FenceRoundTrip | src/app/memory/memory_extractor.py:67-70 | a body between an opening fence line and a closing fence comes back stripped |
| MemoryExtractor.FromParsed | src/app/memory/memory_extractor.py:72-95 | a non-object or an unconvertible confidence gives the default decision; otherwise present fields are copied and missing ones take their defaults |
| MemoryExtractor.DecisionRoundTrip | src/app/memory/memory_extractor.py:74-79 | an object with all four fields decodes to exactly those fields |
| MemoryExtractor.ExtractMemory | src/app/memory/memory_extractor.py:60-95 | a failed call or a reply that does not decode to an object gives the default decision; an unfenced reply reaches the decoder stripped |
| MemoryExtractor.FencedReply | src/app/memory/memory_extractor.py:64-72 | a reply fenced as `json` reaches the decoder as its body, stripped |
| MemoryManager.WriteBoth | src/app/memory/memory_manager.py:66-78 | each store is written exactly when its list is non-empty, at most twice in all; `memory_saved` holds iff a count is positive; counts are bounded by the lists |
| MemoryManager.Skipped | src/app/memory/memory_manager.py:50-64 | a skipped turn changes no store, makes no call and reports counts 0 and the decision's confidence |
| MemoryManager.ProcessMemoryAsWritten | src/app/memory/memory_manager.py:50-85 | with the strict `<` gate: a skipped turn writes nothing and reports counts 0; any write means saving was asked and the confidence is not below the threshold; `memory_saved` iff a count is positive; counts bounded by the lists; confidence reported |
| MemoryManager.ProcessMemory | src/app/memory/memory_manager.py:19-85 | nothing is written unless saving is asked and the confidence is at least the threshold; `memory_saved` iff a count is positive; counts bounded; confidence reported |
| MemoryManager.ProcessTurn | src/app/memory/memory_manager.py:48-85 | the turn with the strict `<` gate of line 58: a failed extraction call reports nothing saved, confidence 0.0 and no write |
| MemoryManager.ProcessTurnCorrected | src/app/memory/memory_manager.py:24-31 | the turn with the documented `>=` gate: a failed extraction call reports nothing saved, confidence 0.0 and no write |
| MemoryManager.TurnGates | src/app/memory/memory_manager.py:50-66 | a turn writes only when the curator asked to save and the confidence is not below the threshold; with the documented gate, only when it is at least the threshold |
| MemoryManager.TurnsAgree | src/app/memory/memory_manager.py:58 | the turn as written and the corrected turn are equal whenever the extracted confidence is not NaN |
| MemoryManager.GateBoundary | src/app/memory/memory_manager.py:58-78 | a confidence equal to the threshold writes a new fact under both gates, and one below it writes nothing |
| MemoryManager.OneFactSaved | src/app/memory/memory_manager.py:58-78 | one new user fact with confidence 0.9 over an empty store is written and the turn reports it saved |
| MemoryManager.PassedWrites | src/app/memory/memory_manager.py:66-74 | after the gate, each store gets what the writer makes of its own list and each count is the writer's return value |
| MemoryManager.StoresIsolated | src/app/memory/memory_manager.py:66-74 | each store and its count depend only on its own list and its own file |
| MemoryManager.EmptyListUntouched | src/app/memory/memory_manager.py:66-74 | an empty list makes no writer call and leaves its store and count alone |
| MemoryManager.WriterCalledTwice | src/app/memory/memory_manager.py:66-74 | with both lists non-empty and the gate passed, the writer is called twice, user store first |
| MemoryManager.FailedTurnWritesNothing | src/app/memory/memory_manager.py:48-64 | a reply that does not decode to an object writes nothing and reports confidence 0.0 |
| MemoryManager.SecondRunWritesNothing | src/app/memory/memory_manager.py:66-74 | running the same decision again writes nothing, when no fact holds a carriage return |
| MemoryManager.GatesAgree | src/app/memory/memory_manager.py:58 | the strict `<` gate and the documented `>=` gate agree on every confidence but NaN |
| MemoryManager.ProcessMemoryAgrees | src/app/memory/memory_manager.py:58-78 | the corrected pipeline is the source's on every confidence but NaN |
| MemoryManager.NaNConfidenceWrites | src/app/memory/memory_manager.py:58 | with confidence NaN the strict gate writes the fact, the corrected gate does not |
| Chunker.SortKinds | src/app/ingestion/chunker.py:67 | `sorted` of the content types: sorted, exactly the known types present, in the order image, table, text |
| Chunker.Separate | src/app/ingestion/chunker.py:29-68 | the declarative split; `SeparateContentTypes` proves the loop computes it, and `TypesSpec` and `PartsSpec` state its parts |
| Chunker.FilterSorted | src/app/ingestion/chunker.py:67 | dropping elements keeps a sequence sorted |
| Chunker.SeparateContentTypes | src/app/ingestion/chunker.py:29-68 | the loop computes the text, the table HTML, the images and the sorted types of the chunk |
| Chunker.SeparateStep | src/app/ingestion/chunker.py:44-61 | each element extends at most its own list and adds its own type |
| Chunker.TypesSpec | src/app/ingestion/chunker.py:42-67 | the types are sorted, among the three names, and name exactly the kinds of element present |
| Chunker.PartsSpec | src/app/ingestion/chunker.py:47-57 | the table HTML and the image payloads are exactly the non-empty ones, one entry per such element |
| Chunker.TableWithoutHtml | src/app/ingestion/chunker.py:47-52 | a table without HTML records the `table` type and adds no HTML |
| Chunker.PageContent | src/app/ingestion/chunker.py:188-205 | a text-only chunk keeps its text; a multimodal chunk with a non-empty summary gets that summary; empty content implies empty text; content other than the text is the summary of a multimodal chunk |
| Chunker.ChunkDoc | src/app/ingestion/chunker.py:172-221 | the document carries the 1-based chunk id, the source, `has_tables`/`has_images` exactly when HTML/payloads were kept, and the sorted types |
| Chunker.KeepsMediaIff | src/app/ingestion/chunker.py:177-188 | a chunk is summarised (`has_tables or has_images`) exactly when some table kept non-empty HTML or some image a non-empty payload |
| Chunker.ProcessChunk | src/app/ingestion/chunker.py:176-219 | one pass of the loop builds the chunk's document, and asks for a summary exactly when a table kept HTML or an image a payload |
| Chunker.DocFields | src/app/ingestion/chunker.py:173-221 | the document built at position i carries the chunk id i+1, the source and the chunk's page content |
| Chunker.ProcessChunks | src/app/ingestion/chunker.py:153-225 | one document per chunk, the i-th being the chunk's document (id i+1, the source, its page content); the summariser is called for chunk k+1 exactly when chunk k keeps a table's HTML or an image's payload, never for an id outside 1..n, in increasing order |
| Seqs.MapIndexedSpec | src/app/ingestion/chunker.py:172-221 | the `enumerate` loop appending one document per chunk yields, at each position, the value made from that position and chunk |
| Seqs.IdsWhereSpec | src/app/ingestion/chunker.py:172-188 | the 1-based positions selected among the first n elements: each selected one once, none outside 1..n, increasing |
| Seqs.MapSelect | src/app/ingestion/chunker.py:172-222 | the loop builds exactly the indexed map and the selected positions |
| Chunker.TextOnlyIgnoresSummariser | src/app/ingestion/chunker.py:201-203 | a text-only chunk's document does not depend on the summariser and holds the raw text |
| Chunker.SummaryFallback | src/app/ingestion/chunker.py:197-205 | a failed or empty summary falls back to the raw text |
| Chunker.ChunkTablesReachContext | src/app/ingestion/chunker.py:212-219 | the tables the context formatter reads from a chunk's document are the HTML the chunker kept |

## Left out

- The model calls (router, answer generation, memory curator, chunk
  summariser) are inputs. A call that raises is `None`. Prompt building,
  `get_llm`, token logging and `time.sleep` are not modelled.
- `json.loads` is an input function from text to `Parsed`, and
  `json.dumps`/`json.loads` of `original_content` is assumed to round-trip
  (`Decoded` holds the kept table HTML). The types of present JSON fields
  (a bool, lists of strings) are assumed.
- `datetime.now()` is the parameter `now`. Both writes of a turn receive the
  same `now`, although the source reads the clock once per write.
- The file system is a pair of `Option<string>` values. Concurrent sessions
  and I/O errors are not modelled.
- Python's `str.strip`, `str.lower`, `\s` and `\d` are Unicode-aware; the
  model uses ASCII whitespace (the characters 9-13, 28-31 and 32), ASCII
  case and ASCII digits.
- `sources_used` is `list(set(...))`, whose order Python leaves unspecified.
  It is modelled as a set.
- `chunk_by_title`, `create_ai_summary`'s prompt and image message, the PDF
  parser, the indexer, the ingestion pipeline, the Streamlit app, the
  configuration constants (the 0.7 threshold is a parameter) and the
  evaluation scripts, apart from the bullet reader of
  scripts/run_sanity.py, are not part of this model.
- Generator.GenerateAnswer: the contract states only that the displayed
  answer is stripped. Which characters it keeps is stated by
  `Marker.RemoveMarkersKeeps` and `Scan.CutOutKeepsUncovered`. That no
  marker remains is not claimed, because one substitution pass can splice
  a new marker together.
- Marker.TailAtSound: soundness is stated as membership in the tail
  language; the decomposition found is pinned down by `TailUnique` rather
  than in this lemma.
- MemoryWriter.AllPresentAfter, MemoryWriter.AppendTwice and
  MemoryManager.SecondRunWritesNothing: proved only for facts without a
  carriage return. Such a fact is read back with a line feed in its place,
  so it is never a duplicate and every call writes it again
  (`CarriageReturnNeverDuplicate`, `CarriageReturnWrittenAgain`).
- Writes are modelled as on POSIX. On Windows, text mode would also turn
  each `"\n"` written into `"\r\n"`; that is not modelled.
- MemoryExtractor.ExtractMemory: for a fenced reply, the text reaching the
  decoder is described through `Unfence` and `FenceRoundTrip` rather than in
  this contract.

## Findings

| source | as written | input that shows it | evidently intended | confidence | as-written member | corrected member |
|---|---|---|---|---|---|---|
| src/app/memory/memory_manager.py:58 | the gate skips only when `confidence < threshold` | `should_save` true with confidence NaN (JSON `NaN`, or the string `"nan"` through `float()`): `NaN < 0.7` is false, so the facts are written | write only when the confidence is at least the threshold (step 2 of the docstring, line 29) | not executed | MemoryManager.NaNConfidenceWrites | MemoryManager.ProcessMemory |
