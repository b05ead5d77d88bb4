# Wikipedia seeder: record assembly and sentence chunking

This project models the core of `seeders/wikipedia.ts`, the script that
streams a Wikipedia XML dump, assembles one record per `<page>` element and
cuts each record's body into sentence chunks for embedding. It has two parts.

- **Record assembler.** Three SAX handlers (`opentag`, `text`, `closetag`)
  share two closure variables. `tag` holds the name of the last opened
  element. `page` holds the record in progress, an object whose properties
  the `text` handler assigns in place. At every `</page>` that finds a record
  in progress, a task is queued whose closure deep-copies `page` when it
  starts, and `page` is reset to `null`. The copy is the finished record only
  when the task starts inside `pqueue.add`, before the reset; a task that has
  to wait for a free slot copies whatever `page` holds by then (see
  "## Findings").
  - `Assembler` states this as a pure state machine: `Step` handles one
    event and `Run` folds a stream of events. `Step` takes the copy at the
    `</page>` itself. `ClonedByTask` states what the queued closure copies
    depending on when it starts.
  - `Handlers` keeps the source's imperative form: a `PageObject` class whose
    fields are assigned in place, and a `SaxHandlers` class holding `tag`,
    `page` and the sequence of copies handed off.
  - Each handler method is proved to perform one `Step`. `Feed`, a loop that
    delivers a stream of events, is proved to perform `Run`.
- **Chunker.** At the top of `embedPage`, a page with an empty body is
  skipped. Otherwise the body is split at every match of `/\.\s/` and the
  pieces that trim to the empty string are dropped. `Chunker` models
  JavaScript's `\s` class, `trim`, the regex split with its leftmost,
  non-overlapping matches, and the filter.
- **Scenario.** `Scenario` runs a two-article dump through the assembler and
  the bodies it hands off through the chunker.

Files:
- `wrappers.dfy`: `Option`.
- `chunker.dfy`: the chunker.
- `assembler.dfy`: the state machine and its stream lemmas.
- `handlers.dfy`: the classes.
- `scenario.dfy`: the worked example.

The chunks are not the sentences with their dots. Splitting on `/\.\s/`
consumes the dot and one whitespace character, and the kept pieces are not
trimmed. The parser's `normalize` option turns every run of whitespace, blank
lines included, into one space, so the body `Para one. Para two.` gives the
chunks `Para one` and `Para two.`: the first loses its dot and the last keeps
it (`Chunker.TwoSentenceBody`). A body that a record collects from such
text events is itself such text (`Assembler.ParsedBodyNormalized`), and so
none of its chunks starts with whitespace
(`Chunker.NormalizedChunksStartVisible`). A chunk can still end with a space
when the text has one before a dot.

## Model

| member | source | states |
|---|---|---|
| Chunker.TrimStart | seeders/wikipedia.ts:25 | The leading half of `trim`. The result is a suffix of the input, everything cut off is whitespace, and the result does not start with whitespace. It is empty exactly when the input is all whitespace. |
| Chunker.TrimEnd | seeders/wikipedia.ts:25 | The trailing half of `trim`. The result is a prefix of the input, everything cut off is whitespace, and the result does not end with whitespace. It is empty exactly when the input is all whitespace. |
| Chunker.Trim | seeders/wikipedia.ts:25 | `trim()` is empty exactly when the input is all `\s`, so `p.trim() !== ''` holds exactly when `p` has a visible character. A non-empty result starts and ends with a visible character. The result is the input with only whitespace cut off before and after it, so it keeps every visible character of the input, in order. |
| Chunker.Split | seeders/wikipedia.ts:25 | `split(/\.\s/)` always gives at least one piece. The first piece is a prefix of the input with no match in it. Either it is the whole input and the only piece, or a match starts right after it, so it ends at the leftmost match. |
| Chunker.SepsBetweenPieces | seeders/wikipedia.ts:25 | The split gives one more piece than there are matches. Every match consumed a `\s` character after its dot. |
| Chunker.SplitJoinRoundTrip | seeders/wikipedia.ts:25 | Re-joining the pieces with `.` and each consumed separator gives back the input. |
| Chunker.PiecesSepFree | seeders/wikipedia.ts:25 | No piece contains `.` followed by whitespace. |
| Chunker.SplitJoin | seeders/wikipedia.ts:25 | The split properties together: piece count, whitespace separators, the round trip, and match-free pieces. |
| Chunker.SplitOfSepFree | seeders/wikipedia.ts:25 | A string with no match splits into just itself. |
| Chunker.SplitAfterPiece | seeders/wikipedia.ts:25 | The leftmost match ends the first piece: a match-free piece, a dot and whitespace, then the split of the rest. |
| Chunker.SplitUnique | seeders/wikipedia.ts:25 | Any cut of a string into match-free pieces, separated by a dot and whitespace, is exactly the split of that string. The split is characterised independently of how it is computed. |
| Chunker.KeepNonBlank | seeders/wikipedia.ts:25 | The filter keeps a piece exactly when it does not trim to `''`. It never adds a piece. |
| Chunker.KeepNonBlankInOrder | seeders/wikipedia.ts:25 | The kept pieces keep the split's order. They are a subsequence of the pieces. |
| Chunker.KeepNonBlankKeepsContent | seeders/wikipedia.ts:25 | Filtering drops only whitespace. The non-whitespace characters of the kept pieces are those of all the pieces, in order. |
| Chunker.KeepNonBlankAll | seeders/wikipedia.ts:25 | Pieces that all have visible text pass the filter unchanged. |
| Chunker.Chunks | seeders/wikipedia.ts:21-25 | An empty body gives no chunks. Every chunk has visible text and contains no `.` followed by whitespace. |
| Chunker.ChunksArePieces | seeders/wikipedia.ts:21-25 | For every body, a string is a chunk exactly when it is a non-blank piece of the split. The chunks are untrimmed and come in the split's order. |
| Chunker.ChunksKeepContent | seeders/wikipedia.ts:21-25 | For every body, the chunks together hold all visible text of the split pieces, in order. |
| Chunker.LaterPiecesStartVisible | seeders/wikipedia.ts:25 | In text with no two whitespace characters in a row, every piece after the first is empty or starts with a visible character. |
| Chunker.NormalizedChunksStartVisible | seeders/wikipedia.ts:25 | For a body as the parser's `trim` and `normalize` options deliver it (line 47), no chunk starts with whitespace. |
| Chunker.NormalizedConcat | seeders/wikipedia.ts:76 | Text fragments as the parser delivers them, appended one after another, are still text of that form. |
| Chunker.TwoSentenceSplit | seeders/wikipedia.ts:25 | `Para one. Para two.` splits into `Para one` and `Para two.`. |
| Chunker.TwoSentenceBody | seeders/wikipedia.ts:21-25 | `Para one. Para two.` is text the parser can deliver, and it gives the chunks `Para one` and `Para two.`. |
| Assembler.Step | seeders/wikipedia.ts:57-87 | One event. Only a `</page>` that finds a record hands anything off: that one record, after which no record is in progress. Only an opening tag changes the tag, to its name. `<page>` installs a fresh record, and apart from that only a text event changes the record. |
| Assembler.Run | seeders/wikipedia.ts:57-87 | A stream of events handled in order. The tag is then the name of the last opened element, since closing tags never reset it. At most one record is handed off per `</page>`. |
| Assembler.RunAppend | seeders/wikipedia.ts:57-87 | Handling a stream in two parts equals handling it at once. The second part starts from the first part's state, and its hand-offs follow the first part's. |
| Assembler.HandedOffNeverChange | seeders/wikipedia.ts:81-87 | A record handed off is a copy taken at its `</page>`. Later events never change, reorder or withdraw it. This is the code's behaviour when the task starts inside `pqueue.add`, and the evidently intended one otherwise (see "## Findings"). |
| Assembler.ClonedByTask | seeders/wikipedia.ts:81-87 | What the closure queued at a `</page>` copies, depending on when the task starts. Started inside `pqueue.add`, it copies the record that `Step` hands off. Started right after the `</page>`, it copies `null`. |
| Assembler.DeferredCloneCounterexample | seeders/wikipedia.ts:81-87 | From any state, for example after ten earlier articles have filled the queue, the task queued at the stream's first `</page>` copies `null`, a fresh record or the second page's partial record, whichever later event boundary it starts at. None of these has a body. It never copies the first record, which `Run` hands off and whose body `x` gives the chunk `x`. |
| Assembler.OpenPageDiscards | seeders/wikipedia.ts:57-63 | At a `<page>`, an unfinished record is dropped and not handed off. From there the stream behaves as if it began with a fresh record under tag `page`. |
| Assembler.TextIgnored | seeders/wikipedia.ts:65-79 | A text event has no effect in three cases: outside a record, before any tag, or under a tag other than `title`, `id` and `text`. |
| Assembler.StepInRecord | seeders/wikipedia.ts:65-79 | One event inside a record: under `title` or `id` a text event overwrites that field, and under `text` it appends. Nothing else in the record changes, and nothing is handed off. |
| Assembler.RecordStays | seeders/wikipedia.ts:57-87 | Between `<page>` and `</page>` a record stays in progress and nothing is handed off. |
| Assembler.BodyOfRecord | seeders/wikipedia.ts:75-77 | A record's body is the in-order concatenation of every text event under `text`. |
| Assembler.TitleOfRecord | seeders/wikipedia.ts:69-71 | A record's title is the last text event under `title`, or absent if there was none. |
| Assembler.IdOfRecord | seeders/wikipedia.ts:72-74 | A record's id is the last text event under `id`, so nested revision and contributor ids overwrite the page id. It is absent if there was none. |
| Assembler.FieldsOfRecord | seeders/wikipedia.ts:57-79 | From `<page>` to just before `</page>`, the record is the last title, the last id and the concatenated body. Nothing is handed off. |
| Assembler.ParsedBodyNormalized | seeders/wikipedia.ts:57-79 | When every text event is as the parser's `trim` and `normalize` options deliver it, the body of a record from `<page>` to before `</page>` is text of that form too, and none of its chunks starts with whitespace. |
| Assembler.EmittedEqualsCloses | seeders/wikipedia.ts:81-87 | When `<page>` and `</page>` alternate, exactly one record is handed off per `</page>`. |
| Handlers.PageObject.constructor | seeders/wikipedia.ts:59-60 | `page = {}; page.text = ''` gives a record with no title, no id and an empty body. |
| Handlers.SaxHandlers.constructor | seeders/wikipedia.ts:50-51 | At the start there is no tag, no record and nothing handed off. |
| Handlers.SaxHandlers.OnOpenTag | seeders/wikipedia.ts:57-63 | Performs one `Step` of an `Open` event. The tag becomes the element's name. `<page>` installs a newly allocated empty record, and other elements keep the record object. Nothing is handed off. |
| Handlers.SaxHandlers.OnText | seeders/wikipedia.ts:65-79 | Performs one `Step` of a `Text` event, changing only the record object. Under `title` or `id` the field is overwritten, and under `text` the fragment is appended. |
| Handlers.SaxHandlers.OnCloseTag | seeders/wikipedia.ts:81-87 | Performs one `Step` of a `Close` event, and never changes the tag. A `</page>` with a record hands off a snapshot of it, taken before the record is cleared, as when the task starts inside `pqueue.add`. Any other close changes nothing. |
| Handlers.SaxHandlers.Handle | seeders/wikipedia.ts:57-87 | The handler registered for the event performs one `Step`, for both the state and the hand-offs. |
| Handlers.SaxHandlers.Feed | seeders/wikipedia.ts:57-87 | Delivering a stream of events one by one leaves the state and the handed-off copies as `Run` gives them. |
| Scenario.ArticleRecord | seeders/wikipedia.ts:57-87 | One article's events, from any state, hand off exactly that article's record and end with no record in progress. |
| Scenario.TwoArticleDump | seeders/wikipedia.ts:21-87 | A dump of two articles hands off two records in document order, each with its own title, id and body. The first body gives two chunks and the second, empty body gives none. |

## Left out

- Reading the dump from disk and bz2 decompression (line 48): I/O. The model starts from the parser's event stream.
- The sax parser itself (line 47). Events are taken as given. The parser's `trim` and `normalize` options, and its dropping of empty text nodes, are part of what produces that stream. `Chunker.Normalized` states what those options leave in a text event. `Assembler.ParsedBodyNormalized` assumes it of every text event, and only the lemmas that require it use it.
- The work queue (lines 18, 83, 89-95): its concurrency of 10 and `onIdle`. A hand-off is modelled as appending the copy to `handedOff`. When the queued `embedPage` calls run is not modelled. What a task that starts late copies is stated by `Assembler.ClonedByTask` only.
- Assembler.HandedOffNeverChange: states the copy taken at the `</page>`. The code copies then only when the task starts inside `pqueue.add`, with fewer than 10 tasks pending. A task that waits copies `page` as it is when it starts (see "## Findings").
- Handlers.SaxHandlers.OnCloseTag: appends a snapshot taken before `page = null`, which assumes the task starts inside `pqueue.add`, with fewer than 10 tasks pending. The classes do not model tasks that wait for a slot.
- The OpenAI embedding call and the Qdrant upsert (lines 9-16, 30, 34-42): network calls.
- The random point ids (line 37): randomness.
- The per-chunk loop (lines 29-43). `for (const [index, chunk] of chunks)` destructures each chunk string into its first two characters, and the body of the loop makes the network calls above and logs. The model ends at the list of chunks.
- Logging (lines 27, 32), the parser's error handler (lines 53-55) and the final message and `process.exit` (lines 98-107): output and process control.
- String encoding. JavaScript strings are UTF-16 code units and the model's strings are sequences of code points. `\s` and `trim` use the same whitespace set in both, so this matters only for characters outside the Basic Multilingual Plane, which are never whitespace.

## Findings

| source | as written | input that shows it | evidently intended | confidence | as-written member | corrected member |
|---|---|---|---|---|---|---|
| seeders/wikipedia.ts:83-85 | `pqueue.add(() => embedPage(R.clone(page!)))` copies the variable `page` only when the task starts, and line 85 sets `page = null` right after queueing. A task that waits for one of the 10 slots copies `null`, and `embedPage` throws at `page.text`, or it copies a later page's unfinished record. | Ten tasks pending, from earlier articles, at the first `</page>` of `<page><title>A</title><text>x</text></page><page><title>B`. The task started right after that `</page>` copies `null`, and `embedPage` throws. Started later, it copies a fresh record or the record with title `B`, both with an empty body, so `embedPage` returns at line 21. Record `A`, whose body gives the chunk `x`, never reaches `embedPage`. | Copy the record at the `</page>` and queue that copy, as `Assembler.Step` does. Every finished record is then handed to `embedPage` once and is never changed by later events. | medium, not executed | Assembler.DeferredCloneCounterexample | Assembler.HandedOffNeverChange |
