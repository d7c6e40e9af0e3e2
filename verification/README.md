# LoreChat retrieval store and chat front end, modelled in Dafny

LoreChat lets a user upload a book (PDF or TXT) and then chat with a fictional
character whose replies are grounded in passages retrieved from that book.
This project models the sequential logic around the library calls:

- **Ingestion** (`add_to_store`): the book's chunks are cut into consecutive
  batches of 32. Each batch's vectors are appended to the flat vector index,
  and its `(book_name, chunk)` pairs are appended to the metadata list in
  lock-step. The pair is saved exactly once, after the last batch. An empty
  chunk list aborts before anything is saved.
- **Query** (`query_store`): an empty index yields a fixed sentinel message.
  Otherwise the positions returned by the nearest-neighbour search are mapped
  to passage texts, in search order.
- **Snapshot bootstrap** (`load_index` / `save_index`): the stored pair is
  loaded only when both files exist. Otherwise the store starts fresh.
- **Web layer** (`app.py`): the file-extension check, the blank-text guard
  on upload, `</think>` stripping of the model reply, the five-turn history
  window, the history reset on a character change, and the speaker labels
  of the dialogue transcript.

The sentence embedder, the text splitter and the nearest-neighbour search
are function-typed parameters (`embed`, `split`, `search`). The only
assumption made about them is that `embed` returns one vector per input
string (`RagStore.OneVectorPerInput`). The two persisted files are a
`Disk` value: each file is either present with its contents or absent.
Python's `str.strip()`, `lower()`, `rsplit(".", 1)` and `split(sep, 1)`
are modelled in `PyStr`.

Files: `wrappers.dfy` (Option/Result), `pystr.dfy` (string operations),
`batching.dfy` (the batch loop's slicing), `rag_store.dfy` (the store),
`web_app.dfy` (the Flask handlers' pure parts).

## Model

| member | source | states |
|---|---|---|
| PyStr.LeadingSpace | app.py:93 | the count of leading whitespace `strip()` removes: all of it whitespace, the next character not, and the whole string exactly when it is all whitespace |
| PyStr.TrailingSpace | app.py:93 | the same for trailing whitespace |
| PyStr.IsSpace | app.py:93 | the whitespace `strip()` removes is Python's `str.isspace` set: space, `\t` to `\r`, U+001C to U+001F, U+0085, U+00A0, U+1680, U+2000 to U+200A, U+2028, U+2029, U+202F, U+205F and U+3000; no ASCII letter or digit is among them and none lies above U+3000 |
| PyStr.Strip | app.py:118-119 | `strip()` removes only whitespace, and only at the two ends; the result is empty exactly when the input is all whitespace; otherwise it starts and ends with non-whitespace |
| PyStr.StripUnique | app.py:93 | any split of a string into whitespace, a core with non-whitespace ends, and whitespace determines `strip()`'s result as that core |
| PyStr.LeadingSpaceAt | app.py:93 | the leading whitespace `strip()` removes ends exactly at the first non-whitespace character |
| PyStr.TrailingSpaceAt | app.py:93 | the trailing whitespace `strip()` removes starts exactly after the last non-whitespace character |
| PyStr.StripIdempotent | app.py:173-178 | stripping an already stripped reply again changes nothing |
| PyStr.Lower | app.py:53 | `lower()` restricted to ASCII letters: same length, and each character is the `LowerChar` of the character at the same place |
| PyStr.LowerChar | app.py:53 | one character of `lower()` on ASCII: no capital letter comes out, a capital becomes its small letter (code point + 32), every other character is unchanged |
| PyStr.LastIndexOf | app.py:53 | `rsplit(".", 1)` cuts at the last dot: the position found holds a dot and no later position does; nothing is found exactly when there is no dot |
| PyStr.FindFirst | app.py:177-178 | `split("</think>", 1)` cuts at the first occurrence: one is found exactly when the marker occurs (`in`), and none occurs earlier |
| Batching.BatchesFrom | rag_store.py:75-76 | the batches `chunks[i:i+32]`, `chunks[i+32:i+64]`, … visited from loop index `i`, the last one cut at the end of the list; there is none exactly when `i` is past the end |
| Batching.Batches | rag_store.py:75-76 | `range(0, len(chunks), 32)` with `chunks[i:i+32]`: the batches from index 0; there is none exactly when there are no chunks |
| Batching.BatchesFromCover | rag_store.py:75-76 | from loop index `i`, the slices `chunks[i:i+32]`, `chunks[i+32:i+64]`, … cover `chunks[i:]` in order, each non-empty and at most 32 long, all but the last exactly 32 |
| Batching.BatchesPartition | rag_store.py:75-76 | the batches partition the chunk list: non-empty, at most 32 each, `ceil(n/32)` of them, and their in-order concatenation is the chunk list |
| Batching.FlattenAppend | rag_store.py:75-79 | concatenating two runs of batches concatenates their contents |
| RagStore.LoadIndex | rag_store.py:22-31 | both files present: the stored index and metadata; one or both missing: an empty index with empty metadata |
| RagStore.SaveIndex | rag_store.py:34-37 | `save_index` writes both files, the index file holding the store's index and the metadata file its metadata |
| RagStore.SaveLoadRoundTrip | rag_store.py:22-37 | loading after `save_index` gives back exactly the saved pair |
| RagStore.LoadHalfSnapshotIsFresh | rag_store.py:23-31 | exactly one file present loads as a fresh empty store, not as an error |
| RagStore.EmbedBatches | rag_store.py:77-78 | the vectors of one `encode` call per batch, concatenated in loop order: none for no batches, and the first batch's vectors first |
| RagStore.EmbedBatchesLength | rag_store.py:75-78 | embedding the batches in turn yields exactly one vector per chunk |
| RagStore.EmbedBatchesAppend | rag_store.py:77-78 | embedding one more batch appends exactly that batch's vectors |
| RagStore.Tag | rag_store.py:79 | `[(book_name, c) for c in chunks]`: one entry per chunk, entry `j` carrying the book name and chunk `j` |
| RagStore.TagAppend | rag_store.py:79 | tagging two chunk runs in turn equals tagging their concatenation |
| RagStore.AddBatch | rag_store.py:76-79 | one loop iteration grows index and metadata each by the batch size, keeps every earlier entry (append-only), and preserves alignment in both directions |
| RagStore.IngestStep | rag_store.py:75-80 | the loop invariant holds again after one batch: visited batches are a prefix of all batches, the index holds their vectors, the metadata the tagged chunks up to the new loop index |
| RagStore.IngestDone | rag_store.py:75-82 | when the loop ends, every batch was embedded, the metadata suffix is `[(book_name, c) for c in chunks]` and the index grew by `len(chunks)` |
| RagStore.AddToStore | rag_store.py:61-84 | returns false exactly when the splitter yields no chunks, and then saves nothing and leaves the files unchanged; otherwise embeds the 32-chunk batches in order, saves exactly once, a snapshot whose index and metadata extend the loaded ones by one vector and one `(book_name, chunk)` per chunk in chunk order, and returns true; an aligned store stays aligned |
| RagStore.PyIndex | rag_store.py:99 | Python list indexing succeeds exactly for positions in `-len..len-1`; a non-negative position gives `xs[i]`, a negative one `xs[len + i]` |
| RagStore.MapPositionsAsWritten | rag_store.py:96-100 | the result loop as written: at most one text per position; raises exactly when a position passing `idx < len(metadata)` is below `-len(metadata)` |
| RagStore.MapPositions | rag_store.py:96-100 | the intended result loop: at most one text per position, each the text of a stored passage; with all positions valid, exactly `metadata[idx][1]` for each position in order |
| RagStore.ValidPositions | rag_store.py:97-98 | the positions the intended filter keeps: exactly those of the input in `0..len-1` |
| RagStore.TextsAt | rag_store.py:99 | one text per valid position |
| RagStore.MapPositionsFiltersThenMaps | rag_store.py:97-99 | the intended loop is filter-then-map: invalid positions contribute nothing, each valid one contributes `metadata[idx][1]`, in order |
| RagStore.NegativePositionsSelectNothing | rag_store.py:97-98 | padding positions alone pass the intended filter nowhere |
| RagStore.WrapNegative | rag_store.py:99 | Python's reading of each position keeps the list's length |
| RagStore.AsWrittenWrapsNegative | rag_store.py:96-100 | when nothing raises, the code as written equals the intended loop applied to the positions with each negative `p` read as `len + p` |
| RagStore.PaddingRepeatsLastPassage | rag_store.py:95-99 | after valid positions, `m` padding `-1`s make the code as written append the last stored passage `m` times |
| RagStore.MapPositionsAppend | rag_store.py:97-99 | results come out in the order of the positions: mapping a concatenation concatenates the mappings |
| RagStore.AsWrittenAgreesOnNonNegative | rag_store.py:97-99 | when no position is negative, the code as written returns exactly the intended result |
| RagStore.PaddedSearchDuplicatesLastPassage | rag_store.py:95-99 | one stored passage and positions `[0, -1]`: the code as written returns the passage twice; the intended loop returns it once |
| RagStore.QueryStore | rag_store.py:89-100 | an empty index gives exactly the one-element sentinel list whatever `top_k`; otherwise the search's positions for the embedded query, filtered and mapped in order by the intended loop, hence at most one result per position, each a stored passage's text |
| RagStore.QueryStoreAsWritten | rag_store.py:89-100 | `query_store` as written: the sentinel on an empty index; otherwise the result loop as written on the search's positions |
| RagStore.QueryAsWrittenAgreesOnNonNegative | rag_store.py:95-100 | when the search returns no negative position, the query as written and the intended query give the same result |
| RagStore.SinglePassageQueryRepeatsIt | rag_store.py:89-100 | one stored passage, `top_k=5`, search answer `[0, -1, -1, -1, -1]`: the query as written returns the passage five times, the intended query once |
| WebApp.AllowedFile | app.py:52-53 | accepted exactly when the name has a dot and the lower-cased text after the last dot is `pdf` or `txt` |
| WebApp.AllowedFileByExtension | app.py:52-53 | for any stem, dots included, `stem.ext` with a dot-free `ext` is accepted exactly when `ext` lower-cases to an allowed extension |
| WebApp.AllowedFileUpperCase | app.py:53 | `x.PDF` is accepted |
| WebApp.AllowedFileDotOnly | app.py:53 | `.txt` is accepted |
| WebApp.AllowedFileNeedsDot | app.py:53 | `pdf` is rejected |
| WebApp.AllowedFileLastExtension | app.py:53 | `book.pdf.exe` is rejected |
| WebApp.Upload | app.py:76-102 | missing file part, empty name, disallowed type and blank extracted text each give their own outcome and leave the store untouched; otherwise the book is stored under its secured name, the index afterwards being the loaded index followed by the vectors of every batch of the split text and the metadata the loaded metadata followed by the tagged chunks, and success is reported whatever `add_to_store` returned |
| WebApp.StartSession | app.py:107-109 | a session without history starts with Harry Potter and an empty history; an existing one is kept |
| WebApp.SelectCharacter | app.py:122-126 | a non-empty character different from the current one replaces it and empties the history; an empty or identical one changes nothing |
| WebApp.SelectCharacterIdempotent | app.py:122-126 | submitting the same character twice has the effect of submitting it once |
| WebApp.DisplayName | app.py:128 | the session's character when it is non-empty, `Unknown Character` otherwise; never empty |
| WebApp.CleanReply | app.py:176-178 | a reply without `</think>` is unchanged; with one, the result is shorter by at least the marker and has no surrounding whitespace |
| WebApp.CleanReplyAfterThought | app.py:176-178 | a reply of reasoning free of `</think>`, the marker, and an answer cleans to the stripped answer, whatever the answer contains |
| WebApp.KeepLast | app.py:194 | `xs[-n:]` keeps `min(len, n)` elements, and they are the last ones |
| WebApp.RecordExchange | app.py:190-194 | after an exchange the history has `min(len+2, 5)` turns, the bot turn last, the user turn before it, and before those the most recent older turns |
| WebApp.RecordExchangeKeepsShortHistory | app.py:190-194 | with at most three earlier turns nothing is dropped |
| WebApp.Speaker | app.py:138 | the character's name for a `bot` turn, `You` for any other role |
| WebApp.Line | app.py:139 | `f"{speaker}: {msg}\n"`: as long as the speaker label, the message and the three characters `: ` and newline together, ending in a newline |
| WebApp.Transcript | app.py:136-139 | empty exactly for an empty history; otherwise it starts with the first turn's labelled line |
| WebApp.TranscriptAppend | app.py:136-139 | the transcript follows history order: it splits where the history splits |
| WebApp.TranscriptOfExchange | app.py:136-139 | a user turn is labelled `You`, a bot turn with the character name |
| WebApp.Chat | app.py:105-194 | a GET only starts the session (Harry Potter with an empty history on a first request); a POST applies the character choice; with blank input the history is left as the choice made it; otherwise the history is the one left by the character choice with the exchange recorded (the stripped input, then the cleaned reply, keeping the most recent turns up to 5); a history within the 5-turn window stays within it |

## Left out

- The text splitter's chunk boundaries, size bound and overlap (`RecursiveCharacterTextSplitter` with 800/100): `split` is a parameter.
- Embedding and L2 search internals (SentenceTransformer, faiss `IndexFlatL2`), including ranking and tie-breaking: `embed` and `search` are parameters. Embedding vectors are `seq<real>` and never inspected; the embedding dimension and a dimension mismatch are not modelled.
- Exceptions raised inside the libraries (a failing embedding call, a corrupt file, faiss rejecting `top_k`): the model has no error path for them.
- The file writes and reads behind `save_index`/`load_index`, and their non-atomic two-file order: the files are a `Disk` value.
- Text extraction (`extract_text_from_file` in both files), `secure_filename`, saving the uploaded file: the extracted text is a parameter of `Upload`, and `secure_filename` is the parameter `secure`. The extraction picks its reader from a case-sensitive `.txt`/`.pdf` suffix; this is outside the model.
- Flask routing, flash messages, redirects and template rendering. The upload outcome stands for the flash message.
- The prompt text, the chat completion call and its error and simulated replies (app.py:141-185): `Chat` takes the completion's raw content as a parameter.
- The configuration and environment checks (app.py:14-49) and the command-line entry point (rag_store.py:105-118).
- The default arguments `book_name="uploaded_book"` and `top_k=5` of `add_to_store` and `query_store`: every call in the code passes both, so the model takes them as plain parameters (`RagStore.DefaultTopK` is the value the chat handler passes).
- Concurrent ingestions (last save wins): the source has no concurrency control.
- RagStore.QueryStore: uses the intended mapping `RagStore.MapPositions` (see Findings); the code as written is `RagStore.MapPositionsAsWritten`.
- PyStr.Lower: lower-cases ASCII letters only and keeps the length, where Python's `lower()` also lowers non-ASCII capitals (`É` to `é`) and can lengthen a string (`İ` becomes two code points). Its one use, the extension test in `allowed_file`, gets Python's verdict all the same: the only non-ASCII characters whose lower case contains an ASCII letter are U+0130 (to `i` plus a combining dot) and U+212A KELVIN SIGN (to `k`), and neither can make an extension equal `pdf` or `txt`.
- The console messages printed while ingesting and chatting (rag_store.py:69, 72, 80, 83; app.py:174, 180, 182, 187): output only, they change no state.
- WebApp.AllowedFile: lower-cases ASCII letters only, where Python's `lower()` covers all of Unicode. The verdict is the same, because no non-ASCII character lower-cases to a single letter of `pdf` or `txt`.
- WebApp.Line: the contract states the line's length and its final newline only; the `speaker: message` layout is fixed by the body, which the transcript lemmas unfold directly.
- PyStr.IsSpace: the contract states two consequences (no ASCII letter or digit, nothing above U+3000); the exact character set is the body, written out from Python's definition of `str.isspace`.

Behaviour of the code worth stating plainly:

- Exactly one missing file loads as a fresh store, not as an error (`RagStore.LoadHalfSnapshotIsFresh`).
- A search asked for more neighbours than are stored hands `-1` padding positions to the result loop (see Findings).
- `RagStore.QueryStore` uses the corrected filter; `RagStore.QueryStoreAsWritten` is the query as written.

## Findings

| source | as written | input that shows it | evidently intended | confidence | as-written member | corrected member |
|---|---|---|---|---|---|---|
| rag_store.py:97-99 | the filter `idx < len(metadata)` has no lower bound, so a negative position is looked up with Python indexing and reads from the end of the list | one stored passage `("b", "x")` and search positions `[0, -1]` (faiss pads with -1 when `top_k` exceeds the stored count, as with `top_k=5` and fewer than 5 chunks): result `["x", "x"]` | skip positions outside `0 <= idx < len(metadata)`, giving `["x"]` | high for the missing lower bound; the -1 padding is library behaviour; not executed | RagStore.MapPositionsAsWritten, RagStore.QueryStoreAsWritten, RagStore.PaddedSearchDuplicatesLastPassage, RagStore.SinglePassageQueryRepeatsIt | RagStore.MapPositions, RagStore.QueryStore |
