# Verified model of the text-processing core of a small RAG script

The repository answers questions over a folder of research-paper texts. It
downloads arXiv papers as text and writes a cleaned copy of each. It then
chunks every `.txt` file of the data folder, the raw texts and the cleaned
copies alike, embeds the chunks into a FAISS index, retrieves the nearest
chunks for a query and asks a language model to answer from them. This project models, in Dafny, the parts
of that pipeline that are plain text and sequence processing, and proves what
they do:

- `rag.py`, the corpus loader and query pipeline. `load_txt_files` splits
  every `.txt` document at each `"\n\n"`; a line holding only spaces is not
  a split point. It collapses whitespace in each
  paragraph, skips empty paragraphs and cuts the rest with a sliding window.
  It returns two parallel lists, the chunks (`docs`) and the file each chunk
  came from (`file_names`). `retrieve_documents` maps search positions back
  to chunks. `generate_response_with_ollama` truncates the context, builds
  the prompt and reads the reply. `rag_system` decides between rebuilding
  and reusing the index, asks the search for 5 hits and joins them with
  `"\n---\n"`.
  Dafny modules: `Chunker` (chunker.dfy) and `Pipeline` (pipeline.dfy).
- `funcs.py`, `extract_abstract_section`. It searches for
  `Abstract\s*(.*?)\n{2,}` and returns the group with newlines turned into
  spaces and stripped, or `""`. Dafny module: `AbstractSection` (abstract.dfy).
- `save_pdfs.py`, `clean_text` with its four rewriting steps, the name of
  the text file saved for each URL, and the two loops that write files.
  Dafny module: `Cleaner` (cleaner.dfy).

Shared string helpers are in `Text` (text.dfy). They cover Python's
whitespace table, `strip`, `re.sub(r'\s+', ' ', ·)`, `find`, `split` and
`join`. `Wrappers` (wrappers.dfy) holds `Option` and `Result`.

How the source is modelled:

- The loader is imperative in the source: nested loops extend two lists.
  `Chunker.LoadTxtFiles` (over documents) and `Chunker.LoadFile` (over the
  paragraphs of one document) are methods with loops. They are proved equal
  to the recursive specification `Chunker.LoadSpec`, and the properties are
  proved about `LoadSpec`.
- The folder listing is an input sequence of `Document(name, text)`.
- A folder on disk is a `map<string, string>` to contents. The download loop
  (`Cleaner.SaveAll`) keys it by the full path it writes,
  `os.path.join(data_path, name + '.txt')`. The cleaning loop
  (`Cleaner.CleanAll`) works inside the data folder alone and keys it by the
  bare file names that `os.listdir(data_path)` returns; its
  `os.path.join(data_path, ·)` then leaves the keys unchanged.
- The embedding model and FAISS search are one oracle function. It takes the
  texts the index was built from, the query and the count, and returns
  positions. The language model is an oracle from prompt and options to a
  reply.
- Regular-expression substitutions are modelled the way `re.sub` scans: left
  to right, try a match at each offset, replace it and continue after it, or
  copy the character. The abstract regex is modelled the way the
  backtracking engine explores it. The engine starts at the first
  `Abstract`, `\s*` gives characters back one at a time, and the lazy group
  grows to the first blank line.
- Whitespace is Python's `str.isspace()` table. Python's `re` uses that
  table for `\s` on `str` patterns, and `strip()` uses it too.

What the code does at its edges, as the model states it:

- `overlap == chunk_size` makes `range` raise `ValueError` (a step of zero)
  at the first non-empty paragraph of a `.txt` file. A folder whose `.txt`
  files hold only whitespace loads without error. `overlap > chunk_size`
  gives a negative step, so every `range` is empty and loading yields two
  empty lists (`Chunker.LoadFailure`, `Chunker.LoadOverlapTooLarge`).
- Every chunk is non-empty and at most `chunk_size` characters long
  (`Chunker.WindowsChunks`).
- The context is cut to its first `context_length` characters; the cut can
  fall inside a chunk or a separator (`Pipeline.TruncateSpec`).
- A stored index is used without any check against the chunks just loaded.
  After the corpus changes, a hit past the new end makes `rag_system` raise
  `IndexError`, and any other hit returns whatever chunk now sits at that
  position (`Pipeline.StaleIndexFails`).
- FAISS pads missing hits with position `-1`. Python reads `documents[-1]`
  as the last chunk, so each padding hit yields the last chunk
  (`Pipeline.FaissHitsRetrieve`).
- Only a falsy reply gives `"No response generated."`. A reply whose text is
  blank gives `""` (`Pipeline.AnswerSpec`).

In these places the code does not do what a name or comment in it suggests;
the model follows the code:

- `rag_system` never uses its parameter `k`; the search always asks for 5
  hits (`Pipeline.RagIgnoresK`, `Pipeline.RagAsksForFive`).
- Step 4 of `clean_text`, commented "Preserve section breaks", never changes
  anything: step 3 has already removed every newline, so the cleaned file is
  one line (`Cleaner.CleanTextSpec`).
- The comment "Chunk paragraphs if they are too long" suggests that a
  paragraph that fits in one chunk stays whole. But windows keep being cut
  until one would start past the end, even after a window has reached it.
  So a paragraph longer than the stride yields a second chunk even when it
  fits in `chunk_size`, and that chunk is a tail of the first. A paragraph
  of 401 characters under the default window gives `[0:401]` and
  `[400:401]` (`Chunker.WindowsRedundantTail`, `Chunker.DefaultWindowTail`).

## Model

| member | source | states |
|---|---|---|
| Chunker.LoadTxtFiles | rag.py:18-42 | the loop over the listed documents skips every name not ending in `.txt` and returns exactly `LoadSpec`: the `.txt` documents' chunks in listing order, each paired with its file name, or the error the first zero-stride window raises |
| Chunker.LoadFile | rag.py:25-39 | one `.txt` document: the paragraph loop appends the chunks of every non-empty normalised paragraph to `docs` and as many copies of the name to `file_names`, or raises the zero-stride error of the first non-empty paragraph |
| Chunker.LoadAlignment | rag.py:34-39 | after a successful load `len(docs) == len(file_names)`, `file_names[i]` is a listed `.txt` file, `docs[i]` is a window of one of that file's normalised paragraphs, and every chunk is non-empty, at most `chunk_size` long and single-spaced |
| Chunker.LoadOne | rag.py:23-39 | loading one `.txt` file gives its chunks, every one tagged with that file's name |
| Chunker.LoadFailure | rag.py:36 | loading raises exactly when `overlap == chunk_size` and some `.txt` file has a paragraph that is not all whitespace |
| Chunker.LoadOverlapTooLarge | rag.py:36 | when `overlap > chunk_size` loading raises nothing and yields two empty lists |
| Chunker.ChunksOfFailure | rag.py:29-37 | the paragraph loop of one file raises exactly when the stride is zero and some normalised paragraph is non-empty |
| Chunker.ChunksOfProvenance | rag.py:29-38 | every chunk of a file is well formed and is a window of one of its paragraphs |
| Chunker.CleanParagraphsCanonical | rag.py:28-31 | every normalised paragraph is single-spaced, uses only `' '` as whitespace and has no whitespace at either end |
| Chunker.HasTextIff | rag.py:28-32 | a document has a paragraph that is not all whitespace exactly when one of its normalised paragraphs is non-empty |
| Chunker.ParagraphChunksShape | rag.py:32-37 | an empty normalised paragraph contributes no chunks; a paragraph raises exactly when the stride is zero and it is non-empty; all its chunks are non-empty, at most `chunk_size` long and single-spaced |
| Chunker.WindowsChunks | rag.py:34-37 | with `0 <= overlap < chunk_size` and `s = chunk_size - overlap`, chunk `j` is `text[j*s .. min(j*s + chunk_size, L)]`, starts inside the text, and is non-empty and at most `chunk_size` long |
| Chunker.WindowsCount | rag.py:34-37 | a normalised paragraph of length `L` yields `ceil(L / s)` chunks |
| Chunker.WindowsReassemble | rag.py:34-37 | concatenating the first `s` characters of every chunk gives back the paragraph |
| Chunker.WindowsOverlap | rag.py:34-37 | a full-length chunk ends with the `overlap` characters that the next chunk starts with |
| Chunker.WindowsRedundantTail | rag.py:34-37 | once a window reaches the end of the paragraph, the next window is that window minus its first `s` characters: text already chunked |
| Chunker.DefaultWindowTail | rag.py:34-37 | under the default window (500, overlap 100) a 401-character paragraph gives exactly two chunks, the whole paragraph and its last character |
| Chunker.ShortParagraph | rag.py:34-37 | a paragraph no longer than one stride is a single chunk, the paragraph itself |
| Chunker.OneCanonicalParagraph | rag.py:28-31 | a text already in normal form is one paragraph and normalising leaves it unchanged |
| Chunker.ChunksOfOne | rag.py:29-38 | the paragraph loop over a single paragraph yields that paragraph's chunks |
| Text.JoinSplit | rag.py:28 | joining the pieces of `text.split("\n\n")` with `"\n\n"` gives back the text |
| Text.SplitPieces | rag.py:28 | no piece of a split contains the separator |
| Text.SplitJoin | rag.py:115 | splitting a join on its separator gives back the parts when no part holds the separator's first character |
| Text.CollapseShape | rag.py:31 | `re.sub(r'\s+', ' ', s)` is empty only for empty `s`, starts with a space exactly when `s` starts with whitespace, is single-spaced and keeps the visible characters in order |
| Text.WordBoundary | rag.py:31 | a whitespace run between a visible character and a visible character (or the end) becomes exactly one space, with each side collapsed on its own, so words never merge |
| Text.CollapseAppend | rag.py:31 | collapsing a text cut right after a visible character is collapsing the two parts and concatenating |
| Text.RunThen | rag.py:31 | a whole leading whitespace run becomes a single space, followed by the collapsed rest |
| Text.TrimLeftAppend | rag.py:31 | `lstrip()` of a text with a visible character stops inside it, keeping whatever follows whole |
| Text.NormalizeShape | rag.py:31 | collapse-then-strip gives a single-spaced text with no whitespace at either end and the same visible characters |
| Text.NormalizeEmptyIff | rag.py:31-32 | a paragraph normalises to the empty string exactly when it is all whitespace |
| Text.NormalizeFixesCanonical | save_pdfs.py:41 | collapse-then-strip leaves a text that is already in that form unchanged |
| Text.StripShape | funcs.py:39 | `strip()` leaves no whitespace at either end and keeps every visible character |
| Text.TrimLeftShape | funcs.py:39 | `lstrip()` removes exactly the leading whitespace run |
| Text.TrimRightShape | funcs.py:39 | `rstrip()` removes exactly the trailing whitespace run |
| Text.TrimRightSlice | funcs.py:39 | `rstrip()` keeps a prefix, drops only whitespace, and ends with a visible character unless empty |
| Text.FindFromSpec | funcs.py:36 | `find` returns an occurrence with none before it, or nothing when there is no occurrence |
| Text.CanonicalFacts | save_pdfs.py:41 | a collapsed and stripped text contains no newline and starts and ends with a visible character |
| Pipeline.RetrieveSpec | rag.py:72-78 | retrieval succeeds exactly when every position is a valid Python index; result `i` is `documents[indices[0][i]]`, in the order returned; otherwise the error names the first bad position |
| Pipeline.PyIndexSpec | rag.py:75 | a position can be used on a list of `n` chunks exactly when it lies in `[-n, n)`, and it then selects the element congruent to it mod `n` |
| Pipeline.FaissHitsRetrieve | rag.py:74-75 | against the chunks the index was built from, FAISS-style hits always retrieve `k` chunks, and a padding `-1` yields the last chunk |
| Pipeline.RetrieveFromNothing | rag.py:75 | over an empty chunk list any non-empty list of hits raises |
| Pipeline.TruncateSpec | rag.py:83 | the context sent is a prefix of at most `context_length` characters; it is the whole context exactly when that is short enough, exactly `context_length` characters otherwise, and truncating again changes nothing |
| Pipeline.PromptLayout | rag.py:84 | the prompt is `"Context:\n"`, the context, `"\n\nQuery: "`, the query and `"\n\nAnswer:"`, laid out at these offsets |
| Pipeline.PromptInjective | rag.py:84 | given the context length, the prompt determines both the context and the query |
| Pipeline.AnswerSpec | rag.py:93-96 | a falsy reply gives `"No response generated."`; otherwise the answer is the stripped reply text, which is empty exactly when the reply is all whitespace |
| Pipeline.ContextTailIgnored | rag.py:81-92 | characters of the context past `context_length` never reach the model |
| Pipeline.DefaultLoadSucceeds | rag.py:18 | with the default window (500, overlap 100) loading never raises |
| Pipeline.RagIndexLifecycle | rag.py:104-109 | the index is rebuilt from exactly the current chunks when `recreate_index` is set or no index file exists; otherwise the stored index is reused as it is |
| Pipeline.RagSearchesIndexedTexts | rag.py:101-112 | the search is consulted once, on the texts of the index in use: the chunks just loaded after a rebuild, the stored texts otherwise; search oracles that agree on that request give the same run |
| Pipeline.RagAsksForFive | rag.py:112 | the run depends on the search only through requests for 5 hits |
| Pipeline.RagIgnoresK | rag.py:99-120 | `rag_system`'s own `k` has no effect on the run |
| Pipeline.RebuiltIndexAnswers | rag.py:101-118 | with a freshly built index over a non-empty corpus and a FAISS-like search, `rag_system` always answers |
| Pipeline.StaleIndexFails | rag.py:62-75 | a reused index is not checked against the chunks just loaded: after the corpus shrinks to one chunk, a hit past the new end makes the run raise |
| Pipeline.LoadOneShortFile | rag.py:23-39 | one `.txt` file holding one short normalised paragraph loads as exactly one chunk tagged with its name |
| Pipeline.ContextRoundTrip | rag.py:115 | the retrieved chunks hold no newline, so splitting the joined context on `"\n---\n"` gives back the retrieved chunks in order |
| AbstractSection.TryFromSpec | funcs.py:36 | after `\s*` gives back characters, the search still matches exactly when a blank line follows the heading; a match found only after giving back characters captures the empty string |
| AbstractSection.CaptureSpec | funcs.py:36-38 | the search matches exactly when the first `Abstract` is followed somewhere by a blank line; the group runs from the end of the whitespace after the heading to the first blank line, or is empty when every blank line lies in that whitespace |
| AbstractSection.CaptureHasNoBlankLine | funcs.py:36 | the raw captured group never contains `"\n\n"` |
| AbstractSection.NoMatchIsEmpty | funcs.py:36-42 | the result is `""` when the text has no `Abstract`, or no blank line after its first `Abstract` |
| AbstractSection.UpperCaseHeadingIgnored | funcs.py:36 | matching is case-sensitive: an `ABSTRACT` heading followed by a blank line and any body without `Abstract` yields `""` |
| AbstractSection.ReplaceNewlinesSpec | funcs.py:39 | `replace('\n', ' ')` turns exactly the newlines into spaces and keeps every other character in place, so it keeps the length and the visible characters and leaves no newline |
| AbstractSection.ExtractAbstractShape | funcs.py:36-40 | the returned abstract contains no newline, has no whitespace at either end, and keeps exactly the visible characters of the captured group, in order |
| AbstractSection.HeadingFirst | funcs.py:36 | the search starts at the first `Abstract`: when one starts at `i` and the text before `i` holds none, the search starts at `i` |
| AbstractSection.BlankLineAfter | funcs.py:36 | the lazy group stops at the first blank line: with no newline in `text[j..p]` and `"\n\n"` at `p`, the group ends at `p` |
| AbstractSection.ExtractAt | funcs.py:36-40 | once the heading, the end of its whitespace run and the next blank line are located, the result is the text between, with newlines made spaces and stripped |
| AbstractSection.ExtractRoundTrip | funcs.py:34-42 | a heading, whitespace, a one-line body without whitespace at either end and a blank line, after any text holding no `Abstract`, read back exactly as the body, whatever follows |
| Cleaner.PlaceholderAtSpec | save_pdfs.py:34 | step 1 matches `n` characters at an offset exactly when they read `Figure<ws*><digits>:`, `Table<ws*><digits>:` or `refer to Figure<ws*><digits>` with the digits not followed by another digit |
| Cleaner.RemoveKeeps | save_pdfs.py:34 | characters at which no placeholder starts are copied unchanged |
| Cleaner.RemoveIdentity | save_pdfs.py:34 | a text in which no placeholder starts is left unchanged by step 1 |
| Cleaner.RemoveDeletesOne | save_pdfs.py:34 | a single placeholder is deleted and everything around it is kept |
| Cleaner.RemoveSinglePass | save_pdfs.py:34 | step 1 is one pass: on `FiTable 1:gure 2:` it returns `Figure 2:`, a placeholder formed by the deletion, which stays |
| Cleaner.MergeLineBreaksSpec | save_pdfs.py:38 | step 2 keeps the length and the visible characters, keeps exactly the newlines that belong to a run of two or more, leaves no lone newline and is idempotent |
| Cleaner.SectionBreaksInert | save_pdfs.py:45 | step 4 leaves a text without newlines unchanged |
| Cleaner.SectionBreaksBlank | save_pdfs.py:45 | on its own, step 4 turns two newlines separated only by whitespace into exactly `"\n\n"` |
| Cleaner.CleanTextSpec | save_pdfs.py:34-45 | the cleaned text is single-spaced with no whitespace at either end and no newline, step 4 changes nothing, and its visible characters are exactly those left by step 1, in order |
| Cleaner.CleanWhitespaceIdempotent | save_pdfs.py:38-45 | applying steps 2 to 4 again to the cleaned text returns it unchanged |
| Cleaner.LastSegmentSpec | save_pdfs.py:25 | `url.split('/')[-1]` is the part of the URL after its last `/`: it has no `/` and ends the URL |
| Cleaner.TextFileForSpec | save_pdfs.py:25 | the saved file is the URL's last segment plus `.txt`, directly inside the data folder |
| Cleaner.SaveTexts | save_pdfs.py:22-27 | the download loop writes each URL's text to its file in order, giving `SaveAll`: the folder gains exactly one file per distinct name |
| Cleaner.SaveAllLatest | save_pdfs.py:22-27 | a URL's file holds that URL's text unless a later URL writes the same file |
| Cleaner.SaveAllKeeps | save_pdfs.py:22-27 | a file no URL writes keeps its contents |
| Cleaner.CleanFolder | save_pdfs.py:53-55 | the cleaning loop gives `CleanAll`: the folder gains exactly `clean_` + name for every listed `.txt` file and nothing else |
| Cleaner.CleanAllFresh | save_pdfs.py:53-55 | on any folder, including one that already holds `clean_` copies from an earlier run: every file whose name does not start with `clean_` keeps its contents, and each such listed `.txt` file's copy is `clean_text` of its original contents |
| Cleaner.CleanedNameIsTxt | save_pdfs.py:54-55 | the cleaned copy of a `.txt` file is itself a `.txt` file |
| Cleaner.RerunCleansCopies | save_pdfs.py:53-55 | a later run that lists `clean_x.txt` writes `clean_clean_x.txt` |

## Left out

- Embeddings and FAISS (rag.py:11, rag.py:45-59, rag.py:73-74): building, writing, reading and L2 search are foreign libraries over floating point. Search is an oracle that returns positions. A stored index is modelled by the chunk texts it was built from.
- A stored index file that exists but cannot be read (rag.py:64) raises in FAISS; the model knows only an absent or a present index file.
- The Ollama client (rag.py:15, rag.py:92) is an oracle from prompt and options to a reply. The float option `repeat_penalty` is not modelled. A reply without a `response` key (a `KeyError`) is not modelled.
- Debug and status printing, and the `tqdm` progress bar, are left out.
- `os.listdir` (its order is unspecified), file reads and writes, and folder creation are left out. The listing is an input sequence and a folder is a map from path to contents.
- `arxiv_to_text` (save_pdfs.py:24) is an oracle from URL to text. `get_arxiv_pdf_links` (funcs.py) is an HTTP request plus HTML parsing and is not part of this model.
- paper_classification/article_scraper.py, main.py and configs.py are browser automation, LLM prompting, SQLite glue and constants. They are not part of this model.
- Cleaner.PlaceholderAtSpec: `\d` is the ASCII digits only. Python's `\d` also matches other Unicode decimal digits.
- Text decoding (UTF-8 errors when a file is read) is not modelled; texts are sequences of characters.
- `Document.text` is the text that text-mode `f.read()` returns, after Python's universal-newline translation has turned `"\r\n"` and `"\r"` into `"\n"`. The translation itself is not modelled.
- Cleaner.TextFileForSpec: `os.path.join` is modelled for POSIX paths only.
- Chunker.LoadTxtFiles: `chunk_size`, `overlap` and `context_length` are natural numbers. Negative values, which Python would read as slices from the end, are not modelled; the callers only use the positive defaults.
- An empty corpus that is rebuilt: encoding zero texts and building an index over them are library behaviour and are not modelled. Over no chunks, any hit raises (`Pipeline.RetrieveFromNothing`).
