# Ranking PDF pages against a persona and task — a Dafny model of `stripe.py`

`stripe.py` reads every PDF in a fixed list of folders. It turns each page
with text into a chunk `{document, page, text}` and scores every chunk of
the document against the query `"<persona> <task>"`. It writes at most ten
of the best chunks, highest score first, to `<stem>_output.json`, together
with the persona, the task and the source file name.

This project models the logic around the foreign calls:

- **Extraction** (`Extraction`, `extract_text_chunks`). The PDF is the
  sequence of page texts the reader delivered. Pages are numbered from 1 and
  each text is stripped as Python's `str.strip()` does. Blank pages are
  dropped. Every chunk is tagged with the file's base name. The loop that
  appends chunks is a method proved equal to the function `PageChunks`.
- **Ranking** (`Ranking`, `rank_chunks`). The scoring loop writes score `i`
  into chunk `i` of an array, in place. The chunks are then sorted stably by
  score, highest first, and cut to at most ten. Scores have an abstract type
  `S`. The lemmas require its comparison to be a strict total order. The
  similarity measure is an opaque function.
- **Result and file selection** (`Pipeline`, `process_pdf` and `main`).
  `process_pdf` yields no result exactly when every page is blank. Otherwise
  it yields the metadata and the ranked sections. `main` processes only
  entries whose lower-cased name ends in `.pdf`, and names each output file
  with `splitext`'s stem plus `_output.json`. `Run` returns the writes in
  order, and `RunOutputsIff` says exactly which writes occur.
- **Names** (`Strings`, `Paths`). These model `strip`, the `.pdf` test,
  `os.path.basename`, `os.path.join` and `os.path.splitext` with POSIX
  semantics. That includes `splitext`'s rule for leading dots: `.pdf` has
  no extension, so its output file is `.pdf_output.json`.

A file that cannot be opened gives an empty chunk list. A reader error
partway through a document keeps the chunks already appended, because
`chunks` lives outside the `try` (`PageChunksPrefix`). The script ranks each
document on its own. When no configured folder exists, it writes nothing
(`RunAllMissing`).

## Model

| member | source | states |
|---|---|---|
| Strings.SkipSpaceForward | stripe.py:27 | the forward scan of `strip()` stops at the first character that is not whitespace, or at the end, and skips only whitespace |
| Strings.SkipSpaceBack | stripe.py:27 | the backward scan of `strip()` never passes the start bound, skips only whitespace, and stops after a character that is not whitespace or at the bound |
| Strings.Strip | stripe.py:27 | `strip()` leaves no whitespace at either end, and its result is empty exactly when the text is all whitespace |
| Strings.StripKeepsMiddle | stripe.py:27 | `strip()` keeps one contiguous piece of the text, and only whitespace surrounds it |
| Strings.StripIdempotent | stripe.py:27 | stripping a stripped text changes nothing |
| Paths.LastIndex | stripe.py:30 | `rfind`: the index of the last occurrence of the character, or -1 when it does not occur |
| Paths.BasenameOfJoin | stripe.py:76 | the base name of a folder joined with an entry name that has no `/` is that entry name, so `source` and `document` are the entry's name |
| Paths.SkipDots | stripe.py:81 | the leading-dot scan of `splitext` skips only dots and stops at the first character that is not one, or at the bound |
| Paths.Splitext | stripe.py:81 | the stem and the extension concatenate back to the name; an extension is empty or a single dot-led component with no further dot |
| Paths.SplitextIff | stripe.py:81 | an extension is split off exactly when the name has a last `.` with no `.` after it and, within the last path component, some character other than `.` before it; so leading dots stay in the stem |
| Paths.PdfNameIff | stripe.py:73 | `name.lower().endswith(".pdf")` holds exactly when the last four characters are `.` then `p`, `d`, `f` in either case |
| Paths.PdfOutputName | stripe.py:81-82 | for a name that passes the filter, the output name is the name minus its last four characters plus `_output.json`; when only dots precede the extension, the whole name is kept |
| Extraction.ExtractTextChunks | stripe.py:22-36 | the page loop builds exactly `PageChunks` of the file's base name and the pages read |
| Extraction.PageChunksSound | stripe.py:26-33 | there are at most as many chunks as pages; each chunk has the document's name and no score yet; its page number p lies in 1..pages; its text is the stripped text of page p, not empty and already stripped |
| Extraction.PageChunksInRange | stripe.py:26 | every page number lies between 1 and the page count |
| Extraction.PageChunksIncreasing | stripe.py:26-29 | page numbers strictly increase along the chunk list |
| Extraction.PageChunksComplete | stripe.py:27-33 | every page whose stripped text is not empty has a chunk with its 1-based number |
| Extraction.PageChunksEmptyIff | stripe.py:26-28 | no chunk at all exactly when every page is blank |
| Extraction.PageChunksPrefix | stripe.py:23-36 | the chunks of the pages read before a failure are a prefix of the chunks of the whole document |
| Ranking.Insert | stripe.py:46 | insertion yields a permutation of the sequence plus the new chunk, with every chunk scored |
| Ranking.SortDesc | stripe.py:46 | the sort yields a permutation of its input |
| Ranking.RankChunks | stripe.py:38-46 | after the loop, chunk i carries score i of the similarity of the query and the corpus, and its document, page and text are unchanged; the return value is `Rank` of the chunks and those scores |
| Ranking.InsertSorted | stripe.py:46 | inserting into a non-increasing sequence keeps it non-increasing |
| Ranking.SortDescSorted | stripe.py:46 | the sorted sequence is non-increasing by score |
| Ranking.InsertScoreClass | stripe.py:46 | insertion puts the new chunk first among the chunks of its own score and leaves other score classes unchanged |
| Ranking.SortDescStable | stripe.py:46 | for every score value, the chunks with that score appear in the same order as in the input (stability under `reverse=True`) |
| Ranking.RankMember | stripe.py:44-46 | every returned chunk is some input chunk j with score j written in |
| Ranking.RankSize | stripe.py:43-46 | the result has min(10, n) chunks and is a prefix of a permutation of the scored input, so each returned chunk is input chunk j with score j written in |
| Ranking.RankSorted | stripe.py:46 | the returned chunks are non-increasing by score |
| Ranking.RankTop | stripe.py:46 | `sorted(...)[:10]` keeps the best chunks: no scored input chunk left out of the result has a higher score than any returned chunk |
| Ranking.RankStable | stripe.py:46 | for every score value, the returned chunks with that score are an initial part, in input order, of the input chunks with that score |
| Ranking.RankAtPage | stripe.py:44-46 | when pages are pairwise distinct, the returned chunk that has input chunk i's page is chunk i with score i written in |
| Ranking.RankKeepsTieOrder | stripe.py:46 | if chunks i < j have the same score and both are returned, i is returned before j |
| Ranking.RankTiesByPage | stripe.py:46 | for input chunks in strictly increasing page order, returned chunks with equal scores appear in page order |
| Pipeline.ProcessPdf | stripe.py:48-62 | `process_pdf`, with the chunk list ranked in place in an array, returns exactly `ProcessResult` |
| Pipeline.ProcessResultShape | stripe.py:49-62 | the result is absent exactly when every page is blank; otherwise the metadata holds the configured persona and task and the file's base name, and there are 1 to 10 sections, each a scored chunk of that document holding the stripped text of its page |
| Pipeline.ProcessResultSorted | stripe.py:54 | the sections of a result are non-increasing by score |
| Pipeline.ProcessResultTop | stripe.py:54 | the sections are the best-scoring chunks of the document: no chunk of the document that is not a section scores higher than any section |
| Pipeline.ProcessResultTiesByPage | stripe.py:54 | sections with equal scores appear in the order of their pages |
| Pipeline.ProcessEntry | stripe.py:73-86 | one entry of a folder gives exactly `EntryOutput`: nothing for a name that fails the `.pdf` filter or a document without text, otherwise the one write under the derived name |
| Pipeline.ProcessFolder | stripe.py:72-86 | the loop over a folder's entries performs exactly `FolderOutputs`, the entries' writes in listing order |
| Pipeline.Run | stripe.py:64-86 | the loops over folders and entries perform exactly the writes `RunOutputs`, in order |
| Pipeline.RunOutputsIff | stripe.py:67-82 | a write occurs exactly when an entry of an existing folder passes the `.pdf` filter and yields a result; that result is written under `<stem>_output.json` in the output directory |
| Pipeline.RunAllMissing | stripe.py:67-70 | when no configured folder exists, nothing is written |
| Pipeline.ProducedFor | stripe.py:76-82 | a written record names the entry as `source` and as every section's `document`, has 1 to 10 sections, and goes to the entry's stem plus `_output.json` |

## Left out

- PDF parsing (`fitz.open`, `page.get_text()`) is a foreign library. A document is the page texts it yields before it stops. The error flag only leads to a log line.
- TF-IDF vectorisation and cosine similarity are foreign (scikit-learn) floating-point code. The score of text i is an opaque function of the query, the corpus and i. Its range [0, 1], zero scores for texts with no shared terms, and scikit-learn's `ValueError` on an empty vocabulary are not modelled. On zero chunks `Rank` returns `[]`, whereas `rank_chunks([])` would pass an empty matrix to `cosine_similarity`; `process_pdf` never calls it that way.
- Floating-point scores are an abstract type. The ordering lemmas require a strict total order. Python's `<` on floats without NaN is one only once values that compare `==` are taken as one score: `-0.0` and `0.0` are distinct floats that neither precedes, and `json.dump` prints them differently. The model does not tell them apart.
- Filesystem and output are not modelled: `os.makedirs`, `os.path.exists`, `os.listdir`, `open`/`json.dump` (indentation, UTF-8, `ensure_ascii=False`) and every `print`. A folder arrives already classified as missing or present with its entries. A write is a (path, record) pair. When two folders hold the same file name, the later write replaces the earlier file; the model lists both writes and does not model the final file contents.
- The module globals `BASE_DIR`, `PDF_FOLDERS`, `OUTPUT_DIR`, `PERSONA` and `TASK` become a `Config` value and the folder list, passed in. The script's entry guard is not modelled, and neither is the top-level `_file_` / `_name_` spelling (both would raise `NameError`).
- Aliasing is not modelled. `rank_chunks` mutates the caller's chunk dictionaries, and the returned sections are those same objects. The model copies the chunk values into a fresh array and returns values.
- Strings.LowerChar: maps only `A`–`Z`. Python's `str.lower()` maps all of Unicode, but on whether the result ends in `.pdf` the two agree: no other character lowers to `.`, `p`, `d` or `f`.
- Paths.Join: models `os.path.join` with two arguments only, which is all the script uses.
- Ranking.RankKeepsTieOrder: stated only for inputs whose page numbers are pairwise distinct. Chunks of one document always are (`PageChunksIncreasing`), and `ProcessResultTiesByPage` draws the consequence for `process_pdf`'s sections. For arbitrary inputs, `RankStable` states stability for score classes.
- Ranking.RankSorted, Ranking.RankTop: like every ordering lemma, it requires the score comparison to be a strict total order.
