# Punctuation fixer and resumable downloader, modelled in Dafny

This project models two maintenance scripts of a Bible-reader data set.

**`Formatting` (formatting.dfy)** models `scripts/fix_formatting.py`.
- It covers the Cyrillic letter class and the table of six punctuation patterns.
- `fix_text` applies each pattern once, in table order. It inserts a space after the punctuation mark and counts the matches per pattern name.
- `fix_json_file` rewrites a file only when something was fixed.
- `main` merges per-file counts into per-translation totals.
- `re.findall` and `re.sub` are modelled as the left-to-right, non-overlapping scan they perform (`CountMatches`, `Substitute`).
- The loop of `fix_text` is the method `FixText`. It is proved against the staged specification `FixStage` / `FixSpec`.
- The merge loop of `main` is the method `AddStats`. It is proved against the function `MergeCounts`.

**`Downloader` (downloader.dfy)** models `scripts/download_nrt_incremental.py`.
- It covers the three 66-entry book tables, `download_book`, and the resume/append/save loop of `main`.
- The network is a parameter `fetch`: a function from a (book, chapter) request to its response. A response is either a failure or an array of JSON objects.
- The progress file is a `ProgressFile` object. It has a presence flag and the saved books; `Load` and `Save` stand for `load_progress` and `save_progress`.
- The chapter-count and short-code tables are passed to the download logic as a `Catalogue` value. `NRT` is the script's own tables.
- `DownloadBook` and `Run`/`Resume` are loops proved against the functions `BookSpec`, `BooksFrom` and `RunSpec`. Lemmas about those functions state the promises of the script:
  - each saved book is complete and sits at its own index;
  - a run stops at the first failed book;
  - rerunning changes nothing;
  - interrupting and resuming gives the same books as one uninterrupted run.
- A ghost request log records the (book, chapter) requests in the order they are made. This lets the contracts state that:
  - books are fetched in strictly ascending order;
  - books already saved are never fetched again;
  - nothing is fetched once 66 books are saved.

## Model

| member | source | states |
|---|---|---|
| Formatting.IsCyrillic | scripts/fix_formatting.py:20 | The letter class holds А..Я, а..я, Ё and ё; every such letter lies in U+0401..U+0451, so none is a space, a punctuation lead or the em dash. |
| Formatting.PatternTable | scripts/fix_formatting.py:23-32 | The table holds six patterns, in this order: colon-dash, period, comma, semicolon, question, exclamation. The names are distinct. No replacement can create a new match of any pattern, because the inserted space is neither a lead nor a follower. |
| Formatting.CountMatches | scripts/fix_formatting.py:39 | The number of non-overlapping matches the scan finds is at most half the text length. |
| Formatting.Substitute | scripts/fix_formatting.py:41 | The substituted text is longer than the input by exactly the number of matches, and it starts with the same character. |
| Formatting.CountZeroIffNoMatch | scripts/fix_formatting.py:39-40 | The scan counts zero matches exactly when the pattern occurs at no position of the text. |
| Formatting.SubstituteClears | scripts/fix_formatting.py:25-41 | After a substitution, the pattern occurs nowhere in the result. |
| Formatting.SubstituteKeepsNoMatch | scripts/fix_formatting.py:38-41 | A substitution never creates an occurrence of a pattern that was absent, so later patterns cannot undo earlier ones. |
| Formatting.SubstituteKeepsOriginal | scripts/fix_formatting.py:25-41 | A substitution only inserts characters: the input is a subsequence of the output. |
| Formatting.SubstituteSplit | scripts/fix_formatting.py:41 | Across an adjacent pair that is not a match, substituting the whole text equals substituting both sides separately. |
| Formatting.SubstituteNoCount | scripts/fix_formatting.py:39-41 | A text in which the scan finds no match is returned unchanged by the substitution. |
| Formatting.SubstituteKeepsPair | scripts/fix_formatting.py:41 | At a given adjacent pair that is not a match, the output is the substituted text up to the pair's first character, still ending with it, directly followed by the substituted text from the second character, still starting with it. |
| Formatting.SubstituteInsertsSpaces | scripts/fix_formatting.py:25-41 | Every character a substitution adds is a space: the output's multiset of characters is the input's with exactly one space more per match. |
| Formatting.FixStage | scripts/fix_formatting.py:38-42 | The state after the first k patterns were applied in table order, each only when it matched. The text never gets shorter. |
| Formatting.FixSpec | scripts/fix_formatting.py:35-43 | What `fix_text` returns: the text after all six stages, which has none of the issues and is at least as long as the input. |
| Formatting.StageKeys | scripts/fix_formatting.py:39-42 | After k patterns, stats holds only names of the first k patterns, each with a count greater than 0. |
| Formatting.StageStats | scripts/fix_formatting.py:38-42 | Each pattern's recorded count equals the number of its matches in the text as it stood when that pattern was applied. A name that is not recorded had no matches. |
| Formatting.StageLength | scripts/fix_formatting.py:25-42 | The output is longer than the input by the sum of the recorded counts. |
| Formatting.StageKeepsOriginal | scripts/fix_formatting.py:38-43 | The input is a subsequence of the text after every stage. |
| Formatting.StageClears | scripts/fix_formatting.py:38-43 | After k stages, none of the first k patterns occurs in the text. |
| Formatting.StageEnds | scripts/fix_formatting.py:38-42 | Every stage keeps the first and the last character of the text in place. |
| Formatting.StageSplit | scripts/fix_formatting.py:38-43 | Across an adjacent pair that no pattern matches, the text after k stages is the staged left part directly followed by the staged right part. |
| Formatting.PunctuationBeforeOtherKept | scripts/fix_formatting.py:20-31 | At a given occurrence of one of `. , ; ? !` followed by a character that is not a Cyrillic letter, the fixed text is the fixed text up to the mark, still ending with it, directly followed by the fixed text from the next character, still starting with it: that occurrence stays unchanged and adjacent. |
| Formatting.StageInsertsSpaces | scripts/fix_formatting.py:38-42 | After k stages, the characters added are exactly as many spaces as the recorded counts add up to. |
| Formatting.StageOnClean | scripts/fix_formatting.py:37-43 | A text with none of the issues passes every stage unchanged, with empty statistics. |
| Formatting.StageUnrecorded | scripts/fix_formatting.py:40-42 | If the statistics are empty after a stage, no stage changed the text. |
| Formatting.ChangedIffRecorded | scripts/fix_formatting.py:37-43 | `fix_text` changes the text exactly when its statistics are non-empty. |
| Formatting.CleanTextUnchanged | scripts/fix_formatting.py:37-43 | A text with none of the issues is returned unchanged, with an empty statistics map. |
| Formatting.FixIdempotent | scripts/fix_formatting.py:35-43 | Fixing the output again returns that same output and an empty statistics map. |
| Formatting.FixText | scripts/fix_formatting.py:35-43 | The loop computes the staged specification, which applies each pattern once in table order. The result has none of the issues. Its length is the input length plus the total of the counts. The input is a subsequence of the result, and every added character is a space. Keys are pattern names with positive counts. The text is unchanged exactly when the statistics are empty. |
| Formatting.FixFile | scripts/fix_formatting.py:46-57 | The file is rewritten exactly when the statistics are non-empty, which is exactly when the content changes. The content afterwards is the fixed text and has none of the issues. |
| Formatting.MergeCounts | scripts/fix_formatting.py:71-72 | The merged names are those of either map. Each name's merged count is its running total plus the file's count, an absent name counting as 0 as with `.get(key, 0)`. |
| Formatting.MergeOrderIrrelevant | scripts/fix_formatting.py:82-83 | Adding two files' statistics to a total gives the same totals in either order. |
| Formatting.MergeAddsTotals | scripts/fix_formatting.py:71-72 | The merged total of any set of names is the old total plus the file's total. |
| Formatting.AddStats | scripts/fix_formatting.py:71-72 | Each key of the file's stats grows by exactly its count. Other keys keep their totals, the key set becomes the union, and other translations are unchanged. |
| Downloader.TablesCoverEveryBook | scripts/download_nrt_incremental.py:12-47 | The three tables each have exactly 66 entries, so every `b - 1` index for b in 1..66 is in bounds. |
| Downloader.VerseTexts | scripts/download_nrt_incremental.py:74 | The `text` fields of a chapter's elements, or none when one is missing; when found, one verse per element. |
| Downloader.VerseTextsMeaning | scripts/download_nrt_incremental.py:74 | The verses are found exactly when every element has a `text` field. Then there is one verse per element, and verse i is element i's `text`. |
| Downloader.FetchChapters | scripts/download_nrt_incremental.py:70-75 | Chapters 1..n requested in order, stopping at the first failure: a success holds n chapters, a failure names a chapter in 1..n. |
| Downloader.FetchChaptersMeaning | scripts/download_nrt_incremental.py:70-75 | Fetching chapters 1..n either yields n chapters, chapter c from request (book, c), or names the first failed chapter. Every earlier chapter succeeded. |
| Downloader.FailureSticks | scripts/download_nrt_incremental.py:70-75 | Once a chapter has failed, requesting further chapters does not change the outcome. |
| Downloader.BookSpec | scripts/download_nrt_incremental.py:65-80 | What `download_book` yields: a book with the book's own short code and exactly its chapter count, or the number of a failed chapter within that count. |
| Downloader.BookSpecMeaning | scripts/download_nrt_incremental.py:65-80 | A downloaded book has the book's own short code and exactly its chapter count, with chapter c from request (book, c). A failure names the first failed chapter. A book downloads exactly when all of its chapter requests succeed. |
| Downloader.DownloadBook | scripts/download_nrt_incremental.py:65-80 | The loop's result equals `BookSpec`. It requests (book, 1), (book, 2), … in order, up to the last chapter or the first failure. |
| Downloader.BooksFrom | scripts/download_nrt_incremental.py:93-107 | Given each book's download outcome, a run from `start` gets at most 67 - start books. The book right after the last one it got, if there is one, failed. |
| Downloader.BooksFromAt | scripts/download_nrt_incremental.py:93-103 | The i-th book a run from `start` gets is the successful outcome of book start + i. |
| Downloader.NextBook | scripts/download_nrt_incremental.py:99-107 | After the books before it, book start + i either ends the run (failure) or is its next book (success). |
| Downloader.RunSpec | scripts/download_nrt_incremental.py:84-107 | The books in memory at the end of a run. The loaded books are kept unchanged as a prefix, and a run that resumed never holds more than 66 books. |
| Downloader.RunLength | scripts/download_nrt_incremental.py:85-107 | The run holds the loaded books plus books L+1..n, all downloaded completely. Book n+1, if there is one, failed. |
| Downloader.AllBooksDownloaded | scripts/download_nrt_incremental.py:93-109 | If every remaining book downloads, the run ends with all 66 books. |
| Downloader.RunBookComplete | scripts/download_nrt_incremental.py:85-102 | Every book a run adds sits at index b - 1 and is complete: its short code, its chapter count, and its chapters from requests (b, c). |
| Downloader.RunIdempotent | scripts/download_nrt_incremental.py:84-107 | Running again with the same responses adds nothing. |
| Downloader.BooksFromResume | scripts/download_nrt_incremental.py:84-107 | Consider a partial run under one set of outcomes, then a run under another from where it stopped. Together they get what one run under the second set gets, provided the two agree on the books already got. |
| Downloader.RunSpecFrom | scripts/download_nrt_incremental.py:84-93 | A run appends to the loaded books what a run from book len+1 gets. |
| Downloader.ResumeMatchesUninterrupted | scripts/download_nrt_incremental.py:84-107 | Interrupting at a failure and resuming later loses and repeats nothing. The result is what one uninterrupted run would give. |
| Downloader.AppendAscending | scripts/download_nrt_incremental.py:93-100 | Appending a later book's requests keeps the request log strictly ascending and within its book bounds. |
| Downloader.ProgressFile.Load | scripts/download_nrt_incremental.py:50-55 | Loading yields the saved books, or none when the file is absent. |
| Downloader.ProgressFile.Save | scripts/download_nrt_incremental.py:58-62 | Saving overwrites the whole file with the given books. |
| Downloader.Resume | scripts/download_nrt_incremental.py:93-107 | The loop ends with `loaded` followed by the books a run from len+1 gets. The file equals the in-memory list once a book was appended, and is untouched otherwise. Every request is for a book after the loaded ones, and the requests ascend strictly, starting at (len+1, 1). |
| Downloader.Run | scripts/download_nrt_incremental.py:83-107 | Resumes at book len(loaded)+1 and ends with `RunSpec`. The saved file equals the in-memory list whenever a book was added, and is unchanged otherwise. With 66 or more books loaded nothing is fetched. Loaded books are never re-fetched, and requests ascend strictly by book and then chapter. |

## Left out

- HTTP access (`urllib.request.urlopen` and the URL) is replaced by the parameter `fetch`. A request that raises is the response `Failed`: a network or HTTP error, undecodable JSON, or a JSON value whose iteration at line 74 raises (a number, `null`, a non-empty object or string, an array holding something other than objects). An array of objects is `Body(items)`. An empty JSON object `{}` or an empty string `""` iterates as nothing and gives an empty chapter without an error; it is the response `Body([])`.
- An element without a `text` field raises `KeyError` at line 74. In the model this is not a `Failed` response: `VerseTexts` returns `None`, and `FetchChapters` treats that chapter as failed, just as the script's `except` does.
- JSON objects are modelled as `map<string, string>`, and the progress file's contents as a sequence of `Book` values. A `text` value that is not a string (a number, `null`, an object) is kept as it is by the script; such values are outside this abstraction. JSON parsing and serialisation are not part of this model.
- `fetch` is a function, so within one run the same request always gets the same response. Responses that change between runs are modelled by two different sources (`ResumeMatchesUninterrupted`).
- `Save` always succeeds. In the script, a failure while writing the progress file is caught by the same `except`. The book is then already in the in-memory list but possibly not on disk.
- The download functions take the chapter-count and short-code tables as a `Catalogue` parameter instead of reading module constants. `NRT` holds the script's tables, and `TablesCoverEveryBook` shows that they cover every book. This keeps the large literal tables out of the loop proofs.
- `BOOK_NAMES` is only used in progress messages. It is modelled as a table and its length is proved, but nothing else uses it.
- All `print` output is not part of this model. That includes the summary of `fix_formatting.py` (grand total, sorting by count) and the progress messages.
- The file size in megabytes is floating point and is not part of this model.
- Directory handling is not part of this model: `Path.glob`, `sorted`, `exists`, `os.makedirs` and reading and writing file contents. `FixFile` takes the content as a string and returns the content the file holds afterwards.
- The iteration of `fix_formatting.main` over translations and files is not modelled. Only its merge step is modelled (`AddStats`), and only for a translation already present in the totals, as `main` guarantees.
- Run: the first-request clause assumes the first missing book has at least one chapter. For `NRT` every count is positive, but that is not proved here.
