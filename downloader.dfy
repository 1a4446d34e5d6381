/**
 * The resumable downloader of a 66-book translation.
 *
 * The progress file holds the books completed so far, in order. A run loads
 * it, resumes with the first book it does not hold, downloads each book
 * chapter by chapter, appends the finished book and rewrites the whole
 * progress file after every book. The first failed request ends the run;
 * the book being downloaded is then dropped entirely, and the file keeps
 * every book completed before it.
 *
 * The remote source is a parameter: a function from (book, chapter) to the
 * response of that request. The progress file is an object whose fields
 * stand for the file's presence and its contents. The per-book tables are
 * a parameter too (a Catalogue); NRT holds this translation's own tables,
 * and nothing in the download logic depends on their particular values.
 */
module Downloader {

  datatype Option<T> = None | Some(value: T)

  const BOOK_COUNT: nat := 66

  /** Number of chapters of book b, at index b - 1. */
  const CHAPTERS_PER_BOOK: seq<nat> := [
    50, 40, 27, 36, 34, 24, 21, 4, 31, 24,
    22, 25, 29, 36, 10, 13, 10, 42, 150, 31,
    12, 8, 66, 52, 5, 48, 12, 14, 3, 9,
    1, 4, 7, 3, 3, 3, 2, 14, 4,
    28, 16, 24, 21, 28, 16, 16, 13, 6, 6,
    4, 4, 5, 3, 6, 4, 3, 1, 13, 5,
    5, 3, 5, 1, 1, 1, 22
  ]

  /** Short code of book b, at index b - 1. */
  const BOOK_ABBREVS: seq<string> := [
    "gn", "ex", "lv", "nm", "dt", "js", "jud", "rt", "1sm", "2sm",
    "1kgs", "2kgs", "1ch", "2ch", "ezr", "ne", "et", "job", "ps", "prv",
    "ec", "so", "is", "jr", "lm", "ez", "dn", "ho", "jl", "am",
    "ob", "jn", "mi", "na", "hk", "zp", "hg", "zc", "ml",
    "mt", "mk", "lk", "jo", "act", "rm", "1co", "2co", "gl", "eph",
    "ph", "cl", "1ts", "2ts", "1tm", "2tm", "tt", "phm", "hb", "jm",
    "1pe", "2pe", "1jo", "2jo", "3jo", "jd", "re"
  ]

  /** Display name of book b, at index b - 1. */
  const BOOK_NAMES: seq<string> := [
    "Бытие", "Исход", "Левит", "Числа", "Второзаконие",
    "Иисус Навин", "Судьи", "Руфь", "1 Царств", "2 Царств",
    "3 Царств", "4 Царств", "1 Паралипоменон", "2 Паралипоменон", "Ездра",
    "Неемия", "Есфирь", "Иов", "Псалтирь", "Притчи",
    "Екклесиаст", "Песня Песней", "Исаия", "Иеремия", "Плач Иеремии",
    "Иезекииль", "Даниил", "Осия", "Иоиль", "Амос",
    "Авдий", "Иона", "Михей", "Наум", "Аввакум",
    "Софония", "Аггей", "Захария", "Малахия",
    "Матфея", "Марка", "Луки", "Иоанна", "Деяния",
    "Римлянам", "1 Коринфянам", "2 Коринфянам", "Галатам", "Ефесянам",
    "Филиппийцам", "Колоссянам", "1 Фессалоникийцам", "2 Фессалоникийцам", "1 Тимофею",
    "2 Тимофею", "Титу", "Филимону", "Евреям", "Иакова",
    "1 Петра", "2 Петра", "1 Иоанна", "2 Иоанна", "3 Иоанна",
    "Иуды", "Откровение"
  ]

  /** Every book number 1..66 indexes all three tables. */
  lemma TablesCoverEveryBook()
    ensures |CHAPTERS_PER_BOOK| == |BOOK_ABBREVS| == |BOOK_NAMES| == BOOK_COUNT
    ensures NRT.Covers()
  {
  }

  /** The book tables a run works from: chapter counts and short codes,
      entry b - 1 describing book b. */
  datatype Catalogue = Catalogue(chapters: seq<nat>, abbrevs: seq<string>) {
    /** One entry per book. */
    predicate Covers() {
      |chapters| == BOOK_COUNT && |abbrevs| == BOOK_COUNT
    }
  }

  /** The tables of this translation. */
  const NRT: Catalogue := Catalogue(CHAPTERS_PER_BOOK, BOOK_ABBREVS)

  /** One element of a response array: a JSON object with string fields. */
  type JsonObject = map<string, string>

  /** The outcome of one chapter request: a request that raised (network,
      HTTP status, unparsable JSON, or JSON that cannot be iterated as
      objects), or the elements iterated over. An empty JSON object or an
      empty string iterates as no elements and is `Body([])`. */
  datatype Response = Failed | Body(items: seq<JsonObject>)

  /** The remote source: the response to the request for (book, chapter). */
  type Fetch = (nat, nat) -> Response

  datatype Book = Book(abbrev: string, chapters: seq<seq<string>>)

  /** The `text` field of every element, in order; a missing field is a
      failure (see VerseTextsMeaning). */
  function VerseTexts(items: seq<JsonObject>): (r: Option<seq<string>>)
    ensures r.Some? ==> |r.value| == |items|
  {
    if items == [] then Some([])
    else if "text" !in items[0] then None
    else match VerseTexts(items[1..])
      case None => None
      case Some(rest) => Some([items[0]["text"]] + rest)
  }

  /** The verses are found exactly when every element has a `text` field,
      and then they are those fields, one per element, in order. */
  lemma {:induction false} VerseTextsMeaning(items: seq<JsonObject>)
    ensures var r := VerseTexts(items);
      && (r.Some? <==> forall i :: 0 <= i < |items| ==> "text" in items[i])
      && (r.Some? ==> |r.value| == |items| && forall i :: 0 <= i < |items| ==> r.value[i] == items[i]["text"])
  {
    if items != [] {
      VerseTextsMeaning(items[1..]);
      assert forall i :: 1 <= i < |items| ==> items[i] == items[1..][i - 1];
    }
  }

  /** The verses of one chapter, or None when its request failed. */
  function ChapterVerses(resp: Response): Option<seq<string>> {
    match resp
    case Failed => None
    case Body(items) => VerseTexts(items)
  }

  /** A download result: the value, or the number of the chapter whose
      request failed. */
  datatype Attempt<T> = Got(value: T) | FailedAt(chapter: nat)

  /** Chapters 1..n of `book`, requested in ascending order and stopping at
      the first failure (see FetchChaptersMeaning). */
  function FetchChapters(fetch: Fetch, book: nat, n: nat): (r: Attempt<seq<seq<string>>>)
    ensures r.Got? ==> |r.value| == n
    ensures r.FailedAt? ==> 1 <= r.chapter <= n
  {
    if n == 0 then Got([])
    else match FetchChapters(fetch, book, n - 1)
      case FailedAt(c) => FailedAt(c)
      case Got(chapters) =>
        match ChapterVerses(fetch(book, n))
        case None => FailedAt(n)
        case Some(verses) => Got(chapters + [verses])
  }

  /** Fetching chapters 1..n either yields n chapters, chapter c being the
      verses of request (book, c), or names the first chapter whose request
      failed, every earlier one having succeeded. */
  lemma {:induction false} FetchChaptersMeaning(fetch: Fetch, book: nat, n: nat)
    ensures var r := FetchChapters(fetch, book, n);
      && (r.Got? ==> |r.value| == n)
      && (r.Got? ==> forall c :: 1 <= c <= n ==> ChapterVerses(fetch(book, c)) == Some(r.value[c - 1]))
      && (r.FailedAt? ==> 1 <= r.chapter <= n && ChapterVerses(fetch(book, r.chapter)).None?)
      && (r.FailedAt? ==> forall c :: 1 <= c < r.chapter ==> ChapterVerses(fetch(book, c)).Some?)
  {
    if n > 0 {
      FetchChaptersMeaning(fetch, book, n - 1);
    }
  }

  /** Once a chapter has failed, requesting further chapters is never
      reached: the outcome stays the same failure. */
  lemma {:induction false} FailureSticks(fetch: Fetch, book: nat, m: nat, n: nat)
    requires m <= n && FetchChapters(fetch, book, m).FailedAt?
    ensures FetchChapters(fetch, book, n) == FetchChapters(fetch, book, m)
    decreases n - m
  {
    if m < n {
      FailureSticks(fetch, book, m, n - 1);
    }
  }

  /** What downloading `book` yields: the whole book, or the first failing
      chapter (see BookSpecMeaning). */
  function BookSpec(fetch: Fetch, cat: Catalogue, book: nat): (r: Attempt<Book>)
    requires cat.Covers() && 1 <= book <= BOOK_COUNT
    ensures r.Got? ==> r.value.abbrev == cat.abbrevs[book - 1] && |r.value.chapters| == cat.chapters[book - 1]
    ensures r.FailedAt? ==> 1 <= r.chapter <= cat.chapters[book - 1]
  {
    match FetchChapters(fetch, book, cat.chapters[book - 1])
    case Got(chapters) => Got(Book(cat.abbrevs[book - 1], chapters))
    case FailedAt(c) => FailedAt(c)
  }

  /** A downloaded book carries its own short code and exactly its number of
      chapters, chapter c being the verses of request (book, c); a failed
      download names the first chapter whose request failed. A book is
      downloaded exactly when every one of its requests succeeds. */
  lemma BookSpecMeaning(fetch: Fetch, cat: Catalogue, book: nat)
    requires cat.Covers() && 1 <= book <= BOOK_COUNT
    ensures var r := BookSpec(fetch, cat, book);
      && (r.Got? ==> r.value.abbrev == cat.abbrevs[book - 1])
      && (r.Got? ==> |r.value.chapters| == cat.chapters[book - 1])
      && (r.Got? ==> forall c :: 1 <= c <= |r.value.chapters| ==>
            ChapterVerses(fetch(book, c)) == Some(r.value.chapters[c - 1]))
      && (r.FailedAt? ==> 1 <= r.chapter <= cat.chapters[book - 1])
      && (r.FailedAt? ==> ChapterVerses(fetch(book, r.chapter)).None?)
      && (r.FailedAt? ==> forall c :: 1 <= c < r.chapter ==> ChapterVerses(fetch(book, c)).Some?)
      && (r.Got? <==> forall c :: 1 <= c <= cat.chapters[book - 1] ==> ChapterVerses(fetch(book, c)).Some?)
  {
    FetchChaptersMeaning(fetch, book, cat.chapters[book - 1]);
  }

  /** The requests (book, 1), ..., (book, n), in this order. */
  function ChapterRequests(book: nat, n: nat): seq<(nat, nat)> {
    seq(n, i => (book, i + 1))
  }

  /** `download_book`: request chapters 1, 2, ... of `book` in order and
      collect their verses; the first failed request abandons the book. The
      ghost `requests` lists the requests made, in order. */
  method DownloadBook(fetch: Fetch, cat: Catalogue, book: nat) returns (r: Attempt<Book>, ghost requests: seq<(nat, nat)>)
    requires cat.Covers() && 1 <= book <= BOOK_COUNT
    ensures r == BookSpec(fetch, cat, book)
    ensures requests == ChapterRequests(book, if r.Got? then |r.value.chapters| else r.chapter)
    ensures cat.chapters[book - 1] > 0 ==> |requests| > 0
  {
    var count := cat.chapters[book - 1];
    var chapters := [];
    requests := [];
    for ch := 1 to count + 1
      invariant FetchChapters(fetch, book, ch - 1) == Got(chapters)
      invariant |chapters| == ch - 1
      invariant requests == ChapterRequests(book, ch - 1)
    {
      requests := requests + [(book, ch)];
      var response := fetch(book, ch);
      var verses := ChapterVerses(response);
      if verses.None? {
        FailureSticks(fetch, book, ch, count);
        return FailedAt(ch), requests;
      }
      chapters := chapters + [verses.value];
    }
    r := Got(Book(cat.abbrevs[book - 1], chapters));
  }

  /** The outcome of downloading each book, book b at index b - 1. */
  function Outcomes(fetch: Fetch, cat: Catalogue): (r: seq<Attempt<Book>>)
    requires cat.Covers()
    ensures |r| == BOOK_COUNT
  {
    seq(BOOK_COUNT, i requires 0 <= i < BOOK_COUNT => BookSpec(fetch, cat, i + 1))
  }

  lemma OutcomeOf(fetch: Fetch, cat: Catalogue, b: nat)
    requires cat.Covers() && 1 <= b <= BOOK_COUNT
    ensures Outcomes(fetch, cat)[b - 1] == BookSpec(fetch, cat, b)
  {
  }

  /** The books a run gets when it starts at book `start`, given the outcome
      of every book's download: books start, start + 1, ... up to the first
      failing one or book 66. */
  function BooksFrom(outcomes: seq<Attempt<Book>>, start: nat): (r: seq<Book>)
    requires |outcomes| == BOOK_COUNT && 1 <= start <= BOOK_COUNT + 1
    ensures |r| <= BOOK_COUNT + 1 - start
    ensures start + |r| <= BOOK_COUNT ==> outcomes[start + |r| - 1].FailedAt?
    decreases BOOK_COUNT + 1 - start
  {
    if start > BOOK_COUNT then []
    else match outcomes[start - 1]
      case FailedAt(_) => []
      case Got(book) => [book] + BooksFrom(outcomes, start + 1)
  }

  /** The i-th book a run starting at `start` gets is book start + i,
      downloaded completely. */
  lemma {:induction false} BooksFromAt(outcomes: seq<Attempt<Book>>, start: nat, i: nat)
    requires |outcomes| == BOOK_COUNT && 1 <= start <= BOOK_COUNT + 1 && i < |BooksFrom(outcomes, start)|
    ensures outcomes[start + i - 1] == Got(BooksFrom(outcomes, start)[i])
    decreases i
  {
    var first := outcomes[start - 1];
    assert first.Got? && BooksFrom(outcomes, start) == [first.value] + BooksFrom(outcomes, start + 1);
    if i > 0 {
      BooksFromAt(outcomes, start + 1, i - 1);
    }
  }

  /** Book start + i, reached after the run's first i books, either ends
      the run's books there (a failure) or is its i-th book (a success). */
  lemma NextBook(outcomes: seq<Attempt<Book>>, start: nat, i: nat)
    requires |outcomes| == BOOK_COUNT && 1 <= start && start + i <= BOOK_COUNT
    requires i <= |BooksFrom(outcomes, start)|
    ensures outcomes[start + i - 1].FailedAt? ==> |BooksFrom(outcomes, start)| == i
    ensures outcomes[start + i - 1].Got? ==>
      i < |BooksFrom(outcomes, start)| && BooksFrom(outcomes, start)[i] == outcomes[start + i - 1].value
  {
    if i < |BooksFrom(outcomes, start)| {
      BooksFromAt(outcomes, start, i);
    }
  }

  /** The books held in memory at the end of a run that loaded `loaded`. */
  function RunSpec(fetch: Fetch, cat: Catalogue, loaded: seq<Book>): (r: seq<Book>)
    requires cat.Covers()
    ensures |loaded| <= |r| && r[..|loaded|] == loaded
    ensures |loaded| < BOOK_COUNT ==> |r| <= BOOK_COUNT
  {
    if |loaded| >= BOOK_COUNT then loaded else loaded + BooksFrom(Outcomes(fetch, cat), |loaded| + 1)
  }

  /** A run ends at the first book that fails to download: it holds the
      loaded books followed by books |loaded| + 1 .. n, each downloaded
      completely, and book n + 1, if there is one, failed. */
  lemma RunLength(fetch: Fetch, cat: Catalogue, loaded: seq<Book>)
    requires cat.Covers() && |loaded| < BOOK_COUNT
    ensures var n := |RunSpec(fetch, cat, loaded)|;
      && |loaded| <= n <= BOOK_COUNT
      && (forall b :: |loaded| < b <= n ==> BookSpec(fetch, cat, b).Got?)
      && (n < BOOK_COUNT ==> BookSpec(fetch, cat, n + 1).FailedAt?)
  {
    var start := |loaded| + 1;
    var outcomes := Outcomes(fetch, cat);
    var n := |RunSpec(fetch, cat, loaded)|;
    forall b | |loaded| < b <= n
      ensures BookSpec(fetch, cat, b).Got?
    {
      BooksFromAt(outcomes, start, b - start);
      OutcomeOf(fetch, cat, b);
    }
    if n < BOOK_COUNT {
      OutcomeOf(fetch, cat, n + 1);
    }
  }

  /** When every remaining book downloads, the run ends with all 66. */
  lemma AllBooksDownloaded(fetch: Fetch, cat: Catalogue, loaded: seq<Book>)
    requires cat.Covers() && |loaded| <= BOOK_COUNT
    requires forall b :: |loaded| < b <= BOOK_COUNT ==> BookSpec(fetch, cat, b).Got?
    ensures |RunSpec(fetch, cat, loaded)| == BOOK_COUNT
  {
  }


  /** Book b, when a run adds it, sits at index b - 1 and was downloaded
      completely: its short code, its number of chapters, and chapter c
      holding the verses of request (b, c). This is what lets a later run
      resume with book |books| + 1. */
  lemma RunBookComplete(fetch: Fetch, cat: Catalogue, loaded: seq<Book>, b: nat)
    requires cat.Covers() && |loaded| < b <= |RunSpec(fetch, cat, loaded)|
    ensures var book := RunSpec(fetch, cat, loaded)[b - 1];
      && book.abbrev == cat.abbrevs[b - 1]
      && |book.chapters| == cat.chapters[b - 1]
      && forall c :: 1 <= c <= |book.chapters| ==> ChapterVerses(fetch(b, c)) == Some(book.chapters[c - 1])
  {
    var start := |loaded| + 1;
    BooksFromAt(Outcomes(fetch, cat), start, b - start);
    OutcomeOf(fetch, cat, b);
    BookSpecMeaning(fetch, cat, b);
  }

  /** Running again with the same responses changes nothing: the book that
      stopped the first run stops the second before anything is added. */
  lemma RunIdempotent(fetch: Fetch, cat: Catalogue, loaded: seq<Book>)
    requires cat.Covers()
    ensures RunSpec(fetch, cat, RunSpec(fetch, cat, loaded)) == RunSpec(fetch, cat, loaded)
  {
  }


  /** A run from `lo` under outcomes `first`, followed by a run under
      `second` from where the first stopped, yields what one run under
      `second` yields, provided the two agree on the books `first` got. */
  lemma {:induction false} BooksFromResume(first: seq<Attempt<Book>>, second: seq<Attempt<Book>>, lo: nat)
    requires |first| == |second| == BOOK_COUNT && 1 <= lo <= BOOK_COUNT + 1
    requires forall i :: lo - 1 <= i < lo - 1 + |BooksFrom(first, lo)| ==> second[i] == first[i]
    ensures BooksFrom(first, lo) + BooksFrom(second, lo + |BooksFrom(first, lo)|) == BooksFrom(second, lo)
    decreases BOOK_COUNT + 1 - lo
  {
    var got := BooksFrom(first, lo);
    if lo <= BOOK_COUNT && first[lo - 1].Got? {
      var rest := BooksFrom(first, lo + 1);
      assert got == [first[lo - 1].value] + rest;
      assert second[lo - 1] == first[lo - 1];
      BooksFromResume(first, second, lo + 1);
    } else {
      assert got == [];
    }
  }

  /** A run on `books` appends what a run from book |books| + 1 gets. */
  lemma RunSpecFrom(fetch: Fetch, cat: Catalogue, books: seq<Book>)
    requires cat.Covers() && |books| <= BOOK_COUNT
    ensures RunSpec(fetch, cat, books) == books + BooksFrom(Outcomes(fetch, cat), |books| + 1)
  {
  }


  /** Interrupting a run and resuming it loses and repeats nothing: when a
      run under `first` stops at a failure and a later run under `second`
      resumes from the saved books, the result is what a single run under
      `second` would have produced, as long as `second` would have
      downloaded the books `first` added in the same way. */
  lemma ResumeMatchesUninterrupted(first: Fetch, second: Fetch, cat: Catalogue, loaded: seq<Book>)
    requires cat.Covers()
    requires forall b :: |loaded| < b <= |RunSpec(first, cat, loaded)| ==> BookSpec(second, cat, b) == BookSpec(first, cat, b)
    ensures RunSpec(second, cat, RunSpec(first, cat, loaded)) == RunSpec(second, cat, loaded)
  {
    if |loaded| < BOOK_COUNT {
      var start := |loaded| + 1;
      var one, two := Outcomes(first, cat), Outcomes(second, cat);
      var got := BooksFrom(one, start);
      assert RunSpec(first, cat, loaded) == loaded + got;
      OutcomesAgree(first, second, cat, start, start + |got|);
      BooksFromResume(one, two, start);
      var after := BooksFrom(two, start + |got|);
      assert |loaded + got| + 1 == start + |got|;
      RunSpecFrom(second, cat, loaded + got);
      RunSpecFrom(second, cat, loaded);
      AppendAssociative(loaded, got, after);
    }
  }

  lemma AppendAssociative(a: seq<Book>, b: seq<Book>, c: seq<Book>)
    ensures (a + b) + c == a + (b + c)
  {
  }

  /** Two sources that download books lo .. hi - 1 alike have the same
      outcomes for those books. */
  lemma OutcomesAgree(first: Fetch, second: Fetch, cat: Catalogue, lo: nat, hi: nat)
    requires cat.Covers() && 1 <= lo <= hi <= BOOK_COUNT + 1
    requires forall b :: lo <= b < hi ==> BookSpec(second, cat, b) == BookSpec(first, cat, b)
    ensures forall i :: lo - 1 <= i < hi - 1 ==> Outcomes(second, cat)[i] == Outcomes(first, cat)[i]
  {
    forall i | lo - 1 <= i < hi - 1
      ensures Outcomes(second, cat)[i] == Outcomes(first, cat)[i]
    {
      OutcomeOf(first, cat, i + 1);
      OutcomeOf(second, cat, i + 1);
    }
  }

  /** Request a strictly precedes request b: by book, then by chapter. */
  predicate Before(a: (nat, nat), b: (nat, nat)) {
    a.0 < b.0 || (a.0 == b.0 && a.1 < b.1)
  }

  predicate Ascending(requests: seq<(nat, nat)>) {
    forall i, j :: 0 <= i < j < |requests| ==> Before(requests[i], requests[j])
  }

  /** The progress file: whether it exists, and the books it holds. */
  class ProgressFile {
    var present: bool
    var books: seq<Book>

    /** What loading the file yields: its books, or none when it is absent. */
    function Stored(): seq<Book>
      reads this
    {
      if present then books else []
    }

    /** `load_progress`. */
    method Load() returns (bible: seq<Book>)
      ensures bible == Stored()
    {
      bible := if present then books else [];
    }

    /** `save_progress`: the whole file is rewritten with `bible`. */
    method Save(bible: seq<Book>)
      modifies this
      ensures present && books == bible
    {
      present, books := true, bible;
    }
  }

  /** `main`: load the progress, resume with book |loaded| + 1, and append
      and save every book that downloads completely; the first failure ends
      the run. The ghost `requests` lists every request made, in order. */
  method Run(fetch: Fetch, cat: Catalogue, file: ProgressFile) returns (bible: seq<Book>, ghost requests: seq<(nat, nat)>)
    requires cat.Covers()
    modifies file
    ensures bible == RunSpec(fetch, cat, old(file.Stored()))
    ensures |bible| > |old(file.Stored())| ==> file.present && file.books == bible
    ensures |bible| == |old(file.Stored())| ==> file.present == old(file.present) && file.books == old(file.books)
    ensures |old(file.Stored())| >= BOOK_COUNT ==> requests == []
    ensures forall q :: q in requests ==> |old(file.Stored())| < q.0 <= BOOK_COUNT
    ensures |old(file.Stored())| < BOOK_COUNT && cat.chapters[|old(file.Stored())|] > 0 ==>
      requests != [] && requests[0] == (|old(file.Stored())| + 1, 1)
    ensures Ascending(requests)
  {
    var loaded := file.Load();
    if |loaded| >= BOOK_COUNT {
      return loaded, [];
    }
    bible, requests := Resume(fetch, cat, file, loaded);
  }

  /** The loop of `main`: download books |loaded| + 1, ... in order,
      appending each complete book to `loaded` and saving the result. */
  method Resume(fetch: Fetch, cat: Catalogue, file: ProgressFile, loaded: seq<Book>)
      returns (bible: seq<Book>, ghost requests: seq<(nat, nat)>)
    requires cat.Covers() && |loaded| < BOOK_COUNT
    modifies file
    ensures bible == loaded + BooksFrom(Outcomes(fetch, cat), |loaded| + 1)
    ensures |bible| > |loaded| ==> file.present && file.books == bible
    ensures |bible| == |loaded| ==> file.present == old(file.present) && file.books == old(file.books)
    ensures forall q :: q in requests ==> |loaded| < q.0 <= BOOK_COUNT
    ensures cat.chapters[|loaded|] > 0 ==> requests != [] && requests[0] == (|loaded| + 1, 1)
    ensures Ascending(requests)
  {
    bible, requests := loaded, [];
    var start := |loaded| + 1;
    ghost var outcomes := Outcomes(fetch, cat);
    ghost var all := BooksFrom(outcomes, start);
    for book := start to BOOK_COUNT + 1
      invariant book - start <= |all|
      invariant bible == loaded + all[..book - start]
      invariant book == start ==> file.present == old(file.present) && file.books == old(file.books)
      invariant book > start ==> file.present && file.books == bible
      invariant forall q :: q in requests ==> start <= q.0 < book
      invariant book > start && cat.chapters[start - 1] > 0 ==> requests != [] && requests[0] == (start, 1)
      invariant Ascending(requests)
    {
      var outcome, asked := DownloadBook(fetch, cat, book);
      AppendAscending(requests, asked, start, book, if outcome.Got? then |outcome.value.chapters| else outcome.chapter);
      requests := requests + asked;
      OutcomeOf(fetch, cat, book);
      NextBook(outcomes, start, book - start);
      if outcome.FailedAt? {
        assert all[..book - start] == all;
        return;
      }
      assert all[..book - start + 1] == all[..book - start] + [outcome.value];
      bible := bible + [outcome.value];
      file.Save(bible);
    }
    assert all[..BOOK_COUNT + 1 - start] == all;
  }

  /** Appending the requests of book `book` to a log of requests for books
      lo .. book - 1 keeps the log ascending and bounded by lo .. book. */
  lemma AppendAscending(requests: seq<(nat, nat)>, asked: seq<(nat, nat)>, lo: nat, book: nat, n: nat)
    requires Ascending(requests) && forall q :: q in requests ==> lo <= q.0 < book
    requires lo <= book && asked == ChapterRequests(book, n)
    ensures Ascending(requests + asked)
    ensures forall q :: q in requests + asked ==> lo <= q.0 < book + 1
  {
  }
}
