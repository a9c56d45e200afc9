/**
 * The Flask web app of app.py, without Flask: the books it loads at start
 * from `data/raw/`, the corpus search, and the lookups behind the book,
 * chapter and entry pages (a page is `Some` where the route renders and
 * `None` where it answers 404).
 */
module WebApp {
  import opened Wrappers
  import opened Text
  import opened Chapters
  import opened Align
  import opened Library
  import opened Seqs

  // ------------------------------------------------------------ loading

  /** The title expression of `load_books_from_raw`, line 82, which Python
      reads as `(w or z or e) if (i < len(ch_w) or …) else f'第{i+1}章'`:
      each `ch[i]` it reaches may raise IndexError, written here as `None`. */
  function AppTitle(cw: seq<Chapter>, cz: seq<Chapter>, ce: seq<Chapter>, i: nat): Option<string>
  {
    if i < |cw| || i < |cz| || i < |ce| then
      if i >= |cw| then None
      else if cw[i].title != "" then Some(cw[i].title)
      else if i >= |cz| then None
      else if cz[i].title != "" then Some(cz[i].title)
      else if i >= |ce| then None
      else Some(ce[i].title)
    else Some(ChapterLabel(i))
  }

  /** Below the aligned count every lookup is in range, so no IndexError is
      raised and the "第{i+1}章" branch is never taken: the title is the first
      non-empty of the three, and "" when all three are empty. */
  lemma AppTitleInRange(cw: seq<Chapter>, cz: seq<Chapter>, ce: seq<Chapter>, i: nat)
    requires i < Min3(|cw|, |cz|, |ce|)
    ensures AppTitle(cw, cz, ce, i) == Some(FirstTitle(cw[i].title, cz[i].title, ce[i].title, ""))
    ensures cw[i].title == "" && cz[i].title == "" && ce[i].title == "" ==> AppTitle(cw, cz, ce, i) == Some("")
  {
  }

  function AppChapterAt(cw: seq<Chapter>, cz: seq<Chapter>, ce: seq<Chapter>, i: nat): AlignedChapter
    requires i < Min3(|cw|, |cz|, |ce|)
  {
    AlignedChapter(i + 1, AppTitle(cw, cz, ce, i).value, ContentAt(cw, i), ContentAt(cz, i), ContentAt(ce, i))
  }

  /** The aligned chapters of a book whose three texts parsed into `cw`, `cz`
      and `ce` (each non-empty, as parsing guarantees). */
  function AppChapters(cw: seq<Chapter>, cz: seq<Chapter>, ce: seq<Chapter>): (r: seq<AlignedChapter>)
    requires |cw| > 0 && |cz| > 0 && |ce| > 0
    ensures |r| == Min3(|cw|, |cz|, |ce|)
  {
    var n := AlignedCount(cw, cz, ce);
    seq(n, i requires 0 <= i < n => AppChapterAt(cw, cz, ce, i))
  }

  /** The book `load_books_from_raw` builds from a book directory. */
  function AppBook(e: DirEntry): Book
  {
    var cw, cz, ce := Parse(OrEmpty(e.wenyan)), Parse(OrEmpty(e.zh)), Parse(OrEmpty(e.en));
    ParseNonEmpty(OrEmpty(e.wenyan));
    ParseNonEmpty(OrEmpty(e.zh));
    ParseNonEmpty(OrEmpty(e.en));
    Book(e.name, e.name, AppChapters(cw, cz, ce))
  }

  /** `load_books_from_raw()`: no books when `data/raw/` is missing (`None`),
      else one per directory of the listing, in sorted name order. */
  function AppBooks(root: Option<seq<DirEntry>>): seq<Book>
  {
    match root
    case None => []
    case Some(listing) => BooksOf(SortByName(listing), AppBook)
  }

  /** The chapter loop of `load_books_from_raw`. */
  method AlignChapters(cw: seq<Chapter>, cz: seq<Chapter>, ce: seq<Chapter>) returns (chapters: seq<AlignedChapter>)
    requires |cw| > 0 && |cz| > 0 && |ce| > 0
    ensures chapters == AppChapters(cw, cz, ce)
  {
    var n := AlignedCount(cw, cz, ce);
    ghost var all := AppChapters(cw, cz, ce);
    chapters := [];
    var i: nat := 0;
    while i < n
      invariant i <= n
      invariant chapters == all[..i]
    {
      var w := if i < |cw| then cw[i].content else "";
      var z := if i < |cz| then cz[i].content else "";
      var e := if i < |ce| then ce[i].content else "";
      var title: string;
      if i < |cw| || i < |cz| || i < |ce| {
        title := if cw[i].title != "" then cw[i].title else if cz[i].title != "" then cz[i].title else ce[i].title;
      } else {
        title := ChapterLabel(i);
      }
      PrefixSnoc(all, i + 1);
      chapters := chapters + [AlignedChapter(i + 1, title, w, z, e)];
      i := i + 1;
    }
    FullPrefix(all);
  }

  /** The body of `load_books_from_raw`'s loop for one book directory. */
  method LoadBook(e: DirEntry) returns (book: Book)
    ensures book == AppBook(e)
  {
    var cw := ParseChapters(OrEmpty(e.wenyan));
    var cz := ParseChapters(OrEmpty(e.zh));
    var ce := ParseChapters(OrEmpty(e.en));
    ParseNonEmpty(OrEmpty(e.wenyan));
    ParseNonEmpty(OrEmpty(e.zh));
    ParseNonEmpty(OrEmpty(e.en));
    var chapters := AlignChapters(cw, cz, ce);
    book := Book(e.name, e.name, chapters);
  }

  /** `load_books_from_raw()` on the listing of `data/raw/` (`None` when the
      directory does not exist). */
  method LoadBooks(root: Option<seq<DirEntry>>) returns (books: seq<Book>)
    ensures books == AppBooks(root)
  {
    books := [];
    if root.None? {
      return;
    }
    var names := SortByName(root.value);
    var k: nat := 0;
    while k < |names|
      invariant k <= |names|
      invariant books == BooksOf(names[..k], AppBook)
    {
      BooksOfStep(names, k, AppBook);
      var e := names[k];
      if !e.isDir {
        k := k + 1;
        continue;
      }
      var book := LoadBook(e);
      books := books + [book];
      k := k + 1;
    }
    FullPrefix(names);
  }

  /** A loaded book has as many chapters as the shortest of its three
      chapter lists, numbered 1, 2, … in order; chapter k carries the k-th
      chapter of each language and the first non-empty of their titles,
      which is "" when all three are empty. */
  lemma AppBookChapters(e: DirEntry)
    ensures var cw, cz, ce := Parse(OrEmpty(e.wenyan)), Parse(OrEmpty(e.zh)), Parse(OrEmpty(e.en));
            var chapters := AppBook(e).chapters;
            && |chapters| == Min3(|cw|, |cz|, |ce|)
            && forall k :: 0 <= k < |chapters| ==>
                 && chapters[k].id == k + 1
                 && chapters[k].title == FirstTitle(cw[k].title, cz[k].title, ce[k].title, "")
                 && chapters[k].wenyan == cw[k].content
                 && chapters[k].zh == cz[k].content
                 && chapters[k].en == ce[k].content
  {
    var cw, cz, ce := Parse(OrEmpty(e.wenyan)), Parse(OrEmpty(e.zh)), Parse(OrEmpty(e.en));
    ParseNonEmpty(OrEmpty(e.wenyan));
    ParseNonEmpty(OrEmpty(e.zh));
    ParseNonEmpty(OrEmpty(e.en));
    forall k | 0 <= k < Min3(|cw|, |cz|, |ce|)
      ensures AppTitle(cw, cz, ce, k) == Some(FirstTitle(cw[k].title, cz[k].title, ce[k].title, ""))
    {
      AppTitleInRange(cw, cz, ce, k);
    }
  }

  /** The loaded books come in ascending name order, one for each directory
      of `data/raw/` and for nothing else. */
  lemma AppBooksOrder(listing: seq<DirEntry>)
    ensures var books := AppBooks(Some(listing));
            forall i, j :: 0 <= i < j < |books| ==> NameLe(books[i].id, books[j].id)
    ensures Ids(AppBooks(Some(listing))) == DirNames(listing)
  {
    forall e ensures AppBook(e).id == e.name {
    }
    BooksSortedById(listing, AppBook);
    assert AppBooks(Some(listing)) == BooksOf(SortByName(listing), AppBook);
  }

  // -------------------------------------------------------------- pages

  /** Chapter ids are 1, 2, … in order. */
  predicate Dense(b: Book)
  {
    forall j :: 0 <= j < |b.chapters| ==> b.chapters[j].id == j + 1
  }

  predicate HasChapter(b: Book, chapterId: nat)
  {
    exists j :: 0 <= j < |b.chapters| && b.chapters[j].id == chapterId
  }

  /** Every loaded book's chapter ids are dense. */
  lemma AppBooksDense(root: Option<seq<DirEntry>>)
    ensures forall k :: 0 <= k < |AppBooks(root)| ==> Dense(AppBooks(root)[k])
  {
    if root.Some? {
      var sorted := SortByName(root.value);
      BooksOfDirs(sorted, AppBook);
    }
  }

  /** `book_page(book_id)`: the first book with that id, or 404. */
  method BookPage(books: seq<Book>, bookId: string) returns (r: Option<Book>)
    ensures r.None? <==> forall k :: 0 <= k < |books| ==> books[k].id != bookId
    ensures r.Some? ==> exists k :: 0 <= k < |books| && books[k] == r.value && books[k].id == bookId
                          && forall m :: 0 <= m < k ==> books[m].id != bookId
  {
    var k: nat := 0;
    while k < |books|
      invariant k <= |books|
      invariant forall m :: 0 <= m < k ==> books[m].id != bookId
    {
      if books[k].id == bookId {
        return Some(books[k]);
      }
      k := k + 1;
    }
    return None;
  }

  /** The URL of a chapter page. */
  function ChapterUrl(bookId: string, chapterId: nat): string
  {
    "/book/" + bookId + "/chapter/" + Decimal(chapterId)
  }

  /** What the chapter page shows: the book, the chapter, and the links to
      the previous and next chapters. */
  datatype Page = Page(book: Book, chapter: AlignedChapter, prevUrl: Option<string>, nextUrl: Option<string>)

  /** `chapter_page(book_id, chapter_id)`: the first chapter with that id in
      a book with that id, or 404. There is a previous link exactly when the
      id is above 1, to id − 1, and a next link exactly when the id is below
      the book's chapter count, to id + 1. */
  method ChapterPage(books: seq<Book>, bookId: string, chapterId: nat) returns (page: Option<Page>)
    ensures page.None? <==> forall k :: 0 <= k < |books| && books[k].id == bookId ==> !HasChapter(books[k], chapterId)
    ensures page.Some? ==>
              && (exists k, j :: 0 <= k < |books| && 0 <= j < |books[k].chapters| && books[k].id == bookId
                   && page.value.book == books[k] && page.value.chapter == books[k].chapters[j]
                   && books[k].chapters[j].id == chapterId
                   && (forall m :: 0 <= m < k && books[m].id == bookId ==> !HasChapter(books[m], chapterId))
                   && (forall m :: 0 <= m < j ==> books[k].chapters[m].id != chapterId))
              && page.value.prevUrl == (if chapterId >= 2 then Some(ChapterUrl(bookId, chapterId - 1)) else None)
              && page.value.nextUrl == (if chapterId < |page.value.book.chapters| then Some(ChapterUrl(bookId, chapterId + 1)) else None)
  {
    var k: nat := 0;
    while k < |books|
      invariant k <= |books|
      invariant forall m :: 0 <= m < k && books[m].id == bookId ==> !HasChapter(books[m], chapterId)
    {
      var b := books[k];
      if b.id == bookId {
        var j: nat := 0;
        while j < |b.chapters|
          invariant j <= |b.chapters|
          invariant forall m :: 0 <= m < j ==> b.chapters[m].id != chapterId
        {
          var ch := b.chapters[j];
          if ch.id == chapterId {
            var idx := chapterId - 1;
            var prevUrl: Option<string> := None;
            var nextUrl: Option<string> := None;
            if idx - 1 >= 0 {
              prevUrl := Some(ChapterUrl(bookId, chapterId - 1));
            }
            if idx + 1 < |b.chapters| {
              nextUrl := Some(ChapterUrl(bookId, chapterId + 1));
            }
            return Some(Page(b, ch, prevUrl, nextUrl));
          }
          j := j + 1;
        }
      }
      k := k + 1;
    }
    return None;
  }

  /** In a book with dense ids the chapter page's links lead to chapters that
      exist: the previous one whenever there is a previous link, the next one
      whenever there is a next link. */
  lemma NavigationTargetsExist(b: Book, chapterId: nat)
    requires Dense(b) && HasChapter(b, chapterId)
    ensures 1 <= chapterId <= |b.chapters|
    ensures chapterId >= 2 ==> HasChapter(b, chapterId - 1)
    ensures chapterId < |b.chapters| ==> HasChapter(b, chapterId + 1)
  {
    var j :| 0 <= j < |b.chapters| && b.chapters[j].id == chapterId;
    if chapterId >= 2 {
      assert b.chapters[j - 1].id == chapterId - 1;
    }
    if chapterId < |b.chapters| {
      assert b.chapters[j + 1].id == chapterId + 1;
    }
  }

  // ------------------------------------------------------------- corpus

  /** An entry of `data/corpus.json`: `id` is `str(e.get('id'))`; a text
      that is missing or null is `None`. */
  datatype CorpusEntry = CorpusEntry(id: string, title: Option<string>,
                                     text1: Option<string>, text2: Option<string>, text3: Option<string>)

  /** `entry(entry_id)`: the first entry whose id prints as `entryId`, or 404. */
  method EntryPage(corpus: seq<CorpusEntry>, entryId: string) returns (r: Option<CorpusEntry>)
    ensures r.None? <==> forall k :: 0 <= k < |corpus| ==> corpus[k].id != entryId
    ensures r.Some? ==> exists k :: 0 <= k < |corpus| && corpus[k] == r.value && corpus[k].id == entryId
                          && forall m :: 0 <= m < k ==> corpus[m].id != entryId
  {
    var k: nat := 0;
    while k < |corpus|
      invariant k <= |corpus|
      invariant forall m :: 0 <= m < k ==> corpus[m].id != entryId
    {
      if corpus[k].id == entryId {
        return Some(corpus[k]);
      }
      k := k + 1;
    }
    return None;
  }

  /** The lowered query occurs in the lowered title or in one of the three
      texts (a missing one reads as ""). */
  predicate Matches(e: CorpusEntry, q: string)
  {
    || Contains(Lower(OrEmpty(e.title)), q)
    || Contains(Lower(OrEmpty(e.text1)), q)
    || Contains(Lower(OrEmpty(e.text2)), q)
    || Contains(Lower(OrEmpty(e.text3)), q)
  }

  /** The entries the search returns for a non-empty lowered query `q`. */
  function Filter(corpus: seq<CorpusEntry>, q: string): seq<CorpusEntry>
  {
    Select(corpus, e => Matches(e, q))
  }

  /** The test `search_corpus` makes on one entry: the title first, then
      the three texts in order, stopping at the first that contains `q`. */
  method EntryMatches(entry: CorpusEntry, q: string) returns (found: bool)
    ensures found == Matches(entry, q)
  {
    if Contains(Lower(OrEmpty(entry.title)), q) {
      return true;
    }
    var texts := [entry.text1, entry.text2, entry.text3];
    var t: nat := 0;
    while t < 3
      invariant t <= 3
      invariant forall m :: 0 <= m < t ==> !Contains(Lower(OrEmpty(texts[m])), q)
    {
      if Contains(Lower(OrEmpty(texts[t])), q) {
        return true;
      }
      t := t + 1;
    }
    assert texts[0] == entry.text1 && texts[1] == entry.text2 && texts[2] == entry.text3;
    return false;
  }

  /** `search_corpus(query)` over the loaded corpus: the whole corpus for an
      empty query, else each entry matching the lowered query, once, in
      corpus order. */
  method SearchCorpus(corpus: seq<CorpusEntry>, query: string) returns (results: seq<CorpusEntry>)
    ensures query == "" ==> results == corpus
    ensures query != "" ==> results == Filter(corpus, Lower(query))
  {
    if query == "" {
      return corpus;
    }
    var q := Lower(query);
    ghost var keep := e => Matches(e, q);
    results := [];
    var k: nat := 0;
    while k < |corpus|
      invariant k <= |corpus|
      invariant results == Select(corpus[..k], keep)
    {
      PrefixSnoc(corpus, k + 1);
      assert corpus[..k + 1][..k] == corpus[..k];
      var entry := corpus[k];
      var found := EntryMatches(entry, q);
      if found {
        results := results + [entry];
      }
      k := k + 1;
    }
    FullPrefix(corpus);
  }

  /** The search returns exactly the corpus entries that match, in corpus
      order, each no more often than the corpus holds it. */
  lemma SearchResults(corpus: seq<CorpusEntry>, q: string)
    ensures forall e :: e in Filter(corpus, q) <==> e in corpus && Matches(e, q)
    ensures multiset(Filter(corpus, q)) <= multiset(corpus)
    ensures forall a, b :: corpus == a + b ==> Filter(corpus, q) == Filter(a, q) + Filter(b, q)
  {
    SelectMembers(corpus, e => Matches(e, q));
    SelectMultiset(corpus, e => Matches(e, q));
    forall a, b | corpus == a + b ensures Filter(corpus, q) == Filter(a, q) + Filter(b, q) {
      SelectAppend(a, b, e => Matches(e, q));
    }
  }
}
