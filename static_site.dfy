/**
 * The static site builder of build_static.py: the books it loads from
 * `data/raw/` (its own copy of the loader, with a title fall-back the web app
 * lacks) and the names of the chapter pages it writes.
 */
module StaticSite {
  import opened Wrappers
  import opened Text
  import opened Chapters
  import opened Align
  import opened Library

  /** The title of aligned chapter `i`: the first non-empty title among the
      three languages' chapters at that position, else "第{i+1}章". */
  function StaticTitle(cw: seq<Chapter>, cz: seq<Chapter>, ce: seq<Chapter>, i: nat): (r: string)
    ensures r != ""
    ensures TitleAt(cw, i) == "" && TitleAt(cz, i) == "" && TitleAt(ce, i) == "" ==> r == ChapterLabel(i)
    ensures r != ChapterLabel(i) ==> r == TitleAt(cw, i) || r == TitleAt(cz, i) || r == TitleAt(ce, i)
    ensures TitleAt(cw, i) != "" ==> r == cw[i].title
    ensures TitleAt(cw, i) == "" && TitleAt(cz, i) != "" ==> r == cz[i].title
    ensures TitleAt(cw, i) == "" && TitleAt(cz, i) == "" && TitleAt(ce, i) != "" ==> r == ce[i].title
  {
    FirstTitle(TitleAt(cw, i), TitleAt(cz, i), TitleAt(ce, i), ChapterLabel(i))
  }

  function StaticChapterAt(cw: seq<Chapter>, cz: seq<Chapter>, ce: seq<Chapter>, i: nat): AlignedChapter
  {
    AlignedChapter(i + 1, StaticTitle(cw, cz, ce, i), ContentAt(cw, i), ContentAt(cz, i), ContentAt(ce, i))
  }

  /** The aligned chapters of a book whose three texts parsed into `cw`, `cz`
      and `ce`. */
  function StaticChapters(cw: seq<Chapter>, cz: seq<Chapter>, ce: seq<Chapter>): (r: seq<AlignedChapter>)
    ensures |r| == AlignedCount(cw, cz, ce)
  {
    var n := AlignedCount(cw, cz, ce);
    seq(n, i requires 0 <= i < n => StaticChapterAt(cw, cz, ce, i))
  }

  /** The book `load_books_from_raw` builds from a book directory. */
  function StaticBook(e: DirEntry): Book
  {
    Book(e.name, e.name, StaticChapters(Parse(OrEmpty(e.wenyan)), Parse(OrEmpty(e.zh)), Parse(OrEmpty(e.en))))
  }

  function StaticBooks(root: Option<seq<DirEntry>>): seq<Book>
  {
    match root
    case None => []
    case Some(listing) => BooksOf(SortByName(listing), StaticBook)
  }

  /** The nested `parse` followed by the chapter loop of `load_books_from_raw`. */
  method AlignChapters(cw: seq<Chapter>, cz: seq<Chapter>, ce: seq<Chapter>) returns (chapters: seq<AlignedChapter>)
    ensures chapters == StaticChapters(cw, cz, ce)
  {
    var n := AlignedCount(cw, cz, ce);
    ghost var all := StaticChapters(cw, cz, ce);
    chapters := [];
    var i: nat := 0;
    while i < n
      invariant i <= n
      invariant chapters == all[..i]
    {
      var w := if i < |cw| then cw[i].content else "";
      var z := if i < |cz| then cz[i].content else "";
      var e := if i < |ce| then ce[i].content else "";
      var tw := if i < |cw| then cw[i].title else "";
      var tz := if i < |cz| then cz[i].title else "";
      var te := if i < |ce| then ce[i].title else "";
      var title := if tw != "" then tw else if tz != "" then tz else if te != "" then te else ChapterLabel(i);
      PrefixSnoc(all, i + 1);
      chapters := chapters + [AlignedChapter(i + 1, title, w, z, e)];
      i := i + 1;
    }
    FullPrefix(all);
  }

  /** The body of `load_books_from_raw`'s loop for one book directory. */
  method LoadBook(e: DirEntry) returns (book: Book)
    ensures book == StaticBook(e)
  {
    var cw := ParseChapters(OrEmpty(e.wenyan));
    var cz := ParseChapters(OrEmpty(e.zh));
    var ce := ParseChapters(OrEmpty(e.en));
    var chapters := AlignChapters(cw, cz, ce);
    book := Book(e.name, e.name, chapters);
  }

  /** `load_books_from_raw()` of build_static.py on the listing of
      `data/raw/` (`None` when the directory does not exist). */
  method LoadBooks(root: Option<seq<DirEntry>>) returns (books: seq<Book>)
    ensures books == StaticBooks(root)
  {
    books := [];
    if root.None? {
      return;
    }
    var names := SortByName(root.value);
    var k: nat := 0;
    while k < |names|
      invariant k <= |names|
      invariant books == BooksOf(names[..k], StaticBook)
    {
      BooksOfStep(names, k, StaticBook);
      var e := names[k];
      if !e.isDir {
        k := k + 1;
        continue;
      }
      var book := LoadBook(e);
      books := books + [book];
      k := k + 1;
    }
    FullPrefix(names);
  }

  /** A book of the static site has as many chapters as the shortest of its
      three chapter lists, numbered 1, 2, … in order; chapter k carries the
      k-th chapter of each language and a title that is never empty. */
  lemma StaticBookChapters(e: DirEntry)
    ensures var cw, cz, ce := Parse(OrEmpty(e.wenyan)), Parse(OrEmpty(e.zh)), Parse(OrEmpty(e.en));
            var chapters := StaticBook(e).chapters;
            && |chapters| == Min3(|cw|, |cz|, |ce|)
            && forall k :: 0 <= k < |chapters| ==>
                 && chapters[k].id == k + 1
                 && chapters[k].title != ""
                 && chapters[k].title == StaticTitle(cw, cz, ce, k)
                 && chapters[k].wenyan == cw[k].content
                 && chapters[k].zh == cz[k].content
                 && chapters[k].en == ce[k].content
  {
    AlignedCountIsMin(OrEmpty(e.wenyan), OrEmpty(e.zh), OrEmpty(e.en));
  }

  /** The books come in ascending name order, one for each directory of
      `data/raw/` and for nothing else. */
  lemma StaticBooksOrder(listing: seq<DirEntry>)
    ensures var books := StaticBooks(Some(listing));
            forall i, j :: 0 <= i < j < |books| ==> NameLe(books[i].id, books[j].id)
    ensures Ids(StaticBooks(Some(listing))) == DirNames(listing)
  {
    forall e ensures StaticBook(e).id == e.name {
    }
    BooksSortedById(listing, StaticBook);
    assert StaticBooks(Some(listing)) == BooksOf(SortByName(listing), StaticBook);
  }

  /** `f'chapter_{ch["id"]}.html'`: the file a chapter page is written to. */
  function ChapterFileName(id: nat): string
  {
    "chapter_" + Decimal(id) + ".html"
  }

  /** Different chapter ids give different page files, so no chapter page of
      a book overwrites another. */
  lemma ChapterFileNameInjective(a: nat, b: nat)
    requires ChapterFileName(a) == ChapterFileName(b)
    ensures a == b
  {
    var da, db := Decimal(a), Decimal(b);
    var na := ChapterFileName(a);
    assert |da| == |db|;
    assert na[8..8 + |da|] == da;
    assert ChapterFileName(b)[8..8 + |db|] == db;
  }

  /** The page files of a loaded book are pairwise distinct. */
  lemma StaticPagesDistinct(e: DirEntry)
    ensures var chapters := StaticBook(e).chapters;
            forall i, j :: 0 <= i < j < |chapters| ==>
              ChapterFileName(chapters[i].id) != ChapterFileName(chapters[j].id)
  {
    var chapters := StaticBook(e).chapters;
    forall i, j | 0 <= i < j < |chapters|
      ensures ChapterFileName(chapters[i].id) != ChapterFileName(chapters[j].id)
    {
      if ChapterFileName(chapters[i].id) == ChapterFileName(chapters[j].id) {
        ChapterFileNameInjective(chapters[i].id, chapters[j].id);
      }
    }
  }
}
