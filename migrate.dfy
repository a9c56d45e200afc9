/**
 * The one-off migration of migrate_data.py: each book's three whole-text
 * files are cut into chapters, the chapters are aligned by position, each
 * aligned chapter gets a title, a category and a file name, and its three
 * texts are merged into one three-parallel file.
 */
module Migrate {
  import opened Text
  import opened Config
  import opened Chapters
  import opened Parallel
  import opened FileNames
  import opened Align

  /** One categorisation rule: a title containing `mark` goes to `key`. */
  datatype Rule = Rule(mark: string, key: string)

  /** The tests of `categorize_chapter` for a book, in the order it makes
      them: the marker word each looks for and the category it then returns. */
  function Rules(bookId: string): seq<Rule>
  {
    if bookId == "shiji" then
      [Rule("本纪", "benji"), Rule("世家", "shijia"), Rule("列传", "liezhuan"), Rule("书", "shu"), Rule("表", "biao")]
    else if bookId == "hanshu" then
      [Rule("本纪", "benji"), Rule("表", "biao"), Rule("志", "zhi")]
    else if bookId == "sanguozhi" then
      [Rule("魏", "wei"), Rule("蜀", "shu"), Rule("吴", "wu")]
    else []
  }

  /** The category `categorize_chapter` returns when no test matches. */
  function Fallback(bookId: string): string
  {
    if bookId == "shiji" || bookId == "hanshu" then "liezhuan"
    else if bookId == "houhanshu" then "leibian"
    else if bookId == "sanguozhi" then "wei"
    else "default"
  }

  /** The key of the first rule whose mark the title contains: no earlier
      rule matches, and when none matches the result is `fallback`. */
  function FirstMatch(rules: seq<Rule>, title: string, fallback: string): (r: string)
    ensures r == fallback || exists k :: 0 <= k < |rules| && r == rules[k].key
    ensures (forall k :: 0 <= k < |rules| ==> !Contains(title, rules[k].mark)) ==> r == fallback
    ensures forall k :: 0 <= k < |rules| && Contains(title, rules[k].mark) ==>
              (forall j :: 0 <= j < k ==> !Contains(title, rules[j].mark)) ==> r == rules[k].key
  {
    if rules == [] then fallback
    else if Contains(title, rules[0].mark) then rules[0].key
    else FirstMatch(rules[1..], title, fallback)
  }

  /** Every category a rule or the fall-back names is configured for the book. */
  lemma RulesConfigured(bookId: string)
    ensures Fallback(bookId) in CategoryKeys(bookId)
    ensures forall k :: 0 <= k < |Rules(bookId)| ==> Rules(bookId)[k].key in CategoryKeys(bookId)
  {
  }

  /** `categorize_chapter(book_id, chapter_title)`: the category a chapter
      title falls in, by the first marker word it contains. (The lower-cased
      title the source computes first is never used.) The result is always
      one of the book's category keys. */
  function CategorizeChapter(bookId: string, title: string): (r: string)
    ensures r in CategoryKeys(bookId)
  {
    RulesConfigured(bookId);
    FirstMatch(Rules(bookId), title, Fallback(bookId))
  }

  /** A book the table does not know has every chapter in "default", and the
      Book of the Later Han has every chapter in "leibian". */
  lemma CategorizeSingleCategory(bookId: string, title: string)
    ensures Lookup(bookId).None? ==> CategorizeChapter(bookId, title) == "default"
    ensures bookId == "houhanshu" ==> CategorizeChapter(bookId, title) == "leibian"
  {
  }

  /** The title an aligned chapter gets in `migrate_book`: the first
      non-empty title among the three languages' chapters at that position,
      else "第{i+1}章". It is never empty. */
  function MigratedTitle(cw: seq<Chapter>, cz: seq<Chapter>, ce: seq<Chapter>, i: nat): (r: string)
    ensures r != ""
    ensures TitleAt(cw, i) == "" && TitleAt(cz, i) == "" && TitleAt(ce, i) == "" ==> r == ChapterLabel(i)
    ensures r != ChapterLabel(i) ==> r == TitleAt(cw, i) || r == TitleAt(cz, i) || r == TitleAt(ce, i)
    ensures TitleAt(cw, i) != "" ==> r == cw[i].title
    ensures TitleAt(cw, i) == "" && TitleAt(cz, i) != "" ==> r == cz[i].title
    ensures TitleAt(cw, i) == "" && TitleAt(cz, i) == "" && TitleAt(ce, i) != "" ==> r == ce[i].title
  {
    FirstTitle(TitleAt(cw, i), TitleAt(cz, i), TitleAt(ce, i), ChapterLabel(i))
  }

  /** One chapter file the migration writes: it goes to directory
      `<book>/<category>/` under the name `fileName`. */
  datatype MigratedChapter = MigratedChapter(category: string, title: string, fileName: string, content: string)

  /** What `migrate_book` writes for the aligned chapter at index `i`. */
  function MigratedAt(bookId: string, cw: seq<Chapter>, cz: seq<Chapter>, ce: seq<Chapter>, i: nat): MigratedChapter
  {
    var title := MigratedTitle(cw, cz, ce, i);
    MigratedChapter(CategorizeChapter(bookId, title), title, MigrateFileName(i, title),
                    Encode(ContentAt(cw, i), ContentAt(cz, i), ContentAt(ce, i)))
  }

  /** The files `migrate_book` writes, one per position up to the longest
      chapter list. */
  function Migrated(bookId: string, cw: seq<Chapter>, cz: seq<Chapter>, ce: seq<Chapter>): (r: seq<MigratedChapter>)
    ensures |r| == Max3(|cw|, |cz|, |ce|)
  {
    var n := Max3(|cw|, |cz|, |ce|);
    seq(n, k requires 0 <= k < n => MigratedAt(bookId, cw, cz, ce, k))
  }

  /** The body of `migrate_book`'s loop for index `i`. */
  method MigrateChapter(bookId: string, cw: seq<Chapter>, cz: seq<Chapter>, ce: seq<Chapter>, i: nat)
    returns (m: MigratedChapter)
    ensures m == MigratedAt(bookId, cw, cz, ce, i)
  {
    var w := if i < |cw| then cw[i].content else "";
    var z := if i < |cz| then cz[i].content else "";
    var e := if i < |ce| then ce[i].content else "";
    var title;
    if i < |cw| && cw[i].title != "" {
      title := cw[i].title;
    } else if i < |cz| && cz[i].title != "" {
      title := cz[i].title;
    } else if i < |ce| && ce[i].title != "" {
      title := ce[i].title;
    } else {
      title := ChapterLabel(i);
    }
    var category := CategorizeChapter(bookId, title);
    if category !in CategoryKeys(bookId) {
      category := FirstKey(bookId);
    }
    var content := CreateParallelContent(w, z, e);
    var fileName := ChapterPrefix(i) + ("_" + SafeFilename(title, 50) + ".txt");
    m := MigratedChapter(category, title, fileName, content);
  }

  /** Every file of a migrated book has a title that is never empty, a
      category among the book's keys (so `migrate_book`'s fall-back to the
      first key is never taken), the three-parallel merge of the chapter's
      texts, and a file name no other chapter of the book gets. */
  lemma MigratedFiles(bookId: string, cw: seq<Chapter>, cz: seq<Chapter>, ce: seq<Chapter>)
    ensures var files := Migrated(bookId, cw, cz, ce);
            forall i :: 0 <= i < |files| ==>
              && files[i].title == MigratedTitle(cw, cz, ce, i)
              && files[i].title != ""
              && files[i].category == CategorizeChapter(bookId, files[i].title)
              && files[i].category in CategoryKeys(bookId)
              && files[i].content == Encode(ContentAt(cw, i), ContentAt(cz, i), ContentAt(ce, i))
              && files[i].fileName == MigrateFileName(i, files[i].title)
    ensures var files := Migrated(bookId, cw, cz, ce);
            forall i, j :: 0 <= i < j < |files| ==> files[i].fileName != files[j].fileName
  {
    var files := Migrated(bookId, cw, cz, ce);
    forall i, j | 0 <= i < j < |files|
      ensures files[i].fileName != files[j].fileName
    {
      if files[i].fileName == files[j].fileName {
        MigrateFileNameInjective(i, files[i].title, j, files[j].title);
      }
    }
  }

  /** `migrate_book(book_path, book_id)` on the three file contents (a missing
      file reads as ""): the files of `Migrated`, for the chapters the three
      texts parse into. */
  method MigrateBook(bookId: string, wenyan: string, zh: string, en: string) returns (files: seq<MigratedChapter>)
    ensures |files| == Max3(|Parse(wenyan)|, |Parse(zh)|, |Parse(en)|)
    ensures files == Migrated(bookId, Parse(wenyan), Parse(zh), Parse(en))
  {
    var cw := ParseChapters(wenyan);
    var cz := ParseChapters(zh);
    var ce := ParseChapters(en);
    var n := Max3(|cw|, |cz|, |ce|);
    ghost var all := Migrated(bookId, cw, cz, ce);
    files := [];
    var i := 0;
    while i < n
      invariant 0 <= i <= n
      invariant files == all[..i]
    {
      var m := MigrateChapter(bookId, cw, cz, ce, i);
      PrefixSnoc(all, i + 1);
      files := files + [m];
      i := i + 1;
    }
    FullPrefix(all);
  }

  /** `list(categories.keys())[0]`: the first category key of a book. */
  function FirstKey(bookId: string): string
  {
    CategoryKeys(bookId)[0]
  }
}
