/**
 * The batch importer of batch_import.py: rows of a CSV or Excel sheet, or a
 * single three-parallel text file, become chapter files under
 * `<book>/<category>/`, and every book and category they name is added to
 * the importer's own copy of the book table as it goes.
 */
module BatchImport {
  import opened Wrappers
  import opened Text
  import opened Config
  import opened Parallel
  import opened FileNames
  import opened Seqs

  // ------------------------------------------------- three-parallel content

  /** `create_three_parallel_content(wenyan, zh, en)`: "" when all three are
      missing or empty, else the same interleaving as the migration's encoder.
      The early return changes nothing: three empty texts encode to "". */
  method CreateThreeParallelContent(wenyan: Option<string>, zh: Option<string>, en: Option<string>)
    returns (content: string)
    ensures content == Encode(OrEmpty(wenyan), OrEmpty(zh), OrEmpty(en))
    ensures OrEmpty(wenyan) == "" && OrEmpty(zh) == "" && OrEmpty(en) == "" ==> content == ""
  {
    if OrEmpty(wenyan) == "" && OrEmpty(zh) == "" && OrEmpty(en) == "" {
      ParagraphsOfEmpty();
      EncodeBlank("", "", "");
      return "";
    }
    content := CreateParallelContent(OrEmpty(wenyan), OrEmpty(zh), OrEmpty(en));
  }

  // ------------------------------------------------------------ book table

  /** An entry of the importer's `BOOK_CATEGORIES`: the display name and the
      categories, key to name. */
  datatype BookEntry = BookEntry(name: string, categories: map<string, string>)

  /** The categories of a configured book as a key-to-name map. */
  function CategoryMap(cs: seq<Category>): (m: map<string, string>)
    ensures forall k :: k in m <==> k in Keys(cs)
  {
    if cs == [] then map[] else CategoryMap(cs[..|cs| - 1])[cs[|cs| - 1].key := cs[|cs| - 1].name]
  }

  function Entry(b: BookConfig): BookEntry
  {
    BookEntry(b.name, CategoryMap(b.categories))
  }

  /** The table the importer starts from: the four configured books. */
  function InitialBooks(): (books: map<string, BookEntry>)
    ensures forall id :: id in books <==> Lookup(id).Some?
    ensures forall id :: id in books ==> books[id] == Entry(Lookup(id).value)
  {
    map id | id in {"shiji", "hanshu", "houhanshu", "sanguozhi"} :: Entry(Lookup(id).value)
  }

  /** The table after a row names book `b` and category `c`: an unknown book
      gets an entry named after its id with the one category `c`, named `c`;
      a known book lacking `c` gets `c` added, named `c`; otherwise nothing
      changes. */
  function Registered(books: map<string, BookEntry>, b: string, c: string): map<string, BookEntry>
  {
    if b !in books then books[b := BookEntry(b, map[c := c])]
    else if c !in books[b].categories then books[b := books[b].(categories := books[b].categories[c := c])]
    else books
  }

  /** After registration the book is in the table and has the category. */
  lemma RegisteredHasCategory(books: map<string, BookEntry>, b: string, c: string)
    ensures b in Registered(books, b, c) && c in Registered(books, b, c)[b].categories
  {
  }

  /** An unknown book's new entry is named after its id and holds exactly the
      one category, named after its key. */
  lemma RegisteredNewBook(books: map<string, BookEntry>, b: string, c: string)
    requires b !in books
    ensures Registered(books, b, c)[b] == BookEntry(b, map[c := c])
  {
  }

  /** Registration loses nothing: every other book is unchanged, the book
      keeps its name, and its existing categories keep their names. */
  lemma RegisteredKeeps(books: map<string, BookEntry>, b: string, c: string)
    ensures forall id :: id in books ==> id in Registered(books, b, c)
    ensures forall id :: id in books && id != b ==> Registered(books, b, c)[id] == books[id]
    ensures b in books ==> Registered(books, b, c)[b].name == books[b].name
    ensures b in books ==> forall k :: k in books[b].categories ==>
              k in Registered(books, b, c)[b].categories
              && Registered(books, b, c)[b].categories[k] == books[b].categories[k]
    ensures forall id :: id in Registered(books, b, c) ==> id in books || id == b
  {
  }

  /** Registering the same pair twice is registering it once. */
  lemma RegisteredIdempotent(books: map<string, BookEntry>, b: string, c: string)
    ensures Registered(Registered(books, b, c), b, c) == Registered(books, b, c)
  {
  }

  // ------------------------------------------------------------- sheet rows

  /** One row of the sheet, each field as the text it was read as. */
  datatype Row = Row(book: string, category: string, chapterNum: string, title: string,
                     wenyan: string, zh: string, en: string)

  /** `str(cell)` for a cell pandas read: an empty cell is NaN and prints as
      "nan". */
  function ExcelCell(cell: Option<string>): string
  {
    match cell
    case None => "nan"
    case Some(s) => s
  }

  /** The row `import_from_excel` sees for a sheet row's seven cells. */
  function ExcelRow(book: Option<string>, category: Option<string>, chapterNum: Option<string>, title: Option<string>,
                    wenyan: Option<string>, zh: Option<string>, en: Option<string>): Row
  {
    Row(ExcelCell(book), ExcelCell(category), ExcelCell(chapterNum), ExcelCell(title),
        ExcelCell(wenyan), ExcelCell(zh), ExcelCell(en))
  }

  /** `all([book_id, category_id, title])` on the stripped fields: a row
      missing any of them is skipped. */
  predicate Complete(r: Row)
  {
    Strip(r.book) != "" && Strip(r.category) != "" && Strip(r.title) != ""
  }

  /** A chapter file the importer writes, under `<book>/<category>/`. */
  datatype ImportedFile = ImportedFile(book: string, category: string, fileName: string, content: string)

  /** The file a complete row gives: every field stripped; the name from the
      chapter number and title; the content from the three texts. */
  function RowFile(r: Row, excel: bool): ImportedFile
  {
    ImportedFile(Strip(r.book), Strip(r.category), ImportFileName(Strip(r.chapterNum), Strip(r.title), excel),
                 Encode(Strip(r.wenyan), Strip(r.zh), Strip(r.en)))
  }

  /** The rows an import does not skip, in order. */
  function Kept(rows: seq<Row>): seq<Row>
  {
    Select(rows, Complete)
  }

  /** The file each kept row gives. */
  function FileOf(excel: bool): Row -> ImportedFile
  {
    r => RowFile(r, excel)
  }

  /** What the import makes of one row: `None` when it is skipped. */
  function RowImport(r: Row, excel: bool): Option<ImportedFile>
  {
    if Complete(r) then Some(RowFile(r, excel)) else None
  }

  /** The files an import writes for `rows`: one per kept row, in row order. */
  function Imports(rows: seq<Row>, excel: bool): seq<ImportedFile>
  {
    Map(Kept(rows), FileOf(excel))
  }

  /** The table after each of `kept` has been registered, in order. */
  function RegisterEach(books: map<string, BookEntry>, kept: seq<Row>): map<string, BookEntry>
  {
    if kept == [] then books
    else
      var last := kept[|kept| - 1];
      Registered(RegisterEach(books, kept[..|kept| - 1]), Strip(last.book), Strip(last.category))
  }

  /** The table after an import of `rows`: only the kept rows register. */
  function RegisterAll(books: map<string, BookEntry>, rows: seq<Row>): map<string, BookEntry>
  {
    RegisterEach(books, Kept(rows))
  }

  /** One more row adds its file when it is complete, and nothing otherwise. */
  lemma ImportsStep(rows: seq<Row>, i: nat, excel: bool)
    requires i < |rows|
    ensures var f := RowImport(rows[i], excel);
            Imports(rows[..i + 1], excel) == Imports(rows[..i], excel) + (if f.Some? then [f.value] else [])
  {
    SelectPrefixStep(rows, i, Complete);
    MapSnoc(Kept(rows[..i]), rows[i], FileOf(excel));
  }

  lemma RegisterEachSnoc(books: map<string, BookEntry>, kept: seq<Row>, r: Row)
    ensures RegisterEach(books, kept + [r]) == Registered(RegisterEach(books, kept), Strip(r.book), Strip(r.category))
  {
    assert (kept + [r])[..|kept|] == kept;
  }

  /** The table after one row: a complete row registers its book and
      category, any other row changes nothing. */
  function RegisterRow(books: map<string, BookEntry>, r: Row): map<string, BookEntry>
  {
    if Complete(r) then Registered(books, Strip(r.book), Strip(r.category)) else books
  }

  /** An import of one more row is the import of the rows before it followed
      by that row's registration. */
  lemma RegisterAllStep(books: map<string, BookEntry>, rows: seq<Row>, i: nat)
    requires i < |rows|
    ensures RegisterAll(books, rows[..i + 1]) == RegisterRow(RegisterAll(books, rows[..i]), rows[i])
  {
    SelectPrefixStep(rows, i, Complete);
    var before := Kept(rows[..i]);
    if Complete(rows[i]) {
      assert Kept(rows[..i + 1]) == before + [rows[i]];
      RegisterEachSnoc(books, before, rows[i]);
    } else {
      assert Kept(rows[..i + 1]) == before;
    }
  }

  /** One file per complete row and none for the others, so `imported_count`
      counts exactly the complete rows. */
  lemma ImportsCount(rows: seq<Row>, excel: bool)
    ensures |Imports(rows, excel)| == |Kept(rows)| <= |rows|
    ensures (forall k :: 0 <= k < |rows| ==> Complete(rows[k])) ==> |Imports(rows, excel)| == |rows|
    ensures (forall k :: 0 <= k < |rows| ==> !Complete(rows[k])) ==> Imports(rows, excel) == []
  {
    SelectAllOrNone(rows, Complete);
  }

  /** Each file written is the file of a complete row. */
  lemma ImportsFromCompleteRows(rows: seq<Row>, excel: bool)
    ensures forall f :: f in Imports(rows, excel) ==> exists r :: r in rows && Complete(r) && f == RowFile(r, excel)
  {
    SelectMembers(rows, Complete);
    var kept := Kept(rows);
    forall f | f in Imports(rows, excel)
      ensures exists r :: r in rows && Complete(r) && f == RowFile(r, excel)
    {
      var i :| 0 <= i < |kept| && Imports(rows, excel)[i] == f;
      assert kept[i] in kept;
    }
  }

  /** Registration never removes a book or a category. */
  lemma {:induction false} RegisterEachKeeps(books: map<string, BookEntry>, kept: seq<Row>, b: string, c: string)
    requires b in books
    ensures b in RegisterEach(books, kept)
    ensures c in books[b].categories ==> c in RegisterEach(books, kept)[b].categories
  {
    if kept != [] {
      RegisterEachKeeps(books, kept[..|kept| - 1], b, c);
      var last := kept[|kept| - 1];
      RegisteredKeeps(RegisterEach(books, kept[..|kept| - 1]), Strip(last.book), Strip(last.category));
    }
  }

  lemma {:induction false} RegisterEachCovers(books: map<string, BookEntry>, kept: seq<Row>)
    ensures forall r :: r in kept ==>
              Strip(r.book) in RegisterEach(books, kept)
              && Strip(r.category) in RegisterEach(books, kept)[Strip(r.book)].categories
  {
    if kept != [] {
      var init := kept[..|kept| - 1];
      var last := kept[|kept| - 1];
      RegisterEachCovers(books, init);
      var before := RegisterEach(books, init);
      RegisteredHasCategory(before, Strip(last.book), Strip(last.category));
      RegisteredKeeps(before, Strip(last.book), Strip(last.category));
      assert kept == init + [last];
    }
  }

  /** After an import every complete row's book is in the table and has the
      row's category. */
  lemma RegisterAllCovers(books: map<string, BookEntry>, rows: seq<Row>)
    ensures forall r :: r in rows && Complete(r) ==>
              Strip(r.book) in RegisterAll(books, rows)
              && Strip(r.category) in RegisterAll(books, rows)[Strip(r.book)].categories
  {
    SelectMembers(rows, Complete);
    RegisterEachCovers(books, Kept(rows));
  }

  lemma {:induction false} RegisterEachOthers(books: map<string, BookEntry>, kept: seq<Row>, b: string)
    requires forall r :: r in kept ==> Strip(r.book) != b
    ensures b in books <==> b in RegisterEach(books, kept)
    ensures b in books ==> RegisterEach(books, kept)[b] == books[b]
  {
    if kept != [] {
      var init := kept[..|kept| - 1];
      var last := kept[|kept| - 1];
      assert forall r :: r in init ==> r in kept;
      RegisterEachOthers(books, init, b);
      RegisteredKeeps(RegisterEach(books, init), Strip(last.book), Strip(last.category));
    }
  }

  /** An import keeps every book already in the table with all its
      categories; a book no complete row names keeps its entry unchanged, and
      no book appears that neither was in the table nor is named by a
      complete row. */
  lemma RegisterAllOthers(books: map<string, BookEntry>, rows: seq<Row>, b: string)
    ensures b in books ==> b in RegisterAll(books, rows)
    ensures b in books ==> forall c :: c in books[b].categories ==>
              b in RegisterAll(books, rows) && c in RegisterAll(books, rows)[b].categories
    ensures (forall r :: r in rows && Complete(r) ==> Strip(r.book) != b) ==>
              (b in books <==> b in RegisterAll(books, rows))
              && (b in books ==> RegisterAll(books, rows)[b] == books[b])
  {
    SelectMembers(rows, Complete);
    if b in books {
      RegisterEachKeeps(books, Kept(rows), b, "");
      forall c | c in books[b].categories
        ensures b in RegisterAll(books, rows) && c in RegisterAll(books, rows)[b].categories
      {
        RegisterEachKeeps(books, Kept(rows), b, c);
      }
    }
    if forall r :: r in rows && Complete(r) ==> Strip(r.book) != b {
      RegisterEachOthers(books, Kept(rows), b);
    }
  }

  /** A blank title cell in an Excel sheet is read as "nan", so the row is
      not skipped: it is imported under the title "nan". The same row in a
      CSV file, whose blank cells read as "", is skipped. */
  lemma ExcelBlankTitleIsImported(book: string, category: string)
    requires Strip(book) != "" && Strip(category) != ""
    ensures Complete(ExcelRow(Some(book), Some(category), None, None, None, None, None))
    ensures !Complete(Row(book, category, "", "", "", "", ""))
  {
    assert Strip("nan") == "nan" by {
      assert IsStripped("nan");
      StripIdempotent("nan");
    }
    assert Strip("") == "" by {
      StripEmpty("");
    }
  }

  // ------------------------------------------------------------ importer

  /** The check-and-register step every import function makes for a book
      and a category, on the table `table`. */
  method RegisterIn(table: map<string, BookEntry>, b: string, c: string) returns (t: map<string, BookEntry>)
    ensures t == Registered(table, b, c)
  {
    t := table;
    if b !in t {
      t := t[b := BookEntry(b, map[c := c])];
    } else if c !in t[b].categories {
      t := t[b := t[b].(categories := t[b].categories[c := c])];
    }
  }

  /** The file name and content `import_from_csv` and `import_from_excel`
      give a row whose fields have been stripped. */
  method WriteRow(bookId: string, categoryId: string, chapterNum: string, title: string,
                  wenyan: string, zh: string, en: string, excel: bool)
    returns (file: ImportedFile)
    ensures file == ImportedFile(bookId, categoryId, ImportFileName(chapterNum, title, excel), Encode(wenyan, zh, en))
  {
    var fileName;
    if chapterNum != "" && !(excel && chapterNum == "nan") {
      fileName := PadLeft(chapterNum, 2, '0') + "_" + SafeFilename(title, 50) + ".txt";
    } else {
      fileName := SafeFilename(title, 50) + ".txt";
    }
    var content := CreateThreeParallelContent(Some(wenyan), Some(zh), Some(en));
    file := ImportedFile(bookId, categoryId, fileName, content);
  }

  /** The body of the row loop of `import_from_csv` and `import_from_excel`:
      an incomplete row is skipped (`None`) and leaves the table alone; a
      complete one registers its book and category and gives its file. */
  method ImportRow(table: map<string, BookEntry>, r: Row, excel: bool)
    returns (t: map<string, BookEntry>, file: Option<ImportedFile>)
    ensures file == RowImport(r, excel)
    ensures t == RegisterRow(table, r)
  {
    var bookId := Strip(r.book);
    var categoryId := Strip(r.category);
    var chapterNum := Strip(r.chapterNum);
    var title := Strip(r.title);
    var wenyan := Strip(r.wenyan);
    var zh := Strip(r.zh);
    var en := Strip(r.en);
    if bookId == "" || categoryId == "" || title == "" {
      return table, None;
    }
    t := RegisterIn(table, bookId, categoryId);
    var f := WriteRow(bookId, categoryId, chapterNum, title, wenyan, zh, en, excel);
    file := Some(f);
  }

  /** One pass of the row loop: row `i` is imported into the table and the
      files written so far, which are those of the rows before it. */
  method ImportNext(table: map<string, BookEntry>, rows: seq<Row>, i: nat, excel: bool,
                    t: map<string, BookEntry>, written: seq<ImportedFile>, count: nat)
    returns (t': map<string, BookEntry>, written': seq<ImportedFile>, count': nat)
    requires i < |rows|
    requires written == Imports(rows[..i], excel) && count == |written| && t == RegisterAll(table, rows[..i])
    ensures written' == Imports(rows[..i + 1], excel) && count' == |written'| && t' == RegisterAll(table, rows[..i + 1])
  {
    ImportsStep(rows, i, excel);
    RegisterAllStep(table, rows, i);
    var file;
    t', file := ImportRow(t, rows[i], excel);
    written', count' := written, count;
    if file.Some? {
      written' := written + [file.value];
      count' := count + 1;
    }
  }

  /** The row loop of `import_from_csv` (`excel` false) and
      `import_from_excel` (`excel` true), threading the book table through
      the rows: each complete row registers its book and category and writes
      one file; `count` is `imported_count`. */
  method ImportAll(table: map<string, BookEntry>, rows: seq<Row>, excel: bool)
    returns (t: map<string, BookEntry>, written: seq<ImportedFile>, count: nat)
    ensures written == Imports(rows, excel)
    ensures count == |written|
    ensures t == RegisterAll(table, rows)
  {
    t := table;
    written := [];
    count := 0;
    var i := 0;
    while i < |rows|
      invariant 0 <= i <= |rows|
      invariant written == Imports(rows[..i], excel)
      invariant count == |written|
      invariant t == RegisterAll(table, rows[..i])
    {
      t, written, count := ImportNext(table, rows, i, excel, t, written, count);
      i := i + 1;
    }
    FullPrefix(rows);
  }

  /** The importer's state: its copy of `BOOK_CATEGORIES`, which the import
      functions update. */
  class Registry {
    var books: map<string, BookEntry>

    constructor ()
      ensures books == InitialBooks()
    {
      books := InitialBooks();
    }

    method Register(b: string, c: string)
      modifies this
      ensures books == Registered(old(books), b, c)
    {
      books := RegisterIn(books, b, c);
    }

    /** `import_from_csv` and `import_from_excel` on the rows already read. */
    method ImportRows(rows: seq<Row>, excel: bool) returns (written: seq<ImportedFile>, count: nat)
      modifies this
      ensures written == Imports(rows, excel)
      ensures count == |written|
      ensures books == RegisterAll(old(books), rows)
    {
      books, written, count := ImportAll(books, rows, excel);
    }

    /** `import_single_txt(txt_path, book_id, category_id, title)`: the file's
        text is copied unchanged, under the title (the file's stem when no
        title or an empty one is given) made safe, with no chapter number. */
    method ImportSingleTxt(stem: string, text: string, bookId: string, categoryId: string, title: Option<string>)
      returns (file: ImportedFile)
      modifies this
      ensures books == Registered(old(books), bookId, categoryId)
      ensures file.book == bookId && file.category == categoryId && file.content == text
      ensures file.fileName == ImportFileName("", if OrEmpty(title) == "" then stem else OrEmpty(title), false)
    {
      var t := OrEmpty(title);
      if t == "" {
        t := stem;
      }
      Register(bookId, categoryId);
      file := ImportedFile(bookId, categoryId, SafeFilename(t, 50) + ".txt", text);
    }
  }
}
