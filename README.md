# Four Histories corpus pipeline, modelled in Dafny

This project models the plain-text pipeline of a small classical Chinese
corpus site. The corpus holds the Four Histories (史记, 汉书, 后汉书, 三国志)
as three parallel texts: classical Chinese (wenyan), modern Chinese (zh) and
English (en). The model covers these parts:

- **Chapter splitter** (`Chapters`). A line starting with `"## "` opens a
  chapter. The repository has three identical copies of this code
  (migrate_data.py, app.py and the nested `parse` of build_static.py), and the
  model has one. `Parse` is the specification, and `ParseChapters` is the
  scanner loop proved equal to it.
- **Three-parallel format** (`Parallel`).
  - The encoder (`create_parallel_content`) interleaves paragraph *i* of each
    language into group *i*.
  - The decoder (`convert_three_parallel_to_separate`) applies the 3/2/1-line
    rule.
  - The two round-trip under stated conditions. When paragraph counts
    differ they can misalign, for example when the modern Chinese text is
    missing (`Parallel.MissingTranslationShifts`).
- **Migration** (`Migrate`, `Config`, `FileNames`, `Align`). This is the
  per-chapter work of `migrate_book`:
  - chapters are aligned up to the longest of the three lists;
  - each title falls back to `第{i+1}章`;
  - the categoriser is a priority-ordered substring rule table with per-book
    fall-backs;
  - each file name is the zero-padded chapter number, `_`, then the title made
    safe.
- **Batch importer** (`BatchImport`). CSV and Excel rows are imported. Rows
  missing a book, category or title are skipped. The importer's book table
  (`BOOK_CATEGORIES`) is extended in place, and imported rows are counted.
  Single-file import is covered too.
- **Web app and static site** (`Library`, `WebApp`, `StaticSite`).
  - The two `load_books_from_raw` loaders: `sorted` listing, directories
    only, and the min-or-max chapter alignment with each loader's own title
    rule.
  - The corpus search.
  - The book, chapter and entry lookups, including prev/next navigation.
  - The static page file names.

Each imperative piece of the source is a method with a loop. It is proved
equal to a specification function, and the source's promises are lemmas about
that function. The importer's table is a `class Registry` whose methods
update its `books` field.

Inputs the programs read from disk or from libraries are parameters of the
model:

- file contents (`Option<string>`, with `None` for a missing file);
- directory listings (`seq<DirEntry>`);
- parsed CSV/Excel rows (`Row`);
- the loaded JSON corpus (`seq<CorpusEntry>`).

## Behaviour worth knowing

- **Lines before the first marker.** Any line before the first marker opens
  an untitled chapter, even a blank one (migrate_data.py:70-78).
  `Chapters.ParseCount` states the exact count.
- **Blank-title markers.** A `"## "` marker with a blank title still opens a
  chapter when a body line follows it (migrate_data.py:61-69). With no body
  line after it, it opens none. So the count is not one per marker with a
  non-blank title (`Chapters.ParseCount`).
- **Text with no chapter.** When no chapter is collected, the whole text
  trimmed becomes the one chapter (migrate_data.py:80-81). A text without
  markers is collected first: its `splitlines()` are joined with `"\n"` and
  trimmed (migrate_data.py:74-78). That equals the whole text trimmed when
  `"\n"` is its sole line boundary (`Chapters.ParseWithoutMarkers`,
  `Chapters.ParseWithoutMarkersNewlineOnly`). With other boundaries it can
  differ: `"a\rb"` is kept as `"a\nb"`, while the whole text trimmed is
  `"a\rb"` (`Chapters.CarriageReturnRejoined`).
- **Marker lines inside content.** A chapter's content can begin with a
  marker line in two ways:
  - an indented `"  ## x"` is not a marker, and trimming brings `"## x"` to
    the front (migrate_data.py:61, `Chapters.IndentedMarkerIsContent`);
  - a text made only of blank-title markers, such as `"## \n## "`, collects
    nothing, so the fall-back keeps it whole (migrate_data.py:80-81,
    `Chapters.BlankMarkersFallBack`).
- **Title fall-back in app.py.** app.py:82 parses as
  `(w or z or e) if … else 第{i+1}章`. Below the aligned count the
  fall-back is never taken, so a title can be `""`
  (`WebApp.AppTitleInRange`). build_static.py:65 and migrate_data.py:215-223
  do fall back.
- **Alignment length.** The migration always aligns up to the longest
  chapter list (migrate_data.py:196). The two loaders take the minimum when
  all three lists are non-empty and the maximum otherwise (app.py:75,
  build_static.py:59). Parsing never yields an empty list, so their `max`
  branch is unreachable (`Library.AlignedCountIsMin`).
- **Blank Excel cells.** pandas reads a blank cell as NaN, and `str(NaN)` is
  `"nan"` (batch_import.py:138-144). So an Excel row with a blank title is
  imported under the title `"nan"` rather than skipped
  (`BatchImport.ExcelBlankTitleIsImported`). The same rule applies to every
  cell, so a blank wenyan, zh or en cell becomes a `"nan"` paragraph of the
  encoded content (`BatchImport.ExcelRow` applies `ExcelCell` to all seven
  cells).

## Model

| member | source | states |
|---|---|---|
| Text.StripStripped | migrate_data.py:64-68 | the result of `strip()` has whitespace at neither end |
| Text.StripEmpty | batch_import.py:87-89 | `s.strip()` is empty exactly when `s` is all whitespace, so the skip test rejects exactly the blank fields |
| Text.StripIdempotent | migrate_data.py:65 | `strip()` of an already trimmed title (`cur_title.strip()` after `line[3:].strip()`) changes nothing |
| Text.TrimLeftSuffix | migrate_data.py:68 | `lstrip` removes a run of whitespace at the front and nothing else |
| Text.TrimRightPrefix | migrate_data.py:68 | `rstrip` removes a run of whitespace at the back and nothing else |
| Text.StripSnocSpace | migrate_data.py:66 | trailing whitespace does not change `strip()` |
| Text.SplitOn | migrate_data.py:139 | `s.split(sep)` gives at least one piece, and joining the pieces with `sep` gives `s` back |
| Text.SplitOnSepFree | migrate_data.py:146 | a text with no occurrence of the separator splits into itself alone |
| Text.SplitOnJoin | migrate_data.py:139 | splitting a join gives the pieces back when no piece holds the separator |
| Text.Lines | migrate_data.py:55 | `splitlines()` yields no line exactly for the empty text |
| Text.LinesOfJoin | migrate_data.py:55 | lines without boundaries joined with `"\n"` split back into those lines |
| Text.LinesJoin | migrate_data.py:66 | on text whose only line boundary is `"\n"`, joining the lines with `"\n"` gives the text less one final `"\n"` |
| Text.StripChopNewline | migrate_data.py:81 | dropping one final `"\n"` does not change `strip()` |
| Text.Lower | app.py:104 | `lower()` keeps the length and lowers every character on its own |
| Text.Decimal | app.py:148 | `str(n)` is a non-empty run of digits denoting `n` |
| Text.PadLeft | batch_import.py:105 | `f"{s:0>2}"` is as long as `s`, or 2 when `s` is shorter |
| Text.PadLeftShape | batch_import.py:105 | the padded text ends with `s` and is fill characters before it |
| Text.LeadingZeros | batch_import.py:105 | leading zeros do not change the value of a numeral |
| Text.PaddedDecimalValue | migrate_data.py:236 | `f"{n:02d}"` is all digits and still denotes `n` |
| Text.Max3 | migrate_data.py:196 | `max` of three counts is one of them and no smaller than any |
| Text.Min3 | app.py:75 | `min` of three counts is one of them and no larger than any |
| Config.Keys | migrate_data.py:203 | `categories.keys()` in table order, one per category |
| Config.Lookup | migrate_data.py:199 | `BOOK_CATEGORIES.get(book_id)` finds the book's entry exactly when the table has that id |
| Config.CategoryKeys | migrate_data.py:199-200 | the category keys of a book are its configured ones, or `["default"]` for a book not in the table; never empty |
| FileNames.SafeFilename | batch_import.py:28-32 | the length is `min(len(text), max_length)`; position k is `text[k]` if it is a word or CJK character, else `'_'` |
| FileNames.SafeFilenameIdempotent | batch_import.py:31-32 | a safe name is its own safe name |
| FileNames.SafeFilenameOfSafe | batch_import.py:31-32 | a name of kept characters within the limit passes through unchanged |
| FileNames.ChapterPrefix | migrate_data.py:236 | `f"{i+1:02d}"` has at least two digits and denotes i+1 |
| FileNames.DigitsBeforeUnderscore | migrate_data.py:236 | the digits in front of the first `_` of a file name are determined by the name |
| FileNames.MigrateFileNameInjective | migrate_data.py:235-236 | two chapter indexes never give the same migrated file name, whatever the titles |
| FileNames.ImportFileNameShape | batch_import.py:104-107 | an imported file name ends in `.txt`; with a chapter number it starts with the number padded with `'0'` to width 2, which keeps a numeric value |
| FileNames.NanIsNoNumber | batch_import.py:163-166 | the Excel path treats `"nan"` as no chapter number; the CSV path would prefix it |
| Align.ChapterLabel | migrate_data.py:223 | the fall-back title `第{i+1}章` is never empty |
| Chapters.Body | migrate_data.py:60-71 | the body of a chapter is the longest run of non-marker lines at the front, stopping at a marker |
| Chapters.Section | migrate_data.py:74-78 | closing a chapter adds one chapter when it has a title or a body line, and none otherwise |
| Chapters.BodyAppend | migrate_data.py:70-71 | body lines in front of a text extend its leading body |
| Chapters.SectionsAtMarker | migrate_data.py:61-69 | a marker after body lines closes their chapter and opens the next, titled by the marker |
| Chapters.SectionsAtEnd | migrate_data.py:74-78 | at the end of the text the open chapter is closed |
| Chapters.MarkerStep | migrate_data.py:61-69 | a marker line flushes the open chapter and leaves the chapters still to come unchanged |
| Chapters.MarkerStepState | migrate_data.py:68-69 | after a marker the open chapter has no body lines and the remaining chapters are unchanged |
| Chapters.BodyStep | migrate_data.py:70-71 | a body line joins the open chapter and the remaining chapters are unchanged |
| Chapters.ScanInvariant | migrate_data.py:60-71 | after any prefix of the lines, the closed chapters plus the chapters of the rest are all the chapters |
| Chapters.ScanMatchesSections | migrate_data.py:60-78 | scanning all lines and flushing last gives the chapters of the text |
| Chapters.ParseChapters | migrate_data.py:53-83 | the scanner computes `Parse(text)` (the copies at app.py:14-38 and build_static.py:37-54 are identical) |
| Chapters.ParseNonEmpty | app.py:35-37 | the parser never returns an empty list |
| Chapters.SectionsTrimmed | migrate_data.py:63-78 | every chapter closed has a trimmed title and trimmed content |
| Chapters.ParseTrimmed | build_static.py:44-53 | every chapter returned has a trimmed title and trimmed content |
| Chapters.KeptMarkersSkipBody | migrate_data.py:70-71 | body lines do not add to the count of chapter-opening markers |
| Chapters.SectionsCount | migrate_data.py:60-78 | the chapters of the lines are one for an opened chapter with a title or body line, plus one per marker that has a title or a following body line |
| Chapters.ParseCount | migrate_data.py:53-83 | the chapter count is 1 if lines precede the first marker (even a blank one), plus the markers with a title or a body line; at least 1 |
| Chapters.ParseWithoutMarkers | migrate_data.py:74-81 | a text without markers is one untitled chapter holding its lines rejoined with `"\n"` and trimmed |
| Chapters.ParseWithoutMarkersNewlineOnly | migrate_data.py:74-81 | when `"\n"` is the only line boundary, that content is the whole text trimmed |
| Chapters.CarriageReturnLines | migrate_data.py:55 | `"\r"` is a line boundary of its own: `"a\rb".splitlines()` is `["a", "b"]` |
| Chapters.CarriageReturnRejoined | migrate_data.py:74-81 | `"a\rb"` is one untitled chapter with content `"a\nb"`, which is not the whole text trimmed |
| Chapters.IndentedMarkerIsContent | migrate_data.py:61 | a line that reads `"## "` only after leading whitespace is content, and it ends up at the head of the content |
| Chapters.BlankMarkersLines | migrate_data.py:55 | `"## \n## ".splitlines()` is two marker lines |
| Chapters.BlankMarkersSections | migrate_data.py:60-78 | blank-title markers with no body line after them collect no chapter |
| Chapters.BlankMarkersStrip | migrate_data.py:81 | trimming `"## \n## "` drops only the final space |
| Chapters.BlankMarkersFallBack | migrate_data.py:74-81 | `"## \n## "` parses into the one fall-back chapter holding the text trimmed, and that content begins with a marker line |
| Parallel.NonBlankStripped | migrate_data.py:251 | the paragraph list is no longer than the list of pieces |
| Parallel.NonBlankStrippedClean | migrate_data.py:251-253 | every paragraph kept is non-empty and trimmed |
| Parallel.ParagraphsClean | batch_import.py:43-45 | the paragraphs of a text are non-empty and trimmed |
| Parallel.ParagraphsOfEmpty | batch_import.py:43-45 | a missing text (`x or ""`) has no paragraph |
| Parallel.NoNewlineParagraph | migrate_data.py:251 | a trimmed text without line feeds is its own single paragraph |
| Parallel.Groups | migrate_data.py:256-262 | there are `max` of the three paragraph counts groups |
| Parallel.GroupNonEmpty | migrate_data.py:264-271 | below that count a group always has a line, so the `if group` test never drops one |
| Parallel.ParallelGroups | migrate_data.py:256-271 | the loop emits exactly the groups of the specification, one per index, in wenyan/zh/en order |
| Parallel.CreateParallelContent | migrate_data.py:245-273 | the encoder computes `Encode` |
| Parallel.EncodedGroupsNonEmpty | migrate_data.py:270-273 | every group joined into the encoded text is non-empty |
| Parallel.EncodeBlank | migrate_data.py:256-273 | texts with no paragraph encode to `""` |
| Parallel.DecodeGroups | migrate_data.py:145-163 | the three part lists are equally long, one entry per group with a non-blank line |
| Parallel.ConvertThreeParallelToSeparate | migrate_data.py:132-168 | the decoder computes `Decode` by the 3/2/1-line rule |
| Parallel.NonBlankStrippedKeeps | migrate_data.py:146 | trimmed non-blank lines survive the line filter unchanged |
| Parallel.FullGroup | migrate_data.py:148-152 | a group of three trimmed one-line paragraphs splits back into those three lines |
| Parallel.DecodeFullGroups | migrate_data.py:145-152 | decoding the first k groups of equally long clean lists gives the first k paragraphs of each |
| Parallel.DecodeJoinedGroups | migrate_data.py:139-168 | the encoded groups of equally long clean lists decode into those lists |
| Parallel.EmptyDecodes | migrate_data.py:139-146 | the empty text decodes to three empty part lists |
| Parallel.RoundTrip | migrate_data.py:132-168 | decoding the encoding of three texts with equal paragraph counts and no line feed inside a paragraph gives each text's paragraphs joined by blank lines |
| Parallel.MissingTranslationShifts | migrate_data.py:153-157 | with the modern Chinese text missing, the English paragraph comes back as modern Chinese and English comes back empty |
| Migrate.FirstMatch | migrate_data.py:92-128 | the key of the first rule whose marker the title contains; the fall-back when none does |
| Migrate.RulesConfigured | migrate_data.py:17-51 | every category a rule or fall-back names is a configured key of the book |
| Migrate.CategorizeChapter | migrate_data.py:85-130 | the category is always one of the book's keys (or `"default"`) |
| Migrate.CategorizeSingleCategory | migrate_data.py:117-130 | an unknown book always gives `"default"`, houhanshu always `"leibian"` |
| Migrate.MigratedTitle | migrate_data.py:215-223 | the wenyan title at index i if non-empty, else the zh title if non-empty, else the en title if non-empty, else `第{i+1}章`; never empty |
| Migrate.Migrated | migrate_data.py:196 | one migrated chapter per index below the longest chapter list |
| Migrate.MigrateChapter | migrate_data.py:208-236 | the loop body computes the title, category, content and file name of chapter i |
| Migrate.MigratedFiles | migrate_data.py:208-243 | every migrated file has a non-empty title, a configured category, the encoded content and a file name no other chapter gets |
| Migrate.MigrateBook | migrate_data.py:170-243 | `migrate_book` writes exactly `Migrated(...)`: max-of-counts files |
| Library.NameLeTotal | app.py:54 | Python string order is total |
| Library.NameLeTrans | app.py:54 | Python string order is transitive |
| Library.NameLeAntisymmetric | app.py:54 | Python string order is antisymmetric |
| Library.Insert | app.py:54 | inserting an entry adds exactly it to the multiset of entries |
| Library.InsertSorted | app.py:54 | insertion keeps a listing sorted |
| Library.SortByName | app.py:54 | `sorted` is a permutation of the listing |
| Library.SortByNameSorted | build_static.py:20 | `sorted` yields ascending names |
| Library.AlignedCountIsMin | app.py:75 | for parsed texts the aligned count is the minimum; the `max` branch is dead |
| Library.Dirs | app.py:56-57 | the directories are no more than the entries |
| Library.DirsMembers | build_static.py:21-23 | exactly the directory entries are kept |
| Library.DirsSorted | build_static.py:20-23 | skipping files keeps the sorted order |
| Library.BooksOf | app.py:54-84 | one book per directory |
| Library.BooksOfStep | app.py:56-84 | one more entry adds its book exactly when it is a directory |
| Library.BooksOfDirs | app.py:54-84 | book k is built from the k-th directory |
| Library.BooksSortedById | build_static.py:20-67 | books come in ascending id order, and their ids are exactly the directory names |
| WebApp.AppTitleInRange | app.py:82 | below the aligned count no IndexError occurs and the `第{i+1}章` branch is dead; the title is the first non-empty of the three, possibly `""` |
| WebApp.AppChapters | app.py:75-83 | a book has as many chapters as the shortest chapter list |
| WebApp.AlignChapters | app.py:75-83 | the chapter loop builds exactly `AppChapters` |
| WebApp.LoadBook | app.py:59-84 | the loop body for one book directory builds `AppBook` |
| WebApp.LoadBooks | app.py:41-85 | `load_books_from_raw` builds exactly `AppBooks` (none when the directory is missing) |
| WebApp.AppBookChapters | app.py:72-84 | chapters number 1..n with n the minimum count; chapter k carries the k-th content of each language and the first non-empty title |
| WebApp.AppBooksOrder | app.py:54-57 | books in ascending name order, one per directory and none for files |
| WebApp.AppBooksDense | app.py:83 | every loaded book's chapter ids are 1, 2, … in order |
| WebApp.BookPage | app.py:129-134 | the first book with the id, or 404 exactly when there is none |
| WebApp.ChapterPage | app.py:137-154 | the first chapter with the id in the first book with the id that has it, or 404 exactly when there is none; a prev link iff id > 1, to id−1; a next link iff id < chapter count, to id+1 |
| WebApp.NavigationTargetsExist | app.py:144-150 | in a loaded book, prev and next links lead to chapters that exist |
| WebApp.EntryPage | app.py:157-162 | the first entry whose id matches, or 404 exactly when there is none |
| WebApp.EntryMatches | app.py:107-113 | an entry matches iff the lowered query is in its lowered title or one of its three texts |
| WebApp.SearchCorpus | app.py:101-114 | an empty query returns the corpus; otherwise the matching entries in corpus order |
| WebApp.SearchResults | app.py:104-114 | the results are exactly the matching entries, no entry more often than in the corpus, and the filter respects order (it distributes over concatenation) |
| StaticSite.StaticTitle | build_static.py:65 | the wenyan title at index i if non-empty, else the zh title if non-empty, else the en title if non-empty, else `第{i+1}章`; never empty |
| StaticSite.StaticChapters | build_static.py:59-66 | as many chapters as the aligned count |
| StaticSite.AlignChapters | build_static.py:59-66 | the chapter loop builds exactly `StaticChapters` |
| StaticSite.LoadBook | build_static.py:24-67 | the loop body for one book directory builds `StaticBook` |
| StaticSite.LoadBooks | build_static.py:16-68 | `load_books_from_raw` builds exactly `StaticBooks` |
| StaticSite.StaticBookChapters | build_static.py:56-66 | chapters number 1..n with n the minimum count, each with the k-th contents and a non-empty title |
| StaticSite.StaticBooksOrder | build_static.py:20-23 | books in ascending name order, one per directory |
| StaticSite.ChapterFileNameInjective | build_static.py:95 | different chapter ids give different `chapter_{id}.html` names |
| StaticSite.StaticPagesDistinct | build_static.py:94-95 | no chapter page of a book overwrites another |
| BatchImport.CreateThreeParallelContent | batch_import.py:34-65 | `""` when all three texts are missing or empty, else the migration's encoding |
| BatchImport.CategoryMap | batch_import.py:21-26 | a book's category map has exactly the configured keys |
| BatchImport.InitialBooks | batch_import.py:21-26 | the initial table holds exactly the four configured books |
| BatchImport.RegisteredHasCategory | batch_import.py:92-97 | after registration the book is present and has the category |
| BatchImport.RegisteredNewBook | batch_import.py:92-94 | an unknown book gets an entry named by its id with exactly the one category named by its key |
| BatchImport.RegisteredKeeps | batch_import.py:151-156 | registration changes no other book, keeps the book's name and categories, and adds no other book |
| BatchImport.RegisteredIdempotent | batch_import.py:191-196 | registering the same pair twice is registering it once |
| BatchImport.ImportsStep | batch_import.py:87-118 | one more row adds its file exactly when it is complete |
| BatchImport.RegisterEachSnoc | batch_import.py:92-97 | registering one more kept row registers its book and category after the others |
| BatchImport.RegisterAllStep | batch_import.py:87-97 | one more row registers its book and category exactly when it is complete |
| BatchImport.ImportsCount | batch_import.py:87-118 | `imported_count` counts exactly the complete rows: all when all are complete, none when none is |
| BatchImport.ImportsFromCompleteRows | batch_import.py:79-110 | every file written is the file of a complete row |
| BatchImport.RegisterEachKeeps | batch_import.py:92-97 | registration never removes a book or a category |
| BatchImport.RegisterEachCovers | batch_import.py:92-97 | every registered row's book is present with the row's category |
| BatchImport.RegisterAllCovers | batch_import.py:78-97 | after an import every complete row's book has the row's category |
| BatchImport.RegisterEachOthers | batch_import.py:92-97 | a book no row names is untouched |
| BatchImport.RegisterAllOthers | batch_import.py:137-156 | an import keeps every book and category, and a book no complete row names keeps its entry and appears only if it was there |
| BatchImport.ExcelBlankTitleIsImported | batch_import.py:138-148 | an Excel row with a blank title is imported (as `"nan"`); the same CSV row is skipped |
| BatchImport.RegisterIn | batch_import.py:191-196 | the check-and-register step computes `Registered` |
| BatchImport.WriteRow | batch_import.py:162-169 | the file name and content of a row whose fields are stripped |
| BatchImport.ImportRow | batch_import.py:79-118 | an incomplete row is skipped and leaves the table alone; a complete one registers and gives its file |
| BatchImport.ImportNext | batch_import.py:137-177 | one pass of the row loop extends the written files and the table by that row |
| BatchImport.ImportAll | batch_import.py:67-120 | the row loop writes exactly `Imports(rows)`, counts them, and leaves the table at `RegisterAll(rows)` |
| BatchImport.Registry.constructor | batch_import.py:21-26 | the importer starts from the configured table |
| BatchImport.Registry.Register | batch_import.py:92-97 | the table in place becomes `Registered(old table, b, c)` |
| BatchImport.Registry.ImportRows | batch_import.py:122-179 | `import_from_csv`/`import_from_excel`: the files, the count and the updated table |
| BatchImport.Registry.ImportSingleTxt | batch_import.py:181-214 | registers the pair; the text is copied unchanged under the safe title (the file stem when no title is given), without a chapter number |

## Left out

- File and process I/O is not modelled. This covers `open`/`read`/`write`, `os.listdir`, `os.path.isdir`, `os.makedirs`, `shutil`, `print` logging and the `main` entry points with their argument handling. File contents and listings are parameters, and a missing file is `None`, which reads as `""`.
- The Flask app object, routing, `render_template`, `abort` and the Jinja2 templates are not modelled. A route that renders is `Some` and a 404 is `None`. `render_site` (build_static.py:71-99) is modelled only for its chapter page file names.
- The `index` route (app.py:117-126) is left out. Its history filter and history list do not reach the page it renders.
- `csv.DictReader`, `pandas.read_excel` and `json.load` (`load_corpus`) are foreign libraries. Rows and corpus entries come in already parsed. Two consequences:
  - the crash on a missing `book`/`category`/`title` column or a short CSV row is not modelled;
  - an Excel numeric cell printed as `"1.0"` is just a string here.
- `validate_data`, `create_template_csv` and the three `main` functions are left out. They only count, write a template, or dispatch.
- Text.IsSpace, Text.IsLineBreak and FileNames.Keep cover these character classes:
  - IsSpace and IsLineBreak are written out from Python's `str.isspace` and `splitlines` boundaries;
  - Keep covers `\w` only for ASCII letters, digits and `_`, plus U+4E00 to U+9FFF. Python's `\w` also accepts other Unicode letters and digits.
- Text.Lower: lowers only ASCII letters, not the full Unicode case mapping of `str.lower()`.
- BatchImport.Registry.ImportRows threads the table through the loop as a value and stores it once at the end. Nothing reads the table between rows, so the final state is the same.
- BatchImport.InitialBooks: a map loses the insertion order of the Python dict. `Config` keeps the order as a sequence, for `list(categories.keys())[0]`.

