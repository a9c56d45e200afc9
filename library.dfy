/**
 * What the web app (app.py) and the static site builder (build_static.py)
 * share when they load `data/raw/`: the directory listing, its order under
 * `sorted`, and the books and aligned chapters they build from it.
 */
module Library {
  import opened Wrappers
  import opened Text
  import opened Chapters

  /** An entry of `os.listdir(RAW_DIR)`: its name, whether it is a directory,
      and, for a book directory, the text of `wenyan.txt`, `zh.txt` and
      `en.txt` (`None` when the file is missing, which reads as ""). */
  datatype DirEntry = DirEntry(name: string, isDir: bool,
                               wenyan: Option<string>, zh: Option<string>, en: Option<string>)

  /** A chapter aligned across the three languages; `id` counts from 1. */
  datatype AlignedChapter = AlignedChapter(id: nat, title: string, wenyan: string, zh: string, en: string)

  /** A book as both loaders build it: `id` and `title` are the directory name. */
  datatype Book = Book(id: string, title: string, chapters: seq<AlignedChapter>)

  // ---------------------------------------------------------------- order

  /** Python's `a <= b` on strings: code point by code point, and a prefix
      before the longer string. */
  predicate NameLe(a: string, b: string)
    decreases |a|
  {
    a == [] || (b != [] && (a[0] < b[0] || (a[0] == b[0] && NameLe(a[1..], b[1..]))))
  }

  lemma {:induction false} NameLeTotal(a: string, b: string)
    ensures NameLe(a, b) || NameLe(b, a)
    decreases |a|
  {
    if a != [] && b != [] && a[0] == b[0] {
      NameLeTotal(a[1..], b[1..]);
    }
  }

  lemma {:induction false} NameLeTrans(a: string, b: string, c: string)
    requires NameLe(a, b) && NameLe(b, c)
    ensures NameLe(a, c)
    decreases |a|
  {
    if a != [] && a[0] == b[0] && b[0] == c[0] {
      NameLeTrans(a[1..], b[1..], c[1..]);
    }
  }

  lemma {:induction false} NameLeAntisymmetric(a: string, b: string)
    requires NameLe(a, b) && NameLe(b, a)
    ensures a == b
    decreases |a|
  {
    if a != [] {
      NameLeAntisymmetric(a[1..], b[1..]);
      assert a == [a[0]] + a[1..] && b == [b[0]] + b[1..];
    }
  }

  predicate SortedByName(es: seq<DirEntry>)
  {
    forall i, j :: 0 <= i < j < |es| ==> NameLe(es[i].name, es[j].name)
  }

  /** One step of insertion: `e` goes before the first entry it does not
      follow. */
  function Insert(e: DirEntry, es: seq<DirEntry>): (r: seq<DirEntry>)
    ensures multiset(r) == multiset(es) + multiset{e}
    ensures forall x :: x in r ==> x == e || x in es
  {
    if es == [] then [e]
    else if NameLe(e.name, es[0].name) then [e] + es
    else
      assert es == [es[0]] + es[1..];
      [es[0]] + Insert(e, es[1..])
  }

  lemma {:induction false} InsertSorted(e: DirEntry, es: seq<DirEntry>)
    requires SortedByName(es)
    ensures SortedByName(Insert(e, es))
  {
    if es == [] {
    } else if NameLe(e.name, es[0].name) {
      var r := [e] + es;
      forall i, j | 0 <= i < j < |r| ensures NameLe(r[i].name, r[j].name) {
        if i == 0 && j > 1 {
          NameLeTrans(e.name, es[0].name, es[j - 1].name);
        }
      }
    } else {
      NameLeTotal(e.name, es[0].name);
      var t := es[1..];
      InsertSorted(e, t);
      var r := [es[0]] + Insert(e, t);
      forall i, j | 0 <= i < j < |r| ensures NameLe(r[i].name, r[j].name) {
        if i == 0 {
          var x := r[j];
          assert x in Insert(e, t);
          if x != e {
            var k :| 0 <= k < |t| && t[k] == x;
            assert es[k + 1] == x;
          }
        }
      }
    }
  }

  /** `sorted(os.listdir(RAW_DIR))`: the entries in ascending name order. */
  function SortByName(es: seq<DirEntry>): (r: seq<DirEntry>)
    ensures multiset(r) == multiset(es)
  {
    if es == [] then []
    else
      assert es == [es[0]] + es[1..];
      Insert(es[0], SortByName(es[1..]))
  }

  /** `sorted` does sort, whatever the listing's order. */
  lemma {:induction false} SortByNameSorted(es: seq<DirEntry>)
    ensures SortedByName(SortByName(es))
  {
    if es != [] {
      SortByNameSorted(es[1..]);
      InsertSorted(es[0], SortByName(es[1..]));
    }
  }

  // ------------------------------------------------------------ alignment

  /** `n = min(...) if (ch_w and ch_z and ch_e) else max(...)`. */
  function AlignedCount(cw: seq<Chapter>, cz: seq<Chapter>, ce: seq<Chapter>): nat
  {
    if |cw| > 0 && |cz| > 0 && |ce| > 0 then Min3(|cw|, |cz|, |ce|) else Max3(|cw|, |cz|, |ce|)
  }

  /** Every text parses into at least one chapter, so the aligned count of
      three parsed texts is always the smallest of their chapter counts: the
      `max` branch is never taken. */
  lemma AlignedCountIsMin(wenyan: string, zh: string, en: string)
    ensures AlignedCount(Parse(wenyan), Parse(zh), Parse(en)) == Min3(|Parse(wenyan)|, |Parse(zh)|, |Parse(en)|)
  {
    ParseNonEmpty(wenyan);
    ParseNonEmpty(zh);
    ParseNonEmpty(en);
  }

  /** The book directories of a listing, in listing order. */
  function Dirs(es: seq<DirEntry>): (r: seq<DirEntry>)
    ensures |r| <= |es|
  {
    if es == [] then []
    else Dirs(es[..|es| - 1]) + (if es[|es| - 1].isDir then [es[|es| - 1]] else [])
  }

  /** Only directories are kept, and all of them. */
  lemma {:induction false} DirsMembers(es: seq<DirEntry>)
    ensures forall e :: e in Dirs(es) <==> e in es && e.isDir
  {
    if es != [] {
      DirsMembers(es[..|es| - 1]);
      assert es == es[..|es| - 1] + [es[|es| - 1]];
    }
  }

  /** Dropping the files from a sorted listing leaves it sorted. */
  lemma {:induction false} DirsSorted(es: seq<DirEntry>)
    requires SortedByName(es)
    ensures SortedByName(Dirs(es))
  {
    if es != [] {
      var init := es[..|es| - 1];
      var last := es[|es| - 1];
      assert SortedByName(init) by {
        forall i, j | 0 <= i < j < |init| ensures NameLe(init[i].name, init[j].name) {
          assert init[i] == es[i] && init[j] == es[j];
        }
      }
      DirsSorted(init);
      DirsMembers(init);
      if last.isDir {
        var r := Dirs(init) + [last];
        forall i, j | 0 <= i < j < |r| ensures NameLe(r[i].name, r[j].name) {
          if j == |r| - 1 {
            assert r[i] in init;
            var k :| 0 <= k < |init| && init[k] == r[i];
            assert es[k] == r[i];
          }
        }
      }
    }
  }

  // ---------------------------------------------------------------- books

  /** The books a loader builds from a listing: one per directory, in
      listing order, each built by `bookOf`. */
  function BooksOf(es: seq<DirEntry>, bookOf: DirEntry -> Book): (r: seq<Book>)
    ensures |r| == |Dirs(es)|
  {
    if es == [] then []
    else
      var last := es[|es| - 1];
      BooksOf(es[..|es| - 1], bookOf) + (if last.isDir then [bookOf(last)] else [])
  }

  /** Extending a prefix of the listing by one entry adds that entry's book
      when it is a directory. */
  lemma BooksOfStep(es: seq<DirEntry>, k: nat, bookOf: DirEntry -> Book)
    requires k < |es|
    ensures BooksOf(es[..k + 1], bookOf) == BooksOf(es[..k], bookOf) + (if es[k].isDir then [bookOf(es[k])] else [])
  {
    assert es[..k + 1][..k] == es[..k];
  }

  /** Book k is built from the k-th directory. */
  lemma {:induction false} BooksOfDirs(es: seq<DirEntry>, bookOf: DirEntry -> Book)
    ensures forall k :: 0 <= k < |Dirs(es)| ==> BooksOf(es, bookOf)[k] == bookOf(Dirs(es)[k])
  {
    if es != [] {
      BooksOfDirs(es[..|es| - 1], bookOf);
    }
  }

  /** The ids of a list of books. */
  function Ids(books: seq<Book>): set<string>
  {
    set b | b in books :: b.id
  }

  /** The names of the directories of a listing. */
  function DirNames(listing: seq<DirEntry>): set<string>
  {
    set e | e in listing && e.isDir :: e.name
  }

  /** A loader's book list, when its ids are the directory names: the books
      come in ascending id order, and a book with a given id exists exactly
      when the listing has a directory of that name. */
  lemma BooksSortedById(listing: seq<DirEntry>, bookOf: DirEntry -> Book)
    requires forall e :: bookOf(e).id == e.name
    ensures var books := BooksOf(SortByName(listing), bookOf);
            forall i, j :: 0 <= i < j < |books| ==> NameLe(books[i].id, books[j].id)
    ensures Ids(BooksOf(SortByName(listing), bookOf)) == DirNames(listing)
  {
    var sorted := SortByName(listing);
    SortByNameSorted(listing);
    DirsSorted(sorted);
    DirsMembers(sorted);
    BooksOfDirs(sorted, bookOf);
    var books := BooksOf(sorted, bookOf);
    var dirs := Dirs(sorted);
    forall e | e in listing && e.isDir
      ensures e.name in Ids(books)
    {
      assert e in multiset(sorted);
      assert e in dirs;
      var k :| 0 <= k < |dirs| && dirs[k] == e;
      assert books[k] in books;
    }
    forall b | b in books
      ensures b.id in DirNames(listing)
    {
      var k :| 0 <= k < |books| && books[k] == b;
      var e := dirs[k];
      assert e in dirs;
      assert e in multiset(listing);
    }
  }
}
