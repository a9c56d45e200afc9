/**
 * File names of the chapters written to disk: `safe_filename`
 * (batch_import.py), its inline twin in `migrate_book` (migrate_data.py), and
 * the zero-padded chapter-number prefixes.
 */
module FileNames {
  import opened Text

  /** The characters `re.sub(r'[^\w\u4e00-\u9fff]', '_', …)` keeps: word
      characters (letters, digits and '_'; here the ASCII ones) and the CJK
      unified ideographs U+4E00 to U+9FFF. */
  predicate Keep(c: char) {
    ('a' <= c <= 'z') || ('A' <= c <= 'Z') || ('0' <= c <= '9') || c == '_'
    || ('\U{4e00}' <= c <= '\U{9fff}')
  }

  function Min(a: nat, b: nat): nat {
    if a <= b then a else b
  }

  /** `safe_filename(text, max_length)`: every character that is not kept is
      replaced by '_', then the result is cut to `maxLength` characters. */
  function SafeFilename(text: string, maxLength: nat): (r: string)
    ensures |r| == Min(|text|, maxLength)
    ensures forall k :: 0 <= k < |r| ==> Keep(r[k])
    ensures forall k :: 0 <= k < |r| ==> r[k] == if Keep(text[k]) then text[k] else '_'
  {
    seq(Min(|text|, maxLength), k requires 0 <= k < Min(|text|, maxLength) => if Keep(text[k]) then text[k] else '_')
  }

  /** A safe name is its own safe name: '_' is a kept character and cutting
      twice at the same length cuts once. */
  lemma SafeFilenameIdempotent(text: string, maxLength: nat)
    ensures SafeFilename(SafeFilename(text, maxLength), maxLength) == SafeFilename(text, maxLength)
  {
  }

  /** A name made only of kept characters and no longer than the limit is
      already safe. */
  lemma SafeFilenameOfSafe(text: string, maxLength: nat)
    requires |text| <= maxLength && forall k :: 0 <= k < |text| ==> Keep(text[k])
    ensures SafeFilename(text, maxLength) == text
  {
  }

  /** `f"{i+1:02d}"`: the 1-based chapter number, at least two digits wide. */
  function ChapterPrefix(i: nat): (r: string)
    ensures |r| >= 2
    ensures forall k :: 0 <= k < |r| ==> IsDigit(r[k])
    ensures DigitsValue(r) == i + 1
  {
    PaddedDecimalValue(i + 1, 2);
    PadLeft(Decimal(i + 1), 2, '0')
  }

  /** The name `migrate_book` gives the chapter at index `i`: its number, '_',
      its title made safe and cut to 50 characters, ".txt". */
  function MigrateFileName(i: nat, title: string): string
  {
    ChapterPrefix(i) + ("_" + SafeFilename(title, 50) + ".txt")
  }

  /** A run of digits in front of a '_' is determined by the whole string. */
  lemma DigitsBeforeUnderscore(p: string, a: string, q: string, b: string)
    requires forall k :: 0 <= k < |p| ==> IsDigit(p[k])
    requires forall k :: 0 <= k < |q| ==> IsDigit(q[k])
    requires a != [] && a[0] == '_' && b != [] && b[0] == '_'
    requires p + a == q + b
    ensures p == q
  {
    var name := p + a;
    assert name[..|p|] == p && name[|p|] == '_';
    assert name[..|q|] == q && name[|q|] == '_';
  }

  /** Two chapters of a book at different indexes never get the same file name,
      whatever their titles: the digits before the first '_' give the index back. */
  lemma MigrateFileNameInjective(i: nat, t: string, j: nat, u: string)
    requires MigrateFileName(i, t) == MigrateFileName(j, u)
    ensures i == j
  {
    var p, q := ChapterPrefix(i), ChapterPrefix(j);
    DigitsBeforeUnderscore(p, "_" + SafeFilename(t, 50) + ".txt", q, "_" + SafeFilename(u, 50) + ".txt");
  }

  /** `f"{chapter_num:0>2}_{safe_filename(title)}.txt"`, or the safe title
      alone when there is no chapter number. The Excel import also treats the
      text "nan" (pandas' rendering of an empty cell) as no number. */
  function ImportFileName(chapterNum: string, title: string, excel: bool): (r: string)
  {
    if chapterNum != "" && !(excel && chapterNum == "nan") then
      PadLeft(chapterNum, 2, '0') + "_" + SafeFilename(title, 50) + ".txt"
    else
      SafeFilename(title, 50) + ".txt"
  }

  /** The name an imported chapter file gets ends in ".txt"; with a chapter
      number it starts with that number padded with '0' to two places, and a
      numeric chapter number keeps its value. */
  lemma ImportFileNameShape(chapterNum: string, title: string, excel: bool)
    ensures var r := ImportFileName(chapterNum, title, excel);
            |r| >= 4 && r[|r| - 4..] == ".txt"
    ensures chapterNum != "" && !(excel && chapterNum == "nan") ==>
            var p := PadLeft(chapterNum, 2, '0');
            ImportFileName(chapterNum, title, excel)[..|p|] == p && |p| >= 2
    ensures chapterNum != "" && !(excel && chapterNum == "nan") && (forall k :: 0 <= k < |chapterNum| ==> IsDigit(chapterNum[k])) ==>
            var p := PadLeft(chapterNum, 2, '0');
            (forall k :: 0 <= k < |p| ==> IsDigit(p[k])) && DigitsValue(p) == DigitsValue(chapterNum)
  {
    var safe := SafeFilename(title, 50);
    if chapterNum != "" && !(excel && chapterNum == "nan") {
      var p := PadLeft(chapterNum, 2, '0');
      var r := p + "_" + safe + ".txt";
      assert r == (p + "_" + safe) + ".txt";
      assert r[..|p|] == p;
      if forall k :: 0 <= k < |chapterNum| ==> IsDigit(chapterNum[k]) {
        if |chapterNum| < 2 {
          LeadingZeros(2 - |chapterNum|, chapterNum);
        }
      }
    }
  }

  /** A blank or missing chapter number in the Excel path that pandas renders
      as "nan" is not used as a prefix, while the CSV path would use it. */
  lemma NanIsNoNumber(title: string)
    ensures ImportFileName("nan", title, true) == SafeFilename(title, 50) + ".txt"
    ensures ImportFileName("nan", title, false)[..4] == "nan_"
  {
    var safe := SafeFilename(title, 50);
    assert PadLeft("nan", 2, '0') == "nan";
    assert ImportFileName("nan", title, false) == "nan_" + (safe + ".txt");
  }
}
