/**
 * Pieces shared by the three chapter aligners (`migrate_book` in
 * migrate_data.py and `load_books_from_raw` in app.py and build_static.py):
 * the i-th chapter of a language if there is one, and the default title.
 */
module Align {
  import opened Text
  import opened Chapters

  /** `cs[i]['title'] if i < len(cs) else ''`. */
  function TitleAt(cs: seq<Chapter>, i: nat): string
  {
    if i < |cs| then cs[i].title else ""
  }

  /** `cs[i]['content'] if i < len(cs) else ''`. */
  function ContentAt(cs: seq<Chapter>, i: nat): string
  {
    if i < |cs| then cs[i].content else ""
  }

  /** `f"第{i+1}章"`: "chapter i+1" in Chinese. */
  function ChapterLabel(i: nat): (r: string)
    ensures r != ""
  {
    "第" + Decimal(i + 1) + "章"
  }

  /** The first of the three titles that is not empty, else `fallback`. */
  function FirstTitle(a: string, b: string, c: string, fallback: string): string
  {
    if a != "" then a else if b != "" then b else if c != "" then c else fallback
  }
}
