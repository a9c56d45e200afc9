/**
 * The configuration table of the four histories, `BOOK_CATEGORIES`: each
 * book's display name and its categories (volume kinds), key and name, in
 * the order the table lists them. migrate_data.py and batch_import.py each
 * carry the same table.
 */
module Config {
  import opened Wrappers

  datatype Category = Category(key: string, name: string)

  datatype BookConfig = BookConfig(id: string, name: string, categories: seq<Category>)

  const Shiji := BookConfig("shiji", "史记", [
    Category("benji", "本纪"), Category("shijia", "世家"), Category("liezhuan", "列传"),
    Category("shu", "书"), Category("biao", "表")])

  const Hanshu := BookConfig("hanshu", "汉书", [
    Category("benji", "本纪"), Category("biao", "表"), Category("zhi", "志"),
    Category("liezhuan", "列传")])

  const Houhanshu := BookConfig("houhanshu", "后汉书", [Category("leibian", "类传")])

  const Sanguozhi := BookConfig("sanguozhi", "三国志", [
    Category("wei", "魏书"), Category("shu", "蜀书"), Category("wu", "吴书")])

  /** The table, in the order its entries are written. */
  const Books: seq<BookConfig> := [Shiji, Hanshu, Houhanshu, Sanguozhi]

  /** The keys of a list of categories, in order. */
  function Keys(cs: seq<Category>): (keys: seq<string>)
    ensures |keys| == |cs|
    ensures forall i :: 0 <= i < |cs| ==> keys[i] == cs[i].key
  {
    if cs == [] then [] else [cs[0].key] + Keys(cs[1..])
  }

  /** `BOOK_CATEGORIES.get(book_id)`: the entry of a configured book. */
  function Lookup(bookId: string): (r: Option<BookConfig>)
    ensures r.Some? ==> r.value in Books && r.value.id == bookId
    ensures r.None? ==> forall b <- Books :: b.id != bookId
  {
    if bookId == "shiji" then Some(Shiji)
    else if bookId == "hanshu" then Some(Hanshu)
    else if bookId == "houhanshu" then Some(Houhanshu)
    else if bookId == "sanguozhi" then Some(Sanguozhi)
    else None
  }

  /** The category keys migration works with: the configured ones, or, for a
      book the table does not know, the single key "default". Never empty. */
  function CategoryKeys(bookId: string): (keys: seq<string>)
    ensures |keys| >= 1
    ensures Lookup(bookId).None? ==> keys == ["default"]
    ensures Lookup(bookId).Some? ==> keys == Keys(Lookup(bookId).value.categories)
  {
    match Lookup(bookId)
    case Some(b) => Keys(b.categories)
    case None => ["default"]
  }
}
