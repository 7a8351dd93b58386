/**
 * The SQLite database behind the handlers as an abstract two-table state:
 * `category(id, name)` and `items(id, name, category_id, image_name)`, each
 * with an AUTOINCREMENT key whose last issued value is kept like SQLite's
 * sqlite_sequence. The handlers are methods of the store.
 */
module Store {
  import opened Options
  import opened Http
  import opened Decimal
  import opened ImageName
  import opened Handlers

  datatype CategoryRow = CategoryRow(id: nat, name: string)

  datatype ItemRow = ItemRow(id: nat, name: string, categoryId: nat, imageName: string)

  /** SELECT id FROM category WHERE name = ?, keeping the first row found. */
  function CategoryIdByName(cats: seq<CategoryRow>, name: string): (r: Option<nat>)
    ensures r.Some? ==> CategoryNameById(cats, r.value).Some?
  {
    if cats == [] then None
    else if cats[0].name == name then Some(cats[0].id)
    else CategoryIdByName(cats[1..], name)
  }

  /** The name lookup finds an id exactly when some row has the name, and that id is such a row's. */
  lemma {:induction false} CategoryIdByNameFinds(cats: seq<CategoryRow>, name: string)
    ensures CategoryIdByName(cats, name).Some? <==> exists i :: 0 <= i < |cats| && cats[i].name == name
    ensures CategoryIdByName(cats, name).Some? ==>
      exists i :: 0 <= i < |cats| && cats[i].name == name && cats[i].id == CategoryIdByName(cats, name).value
  {
    if cats != [] && cats[0].name != name {
      CategoryIdByNameFinds(cats[1..], name);
      assert forall i :: 0 <= i < |cats| - 1 ==> cats[1..][i] == cats[i + 1];
      if exists i :: 0 <= i < |cats| && cats[i].name == name {
        var i :| 0 <= i < |cats| && cats[i].name == name;
        assert cats[1..][i - 1].name == name;
      }
    }
  }

  /** The category name an inner join on category.id = id attaches, if any row has that id. */
  function CategoryNameById(cats: seq<CategoryRow>, id: nat): Option<string>
  {
    if cats == [] then None
    else if cats[0].id == id then Some(cats[0].name)
    else CategoryNameById(cats[1..], id)
  }

  /** The join finds a name exactly when some row has the id, and that name is such a row's. */
  lemma {:induction false} CategoryNameByIdFinds(cats: seq<CategoryRow>, id: nat)
    ensures CategoryNameById(cats, id).Some? <==> exists i :: 0 <= i < |cats| && cats[i].id == id
    ensures CategoryNameById(cats, id).Some? ==>
      exists i :: 0 <= i < |cats| && cats[i].id == id && cats[i].name == CategoryNameById(cats, id).value
  {
    if cats != [] && cats[0].id != id {
      CategoryNameByIdFinds(cats[1..], id);
      assert forall i :: 0 <= i < |cats| - 1 ==> cats[1..][i] == cats[i + 1];
      if exists i :: 0 <= i < |cats| && cats[i].id == id {
        var i :| 0 <= i < |cats| && cats[i].id == id;
        assert cats[1..][i - 1].id == id;
      }
    }
  }

  predicate UniqueIds(cats: seq<CategoryRow>)
  {
    forall i, j :: 0 <= i < j < |cats| ==> cats[i].id != cats[j].id
  }

  /** The name lookup over a table with one more row at the end. */
  lemma {:induction false} CategoryIdByNameAppend(cats: seq<CategoryRow>, c: CategoryRow, name: string)
    ensures CategoryIdByName(cats + [c], name) ==
      if CategoryIdByName(cats, name).Some? then CategoryIdByName(cats, name)
      else if c.name == name then Some(c.id) else None
  {
    if cats != [] {
      assert (cats + [c])[1..] == cats[1..] + [c];
      CategoryIdByNameAppend(cats[1..], c, name);
    }
  }

  predicate AllResolved(rows: seq<ItemRow>, cats: seq<CategoryRow>)
  {
    forall i :: 0 <= i < |rows| ==> CategoryNameById(cats, rows[i].categoryId).Some?
  }

  /** One scanned row of the join: Item.Id receives the integer id as decimal text. */
  function ToItem(row: ItemRow, categoryName: string): (x: Item)
    ensures AllDigits(x.id) && Parse(x.id) == row.id
    ensures x.name == row.name && x.category == categoryName && x.image == row.imageName
  {
    ParseItoa(row.id);
    Item(Itoa(row.id), row.name, categoryName, row.imageName)
  }

  /** The join's contribution of one item row: nothing when its category is missing. */
  function JoinRow(row: ItemRow, cats: seq<CategoryRow>): (r: seq<Item>)
    ensures |r| <= 1
    ensures r != [] ==> r[0].name == row.name && r[0].image == row.imageName
  {
    match CategoryNameById(cats, row.categoryId)
    case Some(c) => [ToItem(row, c)]
    case None => []
  }

  /**
   * SELECT items.id, items.name, category.name, items.image_name FROM items
   * JOIN category ON items.category_id = category.id, in item-row order.
   */
  function Join(rows: seq<ItemRow>, cats: seq<CategoryRow>): (r: seq<Item>)
    ensures |r| <= |rows|
  {
    if rows == [] then [] else Join(rows[..|rows| - 1], cats) + JoinRow(rows[|rows| - 1], cats)
  }

  /** With unique ids, the join attaches the name of the one row carrying the id. */
  lemma LookupDetermined(cats: seq<CategoryRow>, i: int)
    requires UniqueIds(cats) && 0 <= i < |cats|
    ensures CategoryNameById(cats, cats[i].id) == Some(cats[i].name)
  {
    CategoryNameByIdFinds(cats, cats[i].id);
    var r := CategoryNameById(cats, cats[i].id);
    var j :| 0 <= j < |cats| && cats[j].id == cats[i].id && cats[j].name == r.value;
    assert i == j;
  }

  /**
   * When every item row's category exists, the listing has one entry per
   * item row, in row order, each carrying that row's id, name and image and
   * the name of the category its category_id references.
   */
  lemma {:induction false} JoinResolved(rows: seq<ItemRow>, cats: seq<CategoryRow>)
    requires AllResolved(rows, cats)
    ensures |Join(rows, cats)| == |rows|
    ensures forall i :: 0 <= i < |rows| ==>
      Join(rows, cats)[i] == ToItem(rows[i], CategoryNameById(cats, rows[i].categoryId).value)
  {
    if rows != [] {
      var init, last := rows[..|rows| - 1], rows[|rows| - 1];
      assert AllResolved(init, cats) by {
        forall i | 0 <= i < |init| ensures CategoryNameById(cats, init[i].categoryId).Some? {
          assert init[i] == rows[i];
        }
      }
      JoinResolved(init, cats);
      var j := Join(init, cats);
      var c := CategoryNameById(cats, last.categoryId).value;
      assert Join(rows, cats) == j + [ToItem(last, c)];
      forall i | 0 <= i < |rows|
        ensures Join(rows, cats)[i] == ToItem(rows[i], CategoryNameById(cats, rows[i].categoryId).value)
      {
        if i < |init| {
          assert init[i] == rows[i];
        }
      }
    }
  }

  /** Appending an item row appends its joined entry. */
  lemma JoinAppend(rows: seq<ItemRow>, row: ItemRow, cats: seq<CategoryRow>)
    ensures Join(rows + [row], cats) == Join(rows, cats) + JoinRow(row, cats)
  {
    assert (rows + [row])[..|rows|] == rows;
  }

  /** A new category row with an unused id changes nothing for rows that already resolve. */
  lemma {:induction false} JoinExtendCategories(rows: seq<ItemRow>, cats: seq<CategoryRow>, c: CategoryRow)
    requires UniqueIds(cats + [c])
    requires AllResolved(rows, cats)
    ensures Join(rows, cats + [c]) == Join(rows, cats)
  {
    if rows != [] {
      var init, last := rows[..|rows| - 1], rows[|rows| - 1];
      assert AllResolved(init, cats) by {
        forall i | 0 <= i < |init| ensures CategoryNameById(cats, init[i].categoryId).Some? {
          assert init[i] == rows[i];
        }
      }
      JoinExtendCategories(init, cats, c);
      CategoryNameByIdFinds(cats, last.categoryId);
      var k :| 0 <= k < |cats| && cats[k].id == last.categoryId;
      assert UniqueIds(cats) by {
        forall i, j | 0 <= i < j < |cats| ensures cats[i].id != cats[j].id {
          assert (cats + [c])[i] == cats[i] && (cats + [c])[j] == cats[j];
        }
      }
      LookupDetermined(cats, k);
      assert (cats + [c])[k] == cats[k];
      LookupDetermined(cats + [c], k);
    }
  }

  /** The contents of both tables and the last key each AUTOINCREMENT has issued. */
  datatype Tables = Tables(categories: seq<CategoryRow>, items: seq<ItemRow>, categorySeq: nat, itemSeq: nat)

  /**
   * The key part of the store invariant: every key is an issued id and keys
   * are distinct, and every item references an existing category.
   */
  ghost predicate KeysValid(t: Tables)
  {
    && (forall i :: 0 <= i < |t.categories| ==> 0 < t.categories[i].id <= t.categorySeq)
    && UniqueIds(t.categories)
    && (forall i :: 0 <= i < |t.items| ==> 0 < t.items[i].id <= t.itemSeq)
    && (forall i, j :: 0 <= i < j < |t.items| ==> t.items[i].id != t.items[j].id)
    && AllResolved(t.items, t.categories)
  }

  /** No two category rows share a name. */
  ghost predicate DistinctNames(cats: seq<CategoryRow>)
  {
    forall i, j :: 0 <= i < j < |cats| ==> cats[i].name != cats[j].name
  }

  /**
   * The store invariant. Names stay distinct because the get-or-create of
   * addItem never inserts a name that already has a row.
   */
  ghost predicate ValidTables(t: Tables)
  {
    KeysValid(t) && DistinctNames(t.categories)
  }

  /**
   * The category step of addItem: the id of the category called `name`,
   * inserting a row under the next key when no row has that name.
   */
  function GetOrCreateCategory(t: Tables, name: string): (r: (Tables, nat))
    ensures r.0.items == t.items && r.0.itemSeq == t.itemSeq
    ensures |t.categories| <= |r.0.categories| <= |t.categories| + 1
    ensures r.0.categories[..|t.categories|] == t.categories
  {
    match CategoryIdByName(t.categories, name)
    case Some(id) => (t, id)
    case None =>
      var id := t.categorySeq + 1;
      (t.(categories := t.categories + [CategoryRow(id, name)], categorySeq := id), id)
  }

  /** addItem on the tables: get-or-create the category, then append one item row under the next key. */
  function InsertItem(t: Tables, name: string, category: string, image: string): (r: Tables)
    ensures |r.items| == |t.items| + 1 && r.items[..|t.items|] == t.items
    ensures r.itemSeq == t.itemSeq + 1 && r.items[|t.items|].id == r.itemSeq
    ensures r.items[|t.items|].name == name && r.items[|t.items|].imageName == image
  {
    var (t1, cid) := GetOrCreateCategory(t, category);
    t1.(items := t1.items + [ItemRow(t1.itemSeq + 1, name, cid, image)], itemSeq := t1.itemSeq + 1)
  }

  /** A category name that has a row: its id resolves back to that name. */
  lemma ReuseCategory(t: Tables, name: string)
    requires KeysValid(t)
    requires CategoryIdByName(t.categories, name).Some?
    ensures CategoryNameById(t.categories, CategoryIdByName(t.categories, name).value) == Some(name)
  {
    var cats := t.categories;
    CategoryIdByNameFinds(cats, name);
    var k :| 0 <= k < |cats| && cats[k].name == name && cats[k].id == CategoryIdByName(cats, name).value;
    LookupDetermined(cats, k);
  }

  /**
   * A category row inserted under the next key: the key invariant holds, the
   * new id resolves to the name and the listing of existing items is unchanged.
   */
  lemma CreateCategory(t: Tables, name: string)
    requires KeysValid(t)
    ensures var cats' := t.categories + [CategoryRow(t.categorySeq + 1, name)];
      && KeysValid(Tables(cats', t.items, t.categorySeq + 1, t.itemSeq))
      && CategoryNameById(cats', t.categorySeq + 1) == Some(name)
      && Join(t.items, cats') == Join(t.items, t.categories)
  {
    var cats, c := t.categories, CategoryRow(t.categorySeq + 1, name);
    UniqueIdsAppend(cats, c);
    ResolvedAppend(t.items, cats, c);
    JoinExtendCategories(t.items, cats, c);
    LookupDetermined(cats + [c], |cats|);
  }

  lemma UniqueIdsAppend(cats: seq<CategoryRow>, c: CategoryRow)
    requires UniqueIds(cats)
    requires forall i :: 0 <= i < |cats| ==> cats[i].id < c.id
    ensures UniqueIds(cats + [c])
  {
    var cats' := cats + [c];
    forall i, j | 0 <= i < j < |cats'| ensures cats'[i].id != cats'[j].id {
      assert cats'[i] == cats[i];
      if j < |cats| { assert cats'[j] == cats[j]; }
    }
  }

  lemma ResolvedAppend(rows: seq<ItemRow>, cats: seq<CategoryRow>, c: CategoryRow)
    requires AllResolved(rows, cats)
    ensures AllResolved(rows, cats + [c])
  {
    var cats' := cats + [c];
    forall i | 0 <= i < |rows| ensures CategoryNameById(cats', rows[i].categoryId).Some? {
      CategoryNameByIdFinds(cats, rows[i].categoryId);
      var k :| 0 <= k < |cats| && cats[k].id == rows[i].categoryId;
      assert cats'[k] == cats[k];
      CategoryNameByIdFinds(cats', rows[i].categoryId);
    }
  }

  /** A row whose name the lookup does not find keeps the names distinct. */
  lemma DistinctNamesAppend(cats: seq<CategoryRow>, c: CategoryRow)
    requires DistinctNames(cats)
    requires CategoryIdByName(cats, c.name).None?
    ensures DistinctNames(cats + [c])
  {
    CategoryIdByNameFinds(cats, c.name);
    var cats' := cats + [c];
    forall i, j | 0 <= i < j < |cats'| ensures cats'[i].name != cats'[j].name {
      assert cats'[i] == cats[i];
      if j < |cats| { assert cats'[j] == cats[j]; }
    }
  }

  /**
   * A known category name gives back its row's id and changes nothing; an
   * unseen one adds exactly one row with a fresh id. Either way the item
   * table is untouched, the invariant holds, the id resolves to `name` and the
   * listing of the existing items is unchanged.
   */
  lemma GetOrCreateCategorySpec(t: Tables, name: string)
    requires ValidTables(t)
    ensures var (t1, cid) := GetOrCreateCategory(t, name);
      && t1.items == t.items && t1.itemSeq == t.itemSeq
      && (CategoryIdByName(t.categories, name).Some? ==> t1 == t)
      && (CategoryIdByName(t.categories, name).None? ==>
            && cid == t.categorySeq + 1 == t1.categorySeq
            && (forall i :: 0 <= i < |t.categories| ==> t.categories[i].id < cid)
            && t1.categories == t.categories + [CategoryRow(cid, name)])
      && ValidTables(t1)
      && CategoryNameById(t1.categories, cid) == Some(name)
      && Join(t1.items, t1.categories) == Join(t.items, t.categories)
  {
    if CategoryIdByName(t.categories, name).Some? {
      ReuseCategory(t, name);
    } else {
      CreateCategory(t, name);
      DistinctNamesAppend(t.categories, CategoryRow(t.categorySeq + 1, name));
    }
  }

  /** Adding an item keeps the store invariant. */
  lemma InsertItemValid(t: Tables, name: string, category: string, image: string)
    requires ValidTables(t)
    ensures ValidTables(InsertItem(t, name, category, image))
  {
    GetOrCreateCategorySpec(t, category);
    var p := GetOrCreateCategory(t, category);
    AppendItemKeysValid(p.0, ItemRow(p.0.itemSeq + 1, name, p.1, image));
  }

  /** An item row under the next key that references an existing category keeps the key invariant. */
  lemma AppendItemKeysValid(t: Tables, row: ItemRow)
    requires KeysValid(t)
    requires row.id == t.itemSeq + 1
    requires CategoryNameById(t.categories, row.categoryId).Some?
    ensures KeysValid(t.(items := t.items + [row], itemSeq := row.id))
  {
    var rows' := t.items + [row];
    forall i, j | 0 <= i < j < |rows'| ensures rows'[i].id != rows'[j].id {
      assert rows'[i] == t.items[i];
      if j < |t.items| { assert rows'[j] == t.items[j]; }
    }
    assert forall i :: 0 <= i < |t.items| ==> rows'[i] == t.items[i];
  }

  /**
   * Adding an item appends exactly one entry to the listing: the new row's
   * id, the given name and image, and the given category name.
   */
  lemma InsertItemListing(t: Tables, name: string, category: string, image: string)
    requires ValidTables(t)
    ensures var t' := InsertItem(t, name, category, image);
      Join(t'.items, t'.categories) == Join(t.items, t.categories) + [Item(Itoa(t.itemSeq + 1), name, category, image)]
  {
    GetOrCreateCategorySpec(t, category);
    var (t1, cid) := GetOrCreateCategory(t, category);
    JoinAppend(t1.items, ItemRow(t1.itemSeq + 1, name, cid, image), t1.categories);
  }

  /**
   * Adding an item grows the category table by one row exactly when the name
   * was unseen, keeps the existing rows, and appends one item row whose
   * category is the one the name lookup now finds.
   */
  lemma InsertItemCounts(t: Tables, name: string, category: string, image: string)
    requires ValidTables(t)
    ensures var t' := InsertItem(t, name, category, image);
      && |t'.categories| == |t.categories| + (if CategoryIdByName(t.categories, category).Some? then 0 else 1)
      && t'.categories[..|t.categories|] == t.categories
      && |t'.items| == |t.items| + 1
      && t'.items[..|t.items|] == t.items
      && CategoryIdByName(t'.categories, category) == Some(t'.items[|t.items|].categoryId)
  {
    GetOrCreateCategorySpec(t, category);
    var (t1, cid) := GetOrCreateCategory(t, category);
    if CategoryIdByName(t.categories, category).None? {
      CategoryIdByNameAppend(t.categories, CategoryRow(cid, category), category);
    }
  }

  class ItemStore {
    var categories: seq<CategoryRow>
    var items: seq<ItemRow>
    /** The last id the category table's AUTOINCREMENT key has issued. */
    var categorySeq: nat
    /** The last id the items table's AUTOINCREMENT key has issued. */
    var itemSeq: nat

    function State(): Tables
      reads this
    {
      Tables(categories, items, categorySeq, itemSeq)
    }

    ghost predicate Valid()
      reads this
    {
      ValidTables(State())
    }

    /** What GET /items lists for the current tables. */
    function Listing(): seq<Item>
      reads this
    {
      Join(items, categories)
    }

    /** A fresh database: both tables empty. */
    constructor ()
      ensures Valid()
      ensures categories == [] && items == [] && categorySeq == 0 && itemSeq == 0
    {
      categories, items := [], [];
      categorySeq, itemSeq := 0, 0;
    }

    /**
     * POST /items. `upload` is the original file name of the "image" form
     * file, or None when FormFile fails; `sha256` stands for the hash.
     */
    method AddItem(name: string, category: string, upload: Option<string>, sha256: string -> Digest)
      returns (r: Outcome)
      requires Valid()
      modifies this
      ensures Valid()
      ensures upload.None? ==> r == Raised(MissingFormFile) && State() == old(State())
      ensures upload.Some? ==>
        && r == Replied(Response(StatusOK, Message("item received: " + name)))
        && State() == InsertItem(old(State()), name, category, ImageFileName(upload.value, sha256))
      ensures upload.Some? ==>
        Listing() == old(Listing()) + [Item(Itoa(itemSeq), name, category, ImageFileName(upload.value, sha256))]
    {
      if upload.None? {
        return Raised(MissingFormFile);
      }
      var image := ImageFileName(upload.value, sha256);
      ghost var before := State();
      InsertItemValid(before, name, category, image);
      InsertItemListing(before, name, category, image);
      ghost var after := InsertItem(before, name, category, image);
      ghost var newListing := Join(before.items, before.categories) + [Item(Itoa(before.itemSeq + 1), name, category, image)];
      assert Join(after.items, after.categories) == newListing;
      var cid: nat;
      match CategoryIdByName(categories, category) {
        case Some(id) =>
          cid := id;
        case None =>
          categorySeq := categorySeq + 1;
          cid := categorySeq;
          categories := categories + [CategoryRow(cid, category)];
      }
      assert (State(), cid) == GetOrCreateCategory(before, category);
      itemSeq := itemSeq + 1;
      items := items + [ItemRow(itemSeq, name, cid, image)];
      assert State() == after;
      r := Replied(Response(StatusOK, Message("item received: " + name)));
    }

    /** The rows.Next() loop every read handler runs over the join. */
    method ScanRows() returns (list: seq<Item>)
      ensures list == Listing()
    {
      list := [];
      var i := 0;
      while i < |items|
        invariant 0 <= i <= |items|
        invariant list == Join(items[..i], categories)
      {
        assert items[..i + 1][..i] == items[..i];
        match CategoryNameById(categories, items[i].categoryId) {
          case Some(c) => list := list + [ToItem(items[i], c)];
          case None =>
        }
        i := i + 1;
      }
      assert items[..i] == items;
    }

    /** GET /items: status 200 and every item joined with its category name. */
    method GetItems() returns (r: Response)
      ensures r == Response(StatusOK, Records(Listing()))
      ensures Valid() ==> |r.body.items| == |items|
      ensures Valid() ==> forall i :: 0 <= i < |items| ==>
        r.body.items[i] == ToItem(items[i], CategoryNameById(categories, items[i].categoryId).value)
    {
      var list := ScanRows();
      if Valid() {
        JoinResolved(items, categories);
      }
      r := Response(StatusOK, Records(list));
    }

    /** GET /items/:item_id: the listed element at 1-based position `id`. */
    method GetItemByID(id: string) returns (r: Response)
      ensures forall k: nat :: 1 <= k <= |Listing()| && Itoa(k) == id ==> r == Response(StatusOK, Record(Listing()[k - 1]))
      ensures (forall k: nat :: 1 <= k <= |Listing()| ==> Itoa(k) != id) ==> r == Response(StatusNotFound, Message(NotFoundMessage))
    {
      var list := ScanRows();
      r := SelectByPosition(list, id);
    }

    /** GET /search?keyword=...: the items whose category is `keyword`, always with status 404. */
    method SearchItems(keyword: string) returns (r: Response)
      ensures r == SearchReply(WithCategory(Listing(), keyword))
      ensures r.status == StatusNotFound
    {
      var list := ScanRows();
      var found := FilterByCategory(list, keyword);
      r := SearchReply(found);
    }
  }
}
