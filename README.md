# Marketplace item service: a verified model

This project models the request handlers of the Mercari build-training
item service (`go/app/main.go`). The service accepts items with a name,
a category and an image. It stores them in SQLite and serves them back as
JSON: as a full list, by position, or filtered by category. Images are
served from an `images` directory.

The model replaces the database with an abstract two-table state. The
`category(id, name)` and `items(id, name, category_id, image_name)`
tables are sequences of rows. Each table keeps the last key its
AUTOINCREMENT column issued. The handlers become code over this state:

- `Store.ItemStore` is a class that holds both tables. `AddItem` is the
  POST handler. It looks up the category by name or creates it, then
  appends one item row. `ScanRows` is the `rows.Next()` loop over the
  join. `GetItems`, `GetItemByID` and `SearchItems` are the GET handlers.
- `Store.InsertItem` / `Store.GetOrCreateCategory` give the same
  transition as pure functions on a `Tables` value. The lemmas about
  addItem are stated on these; `AddItem` is proved equal to them.
- `Handlers` holds the positional scan, the category filter, the search
  reply and the image-path decision of getImg.
- `ImageName` holds the stored image name: the lower-case hex (`%x`) of
  the 32-byte SHA-256 digest of the original file name, then `.jpg`.
- `Decimal` holds `strconv.Itoa` on non-negative integers and its inverse.

Inputs from outside the code's own logic are parameters:

- the hash function is `sha256: string -> Digest`, any function giving
  32 bytes;
- whether `FormFile("image")` succeeded is an `Option` of the original
  file name;
- the result of `os.Stat` is a set of existing paths.

In four places the code behaves differently from what a caller might
expect. The model follows the code:

- A missing image form file makes addItem return the raw error. A caller
  might expect `BadRequest`. The model returns `Raised(MissingFormFile)`
  and leaves the store unchanged.
- searchItems answers 404 even when it finds items, where 200 would be
  expected (see Findings).
- The join has no ORDER BY. The model lists rows in item-table order.
- Positions are 1-based: `getItemByID` compares `strconv.Itoa(i+1)` with
  the path parameter.

## Model

| member | source | states |
|---|---|---|
| `Decimal.Itoa` | go/app/main.go:280 | strconv.Itoa of a number is a non-empty digit string with no leading zero, and starts with '0' only for 0 |
| `Decimal.ParseItoa` | go/app/main.go:280 | reading a rendering back gives the number |
| `Decimal.ItoaParse` | go/app/main.go:280 | rendering the value of a canonical digit string gives the string back |
| `Decimal.ItoaInjective` | go/app/main.go:278-283 | two positions render the same exactly when they are equal, so at most one position matches |
| `Decimal.RenderingsAreCanonical` | go/app/main.go:280 | a string is some number's rendering exactly when it is canonical |
| `Decimal.PositionMatch` | go/app/main.go:275-285 | some position 1..n renders as `id` exactly when `id` is canonical and its value is in 1..n, so "0", "01" and non-numeric text never match |
| `Handlers.SelectByPosition` | go/app/main.go:278-285 | returns 200 with element k-1 when position k renders as `id`, and 404 "Not found" when no position in the list does |
| `Store.ItemStore.GetItemByID` | go/app/main.go:233-286 | the same, stated on the store's current listing |
| `Handlers.FilterByCategory` | go/app/main.go:325-331 | the accumulation loop returns exactly the category filter of the list |
| `Handlers.WithCategory` | go/app/main.go:327-331 | the search keeps at most the listed items, and every item it keeps has the keyword as its category |
| `Handlers.WithCategoryMembers` | go/app/main.go:327-331 | an item is found exactly when it is listed and its category equals the keyword |
| `Handlers.WithCategorySubsequence` | go/app/main.go:327-331 | the found items are a subsequence of the list, in list order |
| `Handlers.WithCategoryAppend` | go/app/main.go:327-331 | filtering a concatenation filters each part and concatenates the results |
| `Handlers.SearchReply` | go/app/main.go:332-336 | the status is always 404; the body is the matches when there are any, else the "Not found" message |
| `Store.ItemStore.SearchItems` | go/app/main.go:288-337 | the search response is that reply for the filter of the current listing, with status 404 |
| `Handlers.MatchesReportedAsNotFound` | go/app/main.go:332-333 | the as-written reply differs from the intended one exactly when there are matches: it answers them with 404 where the intended reply answers 200 |
| `Handlers.IntendedSearchReply` | go/app/main.go:332-336 | the corrected reply: 200 exactly when there are matches, 404 with "Not found" exactly when there are none |
| `Handlers.JoinImgDir` | go/app/main.go:220 | for a single path segment, the joined path ends in ".jpg" exactly when the name does, and is then "images/" + name |
| `Handlers.GetImg` | go/app/main.go:218-231 | 400 with "Image path does not end with .jpg" exactly when the name lacks the suffix; otherwise 200 serving images/name if it exists and images/default.jpg if not; a served path is always under images/ and ends in .jpg |
| `Handlers.StoredNamesAreServed` | go/app/main.go:95-96 | every stored image name is slash-free and accepted by getImg, which looks it up under images/ |
| `ImageName.Hex` | go/app/main.go:96 | %x of a byte slice has two lower-case hex digits per byte |
| `ImageName.UnHexHex` | go/app/main.go:96 | reading the hex back gives the bytes |
| `ImageName.HexUnHex` | go/app/main.go:96 | every even-length lower-case hex string is the rendering of the bytes it reads as |
| `ImageName.HexInjective` | go/app/main.go:96 | distinct byte slices render differently |
| `ImageName.StoredName` | go/app/main.go:96 | a stored name is 68 characters: 64 lower-case hex digits then ".jpg", with no '/' |
| `ImageName.ImageFileName` | go/app/main.go:95-96 | the name stored for an upload has the stored shape, and reads back as the digest of the original file name |
| `ImageName.DigestOf` | go/app/main.go:95-96 | the digest is recovered exactly from strings of the stored-name shape |
| `ImageName.StoredNameRoundTrip` | go/app/main.go:95-96 | the digest is recovered from the stored name |
| `ImageName.DigestOfRoundTrip` | go/app/main.go:95-96 | every string of the stored-name shape is the stored name of the digest it reads as |
| `ImageName.SameNameIffSameDigest` | go/app/main.go:95-96 | two uploads get the same stored name exactly when their file names have the same digest; the file contents play no part |
| `Store.CategoryIdByName` | go/app/main.go:122 | an id the name lookup finds is a key the join's id lookup resolves |
| `Store.CategoryIdByNameFinds` | go/app/main.go:122 | the name lookup finds an id exactly when a row has that name, and the id is that row's |
| `Store.CategoryIdByNameAppend` | go/app/main.go:122-129 | the name lookup after a row is appended finds the old answer, else the new row if it has the name |
| `Store.CategoryNameById` | go/app/main.go:188 | the category name the inner join attaches to a category_id, or none when no row has that id; its contract is `Store.CategoryNameByIdFinds` |
| `Store.CategoryNameByIdFinds` | go/app/main.go:188 | the join finds a category name exactly when a row has the item's category_id, and the name is that row's |
| `Store.ToItem` | go/app/main.go:198-206 | a scanned row's Id is decimal text that reads back as the integer id; name, category name and image are the scanned columns |
| `Store.JoinRow` | go/app/main.go:188-206 | one item row yields at most one listing entry, carrying the row's name and image |
| `Store.Join` | go/app/main.go:188-206 | the inner join lists no more entries than there are item rows |
| `Store.LookupDetermined` | go/app/main.go:188 | with distinct ids, the join attaches the name of the one row with that id |
| `Store.JoinResolved` | go/app/main.go:188-206 | when every item's category exists, the listing has one entry per item row in row order, carrying its id as decimal text, its name and image, and its category's name |
| `Store.JoinAppend` | go/app/main.go:141-142 | appending an item row appends its joined entry to the listing |
| `Store.JoinExtendCategories` | go/app/main.go:128-129 | a new category row with an unused id leaves the listing of existing items unchanged |
| `Store.ReuseCategory` | go/app/main.go:122 | the id found by name resolves back to that name |
| `Store.CreateCategory` | go/app/main.go:126-134 | a category inserted under the next key keeps the key invariant, resolves to its name and leaves the listing unchanged |
| `Store.UniqueIdsAppend` | go/app/main.go:61-62 | a row whose id exceeds all others keeps ids distinct |
| `Store.ResolvedAppend` | go/app/main.go:70 | items that resolved still resolve after a category row is added |
| `Store.DistinctNamesAppend` | go/app/main.go:122-129 | inserting a name the lookup did not find keeps category names distinct |
| `Store.GetOrCreateCategory` | go/app/main.go:120-139 | the category step leaves the item table alone and extends the category table by at most one row, keeping the old rows |
| `Store.InsertItem` | go/app/main.go:120-142 | addItem appends exactly one item row under the next key, with the given name and image, keeping the old rows |
| `Store.GetOrCreateCategorySpec` | go/app/main.go:120-139 | a known name reuses its id and changes nothing; an unseen name adds exactly one row with a fresh id; either way the invariant holds, the id resolves to the name and the item table is untouched |
| `Store.AppendItemKeysValid` | go/app/main.go:141-142 | an item row under the next key that references an existing category keeps the key invariant |
| `Store.InsertItemValid` | go/app/main.go:120-142 | adding an item keeps the invariant: issued distinct keys, distinct category names, every item's category exists |
| `Store.InsertItemListing` | go/app/main.go:120-142 | adding an item appends exactly one listing entry: the new id, the name, the category name and the image name |
| `Store.InsertItemCounts` | go/app/main.go:120-142 | the category table grows by one row exactly when the name was unseen, old rows are kept, and exactly one item row is appended whose category the name lookup now finds |
| `Store.ItemStore.constructor` | go/app/main.go:61-71 | a fresh database has both tables empty and satisfies the invariant |
| `Store.ItemStore.AddItem` | go/app/main.go:85-151 | a failed FormFile returns an error with the store unchanged; otherwise it replies 200 "item received: name", the tables become InsertItem of the old tables with the computed image name, the invariant is kept and the listing grows by the new item |
| `Store.ItemStore.ScanRows` | go/app/main.go:196-206 | the scan loop returns exactly the inner join of items with category names, in row order |
| `Store.ItemStore.GetItems` | go/app/main.go:177-216 | replies 200 with the listing, which has one entry per item row, carrying that row's category name |

## Left out

- Database errors: a failing `sql.Open` answers 500 with the error value. The error of `Query` is discarded, so a failing `Query` leaves `rows` nil, the next `rows.Next()` panics and the recover middleware answers a generic 500. The model has no failing database.
- Swallowed errors of the item insert and of row scans, and the nil `add` dereference when the category insert fails: the model's inserts and scans always succeed.
- `Store.CategoryIdByName`, `Store.GetOrCreateCategory`, `Store.Join` and `Store.ToItem`: the model stores, compares and lists names as exact text. The schema declares the name columns `string`, which SQLite gives numeric affinity, so numeric-looking text is converted: a category "01" is stored and listed as "1", `WHERE name = ?` then also matches "1" and "1.0", and an item name "007" is listed as "7". The model keeps "01" and "1" as two categories and lists names as given.
- A `QueryRow` failure other than "no rows" is treated by the code as "no category". The model's lookup fails only when no row has the name.
- `makeDB` and `ReadDB`: neither is called by any handler. `makeDB`'s schema is what the model's two tables follow.
- The `root` handler: it always answers 200 "Hello, world!" and has no logic to model.
- Echo routing, middleware, CORS and the `FRONT_URL` lookup: framework wiring.
- The SHA-256 compression function: it is the `sha256` parameter. Encoding the file name as UTF-8 bytes is part of that parameter too.
- File I/O. `os.Stat` is a set of existing paths, and any Stat error counts as "does not exist". The bytes `c.File` sends are not modelled, nor its failure when the default image is itself missing. A served file is taken to answer 200.
- JSON encoding, logging and `fmt.Println` output.
- Concurrent requests racing on the category get-or-create: the model runs one request at a time.
- Path-parameter decoding by the router: `GetImg` takes the parameter as a single segment without '/', as the route delivers it.
- `Store.ItemStore.GetItems`: its completeness clauses are conditional on `Valid()`, because the join drops items whose category row is missing, which the invariant rules out.

## Findings

| source | as written | input that shows it | evidently intended | confidence | as-written member | corrected member |
|---|---|---|---|---|---|---|
| go/app/main.go:332-333 | a search that finds items answers status 404 (Not Found), the same as a search that finds none | a store holding one item in category "fashion", then `GET /search?keyword=fashion` | answer 200 with the matches, and 404 only when nothing matches | medium, not executed | `Handlers.MatchesReportedAsNotFound` | `Handlers.IntendedSearchReply` |

`Store.ItemStore.SearchItems` keeps the as-written reply. That status is
what clients of the service observe, so the handler model reproduces it.
