# Product catalog and price-input model (lojaJessica, `app.js`)

This project models the two pieces of logic in the registration page of the
craft shop "lojaJessica":

- **`ProductManager`** (`catalog.dfy`, module `Catalog`). This is the product
  catalog. It keeps an insertion-ordered list of product records (`products`)
  and mirrors it into one stored snapshot after every change. The model
  replaces the JSON text in the browser's local storage (key
  `artesanato_produtos`) with a field `stored: Option<seq<Product>>`.
  `AddProduct` appends a record built from the form draft. `RemoveProduct`
  drops every record with a given id. `GetProducts` lists the whole catalog
  or one category. `LoadProducts` and `SaveProducts` read and overwrite the
  snapshot. The object invariant `Valid()` says that loading the snapshot
  gives back the in-memory list. The constructor establishes it, and every
  mutating method re-establishes it, because writes to storage never fail in
  the model (see "Left out").
- **The price-input sanitiser** (`price_input.dfy`, module `PriceInput`). The
  `input` handler of the price field applies it on every `input` event
  (typing, paste or drop that changes the value). The model
  is the pure function `SanitizePrice`. It keeps only ASCII digits and dots,
  folds the text down to one dot, and cuts the decimals to two when the piece
  after the first dot is longer than two (see "Findings"). `Split` models
  JavaScript's `split('.')`, and the lemmas `SplitJoin` and `JoinSplit` prove
  it is inverse to joining with dots.

Two shared modules support them. `Sequences` holds `Filter`, the behaviour of
`Array.prototype.filter`, used both for the catalog and for deleting
characters. `Decimal` holds `DecimalString`, the text `toString()` gives a
non-negative integer below 10^21, which covers every clock reading, used for
record ids.

The clock is a parameter. `AddProduct` takes the millisecond reading `now`,
which becomes the id through `DecimalString(now)`, and the timestamp text
`createdAt`. The storage content found at start-up is the constructor's
parameter `saved`.

Record ids are not unique: the code derives them from the clock, and two
additions in the same millisecond get the same id. The model follows the
code: ids are not assumed unique, `RemoveProduct` removes
every record carrying the id, and `Catalog.DistinctClocksDistinctIds` proves
only that distinct clock readings give distinct ids.

## Model

| member | source | states |
|---|---|---|
| `Sequences.Filter` | app.js:38 | The result is never longer than the input, and every element of it satisfies the predicate. |
| `Sequences.FilterMembership` | app.js:38 | An element is in the result if and only if it is in the input and satisfies the predicate. |
| `Catalog.Loaded` | app.js:12 | Loading gives the empty list when nothing is stored, and the stored list otherwise. |
| `Catalog.WithoutId` | app.js:38 | The records left after removal are never more than before, each comes from the catalog, and none has the removed id. |
| `Catalog.InCategory` | app.js:45 | The records listed for a category are never more than the catalog holds, each comes from the catalog, and each has that category. |
| `PriceInput.KeepPriceChars` | app.js:213 | The filtered text is never longer than the input and holds only digits and dots. |
| `PriceInput.KeepPriceCharsMembers` | app.js:213 | A character is in the filtered text if and only if it is in the input and is an ASCII digit or a dot. |
| `PriceInput.Concat` | app.js:217 | A character occurs in the joined text if and only if it occurs in one of the pieces. |
| `Decimal.DecimalString` | app.js:23 | The id text is non-empty, all ASCII digits, and starts with `0` only for the reading 0 (no leading zeros). |
| `Decimal.DecimalRoundTrip` | app.js:23 | Reading the id text back as a decimal number gives the clock reading it was made from. |
| `Decimal.DecimalStringInjective` | app.js:23 | Distinct clock readings give distinct id texts. |
| `Catalog.NewProduct` | app.js:22-30 | The new record carries the draft's `categoria`, `produto`, `preco`, `descricao` and `foto`, the creation timestamp, and an all-digit id whose value is the clock reading, starting with `0` only for the reading 0. |
| `Catalog.DistinctClocksDistinctIds` | app.js:23 | Two records created at distinct clock readings have distinct ids, whatever their drafts. |
| `Catalog.ProductManager.constructor` | app.js:3-7 | The catalog starts as the loaded snapshot (empty when nothing is stored), the snapshot is left as found, and the invariant holds. |
| `Catalog.ProductManager.LoadProducts` | app.js:10-13 | Returns the stored snapshot, or the empty list when none is stored. Under the invariant this is the in-memory catalog. |
| `Catalog.ProductManager.SaveProducts` | app.js:16-18 | The snapshot is overwritten with the whole in-memory catalog, so the invariant holds afterwards. |
| `Catalog.ProductManager.AddProduct` | app.js:21-34 | The catalog grows by exactly the returned record, appended last, with all earlier records unchanged and in place. The returned record is the one `NewProduct` builds. The snapshot equals the new catalog. |
| `Catalog.ProductManager.RemoveProduct` | app.js:37-40 | The catalog becomes the records whose id differs from the given one, in their original order. The snapshot equals the new catalog. |
| `Catalog.ProductManager.GetProducts` | app.js:43-46 | The empty category gives the whole catalog. Any other category gives the records of exactly that category, in catalog order, each of them taken from the catalog, and never more records than the catalog has. |
| `Catalog.WithoutIdMembers` | app.js:38 | A record survives removal if and only if it was in the catalog and has a different id. |
| `Catalog.WithoutIdAppend` | app.js:38 | Removal distributes over concatenation, so survivors keep their relative order. |
| `Catalog.WithoutIdUnchanged` | app.js:38 | Removal leaves the catalog unchanged if and only if no record has that id. |
| `Catalog.WithoutIdIdempotent` | app.js:38 | Removing an id twice gives the same catalog as removing it once. |
| `Catalog.InCategoryMembers` | app.js:45 | A record is listed for a category if and only if it is in the catalog and has that category. |
| `Catalog.InCategoryAppend` | app.js:45 | Listing by category distributes over concatenation, so the listing keeps catalog order. |
| `Catalog.AddedIsLastOfItsCategory` | app.js:31-45 | After an append, listing the new record's category gives the earlier records of that category followed by the new record. |
| `PriceInput.Split` | app.js:215 | Splitting on `.` gives at least one piece, and no piece contains a dot. |
| `PriceInput.SplitJoin` | app.js:215 | Joining the pieces of a text with dots gives the text back. |
| `PriceInput.JoinSplit` | app.js:215 | Splitting dot-free pieces joined with dots gives the pieces back. |
| `PriceInput.SplitHead` | app.js:215 | The first piece is the prefix before the first dot. There is one piece exactly when the text has no dot. The later pieces are the split of the text after the first dot. |
| `PriceInput.ConcatSplit` | app.js:217 | Joining the pieces with nothing between them gives the text with its dots deleted. |
| `PriceInput.KeepPriceCharsOfPriceChars` | app.js:213 | A text made only of digits and dots passes the character filter unchanged. |
| `PriceInput.SanitizePrice` | app.js:211-224 | The sanitiser itself, with no contract of its own: it runs the source's steps in order, the character filter (app.js:213), `split('.')` (app.js:215), the join of the extra pieces (app.js:216-217) and the cut tested on the second piece (app.js:220-221). `SanitizePriceShape`, `SanitizeSingleDot` and `SanitizeSeveralDots` state its output. |
| `PriceInput.SanitizePriceShape` | app.js:211-224 | For every input, the sanitised text has only the characters `0`-`9` and `.`, and at most one `.`. |
| `PriceInput.SanitizeKeepsLeadingDigits` | app.js:213-222 | For any input, the filtered text up to its first dot (or all of it, when it has no dot) is a prefix of the output. |
| `PriceInput.SanitizeSingleDot` | app.js:215-222 | When the filtered text has at most one dot: the output is a prefix of it, has at most two characters after its dot, equals the filtered text when that already had at most two decimals, and sanitising the output again changes nothing. |
| `PriceInput.SanitizeSeveralDots` | app.js:216-222 | When the filtered text has two or more dots, the output is the text through the first dot followed by either the first two characters after it (when more than two characters stand before the second dot) or everything after the first dot with its dots deleted. |
| `PriceInput.SanitizeShortSecondPiece` | app.js:216-222 | `"1.2.345"` sanitises to `"1.2345"`. |
| `PriceInput.SanitizeTypedSecondDot` | app.js:216-222 | `"1.2.34"` (a dot typed after the `1` of `"12.34"`) sanitises to `"1.234"`, three decimals. |
| `PriceInput.SanitizeLongSecondPiece` | app.js:220-222 | `"1.234.5"` sanitises to `"1.23"`. |
| `PriceInput.SanitizeKeepsMoreThanTwoDecimals` | app.js:220-222 | The output for `"1.2.345"` keeps four decimals, and sanitising it again gives `"1.23"`, so the sanitiser is not idempotent. |
| `PriceInput.SanitizePriceCapped` | app.js:216-222 | The corrected sanitiser's output has only digits and dots, at most one dot, and at most two characters after the dot, for every input. |
| `PriceInput.CappedAgreesOnSingleDot` | app.js:215-222 | The corrected sanitiser gives the same output as the original whenever the filtered text has at most one dot. |
| `PriceInput.CappedWithDot` | app.js:216-222 | When the filtered text has a dot, the corrected sanitiser keeps the text through the first dot, then the first two characters of everything after that dot with its dots deleted. |
| `PriceInput.CappedIdempotent` | app.js:215-222 | Applying the corrected sanitiser twice gives the same result as applying it once. |
| `PriceInput.CappedExample` | app.js:216-222 | The corrected sanitiser turns `"1.2.345"` into `"1.23"`. |

## Findings

| source | as written | input that shows it | evidently intended | confidence | as-written member | corrected member |
|---|---|---|---|---|---|---|
| app.js:220-222 | The two-decimal cut checks only `parts[1]`, the piece between the first and second dots of the original split. Digits that later pieces contribute to the joined decimals are not counted. | `"1.2.345"` gives `"1.2345"`, four decimals. Sanitising that again gives `"1.23"`. | At most two decimals for every input, as the comment on the cut says. The cut applies to the decimals after the extra dots are removed. | medium, not executed. Typing reaches it too: with the cursor after the `1` of `"12.34"`, typing `.` gives `"1.2.34"`, which becomes `"1.234"` because the piece before the second dot, `"2"`, is not longer than two (`PriceInput.SanitizeTypedSecondDot`). The field then shows three decimals until the next input event. | `PriceInput.SanitizeKeepsMoreThanTwoDecimals` | `PriceInput.SanitizePriceCapped` |

## Left out

- Page wiring is not modelled: the `init`, `setupForm` and `setupFilter` handlers, `renderProducts`, `createProductCard`, the `DOMContentLoaded` listeners, `alert`/`confirm` and the timed button feedback. They only drive the display.
- `handleFormSubmit` is not modelled. Its one decision, refusing a submission with no photo, happens before `addProduct` is called and is DOM logic.
- `fileToBase64` and the image preview are not modelled. They are asynchronous browser file reading. The photo is an opaque string in `Draft`.
- `escapeHtml` is not modelled. It delegates to the browser's DOM, and its behaviour is not visible in the code.
- `parseFloat` on the price (app.js:26) and the `toFixed(2)` formatting (app.js:184) are floating point. `preco` is an opaque string that is copied from the draft into the record unchanged. So the model cannot show that a price that is not a number does not survive storage: `parseFloat` of `""` or `"."` (which the sanitiser leaves as it is) gives `NaN`, `JSON.stringify` writes that as `null`, and after a reload `loadProducts` (app.js:12) returns a record whose `preco` is `null`, on which `toFixed` (app.js:184) throws.
- JSON serialisation and `localStorage` are not modelled. The stored snapshot is the list value itself, so a stored empty string and malformed stored text (both possible with real storage) are not represented.
- Clock reads are parameters: `Date.now()` is `now` and `new Date().toISOString()` is `createdAt`. `createdAt` is unconstrained.
- `Decimal.DecimalString`: gives plain digits for every `nat`. JavaScript's `toString()` switches to exponent notation from 10^21 (`"1e+21"`), and a Number does not hold every integer above 2^53 exactly. Clock readings stay below 8.64·10^15, so ids are unaffected.
- `Catalog.NewProduct`: `now` is a `nat`, so the model covers clock readings from 1970 on. With a clock set before 1970, `Date.now().toString()` gives an id starting with `-`, which the model does not represent.
- `Catalog.ProductManager.SaveProducts`: writes to storage never fail in the model. In the code, `localStorage.setItem` (app.js:17) can throw, for example when the quota is exceeded, which base64 photos make likely. After a failed write in `addProduct` the exception propagates with `products` already one record ahead of the stored snapshot (app.js:31-32), and after a failed write in `removeProduct` the snapshot still holds the removed records (app.js:38-39). `Valid()` does not hold in those states.
- `GetProducts` with the empty category returns the live `products` array in the code, so a later `push` also changes a list the caller already holds. The model returns a value, so that aliasing is not captured.
- Races between browser tabs and overlapping submissions are not modelled. They are concurrency, and the model is sequential.
- `siteLoja.js` (the storefront component with its cart and float total) is not part of this model.
