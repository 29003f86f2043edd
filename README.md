# DynamoDB table inspector: the item renderer, in Dafny

The inspector scans one DynamoDB table and prints its items as a terminal
table. This project models the part of `main` that turns the scanned items
into that table:

- it fixes a column order once, from the first item's attribute names sorted
  in descending byte-wise order;
- it adds one header row of the first item's names, upper-cased;
- it adds one data row per item, in arrival order, walking the column order.
  A name the item lacks is skipped. It does not get an empty cell;
- it renders each cell by the attribute's type. A string is cut to its first
  50 bytes, a number keeps its literal text, and anything else becomes `N/A`.

Text is modelled as bytes (`Utf8Text.Bytes`), because Rust strings are
compared, upper-cased and sliced byte by byte. Slicing a string at byte 50
aborts the program when byte 50 falls inside a multi-byte character. The
model carries that abort as `Cells.Result.Panic`, and a table in which any
cell aborts ends as `ItemTable.Outcome.Panicked`.

The header comes from the hash map's own key order, which Rust leaves
unspecified. `KeyOrder.IterationOrder` therefore picks the keys in an
arbitrary order. The column order is that same enumeration, sorted. So the
model proves facts about the header that hold for every enumeration, and
`ItemTable.HeaderMayMisalign` shows that the header need not line up with
the data columns.

Modules: `Utf8Text` (text.dfy), `KeyOrder` (order.dfy), `Cells` (cells.dfy),
`ItemTable` (table.dfy).

## Model

| member | source | states |
|---|---|---|
| Utf8Text.BelowIrreflexive | src/main.rs:80 | no name sorts strictly before itself under the byte-wise order `cmp` uses |
| Utf8Text.BelowAsymmetric | src/main.rs:80 | if `a` sorts before `b`, then `b` does not sort before `a` |
| Utf8Text.BelowTransitive | src/main.rs:80 | the byte-wise order is transitive |
| Utf8Text.BelowTotal | src/main.rs:80 | any two different names are ordered one way or the other, so sorting distinct names has one result |
| Utf8Text.AsciiUpper | src/main.rs:87 | `to_ascii_uppercase` keeps the length, turns every `a`..`z` byte into its capital and keeps every other byte |
| Utf8Text.PrefixAtBoundary | src/main.rs:105 | cutting valid UTF-8 at a character boundary leaves valid UTF-8 |
| KeyOrder.IterationOrder | src/main.rs:78 | iterating a hash map's keys lists every key exactly once, in an unspecified order |
| KeyOrder.InsertDescending | src/main.rs:80 | inserting into a non-increasing list keeps it non-increasing and adds exactly that one element |
| KeyOrder.SortDescending | src/main.rs:80 | `sort_by` with the comparator `b.cmp(a)` returns a permutation of its input in which no element sorts before a later one |
| KeyOrder.ColumnOrderSorted | src/main.rs:77-80 | the column order of a key set lists each key exactly once, in strictly descending order |
| KeyOrder.ColumnOrderUnique | src/main.rs:80 | a key set has only one strictly descending listing, so the columns do not depend on the hash map's order |
| KeyOrder.SortedEnumeration | src/main.rs:78-80 | sorting the first item's enumerated keys descending yields exactly its column order |
| Cells.Truncate | src/main.rs:103-112 | a string of at most 50 bytes is kept whole; a longer one becomes its first 50 bytes, or aborts when byte 50 is not a character boundary |
| Cells.TruncatedText | src/main.rs:103-112 | a cut that succeeds yields a prefix of at most 50 bytes, keeps the whole string exactly when it fits, and keeps valid UTF-8 valid |
| Cells.TruncateIdempotent | src/main.rs:103-105 | cutting an already cut string changes nothing |
| Cells.TruncatePanicsInsideCharacter | src/main.rs:105 | a valid 51-byte string whose byte 50 is inside `é` makes the cut abort |
| Cells.RenderCell | src/main.rs:101-117 | a string renders blue as its text cut to 50 bytes and aborts exactly when the cut splits a character; a number renders green as its literal text; every other type renders `N/A` unstyled |
| ItemTable.Present | src/main.rs:99-100 | the keys that get a cell are those of the column order that the item has, never more than the column order holds |
| ItemTable.PresentDescending | src/main.rs:99-100 | skipping absent keys keeps the cells in descending key order |
| ItemTable.DataRowCells | src/main.rs:96-119 | a data row aborts exactly when one of its present attributes aborts; otherwise it holds one cell per present key, in column order, each the rendering of that key's attribute |
| ItemTable.DataRowsInOrder | src/main.rs:76-123 | there is one data row per item, in arrival order, and the table aborts exactly when one of its rows does |
| ItemTable.RowColumns | src/main.rs:77-100 | the keys that get a cell in any row are exactly those it shares with the first item, in descending order, so a key only later items have never gets a cell |
| ItemTable.RowShorterThanHeader | src/main.rs:82-100 | an item that lacks one of the first item's keys gets fewer cells than any header of the first item has labels, because absent keys are skipped |
| ItemTable.TableCells | src/main.rs:76-123 | data row `j` has one cell per key that item `j` shares with the first item, in descending order, each the rendering of that attribute |
| ItemTable.HeaderLabels | src/main.rs:82-93 | the header has one cell per key of the first item, all in header style; as a multiset it equals the upper-cased keys in column order, so it is that list rearranged by the hash map's order |
| ItemTable.HeaderMayMisalign | src/main.rs:78-93 | for an item with keys `a` and `b`, one valid header starts with `A` while the first column is `b`, so the header can disagree with the data columns |
| ItemTable.TwoItemExample | src/main.rs:76-123 | items `{id: 1, name: "Alice"}` and `{id: 2, name: "Bob"}` give columns `name`, `id` and rows `Alice`, `1` and `Bob`, `2` |
| ItemTable.TwoItemHeader | src/main.rs:78-93 | for the first item `{id: 1, name: "Alice"}` the header is `NAME`, `ID` or `ID`, `NAME`, depending on the hash map |
| ItemTable.BuildRow | src/main.rs:96-119 | the inner loop over the column order builds exactly the data row of the item, or aborts when that row does |
| ItemTable.ColumnsAndHeader | src/main.rs:77-93 | on the first item the column order becomes its key set sorted descending, and the header is a header of that item |
| ItemTable.RenderItems | src/main.rs:71-128 | no item list gives no table; an empty list gives an empty table; otherwise the run aborts exactly when some data row aborts, and else the table is one header row of the first item followed by one data row per item in arrival order |

## Left out

- Pagination: the source sends one scan request and never follows the continuation key (src/main.rs:68). So the model takes the items of that single response as its input and does not model paging.
- A failing scan request, which returns an error before anything is rendered (src/main.rs:68): this is network I/O.
- AWS client construction, region resolution and credentials (src/main.rs:35-43): SDK and environment I/O.
- Command-line parsing (src/main.rs:8-19, 28-32) and tracing setup (src/main.rs:25): library wrappers.
- The `--info` preamble (src/main.rs:45-65): two fixed rows of external values, with no logic.
- Printing (`printstd`, `println!`), colours and blinking: terminal output. Each cell keeps its style only as a `Cells.Style` tag.
- KeyOrder.SortDescending: this is an insertion sort, not the standard library's merge sort. Both give the same result, because the order is total and equal elements are identical values.
- Cells.AttributeValue: this keeps the store's variants but simplifies their payloads. A binary blob is a byte sequence, and each of the three set types is a sequence of byte sequences. `Null` drops the SDK's `bool` payload. Only `S` and `N` are inspected, so these payloads never reach a cell.
- A corrected renderer would paginate the scan, put the header in the sorted order, fill missing keys with empty cells and cut strings by characters. The code does none of this, and the model follows the code.
