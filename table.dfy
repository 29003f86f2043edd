/**
 * The item renderer: the scanned items become one header row followed by
 * one data row per item, each data row walking the column order fixed from
 * the first item.
 */
module ItemTable {
  import opened Utf8Text
  import opened KeyOrder
  import opened Cells

  type Key = Bytes

  /** One scanned item: attribute name to attribute value. */
  type Record = map<Key, AttributeValue>

  type Row = seq<Cell>

  /** `response.items`, which the client may leave unset. */
  datatype Option<T> = None | Some(value: T)

  /** What the renderer ends with: nothing at all when the response carried
      no item list, the rows of the printed table, or an abort while cutting
      a string. */
  datatype Outcome = NoItems | Printed(rows: seq<Row>) | Panicked

  // ------------------------------------------------------ specification

  /** The keys of `keys` that `rec` has, in the order of `keys`: the keys that
      get a cell, since an absent key is skipped. */
  function Present(keys: seq<Key>, rec: Record): (p: seq<Key>)
    ensures |p| <= |keys|
    ensures forall k :: k in p <==> k in keys && k in rec
    decreases |keys|
  {
    if keys == [] then []
    else
      var init, k := Present(keys[..|keys| - 1], rec), keys[|keys| - 1];
      assert forall x :: x in keys <==> x in keys[..|keys| - 1] || x == k by {
        assert keys == keys[..|keys| - 1] + [k];
      }
      if k in rec then init + [k] else init
  }

  /** The data row the inner loop builds for `rec`. */
  function DataRow(keys: seq<Key>, rec: Record): Result<Row>
    decreases |keys|
  {
    if keys == [] then Ok([])
    else
      match DataRow(keys[..|keys| - 1], rec)
      case Panic => Panic
      case Ok(cells) =>
        var k := keys[|keys| - 1];
        if k !in rec then Ok(cells)
        else
          match RenderCell(rec[k])
          case Panic => Panic
          case Ok(c) => Ok(cells + [c])
  }

  /** The data rows for `records`, in arrival order. */
  function DataRows(keys: seq<Key>, records: seq<Record>): Result<seq<Row>>
    decreases |records|
  {
    if records == [] then Ok([])
    else
      match DataRows(keys, records[..|records| - 1])
      case Panic => Panic
      case Ok(rows) =>
        match DataRow(keys, records[|records| - 1])
        case Panic => Panic
        case Ok(row) => Ok(rows + [row])
  }

  /** The header labels for keys enumerated in the order `ks`. */
  function HeaderCells(ks: seq<Key>): Row {
    seq(|ks|, i requires 0 <= i < |ks| => Cell(AsciiUpper(ks[i]), Header))
  }

  /** A header row for `first`: its keys upper-cased, in whatever order the
      hash map enumerates them. */
  ghost predicate IsHeaderOf(h: Row, first: Record) {
    exists ks :: Enumerates(ks, first.Keys) && h == HeaderCells(ks)
  }

  // ------------------------------------------------------------- lemmas

  /** A row aborts exactly when one of its present attributes cannot be cut;
      otherwise it holds one cell per present key, in column order, each the
      rendering of that key's attribute. */
  lemma {:induction false} DataRowCells(keys: seq<Key>, rec: Record)
    ensures DataRow(keys, rec).Panic? <==>
      exists k :: k in keys && k in rec && RenderCell(rec[k]).Panic?
    ensures DataRow(keys, rec).Ok? ==>
      var cells, p := DataRow(keys, rec).value, Present(keys, rec);
      |cells| == |p| &&
      forall i :: 0 <= i < |p| ==> RenderCell(rec[p[i]]) == Ok(cells[i])
    decreases |keys|
  {
    if keys != [] {
      var init, k := keys[..|keys| - 1], keys[|keys| - 1];
      DataRowCells(init, rec);
      assert keys == init + [k];
      if DataRow(init, rec).Panic? {
        var x :| x in init && x in rec && RenderCell(rec[x]).Panic?;
        assert x in keys;
      }
    }
  }

  /** One row per record, in order; the whole table aborts exactly when one
      of its rows does. */
  lemma {:induction false} DataRowsInOrder(keys: seq<Key>, records: seq<Record>)
    ensures DataRows(keys, records).Panic? <==>
      exists j :: 0 <= j < |records| && DataRow(keys, records[j]).Panic?
    ensures DataRows(keys, records).Ok? ==>
      var rows := DataRows(keys, records).value;
      |rows| == |records| &&
      forall j :: 0 <= j < |records| ==> DataRow(keys, records[j]) == Ok(rows[j])
    decreases |records|
  {
    if records != [] {
      var init := records[..|records| - 1];
      DataRowsInOrder(keys, init);
      if DataRows(keys, init).Panic? {
        var j :| 0 <= j < |init| && DataRow(keys, init[j]).Panic?;
        assert records[j] == init[j];
      }
      if DataRows(keys, records).Ok? {
        forall j | 0 <= j < |records| - 1
          ensures DataRow(keys, records[j]) == Ok(DataRows(keys, records).value[j])
        {
          assert records[j] == init[j];
        }
      }
    }
  }

  /** Filtering a strictly descending key list keeps it strictly descending. */
  lemma {:induction false} PresentDescending(keys: seq<Key>, rec: Record)
    requires StrictlyDescending(keys)
    ensures StrictlyDescending(Present(keys, rec))
    decreases |keys|
  {
    if keys != [] {
      var init, k := keys[..|keys| - 1], keys[|keys| - 1];
      PresentDescending(init, rec);
      var p := Present(init, rec);
      forall i | 0 <= i < |p|
        ensures Below(k, p[i])
      {
        assert p[i] in p;
        var j :| 0 <= j < |init| && init[j] == p[i];
        assert keys[j] == p[i];
      }
    }
  }

  /** The keys that get a cell in a row are the keys the row shares with the
      first record, in descending order: a key the first record lacks never
      gets a cell, and a key the row lacks is skipped, not left blank. */
  lemma RowColumns(first: Record, rec: Record)
    ensures Present(ColumnOrder(first.Keys), rec) == ColumnOrder(first.Keys * rec.Keys)
    ensures |Present(ColumnOrder(first.Keys), rec)| == |first.Keys * rec.Keys| <= |first.Keys|
  {
    var keys := ColumnOrder(first.Keys);
    ColumnOrderSorted(first.Keys);
    ColumnOrderSorted(first.Keys * rec.Keys);
    PresentDescending(keys, rec);
    ColumnOrderUnique(Present(keys, rec), first.Keys * rec.Keys);
  }

  /** An item that lacks one of the first item's keys gets a row with fewer
      cells than the header has labels. */
  lemma RowShorterThanHeader(first: Record, rec: Record, k: Key, h: Row)
    requires k in first && k !in rec && IsHeaderOf(h, first)
    ensures |Present(ColumnOrder(first.Keys), rec)| < |h|
  {
    RowColumns(first, rec);
    var ks :| Enumerates(ks, first.Keys) && h == HeaderCells(ks);
    EnumerationLength(ks, first.Keys);
    MissingKeyShrinks(first.Keys, rec.Keys, k);
  }

  lemma MissingKeyShrinks(a: set<Key>, b: set<Key>, k: Key)
    requires k in a && k !in b
    ensures |a * b| < |a|
  {
    assert a == (a * b) + (a - b) && (a * b) * (a - b) == {};
    assert k in a - b;
  }

  /** Every data row of a table keyed by the first record: its cells render,
      in descending key order, the attributes the record shares with the
      first record, and nothing else. */
  lemma TableCells(records: seq<Record>, j: nat)
    requires j < |records|
    requires DataRows(ColumnOrder(records[0].Keys), records).Ok?
    ensures var rows := DataRows(ColumnOrder(records[0].Keys), records).value;
      var cols := ColumnOrder(records[0].Keys * records[j].Keys);
      |rows| == |records| &&
      |rows[j]| == |cols| &&
      forall i :: 0 <= i < |cols| ==>
        cols[i] in records[j] && RenderCell(records[j][cols[i]]) == Ok(rows[j][i])
  {
    var keys := ColumnOrder(records[0].Keys);
    DataRowsInOrder(keys, records);
    DataRowCells(keys, records[j]);
    RowColumns(records[0], records[j]);
    ColumnOrderSorted(records[0].Keys * records[j].Keys);
  }

  /** The header row has one label per key of the first record, all in
      header style: it is a rearrangement of the labels of the column order,
      in whatever order the hash map enumerates the keys. */
  lemma HeaderLabels(h: Row, first: Record)
    requires IsHeaderOf(h, first)
    ensures |h| == |first|
    ensures forall i :: 0 <= i < |h| ==> h[i].style == Header
    ensures (set c | c in h :: c.text) == (set k | k in first :: AsciiUpper(k))
    ensures multiset(h) == multiset(HeaderCells(ColumnOrder(first.Keys)))
  {
    var ks :| Enumerates(ks, first.Keys) && h == HeaderCells(ks);
    EnumerationLength(ks, first.Keys);
    LabelSet(ks, first);
    ColumnOrderEnumerates(first.Keys);
    EnumerationsArePermutations(ks, ColumnOrder(first.Keys), first.Keys);
    HeaderCellsPermutation(ks, ColumnOrder(first.Keys));
  }

  lemma LabelSet(ks: seq<Key>, first: Record)
    requires Enumerates(ks, first.Keys)
    ensures (set c | c in HeaderCells(ks) :: c.text) == (set k | k in first :: AsciiUpper(k))
  {
    var h := HeaderCells(ks);
    var labels, uppers := (set c | c in h :: c.text), (set k | k in first :: AsciiUpper(k));
    forall t | t in labels
      ensures t in uppers
    {
      var i :| 0 <= i < |h| && h[i].text == t;
      LabelFromKey(ks, first, i);
    }
    forall t | t in uppers
      ensures t in labels
    {
      var k :| k in first && AsciiUpper(k) == t;
      KeyHasLabel(ks, first, k);
    }
  }

  lemma LabelFromKey(ks: seq<Key>, first: Record, i: nat)
    requires Enumerates(ks, first.Keys) && i < |ks|
    ensures exists k :: k in first && HeaderCells(ks)[i].text == AsciiUpper(k)
  {
    assert ks[i] in ks;
    var k := ks[i];
    assert k in first && HeaderCells(ks)[i].text == AsciiUpper(k);
  }

  lemma KeyHasLabel(ks: seq<Key>, first: Record, k: Key)
    requires Enumerates(ks, first.Keys) && k in first
    ensures exists i :: 0 <= i < |ks| && HeaderCells(ks)[i].text == AsciiUpper(k)
  {
    var i :| 0 <= i < |ks| && ks[i] == k;
    assert HeaderCells(ks)[i].text == AsciiUpper(k);
  }

  lemma HeaderCellsAppend(u: seq<Key>, v: seq<Key>)
    ensures HeaderCells(u + v) == HeaderCells(u) + HeaderCells(v)
  {
  }

  /** Taking key `j` out of a key list takes exactly its label out of the
      labels. */
  lemma HeaderCellsRemove(b: seq<Key>, j: nat)
    requires j < |b|
    ensures multiset(HeaderCells(b)) ==
      multiset(HeaderCells(b[..j] + b[j + 1..])) + multiset{Cell(AsciiUpper(b[j]), Header)}
  {
    var pre, post := b[..j], b[j + 1..];
    assert b == pre + [b[j]] + post;
    HeaderCellsAppend(pre + [b[j]], post);
    HeaderCellsAppend(pre, [b[j]]);
    HeaderCellsAppend(pre, post);
  }

  lemma CancelOne(p: multiset<Key>, q: multiset<Key>, x: Key)
    requires p + multiset{x} == q + multiset{x}
    ensures p == q
  {
    forall y
      ensures p[y] == q[y]
    {
      assert (p + multiset{x})[y] == (q + multiset{x})[y];
    }
  }

  /** Labelling a permutation of the keys gives a permutation of the labels. */
  lemma {:induction false} HeaderCellsPermutation(a: seq<Key>, b: seq<Key>)
    requires multiset(a) == multiset(b)
    ensures multiset(HeaderCells(a)) == multiset(HeaderCells(b))
    decreases |a|
  {
    if a != [] {
      var init, x := a[..|a| - 1], a[|a| - 1];
      assert a == init + [x];
      assert x in multiset(b);
      var j :| 0 <= j < |b| && b[j] == x;
      var rest := b[..j] + b[j + 1..];
      assert b == b[..j] + [x] + b[j + 1..];
      assert multiset(b) == multiset(rest) + multiset{x};
      assert multiset(a) == multiset(init) + multiset{x};
      CancelOne(multiset(init), multiset(rest), x);
      HeaderCellsPermutation(init, rest);
      HeaderCellsAppend(init, [x]);
      HeaderCellsRemove(b, j);
      var c := Cell(AsciiUpper(x), Header);
      assert HeaderCells([x]) == [c];
      assert multiset(HeaderCells(a)) == multiset(HeaderCells(init)) + multiset{c};
    } else {
      assert b == [];
    }
  }

  /** The header need not line up with the data columns: for an item with
      keys `a` and `b`, the columns run `b`, `a`, while a hash map may
      enumerate `a` first and put `A` over the `b` column. */
  lemma HeaderMayMisalign()
    ensures var first: Record := map[[97] := Null, [98] := Null];
      IsHeaderOf(HeaderCells([[97], [98]]), first) &&
      ColumnOrder(first.Keys) == [[98], [97]] &&
      HeaderCells([[97], [98]])[0].text != AsciiUpper(ColumnOrder(first.Keys)[0])
  {
    var first: Record := map[[97] := Null, [98] := Null];
    var ks: seq<Key> := [[97], [98]];
    assert Enumerates(ks, first.Keys);
    var desc: seq<Key> := [[98], [97]];
    assert Below([97], [98]);
    ColumnOrderUnique(desc, first.Keys);
    assert AsciiUpper([97]) == [65];
    assert AsciiUpper([98]) == [66];
  }

  lemma AppendRow(keys: seq<Key>, records: seq<Record>, n: nat, rows: seq<Row>, row: Row)
    requires n < |records|
    requires DataRows(keys, records[..n]) == Ok(rows)
    requires DataRow(keys, records[n]) == Ok(row)
    ensures DataRows(keys, records[..n + 1]) == Ok(rows + [row])
  {
    assert records[..n + 1][..n] == records[..n];
  }

  lemma RowPanicAbortsTable(keys: seq<Key>, records: seq<Record>, n: nat)
    requires n < |records| && DataRow(keys, records[n]).Panic?
    ensures DataRows(keys, records).Panic?
  {
    DataRowsInOrder(keys, records);
  }

  /** Two items `{id: 1, name: "Alice"}` and `{id: 2, name: "Bob"}`: the
      columns run `name`, `id`, and each row holds the blue name and the
      green number. */
  lemma TwoItemExample()
    ensures var id, name: Key := [105, 100], [110, 97, 109, 101];
      var alice, bob: Bytes := [65, 108, 105, 99, 101], [66, 111, 98];
      var items: seq<Record> := [map[id := N([49]), name := S(alice)],
                                 map[id := N([50]), name := S(bob)]];
      ColumnOrder(items[0].Keys) == [name, id] &&
      DataRows(ColumnOrder(items[0].Keys), items) ==
        Ok([[Cell(alice, Blue), Cell([49], Green)], [Cell(bob, Blue), Cell([50], Green)]])
  {
    var id, name: Key := [105, 100], [110, 97, 109, 101];
    var alice, bob: Bytes := [65, 108, 105, 99, 101], [66, 111, 98];
    var items: seq<Record> := [map[id := N([49]), name := S(alice)],
                               map[id := N([50]), name := S(bob)]];
    assert Below(id, name);
    ColumnOrderUnique([name, id], items[0].Keys);
    var keys := [name, id];
    var first := [Cell(alice, Blue), Cell([49], Green)];
    var second := [Cell(bob, Blue), Cell([50], Green)];
    ExampleRow(items[0], alice, [49]);
    ExampleRow(items[1], bob, [50]);
    assert items[..1][..0] == [] && items[..1] == [items[0]];
    assert [] + [first] == [first] && [first] + [second] == [first, second];
    assert DataRows(keys, items[..1]) == Ok([first]);
  }

  /** The row of one item of the example: a short name, then a number. */
  lemma ExampleRow(rec: Record, text: Bytes, number: Bytes)
    requires rec == map[[105, 100] := N(number), [110, 97, 109, 101] := S(text)]
    requires |text| <= MaxStringBytes
    ensures DataRow([[110, 97, 109, 101], [105, 100]], rec) ==
      Ok([Cell(text, Blue), Cell(number, Green)])
  {
    var id, name: Key := [105, 100], [110, 97, 109, 101];
    var keys := [name, id];
    assert keys[..1] == [name] && [name][..0] == [];
    assert rec[name] == S(text) && rec[id] == N(number);
    assert RenderCell(S(text)) == Ok(Cell(text, Blue));
    assert [] + [Cell(text, Blue)] == [Cell(text, Blue)];
    assert DataRow([name], rec) == Ok([Cell(text, Blue)]);
    assert [Cell(text, Blue)] + [Cell(number, Green)] == [Cell(text, Blue), Cell(number, Green)];
  }

  /** The header of the first item of the two-item example is `NAME`, `ID`
      or `ID`, `NAME`, depending on the hash map; either way it is a
      rearrangement of the labels of the columns `name`, `id`. */
  lemma TwoItemHeader(h: Row)
    requires IsHeaderOf(h, map[[105, 100] := N([49]), [110, 97, 109, 101] := S([65, 108, 105, 99, 101])])
    ensures var nameLabel, idLabel := Cell([78, 65, 77, 69], Header), Cell([73, 68], Header);
      h == [nameLabel, idLabel] || h == [idLabel, nameLabel]
  {
    var id, name: Key := [105, 100], [110, 97, 109, 101];
    var first: Record := map[id := N([49]), name := S([65, 108, 105, 99, 101])];
    var ks :| Enumerates(ks, first.Keys) && h == HeaderCells(ks);
    EnumerationLength(ks, first.Keys);
    assert first.Keys == {id, name};
    assert |ks| == 2;
    assert ks[0] in first.Keys && ks[1] in first.Keys && ks[0] != ks[1];
    assert AsciiUpper(name) == [78, 65, 77, 69];
    assert AsciiUpper(id) == [73, 68];
    if ks[0] == name {
      assert ks == [name, id];
    } else {
      assert ks == [id, name];
    }
  }

  // ------------------------------------------------------------ methods

  /** The inner loop `for k in &keys`: one cell per key the item has. */
  method BuildRow(keys: seq<Key>, hm: Record) returns (values: Result<Row>)
    ensures values == DataRow(keys, hm)
  {
    var cells: Row := [];
    for i := 0 to |keys|
      invariant DataRow(keys[..i], hm) == Ok(cells)
    {
      var k := keys[i];
      assert keys[..i + 1][..i] == keys[..i];
      if k in hm {
        var cell := RenderCell(hm[k]);
        if cell.Panic? {
          DataRowCells(keys, hm);
          return Panic;
        }
        cells := cells + [cell.value];
      }
    }
    assert keys[..|keys|] == keys;
    values := Ok(cells);
  }

  /** The `if idx == 0` block: the column order is the first item's keys
      sorted in descending order, the header its keys upper-cased in hash-map
      order. Both come from the same enumeration of the keys. */
  method ColumnsAndHeader(hm: Record) returns (keys: seq<Key>, header: Row)
    ensures keys == ColumnOrder(hm.Keys)
    ensures IsHeaderOf(header, hm)
  {
    var order := IterationOrder(hm);
    keys := SortDescending(order);
    SortedEnumeration(order, keys, hm.Keys);
    header := HeaderCells(order);
  }

  /** The body of `if let Some(item) = response.items`: fix the column order
      and the header from the first item, then add one row per item. */
  method RenderItems(items: Option<seq<Record>>) returns (out: Outcome)
    ensures items.None? <==> out == NoItems
    ensures items == Some([]) ==> out == Printed([])
    ensures items.Some? && items.value != [] ==>
      var keys := ColumnOrder(items.value[0].Keys);
      (out == Panicked <==> DataRows(keys, items.value).Panic?) &&
      (out.Printed? ==>
        |out.rows| == |items.value| + 1 &&
        IsHeaderOf(out.rows[0], items.value[0]) &&
        DataRows(keys, items.value) == Ok(out.rows[1..]))
  {
    if items.None? {
      return NoItems;
    }
    var item := items.value;
    var keys: seq<Key> := [];
    var table: seq<Row> := [];
    var idx := 0;
    var header: Row := [];
    for n := 0 to |item|
      invariant idx == n
      invariant n == 0 ==> table == []
      invariant n > 0 ==> keys == ColumnOrder(item[0].Keys)
      invariant n > 0 ==> IsHeaderOf(header, item[0])
      invariant n > 0 ==> |table| == n + 1 && table[0] == header
      invariant n > 0 ==> DataRows(keys, item[..n]) == Ok(table[1..])
    {
      var hm := item[n];
      if idx == 0 {
        keys, header := ColumnsAndHeader(hm);
        table := table + [header];
        assert item[..n] == [] && table[1..] == [];
      }
      var values := BuildRow(keys, hm);
      if values.Panic? {
        RowPanicAbortsTable(keys, item, n);
        return Panicked;
      }
      AppendRow(keys, item, n, table[1..], values.value);
      assert (table + [values.value])[1..] == table[1..] + [values.value];
      table := table + [values.value];
      idx := idx + 1;
    }
    assert item[..|item|] == item;
    out := Printed(table);
  }
}
