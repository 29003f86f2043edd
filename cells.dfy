/**
 * One table cell per attribute: the three-way dispatch on the attribute's
 * type inside the row loop of the item renderer.
 */
module Cells {
  import opened Utf8Text

  /** The store's attribute value. Only `S` and `N` are rendered; every
      other kind, scalar or nested, falls through to the placeholder. */
  datatype AttributeValue =
    | S(s: Bytes)
    | N(n: Bytes)
    | B(blob: Bytes)
    | Bool(flag: bool)
    | Null
    | L(list: seq<AttributeValue>)
    | M(fields: map<Bytes, AttributeValue>)
    | Ss(strings: seq<Bytes>)
    | Ns(numbers: seq<Bytes>)
    | Bs(blobs: seq<Bytes>)
    | Unknown

  /** The terminal style a cell carries: blue for strings, green for numbers,
      none for the placeholder, blinking bright magenta for header labels. */
  datatype Style = Blue | Green | Plain | Header

  datatype Cell = Cell(text: Bytes, style: Style)

  /** `Panic` is the abort of slicing a string at an offset that is not a
      character boundary; it ends the whole program. */
  datatype Result<T> = Ok(value: T) | Panic

  /** Strings longer than this many bytes are cut. */
  const MaxStringBytes: nat := 50

  /** The text `N/A`. */
  const NotApplicable: Bytes := ['N' as int, '/' as int, 'A' as int]

  /** `if n.len() > 50 { &n[..50] } else { n }`. */
  function Truncate(s: Bytes): (r: Result<Bytes>)
    ensures |s| <= MaxStringBytes ==> r == Ok(s)
    ensures |s| > MaxStringBytes ==>
      (r.Ok? <==> IsCharBoundary(s, MaxStringBytes)) &&
      (r.Ok? ==> r.value == s[..MaxStringBytes])
  {
    if |s| > MaxStringBytes then
      if IsCharBoundary(s, MaxStringBytes) then Ok(s[..MaxStringBytes]) else Panic
    else Ok(s)
  }

  /** A cut that succeeds keeps a prefix of at most 50 bytes, keeps the whole
      string exactly when it fits, and leaves valid text valid. */
  lemma TruncatedText(s: Bytes)
    requires Truncate(s).Ok?
    ensures var t := Truncate(s).value;
      && |t| <= MaxStringBytes
      && t == s[..|t|]
      && (t == s <==> |s| <= MaxStringBytes)
      && (ValidUtf8(s) ==> ValidUtf8(t))
  {
    if |s| > MaxStringBytes && ValidUtf8(s) {
      PrefixAtBoundary(s, MaxStringBytes);
    }
  }

  /** Cutting twice is cutting once. */
  lemma TruncateIdempotent(s: Bytes)
    requires Truncate(s).Ok?
    ensures Truncate(Truncate(s).value) == Truncate(s)
  {
  }

  /** The cut is reachable by valid text: 49 ASCII letters followed by the
      two-byte encoding of `é` put byte 50 inside a character. */
  lemma TruncatePanicsInsideCharacter()
    ensures var s := seq(49, _ => 'a' as int) + [0xC3, 0xA9];
      ValidUtf8(s) && |s| == 51 && Truncate(s) == Panic
  {
    var a: Bytes := seq(49, _ => 'a' as int);
    var e: Bytes := [0xC3, 0xA9];
    AsciiValid(a);
    assert ValidUtf8(e) by {
      assert e[..2] == e && e[2..] == [];
    }
    ConcatValid(a, e);
    assert (a + e)[50] == 0xA9;
  }

  /** The match on the attribute's type. */
  function RenderCell(v: AttributeValue): (r: Result<Cell>)
    ensures r.Panic? <==>
      v.S? && |v.s| > MaxStringBytes && !IsCharBoundary(v.s, MaxStringBytes)
    ensures v.S? && r.Ok? ==>
      r.value.style == Blue && r.value.text == v.s[..Min(|v.s|, MaxStringBytes)]
    ensures v.N? ==> r == Ok(Cell(v.n, Green))
    ensures !v.S? && !v.N? ==> r == Ok(Cell(NotApplicable, Plain))
  {
    match v
    case S(s) =>
      (match Truncate(s)
       case Ok(t) => Ok(Cell(t, Blue))
       case Panic => Panic)
    case N(n) => Ok(Cell(n, Green))
    case _ => Ok(Cell(NotApplicable, Plain))
  }

  function Min(a: nat, b: nat): nat {
    if a < b then a else b
  }
}
