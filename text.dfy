/**
 * Text as the renderer sees it: Rust `String`s, that is sequences of bytes
 * holding UTF-8, compared, upper-cased and sliced byte by byte.
 */
module Utf8Text {

  type Byte = b: int | 0 <= b < 256
  type Bytes = seq<Byte>

  /** Byte-wise lexicographic order, the order of `Ord` on Rust strings:
      a proper prefix comes first, otherwise the first differing byte decides. */
  predicate Below(a: Bytes, b: Bytes)
    decreases |a|
  {
    if a == [] then b != []
    else if b == [] then false
    else a[0] < b[0] || (a[0] == b[0] && Below(a[1..], b[1..]))
  }

  lemma {:induction false} BelowIrreflexive(a: Bytes)
    ensures !Below(a, a)
    decreases |a|
  {
    if a != [] {
      BelowIrreflexive(a[1..]);
    }
  }

  lemma {:induction false} BelowAsymmetric(a: Bytes, b: Bytes)
    requires Below(a, b)
    ensures !Below(b, a)
    decreases |a|
  {
    if a != [] && b != [] && a[0] == b[0] {
      BelowAsymmetric(a[1..], b[1..]);
    }
  }

  lemma {:induction false} BelowTransitive(a: Bytes, b: Bytes, c: Bytes)
    requires Below(a, b) && Below(b, c)
    ensures Below(a, c)
    decreases |a|
  {
    if a != [] && a[0] == b[0] && b[0] == c[0] {
      BelowTransitive(a[1..], b[1..], c[1..]);
    }
  }

  /** Any two different strings are ordered one way or the other. */
  lemma {:induction false} BelowTotal(a: Bytes, b: Bytes)
    requires a != b
    ensures Below(a, b) || Below(b, a)
    decreases |a|
  {
    if a != [] && b != [] && a[0] == b[0] {
      assert a == [a[0]] + a[1..] && b == [b[0]] + b[1..];
      BelowTotal(a[1..], b[1..]);
    }
  }

  predicate IsAsciiLower(b: Byte) {
    'a' as int <= b <= 'z' as int
  }

  function UpperByte(b: Byte): Byte {
    if IsAsciiLower(b) then b - 32 else b
  }

  /** `str::to_ascii_uppercase`: `a`..`z` become `A`..`Z`, every other byte
      (including every byte of a multi-byte character) is kept. */
  function AsciiUpper(s: Bytes): (r: Bytes)
    ensures |r| == |s|
    ensures forall i :: 0 <= i < |s| ==> !IsAsciiLower(r[i])
    ensures forall i :: 0 <= i < |s| && IsAsciiLower(s[i]) ==> r[i] == s[i] - 32
    ensures forall i :: 0 <= i < |s| && !IsAsciiLower(s[i]) ==> r[i] == s[i]
  {
    seq(|s|, i requires 0 <= i < |s| => UpperByte(s[i]))
  }

  // ---------------------------------------------------------------- UTF-8

  /** A byte of the form 10xxxxxx, which never starts a character. */
  predicate IsContinuation(b: Byte) {
    0x80 <= b < 0xC0
  }

  /** `str::is_char_boundary`: offset 0, the end, or an offset whose byte
      starts a character. */
  predicate IsCharBoundary(s: Bytes, i: nat) {
    i == 0 || i == |s| || (i < |s| && !IsContinuation(s[i]))
  }

  /** The length of the encoded character a lead byte announces, 0 for a
      byte that cannot start a character. */
  function LeadWidth(b: Byte): nat {
    if b < 0x80 then 1
    else if 0xC2 <= b < 0xE0 then 2
    else if 0xE0 <= b < 0xF0 then 3
    else if 0xF0 <= b < 0xF5 then 4
    else 0
  }

  /** The second-byte restrictions of the Unicode well-formed byte sequence
      table (no overlong forms, no surrogates, nothing above U+10FFFF). */
  predicate SecondByteAllowed(lead: Byte, second: Byte) {
    && (lead == 0xE0 ==> 0xA0 <= second)
    && (lead == 0xED ==> second < 0xA0)
    && (lead == 0xF0 ==> 0x90 <= second)
    && (lead == 0xF4 ==> second < 0x90)
  }

  /** One well-formed encoded character. */
  predicate WellFormedChar(c: Bytes) {
    && |c| > 0
    && |c| == LeadWidth(c[0])
    && (forall k :: 1 <= k < |c| ==> IsContinuation(c[k]))
    && (|c| >= 3 ==> SecondByteAllowed(c[0], c[1]))
  }

  /** The invariant of every Rust `String`. */
  predicate ValidUtf8(s: Bytes)
    decreases |s|
  {
    s == [] ||
    (var w := LeadWidth(s[0]);
     0 < w <= |s| && WellFormedChar(s[..w]) && ValidUtf8(s[w..]))
  }

  /** Cutting valid text at a character boundary leaves valid text: this is
      what Rust's slicing guarantees by refusing any other offset. */
  lemma {:induction false} PrefixAtBoundary(s: Bytes, i: nat)
    requires ValidUtf8(s) && i <= |s| && IsCharBoundary(s, i)
    ensures ValidUtf8(s[..i])
    decreases |s|
  {
    if i > 0 {
      var w := LeadWidth(s[0]);
      assert w <= i;
      var t := s[w..];
      assert IsCharBoundary(t, i - w) by {
        if i < |s| {
          assert t[i - w] == s[i];
        }
      }
      PrefixAtBoundary(t, i - w);
      assert s[..i][..w] == s[..w];
      assert s[..i][w..] == t[..i - w];
    }
  }

  lemma {:induction false} ConcatValid(a: Bytes, b: Bytes)
    requires ValidUtf8(a) && ValidUtf8(b)
    ensures ValidUtf8(a + b)
    decreases |a|
  {
    if a != [] {
      var w, ab := LeadWidth(a[0]), a + b;
      assert ab[0] == a[0] && 0 < w <= |a|;
      ConcatValid(a[w..], b);
      assert ab[..w] == a[..w];
      assert ab[w..] == a[w..] + b;
    } else {
      assert a + b == b;
    }
  }

  lemma {:induction false} AsciiValid(s: Bytes)
    requires forall i :: 0 <= i < |s| ==> s[i] < 0x80
    ensures ValidUtf8(s)
    decreases |s|
  {
    if s != [] {
      AsciiValid(s[1..]);
    }
  }
}
