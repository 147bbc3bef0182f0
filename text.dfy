/**
 * The pieces of Go's standard library that the vocabulary code relies on,
 * written out as functions: the `<` order on strings, `strings.Fields`,
 * the line splitting of `bufio.ScanLines`, `strconv.FormatUint(n, 10)` and
 * `strconv.ParseUint(s, 10, 32)`.
 */
module Text {

  /** Go's `uint32`. */
  type uint32 = x: int | 0 <= x < 0x1_0000_0000

  const MaxUint32: int := 0xFFFF_FFFF

  /** Adding one to a wrapped counter wraps the incremented count. */
  lemma WrapSucc(a: nat)
    ensures ((a % 0x1_0000_0000) + 1) % 0x1_0000_0000 == (a + 1) % 0x1_0000_0000
  {
    var q, r := a / 0x1_0000_0000, a % 0x1_0000_0000;
    assert a == q * 0x1_0000_0000 + r;
    if r + 1 == 0x1_0000_0000 {
      assert a + 1 == (q + 1) * 0x1_0000_0000;
    } else {
      assert a + 1 == q * 0x1_0000_0000 + (r + 1);
    }
  }

  // ---------------------------------------------------------------------
  // String order
  // ---------------------------------------------------------------------

  /**
   * Go's `a < b` on strings: lexicographic, and a proper prefix is smaller.
   * Go compares the UTF-8 bytes; on Unicode scalar values that order is the
   * order of their code points, which is what `<` on `char` compares.
   */
  predicate LexLess(a: string, b: string)
    ensures |a| <= |b| && a == b[..|a|] ==> (LexLess(a, b) <==> a != b)
    decreases |a|
  {
    if a == [] then b != []
    else if b == [] then false
    else if a[0] != b[0] then a[0] < b[0]
    else LexLess(a[1..], b[1..])
  }

  lemma {:induction false} LexLessIrreflexive(a: string)
    ensures !LexLess(a, a)
    decreases |a|
  {
    if a != [] {
      LexLessIrreflexive(a[1..]);
    }
  }

  lemma {:induction false} LexLessTransitive(a: string, b: string, c: string)
    requires LexLess(a, b) && LexLess(b, c)
    ensures LexLess(a, c)
    decreases |a|
  {
    if a != [] && b != [] && c != [] && a[0] == b[0] && b[0] == c[0] {
      LexLessTransitive(a[1..], b[1..], c[1..]);
    }
  }

  lemma {:induction false} LexLessTotal(a: string, b: string)
    requires a != b
    ensures LexLess(a, b) || LexLess(b, a)
    decreases |a|
  {
    if a != [] && b != [] && a[0] == b[0] {
      assert a == [a[0]] + a[1..] && b == [b[0]] + b[1..];
      LexLessTotal(a[1..], b[1..]);
    }
  }

  // ---------------------------------------------------------------------
  // strings.Fields
  // ---------------------------------------------------------------------

  /**
   * Go's `unicode.IsSpace`, the separator test of `strings.Fields` and of
   * `bufio.ScanWords`: the White_Space code points U+0009 to U+000D, U+0020,
   * U+0085, U+00A0, U+1680, U+2000 to U+200A, U+2028, U+2029, U+202F, U+205F
   * and U+3000.
   */
  predicate IsSpace(c: char)
    ensures c == ' ' || c == '\t' || c == '\n' || c == '\r' ==> IsSpace(c)
    ensures IsDigit(c) ==> !IsSpace(c)
  {
    var n := c as int;
    (9 <= n <= 13) || n == 32 || n == 0x85 || n == 0xA0 || n == 0x1680 ||
    (0x2000 <= n <= 0x200A) || n == 0x2028 || n == 0x2029 || n == 0x202F ||
    n == 0x205F || n == 0x3000
  }

  predicate SpaceFree(s: string)
  {
    forall i | 0 <= i < |s| :: !IsSpace(s[i])
  }

  /** `strings.Fields(s)`: the maximal runs of non-space characters, in order. */
  function Fields(s: string): (r: seq<string>)
    ensures forall i | 0 <= i < |r| :: r[i] != [] && SpaceFree(r[i])
  {
    FieldsFrom(s, [])
  }

  /** Splits `s`, where `field` holds the characters of the field being read. */
  function FieldsFrom(s: string, field: string): (r: seq<string>)
    requires SpaceFree(field)
    ensures forall i | 0 <= i < |r| :: r[i] != [] && SpaceFree(r[i])
    decreases |s|
  {
    if s == [] then Flush(field)
    else if IsSpace(s[0]) then Flush(field) + FieldsFrom(s[1..], [])
    else FieldsFrom(s[1..], field + [s[0]])
  }

  function Flush(field: string): seq<string>
  {
    if field == [] then [] else [field]
  }

  /** Reading a run of non-space characters only extends the current field. */
  lemma {:induction false} FieldsFromRun(a: string, rest: string, field: string)
    requires SpaceFree(a) && SpaceFree(field)
    ensures FieldsFrom(a + rest, field) == FieldsFrom(rest, field + a)
    decreases |a|
  {
    if a == [] {
      assert a + rest == rest && field + a == field;
    } else {
      assert (a + rest)[0] == a[0] && (a + rest)[1..] == a[1..] + rest;
      assert field + [a[0]] + a[1..] == field + a;
      FieldsFromRun(a[1..], rest, field + [a[0]]);
    }
  }

  /** Two space-free words joined by one blank split back into those two words. */
  lemma FieldsOfPair(a: string, b: string)
    requires a != [] && b != [] && SpaceFree(a) && SpaceFree(b)
    ensures Fields(a + " " + b) == [a, b]
  {
    assert a + " " + b == a + (" " + b);
    FieldsFromRun(a, " " + b, []);
    assert [] + a == a;
    assert (" " + b)[1..] == b;
    FieldsFromRun(b, [], []);
    assert b + [] == b && [] + b == b;
  }

  // ---------------------------------------------------------------------
  // bufio.ScanLines
  // ---------------------------------------------------------------------

  /** The index of the first newline of `s`, or `|s|` when it has none. */
  function IndexOfNewline(s: string): (i: nat)
    ensures i <= |s|
    ensures forall k | 0 <= k < i :: s[k] != '\n'
    ensures i < |s| ==> s[i] == '\n'
  {
    if s == [] || s[0] == '\n' then 0 else 1 + IndexOfNewline(s[1..])
  }

  /** Drops one trailing carriage return, as the line scanner does. */
  function DropCR(s: string): (r: string)
    ensures r == s || r + "\r" == s
    ensures r == s <==> s == [] || s[|s| - 1] != '\r'
  {
    if |s| > 0 && s[|s| - 1] == '\r' then s[..|s| - 1] else s
  }

  /**
   * The lines `bufio.ScanLines` yields from `text`: split at each newline, a
   * final line need not end in a newline, and no empty line is reported after
   * a final newline.
   */
  function ScanLines(text: string): (r: seq<string>)
    ensures r == [] <==> text == []
    ensures forall i | 0 <= i < |r| :: '\n' !in r[i]
    decreases |text|
  {
    if text == [] then []
    else
      var i := IndexOfNewline(text);
      if i == |text| then [DropCR(text)]
      else [DropCR(text[..i])] + ScanLines(text[i + 1..])
  }

  lemma ScanLinesCons(a: string, rest: string)
    requires forall k | 0 <= k < |a| :: a[k] != '\n'
    ensures ScanLines(a + "\n" + rest) == [DropCR(a)] + ScanLines(rest)
  {
    var text := a + "\n" + rest;
    assert text[|a|] == '\n';
    var i := IndexOfNewline(text);
    assert i == |a|;
    assert text[..i] == a;
    assert text[i + 1..] == rest;
  }

  // ---------------------------------------------------------------------
  // strconv.FormatUint(n, 10) and strconv.ParseUint(s, 10, 32)
  // ---------------------------------------------------------------------

  predicate IsDigit(c: char)
  {
    '0' <= c <= '9'
  }

  predicate AllDigits(s: string)
  {
    forall i | 0 <= i < |s| :: IsDigit(s[i])
  }

  function DigitValue(c: char): nat
    requires IsDigit(c)
  {
    (c as int) - ('0' as int)
  }

  function DigitChar(d: nat): (c: char)
    requires d < 10
    ensures IsDigit(c) && DigitValue(c) == d
  {
    (('0' as int) + d) as char
  }

  /** The number a string of decimal digits denotes (leading zeros allowed). */
  function Value(s: string): nat
    requires AllDigits(s)
  {
    if s == [] then 0 else 10 * Value(s[..|s| - 1]) + DigitValue(s[|s| - 1])
  }

  /** A longer prefix of a digit string never denotes a smaller number. */
  lemma {:induction false} ValuePrefix(s: string, i: nat)
    requires AllDigits(s) && i <= |s|
    ensures Value(s[..i]) <= Value(s)
    decreases |s|
  {
    if i < |s| {
      var t := s[..|s| - 1];
      assert t[..i] == s[..i];
      ValuePrefix(t, i);
    } else {
      assert s[..i] == s;
    }
  }

  /** `strconv.FormatUint(n, 10)`: the canonical decimal spelling of `n`. */
  function FormatUint(n: nat): (r: string)
    ensures r != [] && AllDigits(r) && Value(r) == n
    ensures r[0] == '0' ==> r == "0"
  {
    if n < 10 then [DigitChar(n)]
    else
      var high := FormatUint(n / 10);
      var r := high + [DigitChar(n % 10)];
      assert r[..|r| - 1] == high;
      assert r[0] == high[0];
      r
  }

  /** The two errors `strconv.ParseUint` reports. */
  datatype NumError = ErrSyntax | ErrRange

  datatype ParseResult = Parsed(value: uint32) | NumFailure(err: NumError)

  /**
   * `strconv.ParseUint(s, 10, 32)`. The empty string, or a character that is
   * not a decimal digit, is a syntax error; a value above 2^32 - 1 is a range
   * error. Digits are read left to right and the first failing check decides
   * which error is reported.
   */
  function ParseUint(s: string): (r: ParseResult)
    ensures r.Parsed? ==> s != [] && AllDigits(s) && r.value == Value(s)
    ensures s != [] && AllDigits(s) && Value(s) <= MaxUint32 ==> r.Parsed?
  {
    if s == [] then NumFailure(ErrSyntax) else ScanDigits(s, 0, 0)
  }

  /** The digit loop of `ParseUint`; `n` is the value of the digits read so far. */
  function ScanDigits(s: string, i: nat, n: uint32): (r: ParseResult)
    requires i <= |s| && AllDigits(s[..i]) && n == Value(s[..i])
    ensures r.Parsed? ==> AllDigits(s) && r.value == Value(s)
    ensures AllDigits(s) && Value(s) <= MaxUint32 ==> r.Parsed?
    decreases |s| - i
  {
    if i == |s| then
      assert s[..i] == s;
      Parsed(n)
    else if !IsDigit(s[i]) then NumFailure(ErrSyntax)
    else
      var next := 10 * n + DigitValue(s[i]);
      assert s[..i + 1][..i] == s[..i];
      assert AllDigits(s[..i + 1]) && next == Value(s[..i + 1]);
      if next > MaxUint32 then
        assert AllDigits(s) ==> Value(s) > MaxUint32 by {
          if AllDigits(s) {
            ValuePrefix(s, i + 1);
          }
        }
        NumFailure(ErrRange)
      else ScanDigits(s, i + 1, next)
  }

  /** Parsing what `FormatUint` printed gives the number back. */
  lemma ParseFormatUint(n: uint32)
    ensures ParseUint(FormatUint(n)) == Parsed(n)
  {
  }
}
