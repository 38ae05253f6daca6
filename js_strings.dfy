/**
 * The JavaScript string built-ins the extension relies on, written out over
 * `seq<char>`: `indexOf`, `split` with a non-empty separator, the decimal
 * `toString` of an integral number, and the regular-expression classes `\d`
 * and `\s`.
 */
module JsStrings {
  import opened Wrappers

  /** `p` occurs in `s` starting at index `i`. */
  predicate StartsWithAt(s: string, i: nat, p: string) {
    i + |p| <= |s| && s[i..i + |p|] == p
  }

  /** `a + b` occurs at `i` exactly when `a` does and `b` follows it. */
  lemma StartsWithConcat(s: string, i: nat, a: string, b: string)
    ensures StartsWithAt(s, i, a + b) <==> StartsWithAt(s, i, a) && StartsWithAt(s, i + |a|, b)
  {
    if StartsWithAt(s, i, a + b) {
      assert s[i..i + |a|] == (a + b)[..|a|] == a;
      assert s[i + |a|..i + |a| + |b|] == (a + b)[|a|..] == b;
    }
    if StartsWithAt(s, i, a) && StartsWithAt(s, i + |a|, b) {
      assert s[i..i + |a| + |b|] == s[i..i + |a|] + s[i + |a|..i + |a| + |b|];
    }
  }

  /** No occurrence of `sep` starts at an index in `[from, to)`. */
  ghost predicate NoOccurrence(s: string, sep: string, from: nat, to: nat) {
    forall k :: from <= k < to ==> !StartsWithAt(s, k, sep)
  }

  /**
   * `f` can stand before `sep` in a joined string without `sep` being found
   * earlier: no occurrence of `sep` starts inside `f` in `f + sep`.
   */
  ghost predicate SepFree(f: string, sep: string) {
    NoOccurrence(f + sep, sep, 0, |f|)
  }

  /** `s.indexOf(sep, from)`: the first occurrence of `sep` at or after `from`. */
  function IndexOf(s: string, sep: string, from: nat): (r: Option<nat>)
    requires |sep| > 0 && from <= |s|
    decreases |s| - from
    ensures r.None? ==> NoOccurrence(s, sep, from, |s|)
    ensures r.Some? ==> from <= r.value && StartsWithAt(s, r.value, sep)
                        && NoOccurrence(s, sep, from, r.value)
  {
    if from + |sep| > |s| then None
    else if s[from..from + |sep|] == sep then Some(from)
    else IndexOf(s, sep, from + 1)
  }

  /** The first occurrence is the one `IndexOf` reports. */
  lemma IndexOfFinds(s: string, sep: string, from: nat, k: nat)
    requires |sep| > 0 && from <= k
    requires StartsWithAt(s, k, sep) && NoOccurrence(s, sep, from, k)
    ensures IndexOf(s, sep, from) == Some(k)
  {
  }

  /** An occurrence inside a prefix is an occurrence in the whole string. */
  lemma OccurrenceInPrefix(s: string, n: nat, sep: string, k: nat)
    requires n <= |s| && StartsWithAt(s[..n], k, sep)
    ensures StartsWithAt(s, k, sep)
  {
    assert s[..n][k..k + |sep|] == s[k..k + |sep|];
  }

  /**
   * `s.split(sep)` for a non-empty separator: the pieces between successive
   * leftmost non-overlapping occurrences of `sep`.
   */
  function Split(s: string, sep: string): (fields: seq<string>)
    requires |sep| > 0
    decreases |s|
    ensures |fields| >= 1
  {
    match IndexOf(s, sep, 0)
    case None => [s]
    case Some(k) => [s[..k]] + Split(s[k + |sep|..], sep)
  }

  /** No field of a split contains the separator. */
  lemma {:induction false} SplitFieldsLackSeparator(s: string, sep: string)
    requires |sep| > 0
    ensures forall f <- Split(s, sep) :: NoOccurrence(f, sep, 0, |f|)
    decreases |s|
  {
    var r := IndexOf(s, sep, 0);
    if r.Some? {
      var k := r.value;
      var head := s[..k];
      var rest := s[k + |sep|..];
      var tail := Split(rest, sep);
      SplitFieldsLackSeparator(rest, sep);
      HeadLacksSeparator(s, sep, k);
      assert Split(s, sep) == [head] + tail;
    }
  }

  /** The text before the first occurrence of `sep` contains none. */
  lemma HeadLacksSeparator(s: string, sep: string, k: nat)
    requires |sep| > 0 && IndexOf(s, sep, 0) == Some(k)
    ensures NoOccurrence(s[..k], sep, 0, k)
  {
    forall j | 0 <= j < k
      ensures !StartsWithAt(s[..k], j, sep)
    {
      if StartsWithAt(s[..k], j, sep) {
        OccurrenceInPrefix(s, k, sep, j);
      }
    }
  }

  /** `fields.join(sep)`. */
  function Join(fields: seq<string>, sep: string): string {
    if |fields| == 0 then ""
    else if |fields| == 1 then fields[0]
    else fields[0] + sep + Join(fields[1..], sep)
  }

  /** Joining the pieces of a split with its separator gives back the string. */
  lemma {:induction false} JoinSplit(s: string, sep: string)
    requires |sep| > 0
    ensures Join(Split(s, sep), sep) == s
    decreases |s|
  {
    var r := IndexOf(s, sep, 0);
    if r.Some? {
      var k := r.value;
      var rest := s[k + |sep|..];
      var tail := Split(rest, sep);
      JoinSplit(rest, sep);
      assert Split(s, sep) == [s[..k]] + tail;
      JoinCons(s[..k], tail, sep);
      CutAround(s, k, sep);
    }
  }

  /** Joining a non-empty tail after one more field puts a separator between them. */
  lemma JoinCons(field: string, tail: seq<string>, sep: string)
    requires |tail| >= 1
    ensures Join([field] + tail, sep) == field + sep + Join(tail, sep)
  {
    assert ([field] + tail)[1..] == tail;
  }

  /** A string is the text before an occurrence, the occurrence and the text after it. */
  lemma CutAround(s: string, k: nat, sep: string)
    requires StartsWithAt(s, k, sep)
    ensures s == s[..k] + sep + s[k + |sep|..]
  {
    assert s == s[..k] + s[k..k + |sep|] + s[k + |sep|..];
  }

  /** A string with no occurrence of `sep` splits into itself. */
  lemma SplitWhole(s: string, sep: string)
    requires |sep| > 0 && NoOccurrence(s, sep, 0, |s|)
    ensures Split(s, sep) == [s]
  {
  }

  /** The first field of `a + sep + b` is `a` when `sep` cannot be found earlier. */
  lemma SplitCons(a: string, sep: string, b: string)
    requires |sep| > 0 && SepFree(a, sep)
    ensures Split(a + sep + b, sep) == [a] + Split(b, sep)
  {
    var s := a + sep + b;
    assert s == (a + sep) + b;
    forall j | 0 <= j < |a|
      ensures !StartsWithAt(s, j, sep)
    {
      if StartsWithAt(s, j, sep) {
        assert s[j..j + |sep|] == (a + sep)[j..j + |sep|];
        assert StartsWithAt(a + sep, j, sep);
        assert false;
      }
    }
    assert s[|a|..|a| + |sep|] == sep;
    IndexOfFinds(s, sep, 0, |a|);
    assert s[..|a|] == a;
    assert s[|a| + |sep|..] == b;
  }

  /** A field that is `SepFree` has no occurrence of `sep` in itself. */
  lemma SepFreeHasNoOccurrence(f: string, sep: string)
    requires |sep| > 0 && SepFree(f, sep)
    ensures NoOccurrence(f, sep, 0, |f|)
  {
    forall j | 0 <= j < |f| && StartsWithAt(f, j, sep)
      ensures false
    {
      assert (f + sep)[j..j + |sep|] == f[j..j + |sep|];
      assert StartsWithAt(f + sep, j, sep);
    }
  }

  /** Splitting a join of `SepFree` fields gives back the fields. */
  lemma {:induction false} SplitJoin(fields: seq<string>, sep: string)
    requires |sep| > 0 && |fields| >= 1
    requires forall i :: 0 <= i < |fields| ==> SepFree(fields[i], sep)
    ensures Split(Join(fields, sep), sep) == fields
    decreases |fields|
  {
    if |fields| == 1 {
      SepFreeHasNoOccurrence(fields[0], sep);
      SplitWhole(fields[0], sep);
    } else {
      var rest := fields[1..];
      var tail := Join(rest, sep);
      assert forall i :: 0 <= i < |rest| ==> rest[i] == fields[i + 1];
      SplitJoin(rest, sep);
      SplitCons(fields[0], sep, tail);
      assert Join(fields, sep) == fields[0] + sep + tail;
      assert fields == [fields[0]] + rest;
    }
  }

  /** A string without the character `c` is `SepFree` for the separator `[c]`. */
  lemma SepFreeSingleChar(f: string, c: char)
    requires c !in f
    ensures SepFree(f, [c])
  {
    forall j | 0 <= j < |f|
      ensures !StartsWithAt(f + [c], j, [c])
    {
      assert (f + [c])[j] == f[j];
    }
  }

  /** A string without the first character of `sep` has no occurrence of `sep`. */
  lemma NoOccurrenceWithoutHead(s: string, sep: string)
    requires |sep| > 0 && sep[0] !in s
    ensures NoOccurrence(s, sep, 0, |s|)
  {
    forall j | 0 <= j < |s|
      ensures !StartsWithAt(s, j, sep)
    {
      if j + |sep| <= |s| {
        assert s[j..j + |sep|][0] == s[j];
      }
    }
  }

  // ---------------------------------------------------------------------
  // Decimal strings: Number.prototype.toString() on integral values.
  // ---------------------------------------------------------------------

  /** The regular-expression class `\d`: an ASCII digit. */
  predicate IsDigit(c: char) {
    '0' <= c <= '9'
  }

  function DigitChar(d: nat): (c: char)
    requires d < 10
    ensures IsDigit(c) && DigitValue(c) == d
  {
    ('0' as int + d) as char
  }

  function DigitValue(c: char): nat
    requires IsDigit(c)
  {
    c as int - '0' as int
  }

  /** The shortest decimal digit string of a natural number. */
  function NatToDecimal(n: nat): (s: string)
    ensures |s| >= 1 && forall c <- s :: IsDigit(c)
    ensures s[0] == '0' ==> n == 0
  {
    if n < 10 then [DigitChar(n)] else NatToDecimal(n / 10) + [DigitChar(n % 10)]
  }

  /** The value of a string of decimal digits. */
  function DigitsValue(s: string): nat
    requires forall c <- s :: IsDigit(c)
  {
    if s == [] then 0 else DigitsValue(s[..|s| - 1]) * 10 + DigitValue(s[|s| - 1])
  }

  /** `toString()` of an integral number: an optional minus sign, then digits. */
  function IntToDecimal(n: int): (s: string)
    ensures |s| >= 1 && (IsDigit(s[0]) || s[0] == '-')
    ensures |s| >= 2 ==> s[0] != '0' && (s[0] == '-' ==> s[1] != '0')
  {
    if n < 0 then "-" + NatToDecimal(-n) else NatToDecimal(n)
  }

  /** Reads back a string produced by `IntToDecimal`; `None` for anything else. */
  function ParseDecimal(s: string): Option<int> {
    if |s| >= 2 && s[0] == '-' && (forall c <- s[1..] :: IsDigit(c)) then
      var magnitude: int := DigitsValue(s[1..]);
      Some(-magnitude)
    else if |s| >= 1 && forall c <- s :: IsDigit(c) then
      Some(DigitsValue(s))
    else
      None
  }

  lemma {:induction false} NatToDecimalValue(n: nat)
    ensures DigitsValue(NatToDecimal(n)) == n
  {
    if n >= 10 {
      NatToDecimalValue(n / 10);
      var s := NatToDecimal(n);
      assert s[..|s| - 1] == NatToDecimal(n / 10);
    }
  }

  /** Decimal round trip: the string `toString()` gives reads back as the number. */
  lemma DecimalRoundTrip(n: int)
    ensures ParseDecimal(IntToDecimal(n)) == Some(n)
  {
    if n < 0 {
      NatToDecimalValue(-n);
      assert IntToDecimal(n)[1..] == NatToDecimal(-n);
    } else {
      NatToDecimalValue(n);
      var s := NatToDecimal(n);
      assert IsDigit(s[0]);
    }
  }

  /** Distinct numbers have distinct decimal strings; only 0 prints as "0". */
  lemma DecimalInjective(m: int, n: int)
    ensures IntToDecimal(m) == IntToDecimal(n) <==> m == n
    ensures IntToDecimal(n) == "0" <==> n == 0
  {
    DecimalRoundTrip(m);
    DecimalRoundTrip(n);
    DecimalRoundTrip(0);
    assert IntToDecimal(0) == "0";
  }

  // ---------------------------------------------------------------------
  // The regular-expression class `\s`.
  // ---------------------------------------------------------------------

  /**
   * `\s` in an ECMAScript regular expression: the WhiteSpace code points
   * (tab, vertical tab, form feed, space, no-break space, the byte order mark
   * and the Unicode Zs category) and the LineTerminator code points.
   */
  predicate IsJsWhitespace(c: char)
    ensures IsJsWhitespace(c) ==> !IsDigit(c) && c != '-' && c != '@'
  {
    || c == '\t' || c == '\n' || c == '\U{B}' || c == '\U{C}' || c == '\r'
    || c == ' ' || c == '\U{A0}' || c == '\U{1680}'
    || ('\U{2000}' <= c <= '\U{200A}')
    || c == '\U{2028}' || c == '\U{2029}' || c == '\U{202F}' || c == '\U{205F}'
    || c == '\U{3000}' || c == '\U{FEFF}'
  }
}
