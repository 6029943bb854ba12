/** The pieces of `java.lang` and `java.util` that `MatrixUtils.toString`
    relies on: `String.valueOf(int)` and `StringJoiner`. */
module Text {

  predicate IsDigit(c: char) {
    '0' <= c <= '9'
  }

  /** Occurrences of `c` in `s`. */
  function CountChar(c: char, s: string): nat {
    if s == [] then 0
    else CountChar(c, s[..|s| - 1]) + (if s[|s| - 1] == c then 1 else 0)
  }

  lemma {:induction false} CountCharAppend(c: char, s: string, t: string)
    ensures CountChar(c, s + t) == CountChar(c, s) + CountChar(c, t)
    decreases |t|
  {
    if t == [] {
      assert s + t == s;
    } else {
      assert (s + t)[..|s + t| - 1] == s + t[..|t| - 1];
      CountCharAppend(c, s, t[..|t| - 1]);
    }
  }

  // ---------------------------------------------------------------- valueOf

  function DigitChar(d: int): (c: char)
    requires 0 <= d < 10
    ensures IsDigit(c) && (c as int) - ('0' as int) == d
  {
    "0123456789"[d]
  }

  /** Decimal digits of `n`, most significant first, no leading zeros. */
  function NaturalDigits(n: nat): (s: string)
    ensures |s| >= 1 && forall k :: 0 <= k < |s| ==> IsDigit(s[k])
    ensures |s| > 1 ==> s[0] != '0'
    decreases n
  {
    if n < 10 then [DigitChar(n)] else NaturalDigits(n / 10) + [DigitChar(n % 10)]
  }

  /** `String.valueOf(n)`: an optional minus sign, then the digits of |n|. */
  function DecimalString(n: int): (s: string)
    ensures |s| >= 1
    ensures s[0] == '-' <==> n < 0
    ensures forall k :: (if n < 0 then 1 else 0) <= k < |s| ==> IsDigit(s[k])
  {
    if n < 0 then "-" + NaturalDigits(-n) else NaturalDigits(n)
  }

  /** The value a string of decimal digits denotes. */
  function ParseNatural(s: string): int
    requires forall k :: 0 <= k < |s| ==> IsDigit(s[k])
  {
    if s == [] then 0
    else ParseNatural(s[..|s| - 1]) * 10 + ((s[|s| - 1] as int) - ('0' as int))
  }

  /** The inverse of `DecimalString`. */
  function ParseDecimal(s: string): int
    requires |s| >= 1
    requires forall k :: (if s[0] == '-' then 1 else 0) <= k < |s| ==> IsDigit(s[k])
  {
    if s[0] == '-' then -ParseNatural(s[1..]) else ParseNatural(s)
  }

  lemma {:induction false} NaturalDigitsRoundTrip(n: nat)
    ensures ParseNatural(NaturalDigits(n)) == n
    decreases n
  {
    if n >= 10 {
      var s := NaturalDigits(n);
      assert s[..|s| - 1] == NaturalDigits(n / 10);
      NaturalDigitsRoundTrip(n / 10);
    }
  }

  /** Rendering an `int` in decimal loses nothing. */
  lemma DecimalRoundTrip(n: int)
    ensures ParseDecimal(DecimalString(n)) == n
  {
    var s := DecimalString(n);
    if n < 0 {
      var d := NaturalDigits(-n);
      assert s == "-" + d && s[0] == '-';
      assert s[1..] == d;
      NaturalDigitsRoundTrip(-n);
    } else {
      var d := NaturalDigits(n);
      assert s == d && IsDigit(s[0]);
      NaturalDigitsRoundTrip(n);
    }
  }

  // ---------------------------------------------------------- StringJoiner

  /** `parts` separated by `delimiter`; no parts give the empty string. */
  function Join(parts: seq<string>, delimiter: string): string {
    if |parts| == 0 then ""
    else if |parts| == 1 then parts[0]
    else Join(parts[..|parts| - 1], delimiter) + delimiter + parts[|parts| - 1]
  }

  /** A `java.util.StringJoiner` without prefix and suffix: `Add` appends a
      part, `ToString` yields the parts joined by the delimiter. */
  class StringJoiner {
    const delimiter: string
    var value: string
    var empty: bool
    ghost var Parts: seq<string>

    ghost predicate Valid()
      reads this
    {
      (empty <==> Parts == []) && value == Join(Parts, delimiter)
    }

    constructor (delimiter: string)
      ensures Valid() && Parts == [] && this.delimiter == delimiter
    {
      this.delimiter := delimiter;
      value := "";
      empty := true;
      Parts := [];
    }

    method Add(part: string)
      requires Valid()
      modifies this
      ensures Valid() && Parts == old(Parts) + [part]
    {
      if empty {
        value := part;
      } else {
        value := value + delimiter + part;
      }
      empty := false;
      Parts := Parts + [part];
      assert Parts[..|Parts| - 1] == old(Parts);
    }

    function ToString(): (s: string)
      reads this
      requires Valid()
      ensures s == Join(Parts, delimiter)
    {
      value
    }
  }

  // ------------------------------------------------------- reading it back

  /** `s` cut at every `c`: the pieces between separators, always at least
      one. */
  function Split(s: string, c: char): (pieces: seq<string>)
    ensures |pieces| >= 1
  {
    if s == [] then [""]
    else if s[|s| - 1] == c then Split(s[..|s| - 1], c) + [""]
    else
      var p := Split(s[..|s| - 1], c);
      p[..|p| - 1] + [p[|p| - 1] + [s[|s| - 1]]]
  }

  lemma {:induction false} SplitPlain(s: string, c: char)
    requires c !in s
    ensures Split(s, c) == [s]
  {
    if s != [] {
      SplitPlain(s[..|s| - 1], c);
      assert s[..|s| - 1] + [s[|s| - 1]] == s;
    }
  }

  lemma {:induction false} SplitAfterSeparator(x: string, c: char, y: string)
    requires c !in y
    ensures Split(x + [c] + y, c) == Split(x, c) + [y]
    decreases |y|
  {
    if y == [] {
      assert x + [c] + y == x + [c];
      assert (x + [c])[..|x|] == x;
    } else {
      var y' := y[..|y| - 1];
      SplitAfterSeparator(x, c, y');
      assert (x + [c] + y)[..|x + [c] + y| - 1] == x + [c] + y';
      assert y' + [y[|y| - 1]] == y;
    }
  }

  /** Splitting at a one-character delimiter that no part contains recovers
      the parts. */
  lemma {:induction false} SplitJoin(parts: seq<string>, c: char)
    requires |parts| >= 1
    requires forall k :: 0 <= k < |parts| ==> c !in parts[k]
    ensures Split(Join(parts, [c]), c) == parts
    decreases |parts|
  {
    if |parts| == 1 {
      SplitPlain(parts[0], c);
    } else {
      var init := parts[..|parts| - 1];
      SplitJoin(init, c);
      SplitAfterSeparator(Join(init, [c]), c, parts[|parts| - 1]);
      assert init + [parts[|parts| - 1]] == parts;
    }
  }

  /** A join of `n` parts holds `n - 1` delimiters on top of what the parts
      hold. */
  lemma {:induction false} CountJoin(parts: seq<string>, delimiter: string, c: char)
    requires |parts| >= 1
    requires forall k :: 0 <= k < |parts| ==> c !in parts[k]
    ensures CountChar(c, Join(parts, delimiter)) == (|parts| - 1) * CountChar(c, delimiter)
    decreases |parts|
  {
    if |parts| == 1 {
      CountAbsent(c, parts[0]);
    } else {
      var init := parts[..|parts| - 1];
      var last := parts[|parts| - 1];
      CountJoin(init, delimiter, c);
      CountCharAppend(c, Join(init, delimiter) + delimiter, last);
      CountCharAppend(c, Join(init, delimiter), delimiter);
      CountAbsent(c, last);
    }
  }

  lemma {:induction false} CountAbsent(c: char, s: string)
    requires c !in s
    ensures CountChar(c, s) == 0
  {
    if s != [] {
      assert c !in s[..|s| - 1];
      CountAbsent(c, s[..|s| - 1]);
    }
  }

  lemma {:induction false} CountPresent(c: char, s: string)
    requires c in s
    ensures CountChar(c, s) >= 1
  {
    if s[|s| - 1] != c {
      assert c in s[..|s| - 1];
      CountPresent(c, s[..|s| - 1]);
    }
  }

  /** A decimal rendering contains neither delimiter `toString` uses. */
  lemma DecimalHasNoSeparator(n: int)
    ensures '\n' !in DecimalString(n) && ',' !in DecimalString(n) && ' ' !in DecimalString(n)
  {
    var s := DecimalString(n);
    forall k | 0 <= k < |s|
      ensures s[k] != '\n' && s[k] != ',' && s[k] != ' '
    {
      if k == 0 && n < 0 {
        assert s[k] == '-';
      } else {
        assert IsDigit(s[k]);
      }
    }
  }
}
