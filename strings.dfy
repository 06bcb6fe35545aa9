/**
 * The JavaScript string primitives the player relies on: `String.prototype.split`
 * with a one-character separator, and the decimal rendering of a non-negative
 * integer (`'' + n`).
 */
module Strings {

  /** Puts `sep` between consecutive parts; the inverse of `Split`. */
  function Join(parts: seq<string>, sep: char): string
    requires |parts| >= 1
  {
    if |parts| == 1 then parts[0] else parts[0] + [sep] + Join(parts[1..], sep)
  }

  /**
   * Scans `s` with `part` the characters seen since the last separator: a
   * separator closes the part, the end of the string closes the last one.
   */
  function SplitFrom(s: string, sep: char, part: string): (parts: seq<string>)
    ensures |parts| >= 1
    decreases |s|
  {
    if s == [] then [part]
    else if s[0] == sep then [part] + SplitFrom(s[1..], sep, "")
    else SplitFrom(s[1..], sep, part + [s[0]])
  }

  /**
   * `s.split(sep)`: the maximal runs of characters between separators, so that
   * a string without `sep` splits into itself alone and "" splits into [""].
   */
  function Split(s: string, sep: char): (parts: seq<string>)
    ensures |parts| >= 1
  {
    SplitFrom(s, sep, "")
  }

  /** No part holds the separator, and joining the parts gives back what was scanned. */
  lemma {:induction false} JoinSplitFrom(s: string, sep: char, part: string)
    requires sep !in part
    ensures var parts := SplitFrom(s, sep, part);
      (forall i :: 0 <= i < |parts| ==> sep !in parts[i]) && Join(parts, sep) == part + s
    decreases |s|
  {
    if s != [] {
      if s[0] == sep {
        JoinSplitFrom(s[1..], sep, "");
        var rest := SplitFrom(s[1..], sep, "");
        assert ([part] + rest)[1..] == rest;
        assert part + s == part + [sep] + ("" + s[1..]);
      } else {
        JoinSplitFrom(s[1..], sep, part + [s[0]]);
        assert part + s == (part + [s[0]]) + s[1..];
      }
    }
  }

  /** No part holds the separator, and joining the parts gives back the string. */
  lemma JoinSplit(s: string, sep: char)
    ensures forall i :: 0 <= i < |Split(s, sep)| ==> sep !in Split(s, sep)[i]
    ensures Join(Split(s, sep), sep) == s
  {
    JoinSplitFrom(s, sep, "");
    assert "" + s == s;
  }

  /** Without separators the scan only extends the open part. */
  lemma {:induction false} SplitFromWithoutSeparator(w: string, sep: char, part: string)
    requires sep !in w
    ensures SplitFrom(w, sep, part) == [part + w]
    decreases |w|
  {
    if w == [] {
      assert part + w == part;
    } else {
      SplitFromWithoutSeparator(w[1..], sep, part + [w[0]]);
      assert (part + [w[0]]) + w[1..] == part + w;
    }
  }

  /** A string without the separator splits into itself alone. */
  lemma SplitWithoutSeparator(w: string, sep: char)
    requires sep !in w
    ensures Split(w, sep) == [w]
  {
    SplitFromWithoutSeparator(w, sep, "");
    assert "" + w == w;
  }

  /** A separator closes the open part, and the rest is scanned afresh. */
  lemma {:induction false} SplitFromAppend(x: string, sep: char, y: string, part: string)
    ensures SplitFrom(x + [sep] + y, sep, part) == SplitFrom(x, sep, part) + SplitFrom(y, sep, "")
    decreases |x|
  {
    var s := x + [sep] + y;
    if x == [] {
      assert s[0] == sep && s[1..] == y;
    } else {
      assert s[0] == x[0] && s[1..] == x[1..] + [sep] + y;
      if x[0] == sep {
        SplitFromAppend(x[1..], sep, y, "");
      } else {
        SplitFromAppend(x[1..], sep, y, part + [x[0]]);
      }
    }
  }

  /** Splitting distributes over one occurrence of the separator. */
  lemma SplitAppend(x: string, sep: char, y: string)
    ensures Split(x + [sep] + y, sep) == Split(x, sep) + Split(y, sep)
  {
    SplitFromAppend(x, sep, y, "");
  }

  /** `Split` undoes `Join` whenever no part contains the separator. */
  lemma {:induction false} SplitJoin(parts: seq<string>, sep: char)
    requires |parts| >= 1
    requires forall i :: 0 <= i < |parts| ==> sep !in parts[i]
    ensures Split(Join(parts, sep), sep) == parts
    decreases |parts|
  {
    if |parts| == 1 {
      SplitWithoutSeparator(parts[0], sep);
    } else {
      SplitAppend(parts[0], sep, Join(parts[1..], sep));
      SplitWithoutSeparator(parts[0], sep);
      SplitJoin(parts[1..], sep);
    }
  }

  /** The last piece `split` produces: everything after the last separator. */
  function LastSegment(s: string, sep: char): string
  {
    var parts := Split(s, sep);
    parts[|parts| - 1]
  }

  /**
   * The joined string ends with the last part, which is either the whole
   * string or preceded by a separator.
   */
  lemma {:induction false} JoinEndsWithLast(parts: seq<string>, sep: char)
    requires |parts| >= 1
    ensures var s, e := Join(parts, sep), parts[|parts| - 1];
      s == e || (|e| < |s| && s[|s| - |e| - 1..] == [sep] + e)
    decreases |parts|
  {
    if |parts| > 1 {
      JoinEndsWithLast(parts[1..], sep);
      var t := Join(parts[1..], sep);
      var e := parts[|parts| - 1];
      assert parts[1..][|parts| - 2] == e;
      var s := parts[0] + [sep] + t;
      assert s[|s| - |t|..] == t;
      if t == e {
        assert s[|s| - |e| - 1..] == [sep] + e;
      } else {
        assert s[|s| - |e| - 1..] == t[|t| - |e| - 1..];
      }
    }
  }

  /**
   * The last segment is characterised without `split`: it holds no separator,
   * and the string either is that segment or ends with a separator and it.
   */
  lemma LastSegmentIsSuffix(s: string, sep: char)
    ensures var e := LastSegment(s, sep);
      sep !in e && (s == e || (|e| < |s| && s[|s| - |e| - 1..] == [sep] + e))
  {
    JoinSplit(s, sep);
    JoinEndsWithLast(Split(s, sep), sep);
  }

  /** A segment without separators that ends the string after a separator is the last one. */
  lemma LastSegmentAfterSeparator(x: string, sep: char, e: string)
    requires sep !in e
    ensures LastSegment(x + [sep] + e, sep) == e
  {
    SplitAppend(x, sep, e);
    SplitWithoutSeparator(e, sep);
  }

  predicate IsDigit(c: char)
  {
    '0' <= c <= '9'
  }

  predicate AllDigits(d: string)
  {
    forall i :: 0 <= i < |d| ==> IsDigit(d[i])
  }

  function DigitChar(k: nat): (c: char)
    requires k < 10
    ensures IsDigit(c)
  {
    (48 + k) as char
  }

  /** The decimal rendering of a non-negative integer, as JavaScript prints it. */
  function Digits(n: nat): (d: string)
    ensures |d| >= 1 && IsDigit(d[0])
    ensures |d| > 1 ==> d[0] != '0'
    ensures n < 10 <==> |d| == 1
    decreases n
  {
    if n < 10 then [DigitChar(n)] else Digits(n / 10) + [DigitChar(n % 10)]
  }

  /** Every character of a rendering is a decimal digit. */
  lemma {:induction false} DigitsAreDigits(n: nat)
    ensures AllDigits(Digits(n))
    decreases n
  {
    if n >= 10 {
      DigitsAreDigits(n / 10);
    }
  }

  /**
   * The value of a string read as decimal digits, the most significant first;
   * the reference reading of `Digits`. Only meaningful when `AllDigits(d)`.
   */
  function ParseDecimal(d: string): int
    decreases |d|
  {
    if d == [] then 0
    else 10 * ParseDecimal(d[..|d| - 1]) + (d[|d| - 1] as int - 48)
  }

  /** `Digits` renders exactly the number it was given. */
  lemma {:induction false} ParseDigits(n: nat)
    ensures ParseDecimal(Digits(n)) == n
    decreases n
  {
    if n >= 10 {
      var d := Digits(n);
      assert d[..|d| - 1] == Digits(n / 10);
      ParseDigits(n / 10);
    }
  }

  /** Two different numbers never share a rendering. */
  lemma DigitsInjective(m: nat, n: nat)
    requires Digits(m) == Digits(n)
    ensures m == n
  {
    ParseDigits(m);
    ParseDigits(n);
  }
}
