/** The behaviour of the ECMAScript built-ins that the peer code relies on:
    String.prototype.split with a one-character separator, Array.prototype.join,
    String.prototype.trim, Array.prototype.filter and the global parseInt with
    radix 10. Strings are sequences of characters; every character the code
    splits on is ASCII, so UTF-16 code units and Unicode scalar values agree. */
module JsBuiltins {
  import opened Wrappers

  /** Number of occurrences of `c` in `s`. */
  function Count(s: string, c: char): (n: nat)
    ensures n <= |s|
    ensures n == 0 <==> c !in s
  {
    if s == [] then 0
    else (if s[0] == c then 1 else 0) + Count(s[1..], c)
  }

  /** `s.split(sep)`: cut at every occurrence of `sep`, keeping empty fields;
      the empty string gives `[""]`. */
  function Split(s: string, sep: char): (r: seq<string>)
    ensures |r| == 1 + Count(s, sep)
    ensures forall i :: 0 <= i < |r| ==> sep !in r[i]
  {
    if s == [] then [""]
    else
      var rest := Split(s[1..], sep);
      if s[0] == sep then [""] + rest
      else [[s[0]] + rest[0]] + rest[1..]
  }

  /** `parts.join(sep)`; an empty array joins to the empty string. */
  function Join(parts: seq<string>, sep: string): string
  {
    if |parts| == 0 then ""
    else if |parts| == 1 then parts[0]
    else parts[0] + sep + Join(parts[1..], sep)
  }

  /** `s` with every occurrence of `from` replaced by the string `to`. */
  function Replace(s: string, from: char, to: string): (r: string)
    ensures |to| == 1 ==> |r| == |s|
    ensures |to| == 1 ==> forall i :: 0 <= i < |s| ==> r[i] == if s[i] == from then to[0] else s[i]
  {
    if s == [] then ""
    else (if s[0] == from then to else [s[0]]) + Replace(s[1..], from, to)
  }

  /** The text of `s` before its first `c`, or all of `s` if it has none. */
  function TakeUntil(s: string, c: char): (r: string)
    ensures r <= s
    ensures c !in r
    ensures |r| < |s| <==> c in s
    ensures |r| < |s| ==> s[|r|] == c
  {
    if s == [] || s[0] == c then ""
    else [s[0]] + TakeUntil(s[1..], c)
  }

  lemma JoinCons(x: char, first: string, tail: seq<string>, sep: string)
    ensures Join([[x] + first] + tail, sep) == [x] + Join([first] + tail, sep)
  {
    if |tail| > 0 {
      assert ([[x] + first] + tail)[1..] == tail;
      assert ([first] + tail)[1..] == tail;
    }
  }

  lemma JoinField(x: char, rest: seq<string>, sep: string, r: string)
    requires |rest| > 0 && Join(rest, sep) == r
    ensures Join([[x] + rest[0]] + rest[1..], sep) == [x] + r
  {
    assert rest == [rest[0]] + rest[1..];
    JoinCons(x, rest[0], rest[1..], sep);
  }

  /** Splitting at `sep` and joining with `to` replaces every `sep` by `to`. */
  lemma {:induction false} JoinOfSplit(s: string, sep: char, to: string)
    ensures Join(Split(s, sep), to) == Replace(s, sep, to)
  {
    if s != [] {
      var rest := Split(s[1..], sep);
      JoinOfSplit(s[1..], sep, to);
      if s[0] == sep {
        assert ([""] + rest)[1..] == rest;
      } else {
        JoinField(s[0], rest, to, Replace(s[1..], sep, to));
      }
    }
  }

  lemma {:induction false} ReplaceIdentity(s: string, c: char)
    ensures Replace(s, c, [c]) == s
  {
    if s != [] {
      ReplaceIdentity(s[1..], c);
    }
  }

  /** Round trip one way: joining the fields of a split restores the text. */
  lemma JoinSplit(s: string, sep: char)
    ensures Join(Split(s, sep), [sep]) == s
  {
    JoinOfSplit(s, sep, [sep]);
    ReplaceIdentity(s, sep);
  }

  lemma {:induction false} SplitWithout(s: string, sep: char)
    requires sep !in s
    ensures Split(s, sep) == [s]
  {
    if s != [] {
      SplitWithout(s[1..], sep);
      assert [s[0]] + s[1..] == s;
    }
  }

  /** A field free of `sep` followed by `sep` comes off the front as one field. */
  lemma {:induction false} SplitAfterField(x: string, sep: char, y: string)
    requires sep !in x
    ensures Split(x + [sep] + y, sep) == [x] + Split(y, sep)
  {
    if x == [] {
      assert x + [sep] + y == [sep] + y;
      assert ([sep] + y)[1..] == y;
    } else {
      assert (x + [sep] + y)[1..] == x[1..] + [sep] + y;
      SplitAfterField(x[1..], sep, y);
      assert [x[0]] + x[1..] == x;
    }
  }

  /** A trailing separator adds one empty field at the end. */
  lemma {:induction false} SplitTrailing(s: string, sep: char)
    ensures Split(s + [sep], sep) == Split(s, sep) + [""]
  {
    if s == [] {
      assert [sep][1..] == [];
    } else {
      assert (s + [sep])[1..] == s[1..] + [sep];
      SplitTrailing(s[1..], sep);
    }
  }

  /** Round trip the other way: fields free of `sep` are recovered by splitting
      their join. */
  lemma {:induction false} SplitJoin(parts: seq<string>, sep: char)
    requires |parts| > 0
    requires forall i :: 0 <= i < |parts| ==> sep !in parts[i]
    ensures Split(Join(parts, [sep]), sep) == parts
  {
    if |parts| == 1 {
      SplitWithout(parts[0], sep);
    } else {
      SplitJoin(parts[1..], sep);
      SplitAfterField(parts[0], sep, Join(parts[1..], [sep]));
    }
  }

  /** The first field of a split is the text before the first separator. */
  lemma {:induction false} SplitHead(s: string, sep: char)
    ensures Split(s, sep)[0] == TakeUntil(s, sep)
  {
    if s != [] {
      SplitHead(s[1..], sep);
    }
  }

  /** Characters that String.prototype.trim and parseInt skip: WhiteSpace
      (tab, vertical tab, form feed, byte order mark and every space separator
      of Unicode category Zs) and LineTerminator (LF, CR, U+2028, U+2029). */
  const WhiteSpace: set<char> := {'\t', '\n', '\U{000B}', '\U{000C}', '\r', ' ', '\U{00A0}', '\U{1680}',
    '\U{2000}', '\U{2001}', '\U{2002}', '\U{2003}', '\U{2004}', '\U{2005}', '\U{2006}', '\U{2007}', '\U{2008}', '\U{2009}', '\U{200A}',
    '\U{2028}', '\U{2029}', '\U{202F}', '\U{205F}', '\U{3000}', '\U{FEFF}'}
  predicate IsWhiteSpace(c: char)
  {
    c in WhiteSpace
  }

  /** `s` without its leading white space. */
  function TrimStart(s: string): (r: string)
    ensures |r| <= |s| && r == s[|s| - |r|..]
    ensures r == [] || !IsWhiteSpace(r[0])
  {
    if s != [] && IsWhiteSpace(s[0]) then TrimStart(s[1..]) else s
  }

  /** What TrimStart removes is white space. */
  lemma {:induction false} TrimStartRemovesWhiteSpace(s: string)
    ensures forall i :: 0 <= i < |s| - |TrimStart(s)| ==> IsWhiteSpace(s[i])
  {
    if s != [] && IsWhiteSpace(s[0]) {
      TrimStartRemovesWhiteSpace(s[1..]);
      assert forall i :: 1 <= i < |s| - |TrimStart(s)| ==> s[i] == s[1..][i - 1];
    }
  }

  /** `s` without its trailing white space. */
  function TrimEnd(s: string): (r: string)
    ensures r <= s
    ensures r == [] || !IsWhiteSpace(r[|r| - 1])
  {
    if s != [] && IsWhiteSpace(s[|s| - 1]) then TrimEnd(s[..|s| - 1]) else s
  }

  /** What TrimEnd removes is white space. */
  lemma {:induction false} TrimEndRemovesWhiteSpace(s: string)
    ensures forall i :: |TrimEnd(s)| <= i < |s| ==> IsWhiteSpace(s[i])
  {
    if s != [] && IsWhiteSpace(s[|s| - 1]) {
      TrimEndRemovesWhiteSpace(s[..|s| - 1]);
    }
  }

  /** `s.trim()`: neither end of the result is white space. */
  function Trim(s: string): (r: string)
    ensures r == [] || (!IsWhiteSpace(r[0]) && !IsWhiteSpace(r[|r| - 1]))
  {
    TrimEnd(TrimStart(s))
  }

  /** A string trims to nothing exactly when all of it is white space. */
  lemma TrimEmpty(s: string)
    ensures Trim(s) == "" <==> forall i :: 0 <= i < |s| ==> IsWhiteSpace(s[i])
  {
    var t := TrimStart(s);
    TrimStartRemovesWhiteSpace(s);
    TrimEndRemovesWhiteSpace(t);
  }

  predicate IsDigit(c: char)
  {
    '0' as int <= c as int <= '9' as int
  }

  lemma DigitIsNotWhiteSpace(c: char)
    requires IsDigit(c)
    ensures !IsWhiteSpace(c)
  {
  }

  /** The longest prefix of `s` made of decimal digits. */
  function DigitPrefix(s: string): (r: string)
    ensures r <= s
    ensures forall i :: 0 <= i < |r| ==> IsDigit(r[i])
    ensures |r| == |s| || !IsDigit(s[|r|])
  {
    if s != [] && IsDigit(s[0]) then [s[0]] + DigitPrefix(s[1..]) else ""
  }

  /** The number written by a string of decimal digits. */
  function DigitsValue(d: string): nat
    requires forall i :: 0 <= i < |d| ==> IsDigit(d[i])
  {
    if d == [] then 0
    else
      assert IsDigit(d[|d| - 1]);
      DigitsValue(d[..|d| - 1]) * 10 + (d[|d| - 1] as int - '0' as int)
  }

  /** `parseInt(s, 10)`: skip leading white space, take an optional sign, then
      the longest run of decimal digits. No digits gives NaN, here `None`.
      A negative zero compares like zero and is returned as 0. */
  function ParseInt(s: string): (r: Option<int>)
    ensures r.Some? ==> exists i :: 0 <= i < |s| && IsDigit(s[i])
  {
    var t := TrimStart(s);
    assert s[|s| - |t|..] == t;
    ParseSigned(t)
  }

  /** parseInt after the white space is skipped: an optional sign, then digits. */
  function ParseSigned(t: string): (r: Option<int>)
    ensures r.Some? ==> exists i :: 0 <= i < |t| && IsDigit(t[i])
  {
    var negative := t != [] && t[0] == '-';
    var u := if t != [] && (t[0] == '-' || t[0] == '+') then t[1..] else t;
    var digits := DigitPrefix(u);
    if digits == [] then None
    else
      assert IsDigit(t[|t| - |u|]) by {
        assert u[0] == digits[0];
      }
      var v: int := DigitsValue(digits);
      Some(if negative then -v else v)
  }

  /** `xs.filter(p)`: the elements satisfying `p`, in their original order. */
  function Filter<T>(xs: seq<T>, p: T -> bool): (r: seq<T>)
    ensures |r| <= |xs|
    ensures forall i :: 0 <= i < |r| ==> p(r[i]) && r[i] in xs
    ensures forall x :: x in xs && p(x) ==> x in r
  {
    if xs == [] then []
    else (if p(xs[0]) then [xs[0]] else []) + Filter(xs[1..], p)
  }

  /** The filter comes back empty exactly when no element satisfies `p`. */
  lemma FilterEmpty<T>(xs: seq<T>, p: T -> bool)
    ensures |Filter(xs, p)| == 0 <==> forall i :: 0 <= i < |xs| ==> !p(xs[i])
  {
    var r := Filter(xs, p);
    if |r| > 0 {
      assert p(r[0]) && r[0] in xs;
    } else {
      forall i | 0 <= i < |xs|
        ensures !p(xs[i])
      {
        assert xs[i] in xs;
      }
    }
  }

  /** When every element satisfies `p`, the filter keeps them all. */
  lemma {:induction false} FilterAll<T>(xs: seq<T>, p: T -> bool)
    requires forall i :: 0 <= i < |xs| ==> p(xs[i])
    ensures Filter(xs, p) == xs
  {
    if xs != [] {
      FilterAll(xs[1..], p);
      assert [xs[0]] + xs[1..] == xs;
    }
  }

  /** Filtering distributes over concatenation, so the order is kept. */
  lemma {:induction false} FilterAppend<T>(xs: seq<T>, ys: seq<T>, p: T -> bool)
    ensures Filter(xs + ys, p) == Filter(xs, p) + Filter(ys, p)
  {
    if xs == [] {
      assert xs + ys == ys;
    } else {
      var head := if p(xs[0]) then [xs[0]] else [];
      assert Filter(xs + ys, p) == head + Filter(xs[1..] + ys, p) by {
        assert (xs + ys)[0] == xs[0];
        assert (xs + ys)[1..] == xs[1..] + ys;
      }
      FilterAppend(xs[1..], ys, p);
      assert head + (Filter(xs[1..], p) + Filter(ys, p)) == (head + Filter(xs[1..], p)) + Filter(ys, p);
    }
  }

  /** The decimal numeral of `n`, without leading zeros. */
  function Decimal(n: nat): (r: string)
    ensures |r| > 0
    ensures forall i :: 0 <= i < |r| ==> IsDigit(r[i])
  {
    if n < 10 then [Digit(n)] else Decimal(n / 10) + [Digit(n % 10)]
  }

  function Digit(d: nat): (c: char)
    requires d < 10
    ensures IsDigit(c) && c as int - '0' as int == d
  {
    ('0' as int + d) as char
  }

  lemma {:induction false} DecimalValue(n: nat)
    ensures DigitsValue(Decimal(n)) == n
  {
    if n >= 10 {
      DecimalValue(n / 10);
      var d := Decimal(n);
      assert d[..|d| - 1] == Decimal(n / 10);
    }
  }

  /** parseInt reads a run of digits, whatever follows it once the digits
      stop: `parseInt("12x", 10)` is 12, and leading zeros are read as part
      of the number, so "01" is 1. */
  lemma ParseDigits(d: string, rest: string)
    requires d != [] && forall i :: 0 <= i < |d| ==> IsDigit(d[i])
    requires rest == [] || !IsDigit(rest[0])
    ensures ParseInt(d + rest) == Some(DigitsValue(d))
  {
    var u := d + rest;
    assert u[0] == d[0];
    DigitIsNotWhiteSpace(u[0]);
    DigitPrefixStops(d, rest);
    ParseFromSign(u);
    ParseUnsigned(u);
  }

  /** A minus sign in front of a run of digits negates the number `v` the
      digits write. */
  lemma ParseMinusDigits(d: string, rest: string, v: int)
    requires d != [] && forall i :: 0 <= i < |d| ==> IsDigit(d[i])
    requires rest == [] || !IsDigit(rest[0])
    requires v == DigitsValue(d)
    ensures ParseInt("-" + (d + rest)) == Some(0 - v)
  {
    var u := d + rest;
    DigitPrefixStops(d, rest);
    assert DigitPrefix(u) == d;
    ParseMinus(u, v);
  }

  /** A plus sign in front of a run of digits leaves the number `v` as it
      is: `parseInt("+7", 10)` is 7. */
  lemma ParsePlusDigits(d: string, rest: string, v: int)
    requires d != [] && forall i :: 0 <= i < |d| ==> IsDigit(d[i])
    requires rest == [] || !IsDigit(rest[0])
    requires v == DigitsValue(d)
    ensures ParseInt("+" + (d + rest)) == Some(v)
  {
    var u := d + rest;
    DigitPrefixStops(d, rest);
    assert DigitPrefix(u) == d;
    ParsePlus(u, v);
  }

  /** Leading zeros do not change the number a run of digits writes. */
  lemma {:induction false} LeadingZero(d: string)
    requires forall i :: 0 <= i < |d| ==> IsDigit(d[i])
    ensures DigitsValue("0" + d) == DigitsValue(d)
  {
    if d != [] {
      LeadingZero(d[..|d| - 1]);
      assert ("0" + d)[..|"0" + d| - 1] == "0" + d[..|d| - 1];
    }
  }

  /** NaN: after the white space and the optional sign there is no digit,
      even if one comes later, as in "a1" or "-x1". */
  lemma ParseNoDigits(w: string, sign: string, rest: string)
    requires forall i :: 0 <= i < |w| ==> IsWhiteSpace(w[i])
    requires sign == "" || sign == "-" || sign == "+"
    requires rest == [] || !IsDigit(rest[0])
    requires sign == "" && rest != [] ==> rest[0] != '-' && rest[0] != '+' && !IsWhiteSpace(rest[0])
    ensures ParseInt(w + sign + rest) == None
  {
    var t := sign + rest;
    assert w + sign + rest == w + t;
    ParseSkipsWhiteSpace(w, t);
    assert ParseInt(t) == None by {
      SignedNoDigits(sign, rest);
      if t != [] {
        LeadIsNotWhiteSpace(sign, rest);
        ParseFromSign(t);
      }
    }
  }

  lemma LeadIsNotWhiteSpace(sign: string, rest: string)
    requires sign == "" || sign == "-" || sign == "+"
    requires sign + rest != []
    requires sign == "" ==> !IsWhiteSpace(rest[0])
    ensures !IsWhiteSpace((sign + rest)[0])
  {
    if sign != "" {
      assert (sign + rest)[0] == sign[0];
    } else {
      assert (sign + rest)[0] == rest[0];
    }
  }

  lemma SignedNoDigits(sign: string, rest: string)
    requires sign == "" || sign == "-" || sign == "+"
    requires rest == [] || !IsDigit(rest[0])
    requires sign == "" && rest != [] ==> rest[0] != '-' && rest[0] != '+'
    ensures ParseSigned(sign + rest) == None
  {
    var t := sign + rest;
    if sign != "" {
      assert t[0] == sign[0] && t[1..] == rest;
    } else {
      assert t == rest;
    }
  }

  /** parseInt reads back every numeral that Decimal writes, whatever follows
      it once the digits stop. */
  lemma ParseDecimal(n: nat, rest: string)
    requires rest == [] || !IsDigit(rest[0])
    ensures ParseInt(Decimal(n) + rest) == Some(n)
  {
    DecimalValue(n);
    ParseDigits(Decimal(n), rest);
  }

  /** A minus sign in front of a numeral negates the number. */
  lemma ParseNegative(n: nat, rest: string)
    requires rest == [] || !IsDigit(rest[0])
    ensures ParseInt("-" + (Decimal(n) + rest)) == Some(0 - n as int)
  {
    DecimalValue(n);
    ParseMinusDigits(Decimal(n), rest, n);
  }

  lemma ParseMinus(u: string, v: int)
    requires DigitPrefix(u) != [] && DigitsValue(DigitPrefix(u)) == v
    ensures ParseInt("-" + u) == Some(0 - v)
  {
    ParseFromSign("-" + u);
    SignedMinus(u);
  }

  lemma SignedMinus(u: string)
    requires DigitPrefix(u) != []
    ensures ParseSigned("-" + u) == Some(0 - DigitsValue(DigitPrefix(u)))
  {
    var t := "-" + u;
    assert t[0] == '-' && t[1..] == u;
  }

  lemma ParsePlus(u: string, v: int)
    requires DigitPrefix(u) != [] && DigitsValue(DigitPrefix(u)) == v
    ensures ParseInt("+" + u) == Some(v)
  {
    ParseFromSign("+" + u);
    SignedPlus(u);
  }

  lemma SignedPlus(u: string)
    requires DigitPrefix(u) != []
    ensures ParseSigned("+" + u) == Some(DigitsValue(DigitPrefix(u)))
  {
    var t := "+" + u;
    assert t[0] == '+' && t[1..] == u;
  }

  /** Text that starts with a digit has no sign: its digits are read as they are. */
  lemma ParseUnsigned(u: string)
    requires u != [] && IsDigit(u[0])
    ensures ParseSigned(u) == Some(DigitsValue(DigitPrefix(u)))
  {
    assert u[0] != '-' && u[0] != '+';
  }

  /** Text that starts with no white space is read from its first character. */
  lemma ParseFromSign(t: string)
    requires t != [] && !IsWhiteSpace(t[0])
    ensures ParseInt(t) == ParseSigned(t)
  {
  }

  /** Leading white space does not change what parseInt reads. */
  lemma {:induction false} ParseSkipsWhiteSpace(w: string, s: string)
    requires forall i :: 0 <= i < |w| ==> IsWhiteSpace(w[i])
    ensures ParseInt(w + s) == ParseInt(s)
  {
    TrimStartSkips(w, s);
  }

  lemma {:induction false} TrimStartSkips(w: string, s: string)
    requires forall i :: 0 <= i < |w| ==> IsWhiteSpace(w[i])
    ensures TrimStart(w + s) == TrimStart(s)
  {
    if w == [] {
      assert w + s == s;
    } else {
      assert (w + s)[1..] == w[1..] + s;
      TrimStartSkips(w[1..], s);
    }
  }

  lemma {:induction false} DigitPrefixStops(d: string, rest: string)
    requires forall i :: 0 <= i < |d| ==> IsDigit(d[i])
    requires rest == [] || !IsDigit(rest[0])
    ensures DigitPrefix(d + rest) == d
  {
    if d == [] {
      assert d + rest == rest;
    } else {
      assert (d + rest)[1..] == d[1..] + rest;
      DigitPrefixStops(d[1..], rest);
    }
  }
}
