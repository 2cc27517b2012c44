/** The JavaScript built-ins the scripts rely on, defined exactly enough for the
    scripts' own contracts: `Math.round` on a ratio of integers,
    `String.prototype.startsWith`, `trim`, `split` on one character,
    `parseInt` and the decimal `Number.prototype.toString` of a natural number. */
module JsBuiltins {
  import opened Wrappers

  // ---------------------------------------------------------------------------
  // Math.round

  /** `Math.round(num / den)` computed exactly: the nearest integer, halves
      rounded up (towards +infinity), as ECMAScript specifies. */
  function RoundHalfUp(num: int, den: int): (r: int)
    requires den > 0
    ensures 2 * den * r - 2 * num <= den
    ensures 2 * num - 2 * den * r < den
  {
    var q := (2 * num + den) / (2 * den);
    assert 2 * den * q <= 2 * num + den < 2 * den * q + 2 * den by {
      DivBounds(2 * num + den, 2 * den);
    }
    q
  }

  lemma DivBounds(a: int, b: int)
    requires b > 0
    ensures b * (a / b) <= a < b * (a / b) + b
  {
  }

  /** Rounding is monotone in the numerator. */
  lemma RoundHalfUpMonotone(m: int, n: int, den: int)
    requires den > 0 && m <= n
    ensures RoundHalfUp(m, den) <= RoundHalfUp(n, den)
  {
    var a, b := RoundHalfUp(m, den), RoundHalfUp(n, den);
    if a > b {
      MulMonotone(2 * den, b + 1, a);
      assert false;
    }
  }

  /** A whole ratio rounds to itself. */
  lemma RoundHalfUpExact(k: int, den: int)
    requires den > 0
    ensures RoundHalfUp(k * den, den) == k
  {
    var r := RoundHalfUp(k * den, den);
    if r > k {
      MulMonotone(2 * den, k + 1, r);
      assert false;
    } else if r < k {
      MulMonotone(2 * den, r + 1, k);
      assert false;
    }
  }

  lemma MulMonotone(c: int, x: int, y: int)
    requires c > 0 && x <= y
    ensures c * x <= c * y
  {
  }

  // ---------------------------------------------------------------------------
  // startsWith, whitespace, trim

  /** `s.startsWith(prefix)`. */
  function StartsWith(s: string, prefix: string): (r: bool)
    ensures r ==> |prefix| <= |s| && s == prefix + s[|prefix|..]
    ensures !r ==> |s| < |prefix| || exists i | 0 <= i < |prefix| :: s[i] != prefix[i]
  {
    |prefix| <= |s| && s[..|prefix|] == prefix
  }

  /** `t` occurs in `s` at position `j`. */
  predicate OccursAt(s: string, t: string, j: nat) {
    j + |t| <= |s| && s[j..j + |t|] == t
  }

  /** `s.indexOf(t, from)`: the first position at or after `from` where `t`
      occurs, or -1 when there is none. */
  function IndexOf(s: string, t: string, from: nat := 0): (k: int)
    decreases |s| - from
    ensures k == -1 || (from <= k && OccursAt(s, t, k))
    ensures forall j: nat | from <= j && (k == -1 || j < k) :: !OccursAt(s, t, j)
  {
    if from + |t| > |s| then -1
    else if s[from..from + |t|] == t then from
    else IndexOf(s, t, from + 1)
  }

  /** `s.indexOf(t) === 0` is the same test as `s.startsWith(t)`. */
  lemma IndexOfZero(s: string, t: string)
    ensures IndexOf(s, t) == 0 <==> StartsWith(s, t)
  {
  }

  /** ECMAScript WhiteSpace and LineTerminator code points: the characters
      `trim` removes and `parseInt` skips. */
  predicate IsWhitespace(c: char) {
    c == '\t' || c == '\n' || c == '\U{000B}' || c == '\U{000C}' || c == '\r' ||
    c == ' ' || c == '\U{00A0}' || c == '\U{1680}' || ('\U{2000}' <= c <= '\U{200A}') ||
    c == '\U{2028}' || c == '\U{2029}' || c == '\U{202F}' || c == '\U{205F}' ||
    c == '\U{3000}' || c == '\U{FEFF}'
  }

  /** `trimStart`: the suffix left after dropping leading whitespace. */
  function TrimStart(s: string): (r: string)
    ensures |r| <= |s| && r == s[|s| - |r|..]
    ensures forall i | 0 <= i < |s| - |r| :: IsWhitespace(s[i])
    ensures r == [] || !IsWhitespace(r[0])
  {
    if |s| > 0 && IsWhitespace(s[0]) then TrimStart(s[1..]) else s
  }

  /** `trimEnd`: the prefix left after dropping trailing whitespace. */
  function TrimEnd(s: string): (r: string)
    ensures |r| <= |s| && r == s[..|r|]
    ensures forall i | |r| <= i < |s| :: IsWhitespace(s[i])
    ensures r == [] || !IsWhitespace(r[|r| - 1])
  {
    if |s| > 0 && IsWhitespace(s[|s| - 1]) then TrimEnd(s[..|s| - 1]) else s
  }

  /** `trim`: both ends. */
  function Trim(s: string): (r: string)
    ensures r == [] || (!IsWhitespace(r[0]) && !IsWhitespace(r[|r| - 1]))
  {
    TrimEnd(TrimStart(s))
  }

  /** A string whose two ends are not whitespace is left alone by `trim`. */
  lemma TrimUnpadded(s: string)
    requires s != [] && !IsWhitespace(s[0]) && !IsWhitespace(s[|s| - 1])
    ensures Trim(s) == s
  {
  }

  /** Leading whitespace does not survive `trim`. */
  lemma TrimLeadingSpace(s: string)
    ensures Trim(" " + s) == Trim(s)
  {
  }

  // ---------------------------------------------------------------------------
  // split on one character, and its inverse

  /** `s.split(sep)` for a one-character separator: the pieces between
      separators, in order; the empty string gives one empty piece. */
  function Split(s: string, sep: char): (parts: seq<string>)
    ensures |parts| >= 1
    ensures forall i | 0 <= i < |parts| :: sep !in parts[i]
  {
    if |s| == 0 then [""]
    else
      var rest := Split(s[1..], sep);
      if s[0] == sep then [""] + rest
      else [[s[0]] + rest[0]] + rest[1..]
  }

  /** `join` undoes `split`: the pieces and separators give back the text,
      so no character is lost or added. */
  lemma {:induction false} JoinSplit(s: string, sep: char)
    ensures Join(Split(s, sep), sep) == s
  {
    if |s| > 0 {
      var rest := Split(s[1..], sep);
      JoinSplit(s[1..], sep);
      if s[0] == sep {
        assert ([""] + rest)[1..] == rest;
        assert [sep] + s[1..] == s;
      } else {
        var parts := [[s[0]] + rest[0]] + rest[1..];
        assert parts[1..] == rest[1..];
        if |rest| > 1 {
          assert Join(rest, sep) == rest[0] + [sep] + Join(rest[1..], sep);
        }
        assert [s[0]] + s[1..] == s;
      }
    }
  }

  /** `parts.join(sep)`. */
  function Join(parts: seq<string>, sep: char): string
    requires |parts| >= 1
  {
    if |parts| == 1 then parts[0] else parts[0] + [sep] + Join(parts[1..], sep)
  }

  /** A character other than the separator joins the first piece. */
  lemma SplitCons(c: char, t: string, sep: char)
    requires c != sep
    ensures Split([c] + t, sep) == [[c] + Split(t, sep)[0]] + Split(t, sep)[1..]
  {
    assert ([c] + t)[1..] == t;
  }

  /** A separator-free piece followed by more text: the piece extends the
      first part of the text's split. */
  lemma {:induction false} SplitFreePrefix(p: string, rest: string, sep: char)
    requires sep !in p
    ensures Split(p + rest, sep) == [p + Split(rest, sep)[0]] + Split(rest, sep)[1..]
  {
    var s := Split(rest, sep);
    if p == [] {
      assert p + rest == rest;
      assert p + s[0] == s[0];
      assert s == [s[0]] + s[1..];
    } else {
      SplitFreePrefix(p[1..], rest, sep);
      assert p + rest == [p[0]] + (p[1..] + rest);
      SplitCons(p[0], p[1..] + rest, sep);
      assert [p[0]] + (p[1..] + s[0]) == p + s[0];
    }
  }

  /** A leading separator splits off an empty first piece. */
  lemma SplitLeadingSeparator(tail: string, sep: char)
    ensures Split([sep] + tail, sep) == [""] + Split(tail, sep)
  {
    assert ([sep] + tail)[1..] == tail;
  }

  /** `split` undoes `join` when no piece holds the separator. */
  lemma {:induction false} SplitJoin(parts: seq<string>, sep: char)
    requires |parts| >= 1
    requires forall i | 0 <= i < |parts| :: sep !in parts[i]
    ensures Split(Join(parts, sep), sep) == parts
  {
    if |parts| == 1 {
      SplitFreePrefix(parts[0], "", sep);
      assert parts[0] + "" == parts[0];
    } else {
      SplitJoin(parts[1..], sep);
      SplitJoinStep(parts[0], Join(parts[1..], sep), parts[1..], sep);
      assert parts == [parts[0]] + parts[1..];
    }
  }

  /** One more separator-free piece in front of a split text. */
  lemma SplitJoinStep(head: string, tail: string, rest: seq<string>, sep: char)
    requires sep !in head && Split(tail, sep) == rest
    ensures Split(head + [sep] + tail, sep) == [head] + rest
  {
    SplitLeadingSeparator(tail, sep);
    SplitFreePrefix(head, [sep] + tail, sep);
    assert head + [sep] + tail == head + ([sep] + tail);
    assert head + "" == head;
  }

  // ---------------------------------------------------------------------------
  // parseInt and Number.prototype.toString

  /** The digit a character stands for in radices up to 36; 36 for any other
      character. */
  function CharDigit(c: char): nat {
    if '0' <= c <= '9' then c as nat - '0' as nat
    else if 'a' <= c <= 'z' then c as nat - 'a' as nat + 10
    else if 'A' <= c <= 'Z' then c as nat - 'A' as nat + 10
    else 36
  }

  /** Length of the longest prefix of `s` made of digits of `radix`. */
  function DigitRun(s: string, radix: nat): (n: nat)
    ensures n <= |s|
  {
    if |s| > 0 && CharDigit(s[0]) < radix then 1 + DigitRun(s[1..], radix) else 0
  }

  /** The value of a digit string, most significant digit first. */
  function DigitsValue(ds: string, radix: nat): nat {
    if |ds| == 0 then 0
    else DigitsValue(ds[..|ds| - 1], radix) * radix + CharDigit(ds[|ds| - 1])
  }

  /** `parseInt(s)` with no radix argument: leading whitespace is skipped, an
      optional sign is read, a `0x`/`0X` prefix selects radix 16, and the
      longest run of digits that follows is the value; no digit at all is
      `NaN`, written `None`. */
  function ParseInt(s: string): (r: Option<int>)
    ensures TrimStart(s) == [] ==> r.None?
    ensures r.Some? && r.value < 0 ==> TrimStart(s)[0] == '-'
  {
    ParseTrimmed(TrimStart(s))
  }

  /** `parseInt` from the sign on, once leading whitespace is gone. */
  function ParseTrimmed(t: string): Option<int> {
    if |t| > 0 && t[0] == '-' then
      var v := ParseUnsigned(t[1..]);
      if v.Some? then Some(-v.value) else None
    else if |t| > 0 && t[0] == '+' then ParseUnsigned(t[1..])
    else ParseUnsigned(t)
  }

  /** The digits after the sign: a `0x`/`0X` prefix selects radix 16, and
      the longest run of digits of the radix is the value. */
  function ParseUnsigned(u: string): Option<int> {
    var hex := |u| >= 2 && u[0] == '0' && (u[1] == 'x' || u[1] == 'X');
    var radix := if hex then 16 else 10;
    var w := if hex then u[2..] else u;
    var n := DigitRun(w, radix);
    if n == 0 then None else Some(DigitsValue(w[..n], radix))
  }

  /** Leading whitespace is skipped. */
  lemma ParseIntSkipsWhitespace(c: char, s: string)
    requires IsWhitespace(c)
    ensures ParseInt([c] + s) == ParseInt(s)
  {
    assert ([c] + s)[1..] == s;
    assert TrimStart([c] + s) == TrimStart(s);
  }

  /** A minus sign negates the number that follows it. */
  lemma ParseIntNegative(s: string)
    requires s == [] || (!IsWhitespace(s[0]) && s[0] != '-' && s[0] != '+')
    ensures ParseInt("-" + s) == if ParseInt(s).Some? then Some(-ParseInt(s).value) else None
  {
    ParseIntMinus(s);
    if s == [] {
      TrimStartUnpadded(s);
      assert ParseInt(s) == ParseUnsigned(s);
    } else {
      ParseIntUnsigned(s);
    }
  }

  lemma ParseIntMinus(s: string)
    ensures ParseInt("-" + s) == if ParseUnsigned(s).Some? then Some(-ParseUnsigned(s).value) else None
  {
    var t := "-" + s;
    assert t[0] == '-' && t[1..] == s;
    TrimStartUnpadded(t);
    ParseTrimmedMinus(t);
  }

  lemma ParseTrimmedMinus(t: string)
    requires t != [] && t[0] == '-'
    ensures ParseTrimmed(t) == if ParseUnsigned(t[1..]).Some? then Some(-ParseUnsigned(t[1..]).value) else None
  {
  }

  /** `0x` or `0X` followed by hexadecimal digits reads them in radix 16. */
  lemma ParseIntHex(x: char, ds: string)
    requires x == 'x' || x == 'X'
    requires ds != [] && forall i | 0 <= i < |ds| :: CharDigit(ds[i]) < 16
    ensures ParseInt(['0', x] + ds) == Some(DigitsValue(ds, 16))
  {
    ParseIntUnsigned(['0', x] + ds);
    HexUnsigned(x, ds);
  }

  lemma HexUnsigned(x: char, ds: string)
    requires x == 'x' || x == 'X'
    requires ds != [] && forall i | 0 <= i < |ds| :: CharDigit(ds[i]) < 16
    ensures ParseUnsigned(['0', x] + ds) == Some(DigitsValue(ds, 16))
  {
    assert (['0', x] + ds)[2..] == ds;
    WholeDigitRun(ds, 16);
  }

  /** Text that starts with neither whitespace nor a sign is read unsigned. */
  lemma ParseIntUnsigned(s: string)
    requires s != [] && !IsWhitespace(s[0]) && s[0] != '-' && s[0] != '+'
    ensures ParseInt(s) == ParseUnsigned(s)
  {
    TrimStartUnpadded(s);
  }

  lemma TrimStartUnpadded(s: string)
    requires s == [] || !IsWhitespace(s[0])
    ensures TrimStart(s) == s
  {
  }

  /** Text made only of digits of the radix is one whole run. */
  lemma WholeDigitRun(w: string, radix: nat)
    requires forall i | 0 <= i < |w| :: CharDigit(w[i]) < radix
    ensures DigitRun(w, radix) == |w| && w[..DigitRun(w, radix)] == w
  {
    DigitRunAll(w, radix);
  }

  lemma {:induction false} DigitRunAll(s: string, radix: nat)
    requires forall i | 0 <= i < |s| :: CharDigit(s[i]) < radix
    ensures DigitRun(s, radix) == |s|
  {
    if |s| > 0 {
      DigitRunAll(s[1..], radix);
    }
  }

  function DigitChar(d: nat): (c: char)
    requires d < 10
    ensures '0' <= c <= '9' && CharDigit(c) == d
  {
    ('0' as nat + d) as char
  }

  /** `n.toString()` for a natural number: decimal digits, no leading zero. */
  function NatToString(n: nat): (s: string)
    ensures |s| >= 1
    ensures forall i | 0 <= i < |s| :: '0' <= s[i] <= '9'
    ensures s[0] == '0' ==> s == "0"
  {
    if n < 10 then [DigitChar(n)] else NatToString(n / 10) + [DigitChar(n % 10)]
  }

  lemma {:induction false} DigitRunOfDigits(s: string)
    requires forall i | 0 <= i < |s| :: '0' <= s[i] <= '9'
    ensures DigitRun(s, 10) == |s|
  {
    if |s| > 0 {
      DigitRunOfDigits(s[1..]);
    }
  }

  lemma {:induction false} DigitsValueOfNatToString(n: nat)
    ensures DigitsValue(NatToString(n), 10) == n
  {
    var s := NatToString(n);
    if n >= 10 {
      DigitsValueOfNatToString(n / 10);
      assert s[..|s| - 1] == NatToString(n / 10);
    }
  }

  /** `parseInt` reads back what `toString` wrote. */
  lemma ParseIntOfNatToString(n: nat)
    ensures ParseInt(NatToString(n)) == Some(n)
  {
    var s := NatToString(n);
    assert !IsWhitespace(s[0]) && s[0] != '-' && s[0] != '+';
    ParseIntUnsigned(s);
    DecimalUnsigned(s);
    DigitsValueOfNatToString(n);
  }

  /** Decimal digits without a leading zero are read in radix 10. */
  lemma DecimalUnsigned(s: string)
    requires forall i | 0 <= i < |s| :: '0' <= s[i] <= '9'
    requires s != [] && (s[0] == '0' ==> s == "0")
    ensures ParseUnsigned(s) == Some(DigitsValue(s, 10))
  {
    DigitRunOfDigits(s);
    assert s[..|s|] == s;
  }
}
