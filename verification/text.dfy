/**
 * The few pieces of Python's `str` and `int` behaviour that the table daemon
 * relies on: whitespace stripping, splitting and joining on a separator, and
 * the decimal and hexadecimal renderings of naturals.
 */
module Text {

  /** Python's `str.isspace()` on one code point. */
  predicate IsSpace(c: char) {
    || c == ' '
    || ('\t' <= c <= '\r')
    || ('\U{1C}' <= c <= '\U{1F}')
    || c == '\U{85}' || c == '\U{A0}' || c == '\U{1680}'
    || ('\U{2000}' <= c <= '\U{200A}')
    || c == '\U{2028}' || c == '\U{2029}' || c == '\U{202F}' || c == '\U{205F}' || c == '\U{3000}'
  }

  /** `s.lstrip()`: drop every leading whitespace character. */
  function LStrip(s: string): (r: string)
    ensures |r| <= |s|
    ensures r != [] ==> !IsSpace(r[0])
    ensures forall i :: 0 <= i < |s| - |r| ==> IsSpace(s[i])
  {
    if |s| > 0 && IsSpace(s[0]) then LStrip(s[1..]) else s
  }

  /** `s.rstrip()`: drop every trailing whitespace character. */
  function RStrip(s: string): (r: string)
    ensures |r| <= |s|
    ensures r != [] ==> !IsSpace(r[|r| - 1])
    ensures forall i :: |r| <= i < |s| ==> IsSpace(s[i])
  {
    if |s| > 0 && IsSpace(s[|s| - 1]) then RStrip(s[..|s| - 1]) else s
  }

  /** `s.strip()`: the text between the leading and the trailing whitespace. */
  function Strip(s: string): (r: string)
    ensures |r| <= |s|
    ensures r != [] ==> !IsSpace(r[0]) && !IsSpace(r[|r| - 1])
    ensures (s == [] || (!IsSpace(s[0]) && !IsSpace(s[|s| - 1]))) ==> r == s
    ensures (forall i :: 0 <= i < |s| ==> IsSpace(s[i])) ==> r == []
  {
    StripFacts(s);
    RStrip(LStrip(s))
  }

  /**
   * What `strip` keeps is the slice of its input that starts after the
   * leading whitespace, and everything of the input outside that slice is
   * whitespace.
   */
  lemma {:induction false} StripSlice(s: string)
    ensures |s| - |LStrip(s)| + |Strip(s)| <= |s|
    ensures Strip(s) == s[|s| - |LStrip(s)|..|s| - |LStrip(s)| + |Strip(s)|]
    ensures forall k :: 0 <= k < |s| - |LStrip(s)| ==> IsSpace(s[k])
    ensures forall k :: |s| - |LStrip(s)| + |Strip(s)| <= k < |s| ==> IsSpace(s[k])
  {
    var l := LStrip(s);
    LStripSuffix(s);
    RStripPrefix(l);
    InnerSlice(s, l, RStrip(l), |s| - |l|);
  }

  /** A prefix `r` of the suffix `l` of `s` that starts at `i` is a slice of `s`, and what `l` has past `r` is past it in `s`. */
  lemma InnerSlice(s: string, l: string, r: string, i: nat)
    requires i + |l| == |s| && l == s[i..]
    requires |r| <= |l| && r == l[..|r|]
    requires forall k :: |r| <= k < |l| ==> IsSpace(l[k])
    ensures i + |r| <= |s| && r == s[i..i + |r|]
    ensures forall k :: i + |r| <= k < |s| ==> IsSpace(s[k])
  {
    forall k | i + |r| <= k < |s|
      ensures IsSpace(s[k])
    {
      assert s[k] == l[k - i];
    }
  }

  lemma {:induction false} StripFacts(s: string)
    ensures RStrip(LStrip(s)) != [] ==> !IsSpace(RStrip(LStrip(s))[0])
    ensures (s == [] || (!IsSpace(s[0]) && !IsSpace(s[|s| - 1]))) ==> RStrip(LStrip(s)) == s
    ensures (forall i :: 0 <= i < |s| ==> IsSpace(s[i])) ==> RStrip(LStrip(s)) == []
  {
    var l := LStrip(s);
    var r := RStrip(l);
    LStripSuffix(s);
    RStripPrefix(l);
    if r != [] {
      assert r[0] == l[0];
    }
    if s != [] && !IsSpace(s[0]) && !IsSpace(s[|s| - 1]) {
      assert l == s;
    }
    if forall i :: 0 <= i < |s| ==> IsSpace(s[i]) {
      if l != [] {
        assert l[0] == s[|s| - |l|];
      }
    }
  }

  /** `s.lstrip(c)` for a one-character argument: drop every leading `c`. */
  function LStripChar(s: string, c: char): (r: string)
    ensures |r| <= |s|
    ensures r != [] ==> r[0] != c
    ensures forall i :: 0 <= i < |s| - |r| ==> s[i] == c
  {
    if |s| > 0 && s[0] == c then LStripChar(s[1..], c) else s
  }

  /** What `lstrip` keeps is a suffix of its input. */
  lemma {:induction false} LStripSuffix(s: string)
    ensures LStrip(s) == s[|s| - |LStrip(s)|..]
  {
    if |s| > 0 && IsSpace(s[0]) {
      LStripSuffix(s[1..]);
    }
  }

  /** What `rstrip` keeps is a prefix of its input. */
  lemma {:induction false} RStripPrefix(s: string)
    ensures RStrip(s) == s[..|RStrip(s)|]
  {
    if |s| > 0 && IsSpace(s[|s| - 1]) {
      RStripPrefix(s[..|s| - 1]);
    }
  }

  /** What `lstrip(c)` keeps is a suffix of its input. */
  lemma {:induction false} LStripCharSuffix(s: string, c: char)
    ensures LStripChar(s, c) == s[|s| - |LStripChar(s, c)|..]
  {
    if |s| > 0 && s[0] == c {
      LStripCharSuffix(s[1..], c);
    }
  }

  /** `sep.join(parts)`. */
  function Join(parts: seq<string>, sep: string): string
  {
    if |parts| == 0 then ""
    else if |parts| == 1 then parts[0]
    else parts[0] + sep + Join(parts[1..], sep)
  }

  /** `s.split(sep)` for a one-character separator: never empty, no piece holds `sep`,
      and joining the pieces again gives back `s`. */
  function Split(s: string, sep: char): (parts: seq<string>)
    ensures |parts| >= 1
    ensures forall i :: 0 <= i < |parts| ==> sep !in parts[i]
    ensures Join(parts, [sep]) == s
  {
    if |s| == 0 then [""]
    else if s[0] == sep then [""] + Split(s[1..], sep)
    else
      var rest := Split(s[1..], sep);
      var parts := [[s[0]] + rest[0]] + rest[1..];
      assert parts[1..] == rest[1..];
      parts
  }

  /** Every character of a join comes from a piece or from the separator. */
  lemma {:induction false} JoinChars(parts: seq<string>, sep: string, P: char -> bool)
    requires forall i, k :: 0 <= i < |parts| && 0 <= k < |parts[i]| ==> P(parts[i][k])
    requires forall k :: 0 <= k < |sep| ==> P(sep[k])
    ensures forall k :: 0 <= k < |Join(parts, sep)| ==> P(Join(parts, sep)[k])
  {
    if |parts| > 1 {
      JoinChars(parts[1..], sep, P);
      var rest := Join(parts[1..], sep);
      assert Join(parts, sep) == parts[0] + sep + rest;
      forall k | 0 <= k < |Join(parts, sep)| ensures P(Join(parts, sep)[k]) {
        if k < |parts[0]| {
          assert Join(parts, sep)[k] == parts[0][k];
        } else if k < |parts[0]| + |sep| {
          assert Join(parts, sep)[k] == sep[k - |parts[0]|];
        } else {
          assert Join(parts, sep)[k] == rest[k - |parts[0]| - |sep|];
        }
      }
    }
  }

  lemma {:induction false} SplitNoSeparator(x: string, sep: char)
    requires sep !in x
    ensures Split(x, sep) == [x]
  {
    if |x| > 0 {
      SplitNoSeparator(x[1..], sep);
      assert [x[0]] + x[1..] == x;
    }
  }

  lemma {:induction false} SplitPiece(x: string, sep: char, rest: string)
    requires sep !in x
    ensures Split(x + [sep] + rest, sep) == [x] + Split(rest, sep)
  {
    if |x| == 0 {
      assert x + [sep] + rest == [sep] + rest;
      assert ([sep] + rest)[1..] == rest;
    } else {
      var s := x + [sep] + rest;
      assert s[0] == x[0] && s[1..] == x[1..] + [sep] + rest;
      SplitPiece(x[1..], sep, rest);
      var tail := Split(s[1..], sep);
      assert tail[0] == x[1..] && tail[1..] == Split(rest, sep);
      assert [x[0]] + x[1..] == x;
    }
  }

  /** Splitting a joined list gives the list back when no piece holds the separator. */
  lemma {:induction false} SplitJoin(parts: seq<string>, sep: char)
    requires |parts| >= 1
    requires forall i :: 0 <= i < |parts| ==> sep !in parts[i]
    ensures Split(Join(parts, [sep]), sep) == parts
  {
    if |parts| == 1 {
      SplitNoSeparator(parts[0], sep);
    } else {
      SplitJoin(parts[1..], sep);
      SplitPiece(parts[0], sep, Join(parts[1..], [sep]));
      assert parts[0] + [sep] + Join(parts[1..], [sep]) == Join(parts, [sep]);
      assert [parts[0]] + parts[1..] == parts;
    }
  }

  predicate IsDigit(c: char) { '0' <= c <= '9' }

  predicate AllDigits(s: string) { forall i :: 0 <= i < |s| ==> IsDigit(s[i]) }

  /** The value of an ASCII decimal digit string, as `int(s, 10)` computes it. */
  function DigitsValue(s: string): nat
    requires AllDigits(s)
  {
    if |s| == 0 then 0 else DigitsValue(s[..|s| - 1]) * 10 + (s[|s| - 1] as int - '0' as int)
  }

  function DigitChar(d: nat): (c: char)
    requires d < 10
    ensures IsDigit(c) && c as int - '0' as int == d
  {
    ('0' as int + d) as char
  }

  /** `str(n)` for a natural: decimal digits without leading zeros, read back as `n`. */
  function DecimalString(n: nat): (s: string)
    ensures |s| >= 1 && AllDigits(s)
    ensures s[0] == '0' ==> n == 0 && s == "0"
    ensures DigitsValue(s) == n
    ensures n < 10 ==> |s| == 1
    ensures n < 100 ==> |s| <= 2
    ensures n < 1000 ==> |s| <= 3
  {
    if n < 10 then [DigitChar(n)]
    else
      var s := DecimalString(n / 10) + [DigitChar(n % 10)];
      assert s[..|s| - 1] == DecimalString(n / 10);
      s
  }

  predicate IsHexDigit(c: char) { IsDigit(c) || ('a' <= c <= 'f') || ('A' <= c <= 'F') }

  predicate AllHexDigits(s: string) { forall i :: 0 <= i < |s| ==> IsHexDigit(s[i]) }

  function HexDigitValue(c: char): (d: nat)
    requires IsHexDigit(c)
    ensures d < 16
  {
    if IsDigit(c) then c as int - '0' as int
    else if 'a' <= c <= 'f' then c as int - 'a' as int + 10
    else c as int - 'A' as int + 10
  }

  /** The value of a hexadecimal digit string (either case), as `int(s, 16)` computes it. */
  function HexValue(s: string): (v: nat)
    requires AllHexDigits(s)
    ensures |s| <= 1 ==> v < 0x10
    ensures |s| <= 2 ==> v < 0x100
    ensures |s| <= 3 ==> v < 0x1000
    ensures |s| <= 4 ==> v < 0x1_0000
  {
    if |s| == 0 then 0 else HexValue(s[..|s| - 1]) * 16 + HexDigitValue(s[|s| - 1])
  }

  /** Lower-case hexadecimal digit for `d`. */
  function HexDigitChar(d: nat): (c: char)
    requires d < 16
    ensures IsHexDigit(c) && HexDigitValue(c) == d
    ensures c != ':' && c != '.' && c != '/' && !IsSpace(c) && c != '!'
  {
    if d < 10 then DigitChar(d) else ('a' as int + (d - 10)) as char
  }

  /** `'%x' % n`: lower-case hexadecimal without leading zeros, read back as `n`. */
  function HexString(n: nat): (s: string)
    ensures |s| >= 1 && AllHexDigits(s)
    ensures HexValue(s) == n
    ensures n < 0x10 ==> |s| == 1
    ensures n < 0x100 ==> |s| <= 2
    ensures n < 0x1000 ==> |s| <= 3
    ensures n < 0x1_0000 ==> |s| <= 4
    ensures forall i :: 0 <= i < |s| ==> s[i] != ':' && s[i] != '.' && s[i] != '/' && !IsSpace(s[i]) && s[i] != '!'
  {
    if n < 16 then [HexDigitChar(n)]
    else
      var s := HexString(n / 16) + [HexDigitChar(n % 16)];
      assert s[..|s| - 1] == HexString(n / 16);
      s
  }
}
