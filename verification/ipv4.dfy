/**
 * The dotted-quad text form of an IPv4 address as Python's `ipaddress`
 * parses and prints it: exactly four decimal octets, each at most three
 * ASCII digits, no leading zeros, value at most 255.
 */
module Ipv4 {
  import opened Wrappers
  import opened Text
  import opened Bytes

  /** `_parse_octet`. */
  function ParseOctet(s: string): Option<Byte>
  {
    if s == [] then None
    else if !AllDigits(s) then None
    else if |s| > 3 then None
    else if s != "0" && s[0] == '0' then None
    else if DigitsValue(s) > 255 then None
    else Some(DigitsValue(s))
  }

  function ParseOctets(ps: seq<string>): (r: Option<seq<Byte>>)
    ensures r.Some? ==> |r.value| == |ps|
  {
    if ps == [] then Some([])
    else
      var head :- ParseOctet(ps[0]);
      var tail :- ParseOctets(ps[1..]);
      Some([head] + tail)
  }

  /** `IPv4Address._ip_int_from_string`, producing the four address bytes. */
  function ParseV4(s: string): (r: Option<seq<Byte>>)
    ensures r.Some? ==> |r.value| == 4
  {
    if s == [] then None
    else
      var octets := Split(s, '.');
      if |octets| != 4 then None else ParseOctets(octets)
  }

  function OctetStrings(b: seq<Byte>): (r: seq<string>)
    ensures |r| == |b|
  {
    seq(|b|, i requires 0 <= i < |b| => DecimalString(b[i] as nat))
  }

  /** `str(IPv4Address)`: the four octets in decimal, joined by dots. */
  function FormatV4(b: seq<Byte>): string
    requires |b| == 4
  {
    Join(OctetStrings(b), ".")
  }

  /** A decimal digit string without a superfluous leading zero is the printing of its value. */
  lemma {:induction false} CanonicalDigits(s: string)
    requires |s| >= 1 && AllDigits(s) && (s[0] == '0' ==> s == "0")
    ensures DecimalString(DigitsValue(s)) == s
  {
    if |s| > 1 {
      var t := s[..|s| - 1];
      assert t[0] == s[0];
      LeadingDigitPositive(t);
      CanonicalDigits(t);
      var n := DigitsValue(s);
      var c := s[|s| - 1] as int - '0' as int;
      assert n == DigitsValue(t) * 10 + c;
      assert n / 10 == DigitsValue(t) && n % 10 == c;
      assert DigitChar(c) == s[|s| - 1];
      assert s == t + [s[|s| - 1]];
    }
  }

  lemma {:induction false} LeadingDigitPositive(t: string)
    requires |t| >= 1 && AllDigits(t) && t[0] != '0'
    ensures DigitsValue(t) >= 1
  {
    if |t| > 1 {
      LeadingDigitPositive(t[..|t| - 1]);
    }
  }

  /** An octet parses exactly when it is spelled as Python prints it. */
  lemma OctetCanonical(s: string, b: Byte)
    ensures ParseOctet(s) == Some(b) <==> s == DecimalString(b as nat)
  {
    if s == DecimalString(b as nat) {
      assert |s| <= 3;
    }
    if ParseOctet(s) == Some(b) {
      CanonicalDigits(s);
    }
  }

  lemma {:induction false} OctetsCanonical(ps: seq<string>, b: seq<Byte>)
    requires |ps| == |b|
    ensures ParseOctets(ps) == Some(b) <==> ps == OctetStrings(b)
  {
    if ps != [] {
      OctetsCanonical(ps[1..], b[1..]);
      OctetCanonical(ps[0], b[0]);
      assert OctetStrings(b)[1..] == OctetStrings(b[1..]);
      if ParseOctets(ps) == Some(b) {
        assert [b[0]] + b[1..] == b;
        assert ParseOctet(ps[0]) == Some(b[0]) && ParseOctets(ps[1..]) == Some(b[1..]);
        PrintedOctets(ps, b);
      }
      if ps == OctetStrings(b) {
        assert [b[0]] + b[1..] == b;
      }
    }
  }

  /** Octet texts that print `b`'s head and then its tail print all of `b`. */
  lemma PrintedOctets(ps: seq<string>, b: seq<Byte>)
    requires ps != [] && |ps| == |b|
    requires ps[0] == DecimalString(b[0] as nat) && ps[1..] == OctetStrings(b[1..])
    ensures ps == OctetStrings(b)
  {
    assert OctetStrings(b)[1..] == OctetStrings(b[1..]);
    assert [ps[0]] + ps[1..] == ps;
    assert [OctetStrings(b)[0]] + OctetStrings(b)[1..] == OctetStrings(b);
  }

  /**
   * The IPv4 text syntax is exactly the printer's image: a string parses to
   * `b` if and only if it is the dotted-quad printing of `b`. In particular
   * printing and then parsing gives back the address.
   */
  lemma V4TextCanonical(s: string, b: seq<Byte>)
    requires |b| == 4
    ensures ParseV4(s) == Some(b) <==> s == FormatV4(b)
  {
    var strs := OctetStrings(b);
    forall i | 0 <= i < |strs| ensures '.' !in strs[i] {
      assert AllDigits(strs[i]);
    }
    if s == FormatV4(b) {
      SplitJoin(strs, '.');
      assert Split(s, '.') == strs;
      OctetsCanonical(strs, b);
      assert s != [] by { assert |strs[0]| >= 1; }
    }
    if ParseV4(s) == Some(b) {
      var octets := Split(s, '.');
      OctetsCanonical(octets, b);
    }
  }

  lemma V4RoundTrip(b: seq<Byte>)
    requires |b| == 4
    ensures ParseV4(FormatV4(b)) == Some(b)
  {
    V4TextCanonical(FormatV4(b), b);
  }

  /** Text without a dot is never an IPv4 address. */
  lemma V4NeedsDots(s: string)
    requires '.' !in s
    ensures ParseV4(s) == None
  {
    if s != [] {
      SplitNoSeparator(s, '.');
    }
  }

  /** The printed form is non-empty and made of decimal digits and dots only. */
  lemma V4Chars(b: seq<Byte>)
    requires |b| == 4
    ensures FormatV4(b) != []
    ensures forall k :: 0 <= k < |FormatV4(b)| ==> IsDigit(FormatV4(b)[k]) || FormatV4(b)[k] == '.'
  {
    var strs := OctetStrings(b);
    assert FormatV4(b) == strs[0] + "." + Join(strs[1..], ".");
    assert |strs[0]| >= 1;
    JoinChars(strs, ".", c => IsDigit(c) || c == '.');
  }
}
