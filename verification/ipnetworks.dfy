/**
 * IP networks as Python's `ipaddress.ip_network(text, strict=False)` builds
 * them from text: an IPv4 or IPv6 address, optionally followed by `/` and a
 * prefix, with the host bits below the prefix cleared.
 */
module IpNetworks {
  import opened Wrappers
  import opened Text
  import opened Bytes
  import opened IoCcom
  import Ipv4
  import Ipv6

  datatype Version = V4 | V6

  /** `max_prefixlen`: the width of an address in bits. */
  function MaxPrefixLen(v: Version): nat
  {
    if v.V4? then 32 else 128
  }

  /** The length of `packed`: the width of an address in bytes. */
  function AddressLength(v: Version): nat
  {
    if v.V4? then 4 else 16
  }

  /** A network: its version, its network address as packed bytes, and its prefix length. */
  datatype IpNetwork = IpNetwork(version: Version, address: seq<Byte>, prefixLen: nat)

  /** How many of the high bits of byte `i` lie inside a prefix of `p` bits. */
  function PrefixBits(p: nat, i: nat): (bits: nat)
    ensures bits <= 8
  {
    if p <= 8 * i then 0 else if p - 8 * i >= 8 then 8 else p - 8 * i
  }

  /** `2^(8 - bits)`: the step between the values a byte can take once its low `8 - bits` bits are cleared. */
  function Step(bits: nat): (m: nat)
    requires bits <= 8
    ensures 1 <= m <= 0x100
  {
    Pow2Bounds(8 - bits);
    Pow2(8 - bits)
  }

  /** `x & netmask_byte` where the netmask byte keeps the `bits` high bits. */
  function MaskByte(x: Byte, bits: nat): Byte
    requires bits <= 8
  {
    ModAtMost(x, Step(bits));
    x - x % Step(bits)
  }

  /** `address & netmask`, byte by byte. */
  function ApplyMask(b: seq<Byte>, p: nat): (r: seq<Byte>)
    ensures |r| == |b|
  {
    seq(|b|, i requires 0 <= i < |b| => MaskByte(b[i], PrefixBits(p, i)))
  }

  /** The netmask of a prefix: its `p` high bits set. */
  function Netmask(n: nat, p: nat): (m: seq<Byte>)
    ensures |m| == n
  {
    seq(n, i requires 0 <= i < n => 0x100 - Step(PrefixBits(p, i)))
  }

  /** The hostmask of a prefix: every bit below the prefix set. */
  function Hostmask(n: nat, p: nat): (m: seq<Byte>)
    ensures |m| == n
  {
    seq(n, i requires 0 <= i < n => Step(PrefixBits(p, i)) - 1)
  }

  /** What `ip_network` guarantees of its result: the right width, a prefix within it, no host bits. */
  predicate ValidNetwork(n: IpNetwork)
  {
    && |n.address| == AddressLength(n.version)
    && n.prefixLen <= MaxPrefixLen(n.version)
    && ApplyMask(n.address, n.prefixLen) == n.address
  }

  lemma Pow2Small()
    ensures Pow2(0) == 1 && Pow2(1) == 2 && Pow2(2) == 4 && Pow2(3) == 8
    ensures Pow2(4) == 16 && Pow2(5) == 32 && Pow2(6) == 64 && Pow2(7) == 128 && Pow2(8) == 256
  {
  }

  lemma Pow2Bounds(k: nat)
    requires k <= 8
    ensures 1 <= Pow2(k) <= 0x100
  {
    Pow2Small();
  }

  lemma ModAtMost(x: nat, m: nat)
    requires m >= 1
    ensures x % m <= x
  {
    if x < m {
      DivModUnique(x, m, 0, x);
    }
  }

  /** More kept bits, a smaller step: the step determines the number of kept bits. */
  lemma StepDistinct(a: nat, b: nat)
    requires a <= 8 && b <= 8 && a != b
    ensures Step(a) != Step(b)
  {
    Pow2Small();
  }

  /** A masked byte is a multiple of the step below the kept bits, so masking it again changes nothing. */
  lemma MaskByteIdempotent(x: Byte, bits: nat)
    requires bits <= 8
    ensures MaskByte(MaskByte(x, bits), bits) == MaskByte(x, bits)
  {
    var m := Step(bits);
    var y := MaskByte(x, bits);
    assert y == x - x % m;
    NoRemainderLeft(x, m);
    assert MaskByte(y, bits) == y - y % m;
  }

  /** Taking away the remainder leaves a multiple. */
  lemma NoRemainderLeft(x: nat, m: nat)
    requires m >= 1
    ensures (x - x % m) % m == 0
  {
    var q := x / m;
    assert x - x % m == q * m;
    DivModUnique(q * m, m, q, 0);
  }

  /** Masking is idempotent: a masked address has no host bits. */
  lemma MaskIdempotent(b: seq<Byte>, p: nat)
    ensures ApplyMask(ApplyMask(b, p), p) == ApplyMask(b, p)
  {
    forall i | 0 <= i < |b| ensures ApplyMask(ApplyMask(b, p), p)[i] == ApplyMask(b, p)[i] {
      MaskByteIdempotent(b[i], PrefixBits(p, i));
    }
  }

  /** A prefix covering every bit keeps the whole address. */
  lemma MaskFull(b: seq<Byte>, p: nat)
    requires p >= 8 * |b|
    ensures ApplyMask(b, p) == b
  {
    forall i | 0 <= i < |b| ensures ApplyMask(b, p)[i] == b[i] {
      assert PrefixBits(p, i) == 8;
      assert Step(8) == 1;
    }
  }

  /** Masking keeps every byte wholly inside the prefix and clears every byte wholly outside it. */
  lemma MaskBytes(b: seq<Byte>, p: nat, i: nat)
    requires i < |b|
    ensures 8 * (i + 1) <= p ==> ApplyMask(b, p)[i] == b[i]
    ensures p <= 8 * i ==> ApplyMask(b, p)[i] == 0
  {
    assert Step(8) == 1 && Step(0) == 0x100;
  }

  /** The netmask of `p` is the only netmask with exactly `p` high bits: different prefixes give different masks. */
  lemma NetmaskInjective(n: nat, p: nat, q: nat)
    requires p <= 8 * n && q <= 8 * n && Netmask(n, p) == Netmask(n, q)
    ensures p == q
  {
    if p != q {
      var lo, hi := if p < q then p else q, if p < q then q else p;
      var i := lo / 8;
      assert i < n && PrefixBits(lo, i) < PrefixBits(hi, i);
      StepDistinct(PrefixBits(lo, i), PrefixBits(hi, i));
      NetmaskAt(n, lo, i);
      NetmaskAt(n, hi, i);
      assert false;
    }
  }

  lemma NetmaskAt(n: nat, p: nat, i: nat)
    requires i < n
    ensures Netmask(n, p)[i] == 0x100 - Step(PrefixBits(p, i))
  {
  }

  lemma HostmaskInjective(n: nat, p: nat, q: nat)
    requires p <= 8 * n && q <= 8 * n && Hostmask(n, p) == Hostmask(n, q)
    ensures p == q
  {
    assert Netmask(n, p) == Netmask(n, q) by {
      forall i | 0 <= i < n ensures Netmask(n, p)[i] == Netmask(n, q)[i] {
        assert Hostmask(n, p)[i] == Hostmask(n, q)[i];
      }
    }
    NetmaskInjective(n, p, q);
  }

  /** `_prefix_from_prefix_string`: ASCII digits only (leading zeros allowed), at most `max`. */
  function ParsePrefixDigits(s: string, max: nat): (r: Option<nat>)
    ensures r.Some? ==> r.value <= max
  {
    if s == [] || !AllDigits(s) then None
    else if DigitsValue(s) > max then None
    else Some(DigitsValue(s))
  }

  /**
   * The search of `_prefix_from_ip_int`: the least prefix from `p` up to 32
   * whose netmask (or, with `host`, hostmask) is `m`.
   */
  function MaskPrefixFrom(m: seq<Byte>, host: bool, p: nat): (r: Option<nat>)
    requires p <= 33
    ensures r.Some? ==> p <= r.value <= 32
    ensures r.Some? ==> m == (if host then Hostmask(4, r.value) else Netmask(4, r.value))
    ensures r.None? ==> forall q :: p <= q <= 32 ==> m != (if host then Hostmask(4, q) else Netmask(4, q))
    decreases 33 - p
  {
    if p > 32 then None
    else if m == (if host then Hostmask(4, p) else Netmask(4, p)) then Some(p)
    else MaskPrefixFrom(m, host, p + 1)
  }

  /**
   * `IPv4Network._make_netmask` on a string: a decimal prefix, else a
   * dotted-quad netmask, else a dotted-quad hostmask.
   */
  function ParseV4Prefix(s: string): (r: Option<nat>)
    ensures r.Some? ==> r.value <= 32
  {
    var digits := ParsePrefixDigits(s, 32);
    if digits.Some? then digits
    else
      var m :- Ipv4.ParseV4(s);
      var asNetmask := MaskPrefixFrom(m, false, 0);
      if asNetmask.Some? then asNetmask else MaskPrefixFrom(m, true, 0)
  }

  /** `_split_optional_netmask`: the text before and after the one `/` allowed. */
  function SplitPrefix(s: string): Option<(string, Option<string>)>
  {
    var parts := Split(s, '/');
    if |parts| > 2 then None
    else if |parts| == 2 then Some((parts[0], Some(parts[1])))
    else Some((parts[0], None))
  }

  /** `IPv4Network(s, strict=False)`. */
  function ParseV4Network(s: string): (r: Option<IpNetwork>)
    ensures r.Some? ==> ValidNetwork(r.value) && r.value.version == V4
  {
    var (addr, prefix) :- SplitPrefix(s);
    var b :- Ipv4.ParseV4(addr);
    var p :- if prefix.Some? then ParseV4Prefix(prefix.value) else Some(32);
    MaskIdempotent(b, p);
    Some(IpNetwork(V4, ApplyMask(b, p), p))
  }

  /** `IPv6Network(s, strict=False)`. */
  function ParseV6Network(s: string): (r: Option<IpNetwork>)
    ensures r.Some? ==> ValidNetwork(r.value) && r.value.version == V6
  {
    var (addr, prefix) :- SplitPrefix(s);
    var b :- Ipv6.ParseV6(addr);
    var p :- if prefix.Some? then ParsePrefixDigits(prefix.value, 128) else Some(128);
    MaskIdempotent(b, p);
    Some(IpNetwork(V6, ApplyMask(b, p), p))
  }

  /** `ipaddress.ip_network(s, False)`: IPv4 first, then IPv6; `None` is the `ValueError`. */
  function ParseNetwork(s: string): (r: Option<IpNetwork>)
    ensures r.Some? ==> ValidNetwork(r.value)
  {
    var v4 := ParseV4Network(s);
    if v4.Some? then v4 else ParseV6Network(s)
  }

  /** `str(network_address)`. */
  function FormatAddress(v: Version, b: seq<Byte>): string
    requires |b| == AddressLength(v)
  {
    if v.V4? then Ipv4.FormatV4(b) else Ipv6.FormatV6(b)
  }

  /** The printed address is non-empty and holds only hex digits, dots and colons. */
  lemma FormatAddressChars(v: Version, b: seq<Byte>)
    requires |b| == AddressLength(v)
    ensures FormatAddress(v, b) != []
    ensures forall k :: 0 <= k < |FormatAddress(v, b)| ==>
      var c := FormatAddress(v, b)[k]; IsHexDigit(c) || c == '.' || c == ':'
    ensures v.V6? ==> '.' !in FormatAddress(v, b)
  {
    if v.V4? {
      Ipv4.V4Chars(b);
    } else {
      Ipv6.V6Chars(b);
    }
  }

  lemma NoSlash(s: string)
    requires forall k :: 0 <= k < |s| ==> IsHexDigit(s[k]) || s[k] == '.' || s[k] == ':'
    ensures '/' !in s
  {
    forall k | 0 <= k < |s| ensures s[k] != '/' {
    }
  }

  lemma AddressParses(v: Version, b: seq<Byte>)
    requires |b| == AddressLength(v)
    ensures v.V4? ==> Ipv4.ParseV4(FormatAddress(v, b)) == Some(b)
    ensures v.V6? ==> Ipv4.ParseV4(FormatAddress(v, b)) == None && Ipv6.ParseV6(FormatAddress(v, b)) == Some(b)
  {
    FormatAddressChars(v, b);
    if v.V4? {
      Ipv4.V4RoundTrip(b);
    } else {
      Ipv4.V4NeedsDots(FormatAddress(v, b));
      Ipv6.V6RoundTrip(b);
    }
  }

  /**
   * `strict=False`: an address printed with any prefix within its width
   * parses to that prefix and the address with its host bits cleared.
   */
  lemma ParseWithPrefix(v: Version, b: seq<Byte>, p: nat)
    requires |b| == AddressLength(v) && p <= MaxPrefixLen(v)
    ensures ParseNetwork(FormatAddress(v, b) + "/" + DecimalString(p)) == Some(IpNetwork(v, ApplyMask(b, p), p))
  {
    var a, d := FormatAddress(v, b), DecimalString(p);
    FormatAddressChars(v, b);
    NoSlash(a);
    assert '/' !in d by {
      forall k | 0 <= k < |d| ensures d[k] != '/' {
        assert IsDigit(d[k]);
      }
    }
    SplitPiece(a, '/', d);
    SplitNoSeparator(d, '/');
    assert a + "/" + d == a + ['/'] + d;
    assert SplitPrefix(a + "/" + d) == Some((a, Some(d)));
    AddressParses(v, b);
    assert ParsePrefixDigits(d, MaxPrefixLen(v)) == Some(p);
  }

  /** An address printed without a prefix parses to the single-address network. */
  lemma ParseBare(v: Version, b: seq<Byte>)
    requires |b| == AddressLength(v)
    ensures ParseNetwork(FormatAddress(v, b)) == Some(IpNetwork(v, b, MaxPrefixLen(v)))
  {
    var a := FormatAddress(v, b);
    FormatAddressChars(v, b);
    NoSlash(a);
    SplitNoSeparator(a, '/');
    AddressParses(v, b);
    MaskFull(b, MaxPrefixLen(v));
  }

  /** A dotted-quad netmask after the `/` stands for its prefix length. */
  lemma NetmaskPrefix(p: nat)
    requires p <= 32
    ensures ParseV4Prefix(Ipv4.FormatV4(Netmask(4, p))) == Some(p)
  {
    var m := Netmask(4, p);
    var s := Ipv4.FormatV4(m);
    Ipv4.V4Chars(m);
    assert !AllDigits(s) by {
      var k :| 0 <= k < |s| && s[k] == '.' by { DotInside(m); }
    }
    Ipv4.V4RoundTrip(m);
    var r := MaskPrefixFrom(m, false, 0);
    assert r.Some?;
    NetmaskInjective(4, p, r.value);
  }

  /**
   * A dotted-quad hostmask after the `/` stands for its prefix length too,
   * except that 255.255.255.255 and 0.0.0.0 are read as netmasks first.
   */
  lemma HostmaskPrefix(p: nat)
    requires 0 < p < 32
    ensures ParseV4Prefix(Ipv4.FormatV4(Hostmask(4, p))) == Some(p)
  {
    var m := Hostmask(4, p);
    var s := Ipv4.FormatV4(m);
    Ipv4.V4Chars(m);
    assert !AllDigits(s) by {
      var k :| 0 <= k < |s| && s[k] == '.' by { DotInside(m); }
    }
    Ipv4.V4RoundTrip(m);
    assert MaskPrefixFrom(m, false, 0).None? by {
      HostmaskNotNetmask(p);
    }
    var r := MaskPrefixFrom(m, true, 0);
    assert r.Some?;
    HostmaskInjective(4, p, r.value);
  }

  /** A hostmask of a prefix strictly inside the address is not a netmask. */
  lemma HostmaskNotNetmask(p: nat)
    requires 0 < p < 32
    ensures forall q :: 0 <= q <= 32 ==> Hostmask(4, p) != Netmask(4, q)
  {
    Pow2Small();
    forall q | 0 <= q <= 32 ensures Hostmask(4, p) != Netmask(4, q) {
      if q == 0 {
        assert Hostmask(4, p)[3] != Netmask(4, q)[3];
      } else {
        assert Hostmask(4, p)[0] != Netmask(4, q)[0];
      }
    }
  }

  lemma DotInside(b: seq<Byte>)
    requires |b| == 4
    ensures '.' in Ipv4.FormatV4(b)
  {
    var strs := Ipv4.OctetStrings(b);
    assert Ipv4.FormatV4(b) == strs[0] + "." + Join(strs[1..], ".");
    assert Ipv4.FormatV4(b)[|strs[0]|] == '.';
  }
}
