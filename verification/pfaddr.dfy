/**
 * One entry of a pf table (`PFTableAddr`): a network and a negate flag, with
 * its three forms -- the text `[!] address[/prefix]`, the value, and the
 * kernel's `struct pfr_addr` record.
 */
module PfAddr {
  import opened Wrappers
  import opened Text
  import opened Bytes
  import opened IpNetworks

  /** OpenBSD's `AF_INET` and `AF_INET6` from `sys/socket.h`. */
  const AfInet: Byte := 2
  const AfInet6: Byte := 24

  /** `PFRKE_PLAIN`: a plain table entry. */
  const PfrkePlain: Byte := 0

  /** `ESRCH`: the kernel has no table of that name. */
  const Esrch: nat := 3

  /** Why an operation fails: `ValueError`, `KeyError` on the family, or `OSError` from the ioctl. */
  datatype Error = InvalidAddress | UnknownFamily(af: Byte) | IoctlFailed(errno: nat)

  /** A table entry. Two entries are equal when both their networks and their negate flags are. */
  datatype TableAddr = TableAddr(network: IpNetwork, negate: bool)

  predicate ValidAddr(a: TableAddr)
  {
    ValidNetwork(a.network)
  }

  /** `__eq__`. */
  predicate Equal(a: TableAddr, b: TableAddr)
  {
    a.network == b.network && a.negate == b.negate
  }

  /** `__hash__`: what is hashed is the network alone. */
  function HashKey(a: TableAddr): IpNetwork
  {
    a.network
  }

  /** `__eq__` is value equality, so a Dafny `set` of entries behaves as the Python `set` does. */
  lemma EqualIsIdentity(a: TableAddr, b: TableAddr)
    ensures Equal(a, b) <==> a == b
  {
  }

  /** Equal entries hash alike; entries differing only in negation are distinct yet hash alike. */
  lemma HashConsistent(a: TableAddr, b: TableAddr)
    ensures Equal(a, b) ==> HashKey(a) == HashKey(b)
    ensures a.network == b.network && a.negate != b.negate ==> !Equal(a, b) && HashKey(a) == HashKey(b)
  {
  }

  // ---------------------------------------------------------------------
  // Text form
  // ---------------------------------------------------------------------

  /** The network part of `to_string`: the address, then `/prefix` unless the prefix is full. */
  function FormatNetwork(n: IpNetwork): string
    requires ValidNetwork(n)
  {
    FormatAddress(n.version, n.address)
      + (if n.prefixLen != MaxPrefixLen(n.version) then "/" + DecimalString(n.prefixLen) else "")
  }

  /** `to_string`: the network, with `"! "` in front when negated. */
  function ToText(a: TableAddr): string
    requires ValidAddr(a)
  {
    (if a.negate then "! " else "") + FormatNetwork(a.network)
  }

  /**
   * `_from_string`: strip the text, drop every leading `!` and then any
   * whitespace, parse the rest with `ip_network(..., strict=False)`; the
   * entry is negated when the stripped text starts with `!`.
   */
  function ParseText(s: string): (r: Result<TableAddr, Error>)
    ensures r.Ok? ==> ValidAddr(r.value)
    ensures r.Ok? ==> (r.value.negate <==> Strip(s) != [] && Strip(s)[0] == '!')
    ensures r.Err? ==> r.error == InvalidAddress
  {
    var a := Strip(s);
    var n := ParseNetwork(LStrip(LStripChar(a, '!')));
    if n.None? then Err(InvalidAddress)
    else Ok(TableAddr(n.value, a != [] && a[0] == '!'))
  }

  /** Every character of the printed network is a hex digit, a dot, a colon or a slash. */
  lemma FormatNetworkChars(n: IpNetwork)
    requires ValidNetwork(n)
    ensures FormatNetwork(n) != []
    ensures forall k :: 0 <= k < |FormatNetwork(n)| ==>
      var c := FormatNetwork(n)[k]; IsHexDigit(c) || c == '.' || c == ':' || c == '/'
  {
    var a := FormatAddress(n.version, n.address);
    FormatAddressChars(n.version, n.address);
    if n.prefixLen != MaxPrefixLen(n.version) {
      var d := DecimalString(n.prefixLen);
      var f := FormatNetwork(n);
      assert f == a + "/" + d;
      forall k | 0 <= k < |f| ensures IsHexDigit(f[k]) || f[k] == '.' || f[k] == ':' || f[k] == '/' {
        if k < |a| {
          assert f[k] == a[k];
        } else if k > |a| {
          assert f[k] == d[k - |a| - 1];
          assert IsDigit(d[k - |a| - 1]);
        }
      }
    }
  }

  /** The printed network parses back to the network. */
  lemma NetworkRoundTrip(n: IpNetwork)
    requires ValidNetwork(n)
    ensures ParseNetwork(FormatNetwork(n)) == Some(n)
  {
    var a := FormatAddress(n.version, n.address);
    if n.prefixLen == MaxPrefixLen(n.version) {
      assert FormatNetwork(n) == a + "";
      assert a + "" == a;
      ParseBare(n.version, n.address);
    } else {
      var d := DecimalString(n.prefixLen);
      assert FormatNetwork(n) == a + ("/" + d);
      assert a + ("/" + d) == a + "/" + d;
      ParseWithPrefix(n.version, n.address, n.prefixLen);
    }
  }

  /** Parsing `to_string(a)` gives back an entry equal to `a`. */
  lemma TextRoundTrip(a: TableAddr)
    requires ValidAddr(a)
    ensures ParseText(ToText(a)) == Ok(a)
  {
    var f := FormatNetwork(a.network);
    var t := ToText(a);
    FormatNetworkChars(a.network);
    assert !IsSpace(f[0]) && f[0] != '!' && !IsSpace(f[|f| - 1]);
    if a.negate {
      assert t == "! " + f;
      BangText(f);
    } else {
      assert t == f;
      PlainText(f);
    }
    NetworkRoundTrip(a.network);
    ParseTextSteps(t, f, a);
  }

  /** Distinct entries print differently. */
  lemma TextInjective(a: TableAddr, b: TableAddr)
    requires ValidAddr(a) && ValidAddr(b) && ToText(a) == ToText(b)
    ensures a == b
  {
    TextRoundTrip(a);
    TextRoundTrip(b);
  }

  lemma ParseTextSteps(t: string, f: string, a: TableAddr)
    requires Strip(t) == t && LStrip(LStripChar(t, '!')) == f
    requires ParseNetwork(f) == Some(a.network)
    requires a.negate <==> t != [] && t[0] == '!'
    ensures ParseText(t) == Ok(a)
  {
  }

  lemma PlainText(f: string)
    requires f != [] && !IsSpace(f[0]) && f[0] != '!' && !IsSpace(f[|f| - 1])
    ensures Strip(f) == f && LStrip(LStripChar(f, '!')) == f
  {
  }

  lemma BangText(f: string)
    requires f != [] && !IsSpace(f[0]) && f[0] != '!' && !IsSpace(f[|f| - 1])
    ensures Strip("! " + f) == "! " + f && LStrip(LStripChar("! " + f, '!')) == f
  {
    BangKept(f);
    BangSplit(f);
    BangDropped("! " + f, " " + f);
    SpaceDropped(" " + f, f);
  }

  lemma BangKept(f: string)
    requires f != [] && !IsSpace(f[|f| - 1])
    ensures Strip("! " + f) == "! " + f
  {
    var t := "! " + f;
    assert t[0] == '!' && t[|t| - 1] == f[|f| - 1];
  }

  lemma BangSplit(f: string)
    ensures "! " + f == ['!'] + (" " + f) && " " + f == [' '] + f
  {
  }

  lemma BangDropped(t: string, rest: string)
    requires t == ['!'] + rest && rest != [] && rest[0] != '!'
    ensures LStripChar(t, '!') == rest
  {
    assert t[1..] == rest;
  }

  lemma SpaceDropped(t: string, rest: string)
    requires t == [' '] + rest && rest != [] && !IsSpace(rest[0])
    ensures LStrip(t) == rest
  {
    assert t[1..] == rest;
  }

  // ---------------------------------------------------------------------
  // Kernel record
  // ---------------------------------------------------------------------

  type Bytes16 = s: seq<Byte> | |s| == 16 witness [0, 0, 0, 0, 0, 0, 0, 0, 0, 0, 0, 0, 0, 0, 0, 0]
  type Bytes7 = s: seq<Byte> | |s| == 7 witness [0, 0, 0, 0, 0, 0, 0]

  /**
   * `struct pfr_addr`: the 16-byte address union, the interface name, the
   * state count and weight, then the family, prefix length, negate flag,
   * feedback and type bytes and the padding.
   */
  datatype PfrAddr = PfrAddr(
    union: Bytes16, ifname: Bytes16, states: Uint32, weight: Uint16,
    af: Byte, net: Byte, not: Byte, fback: Byte, rtype: Byte, pad: Bytes7)

  /** `pfr_addr()`: every field zero. */
  function ZeroRecord(): (r: PfrAddr)
    ensures r.af != AfInet && r.af != AfInet6
  {
    PfrAddr(ZeroBytes(16), ZeroBytes(16), 0, 0, 0, 0, 0, 0, 0, ZeroBytes(7))
  }

  function ZeroBytes(n: nat): (z: seq<Byte>)
    ensures |z| == n && forall i :: 0 <= i < n ==> z[i] == 0
  {
    seq(n, _ => 0)
  }

  /** `{4: AF_INET, 6: AF_INET6}[version]`. */
  function Family(v: Version): Byte
  {
    if v.V4? then AfInet else AfInet6
  }

  /**
   * The record `to_struct` produces: the packed address at the start of the
   * zeroed union, the family, the prefix length, `int(negate)`, no feedback,
   * a plain entry and an empty interface name; every other field zero.
   */
  function Encoded(a: TableAddr): (r: PfrAddr)
    requires ValidAddr(a)
  {
    var n := a.network;
    PfrAddr(n.address + ZeroBytes(16 - |n.address|), ZeroBytes(16), 0, 0,
            Family(n.version), n.prefixLen, if a.negate then 1 else 0, 0, PfrkePlain, ZeroBytes(7))
  }

  /** `to_struct`: a zeroed record whose union receives the packed address byte by byte. */
  method ToStruct(a: TableAddr) returns (r: PfrAddr)
    requires ValidAddr(a)
    ensures r == Encoded(a)
  {
    var packed := a.network.address;
    var union := new Byte[16](_ => 0);
    var i := 0;
    while i < |packed|
      invariant 0 <= i <= |packed|
      invariant forall k :: 0 <= k < i ==> union[k] == packed[k]
      invariant forall k :: i <= k < 16 ==> union[k] == 0
    {
      union[i] := packed[i];
      i := i + 1;
    }
    assert union[..] == packed + ZeroBytes(16 - |packed|);
    r := PfrAddr(union[..], ZeroBytes(16), 0, 0, Family(a.network.version), a.network.prefixLen,
                 if a.negate then 1 else 0, 0, PfrkePlain, ZeroBytes(7));
  }

  /**
   * `_from_struct`: the family picks the address length (any other family is
   * a `KeyError`), the network is built strictly from the leading union
   * bytes and `pfra_net` (a prefix too long or host bits set is a
   * `ValueError`), and any non-zero `pfra_not` negates.
   */
  function FromStruct(rec: PfrAddr): (r: Result<TableAddr, Error>)
    ensures r.Ok? ==> ValidAddr(r.value) && Family(r.value.network.version) == rec.af
    ensures r.Err? && r.error.UnknownFamily? <==> rec.af != AfInet && rec.af != AfInet6
  {
    if rec.af != AfInet6 && rec.af != AfInet then Err(UnknownFamily(rec.af))
    else
      var v := if rec.af == AfInet then V4 else V6;
      var address := rec.union[..AddressLength(v)];
      if rec.net as nat > MaxPrefixLen(v) || ApplyMask(address, rec.net) != address then Err(InvalidAddress)
      else Ok(TableAddr(IpNetwork(v, address, rec.net), rec.not != 0))
  }

  /** Decoding an encoded entry gives back an entry equal to it. */
  lemma StructRoundTrip(a: TableAddr)
    requires ValidAddr(a)
    ensures FromStruct(Encoded(a)) == Ok(a)
  {
    var r := Encoded(a);
    assert r.union[..AddressLength(a.network.version)] == a.network.address;
  }

  /** Distinct entries have distinct records. */
  lemma EncodedInjective(a: TableAddr, b: TableAddr)
    requires ValidAddr(a) && ValidAddr(b) && Encoded(a) == Encoded(b)
    ensures a == b
  {
    StructRoundTrip(a);
    StructRoundTrip(b);
  }

  /** What `to_struct` can produce: zeros outside the address, a 0/1 negate flag, a plain entry. */
  predicate CanonicalRecord(r: PfrAddr)
  {
    && (r.af == AfInet ==> r.union[4..] == ZeroBytes(12))
    && r.ifname == ZeroBytes(16) && r.states == 0 && r.weight == 0
    && r.not <= 1 && r.fback == 0 && r.rtype == PfrkePlain && r.pad == ZeroBytes(7)
  }

  /** A canonical record that decodes re-encodes to itself. */
  lemma RecordRoundTrip(rec: PfrAddr)
    requires CanonicalRecord(rec) && FromStruct(rec).Ok?
    ensures Encoded(FromStruct(rec).value) == rec
  {
    var a := FromStruct(rec).value;
    var n := a.network;
    if n.version.V4? {
      assert rec.union == rec.union[..4] + rec.union[4..];
    } else {
      assert rec.union[..16] == rec.union;
    }
  }

  /** Every encoded record is canonical. */
  lemma EncodedCanonical(a: TableAddr)
    requires ValidAddr(a)
    ensures CanonicalRecord(Encoded(a))
  {
    var n := a.network;
    if n.version.V4? {
      assert Encoded(a).union[4..] == ZeroBytes(12);
    }
  }
}
