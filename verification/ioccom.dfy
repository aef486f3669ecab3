/**
 * ioctl request numbers in the BSD `sys/ioccom.h` encoding, computed on
 * Python's unbounded non-negative integers: direction bits at 29..31, the
 * low 13 bits of the argument length at 16..28, the group at 8..15 and the
 * command number at 0..7.
 */
module IoCcom {

  const IocparmMask: nat := 0x1fff
  const IocVoid: nat := 0x2000_0000
  const IocOut: nat := 0x4000_0000
  const IocIn: nat := 0x8000_0000
  const IocInOut: nat := BitOr(IocIn, IocOut)

  function Pow2(k: nat): (p: nat)
    ensures p >= 1
  {
    if k == 0 then 1 else 2 * Pow2(k - 1)
  }

  /** Python's `a | b` on non-negative integers, bit by bit from the least significant. */
  function BitOr(a: nat, b: nat): nat
    decreases a + b
  {
    if a == 0 then b
    else if b == 0 then a
    else 2 * BitOr(a / 2, b / 2) + (if a % 2 == 1 || b % 2 == 1 then 1 else 0)
  }

  /** Python's `a & b` on non-negative integers. */
  function BitAnd(a: nat, b: nat): nat
    decreases a + b
  {
    if a == 0 || b == 0 then 0
    else 2 * BitAnd(a / 2, b / 2) + (if a % 2 == 1 && b % 2 == 1 then 1 else 0)
  }

  /** Python's `x << k`. */
  function ShiftLeft(x: nat, k: nat): nat
  {
    x * Pow2(k)
  }

  /** `_IOC(inout, group, num, len)`. */
  function Ioc(inout: nat, group: nat, num: nat, len: nat): nat
  {
    BitOr(BitOr(BitOr(inout, ShiftLeft(BitAnd(len, IocparmMask), 16)), ShiftLeft(group, 8)), num)
  }

  /** `_IOWR(group, num, type)` with `sizeof(type)` given as `size`. */
  function IoWR(group: char, num: nat, size: nat): nat
  {
    Ioc(IocInOut, group as nat, num, size)
  }

  /** DIOCRSETADDRS, for a `struct pfioc_table` of `size` bytes. */
  function DiocrSetAddrs(size: nat): nat
  {
    IoWR('D', 69, size)
  }

  /** DIOCRGETADDRS, for a `struct pfioc_table` of `size` bytes. */
  function DiocrGetAddrs(size: nat): nat
  {
    IoWR('D', 70, size)
  }

  lemma DivModUnique(x: nat, m: nat, q: nat, r: nat)
    requires m > 0 && r < m && x == q * m + r
    ensures x / m == q && x % m == r
  {
    var q0, r0 := x / m, x % m;
    assert x == q0 * m + r0;
    if q0 > q {
      assert (q0 - q) * m == q0 * m - q * m;
      MulAtLeast(q0 - q, m);
    } else if q > q0 {
      assert (q - q0) * m == q * m - q0 * m;
      MulAtLeast(q - q0, m);
    }
  }

  lemma MulAtLeast(a: nat, m: nat)
    requires a >= 1
    ensures a * m >= m
  {
  }

  lemma {:induction false} BitAndLowMask(x: nat, k: nat)
    ensures BitAnd(x, Pow2(k) - 1) == x % Pow2(k)
  {
    if k == 0 || x == 0 {
    } else {
      var p := Pow2(k - 1);
      var m := Pow2(k) - 1;
      assert m == 2 * (p - 1) + 1;
      DivModUnique(m, 2, p - 1, 1);
      BitAndOdd(x, m);
      BitAndLowMask(x / 2, k - 1);
      HalfMod(x, p);
    }
  }

  /** And-ing with an odd mask keeps the lowest bit. */
  lemma BitAndOdd(x: nat, m: nat)
    requires x > 0 && m % 2 == 1
    ensures BitAnd(x, m) == 2 * BitAnd(x / 2, m / 2) + x % 2
  {
  }

  /** The remainder modulo `2p` from the remainder of the halved value modulo `p`. */
  lemma HalfMod(x: nat, p: nat)
    requires p >= 1
    ensures x % (2 * p) == 2 * ((x / 2) % p) + x % 2
  {
    var h, b := x / 2, x % 2;
    var d, e := h % p, h / p;
    assert h == e * p + d;
    assert x == e * (2 * p) + (2 * d + b);
    DivModUnique(x, 2 * p, e, 2 * d + b);
  }

  /** Or-ing a value whose low `k` bits are clear with a value below `2^k` is addition. */
  lemma {:induction false} BitOrDisjoint(hi: nat, lo: nat, k: nat)
    requires hi % Pow2(k) == 0 && lo < Pow2(k)
    ensures BitOr(hi, lo) == hi + lo
  {
    if k == 0 || hi == 0 || lo == 0 {
    } else {
      var p := Pow2(k - 1);
      var q := hi / Pow2(k);
      assert hi == (q * p) * 2;
      DivModUnique(hi, 2, q * p, 0);
      DivModUnique(hi / 2, p, q, 0);
      BitOrDisjoint(hi / 2, lo / 2, k - 1);
    }
  }

  lemma Pow2Constants()
    ensures Pow2(8) == 0x100 && Pow2(13) == 0x2000 && Pow2(16) == 0x1_0000
    ensures Pow2(29) == 0x2000_0000 && Pow2(30) == 0x4000_0000 && Pow2(31) == 0x8000_0000
  {
  }

  lemma IocInOutValue()
    ensures IocInOut == 0xC000_0000
  {
    Pow2Constants();
    BitOrDisjoint(IocIn, IocOut, 31);
  }

  /**
   * When the direction has no bits below 29 and group and number fit in a
   * byte, the four fields do not overlap: the request is their weighted sum.
   */
  lemma IocLayout(inout: nat, group: nat, num: nat, len: nat)
    requires inout % 0x2000_0000 == 0 && group < 0x100 && num < 0x100
    ensures Ioc(inout, group, num, len)
         == inout + (len % 0x2000) * 0x1_0000 + group * 0x100 + num
  {
    Pow2Constants();
    var l := len % 0x2000;
    LengthMask(len);
    LengthField(inout, l);
    var withLength := inout + l * 0x1_0000;
    assert BitOr(inout, ShiftLeft(BitAnd(len, IocparmMask), 16)) == withLength;
    GroupField(withLength, group);
    var withGroup := withLength + group * 0x100;
    assert BitOr(withLength, ShiftLeft(group, 8)) == withGroup;
    BitOrDisjoint(withGroup, num, 8);
    assert Ioc(inout, group, num, len) == BitOr(withGroup, num);
  }

  lemma LengthMask(len: nat)
    ensures ShiftLeft(BitAnd(len, IocparmMask), 16) == (len % 0x2000) * 0x1_0000
  {
    Pow2Constants();
    BitAndLowMask(len, 13);
  }

  /** The length field lands on bits 16..28, below the direction bits. */
  lemma LengthField(inout: nat, l: nat)
    requires inout % 0x2000_0000 == 0 && l < 0x2000
    ensures BitOr(inout, l * 0x1_0000) == inout + l * 0x1_0000
    ensures (inout + l * 0x1_0000) % 0x1_0000 == 0
  {
    Pow2Constants();
    BitOrDisjoint(inout, l * 0x1_0000, 29);
    var q := inout / 0x2000_0000;
    assert inout + l * 0x1_0000 == (q * 0x2000 + l) * 0x1_0000;
    DivModUnique(inout + l * 0x1_0000, 0x1_0000, q * 0x2000 + l, 0);
  }

  /** The group byte lands on bits 8..15, below the length field. */
  lemma GroupField(b: nat, group: nat)
    requires b % 0x1_0000 == 0 && group < 0x100
    ensures BitOr(b, group * 0x100) == b + group * 0x100
    ensures (b + group * 0x100) % 0x100 == 0
  {
    Pow2Constants();
    BitOrDisjoint(b, group * 0x100, 16);
    var q := b / 0x1_0000;
    assert b + group * 0x100 == (q * 0x100 + group) * 0x100;
    DivModUnique(b + group * 0x100, 0x100, q * 0x100 + group, 0);
  }

  /** Every field can be read back from the request number (the `_IOC_*` accessors of ioccom.h). */
  lemma IocFields(inout: nat, group: nat, num: nat, len: nat)
    requires inout % 0x2000_0000 == 0 && group < 0x100 && num < 0x100
    ensures Ioc(inout, group, num, len) % 0x100 == num
    ensures (Ioc(inout, group, num, len) / 0x100) % 0x100 == group
    ensures (Ioc(inout, group, num, len) / 0x1_0000) % 0x2000 == len % 0x2000
    ensures Ioc(inout, group, num, len) / 0x2000_0000 == inout / 0x2000_0000
  {
    IocLayout(inout, group, num, len);
    var r := Ioc(inout, group, num, len);
    var q := inout / 0x2000_0000;
    var l := len % 0x2000;
    DivModUnique(r, 0x100, (q * 0x2000 + l) * 0x100 + group, num);
    DivModUnique(r / 0x100, 0x100, q * 0x2000 + l, group);
    DivModUnique((r / 0x100) / 0x100, 0x2000, q, l);
    DivModUnique(r, 0x1_0000, q * 0x2000 + l, group * 0x100 + num);
    DivModUnique(r, 0x2000_0000, q, l * 0x1_0000 + group * 0x100 + num);
  }

  /** Only the low 13 bits of the length reach the request number. */
  lemma IocLengthTruncated(inout: nat, group: nat, num: nat, len: nat)
    ensures Ioc(inout, group, num, len) == Ioc(inout, group, num, len % 0x2000)
  {
    Pow2Constants();
    BitAndLowMask(len, 13);
    BitAndLowMask(len % 0x2000, 13);
    DivModUnique(len % 0x2000, 0x2000, 0, len % 0x2000);
  }

  /** `_IOWR` always sets both the IN and the OUT direction bits, and nothing above them. */
  lemma IoWRDirection(group: char, num: nat, size: nat)
    requires group as nat < 0x100 && num < 0x100
    ensures IoWR(group, num, size) / 0x4000_0000 == 3
    ensures IoWR(group, num, size) < 0x1_0000_0000
  {
    IocInOutValue();
    IocFields(IocInOut, group as nat, num, size);
    IocLayout(IocInOut, group as nat, num, size);
  }

  /** The fetch and the replace requests are different numbers, whatever the argument size. */
  lemma DiocrRequestsDistinct(size: nat)
    ensures DiocrSetAddrs(size) != DiocrGetAddrs(size)
    ensures DiocrSetAddrs(size) % 0x100 == 69 && DiocrGetAddrs(size) % 0x100 == 70
    ensures (DiocrSetAddrs(size) / 0x100) % 0x100 == 'D' as nat
  {
    IocInOutValue();
    IocFields(IocInOut, 'D' as nat, 69, size);
    IocFields(IocInOut, 'D' as nat, 70, size);
  }
}
