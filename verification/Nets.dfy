/** CIDR blocks over plain numbers: IPv4 blocks as in section 3.1 of RFC 4632, IPv6 blocks as in
    section 2.3 of RFC 4291. The bitwise tests that the code runs on address ranges are connected here
    to the sets of addresses they are meant to describe. */
module Nets {
  import opened Wrappers

  function Pow2(n: nat): (p: nat)
    ensures p >= 1
  {
    if n == 0 then 1 else 2 * Pow2(n - 1)
  }

  /** `x` with its `k` lowest bits cleared. */
  function ClearLow(x: nat, k: nat): (y: nat)
    ensures y <= x
    decreases k
  {
    if k == 0 then x else 2 * ClearLow(x / 2, k - 1)
  }

  datatype Family = V4 | V6

  function Width(family: Family): nat {
    if family == V4 then 32 else 128
  }

  /** A source or log address. */
  datatype Ip = Ip(family: Family, addr: nat) {
    predicate Valid() {
      addr < Pow2(Width(family))
    }
  }

  /** An address with a prefix length. Like the library type it stands for, it keeps host bits. */
  datatype Net = Net(family: Family, addr: nat, len: nat) {
    predicate Valid() {
      len <= Width(family) && addr < Pow2(Width(family))
    }

    function HostBits(): nat
      requires Valid()
    {
      Width(family) - len
    }

    /** The network address. */
    function First(): nat
      requires Valid()
    {
      ClearLow(addr, HostBits())
    }

    /** The broadcast address. */
    function Last(): nat
      requires Valid()
    {
      First() + Pow2(HostBits()) - 1
    }

    predicate Contains(ip: Ip)
      requires Valid()
    {
      ip.family == family && First() <= ip.addr <= Last()
    }

    /** Whole-block containment, decided on the end points only. */
    predicate Covers(other: Net)
      requires Valid() && other.Valid()
    {
      other.family == family && First() <= other.First() && other.Last() <= Last()
    }

    function Trunc(): Net
      requires Valid()
    {
      Net(family, First(), len)
    }

    /** No host bits set. */
    predicate Canonical() {
      Valid() && addr == First()
    }
  }

  /** The block of one address. */
  function Host(ip: Ip): (n: Net)
    requires ip.Valid()
    ensures n.Valid()
  {
    Net(ip.family, ip.addr, Width(ip.family))
  }

  // ----- powers of two and cleared bits -----

  lemma {:induction false} Pow2Monotone(a: nat, b: nat)
    requires a < b
    ensures Pow2(a) < Pow2(b)
  {
    if a + 1 < b {
      Pow2Monotone(a, b - 1);
    }
  }

  lemma Pow32()
    ensures Pow2(32) == 0x1_0000_0000
  {
    assert Pow2(8) == 0x100;
    assert Pow2(16) == 0x1_0000;
    assert Pow2(24) == 0x100_0000;
  }

  /** Clearing bits finds the start of the one block of 2^k addresses that `y` lies in. */
  lemma {:induction false} BlockOf(x: nat, y: nat, k: nat)
    ensures ClearLow(x, k) <= y <= ClearLow(x, k) + Pow2(k) - 1 <==> ClearLow(y, k) == ClearLow(x, k)
    decreases k
  {
    if k > 0 {
      BlockOf(x / 2, y / 2, k - 1);
    }
  }

  lemma {:induction false} ClearTwice(x: nat, small: nat, big: nat)
    requires small <= big
    ensures ClearLow(ClearLow(x, small), big) == ClearLow(x, big)
    decreases small
  {
    if small > 0 {
      ClearTwice(x / 2, small - 1, big - 1);
    }
  }

  /** A block of 2^k addresses that starts below 2^w ends below it. */
  lemma {:induction false} BlockFits(x: nat, k: nat, w: nat)
    requires k <= w && x < Pow2(w)
    ensures ClearLow(x, k) + Pow2(k) <= Pow2(w)
    decreases k
  {
    if k > 0 {
      BlockFits(x / 2, k - 1, w - 1);
    }
  }

  lemma {:induction false} ClearAll(x: nat, w: nat)
    requires x < Pow2(w)
    ensures ClearLow(x, w) == 0
  {
    if w > 0 {
      ClearAll(x / 2, w - 1);
    }
  }

  // ----- blocks -----

  lemma NetBounds(n: Net)
    requires n.Valid()
    ensures n.First() <= n.addr <= n.Last() < Pow2(Width(n.family))
    ensures n.Trunc().Canonical() && n.Trunc().First() == n.First() && n.Trunc().Last() == n.Last()
  {
    var k := n.HostBits();
    BlockOf(n.addr, n.addr, k);
    BlockFits(n.addr, k, Width(n.family));
    ClearTwice(n.addr, k, k);
  }

  /** Containment of an address as the network address of the address itself. */
  lemma ContainsByMask(n: Net, ip: Ip)
    requires n.Valid()
    ensures n.Contains(ip) <==> ip.family == n.family && ClearLow(ip.addr, n.HostBits()) == n.First()
  {
    BlockOf(n.addr, ip.addr, n.HostBits());
  }

  /** Two blocks with a common address nest. */
  lemma Nesting(a: Net, b: Net, ip: Ip)
    requires a.Valid() && b.Valid() && a.len <= b.len
    requires a.Contains(ip) && b.Contains(ip)
    ensures a.Covers(b)
  {
    ContainsByMask(a, ip);
    ContainsByMask(b, ip);
    var first, last := Ip(b.family, b.First()), Ip(b.family, b.Last());
    NetBounds(b);
    ContainsByMask(b, last);
    ClearTwice(ip.addr, b.HostBits(), a.HostBits());
    ClearTwice(b.Last(), b.HostBits(), a.HostBits());
    ContainsByMask(a, first);
    ContainsByMask(a, last);
  }

  /** The engine's test, written on end points. */
  predicate Overlaps(a: Net, b: Net)
    requires a.Valid() && b.Valid()
  {
    a.Covers(b) || b.Covers(a)
  }

  ghost predicate ShareAddress(a: Net, b: Net)
    requires a.Valid() && b.Valid()
  {
    exists ip :: a.Contains(ip) && b.Contains(ip)
  }

  lemma OverlapsIffShareAddress(a: Net, b: Net)
    requires a.Valid() && b.Valid()
    ensures Overlaps(a, b) <==> ShareAddress(a, b)
  {
    NetBounds(a);
    NetBounds(b);
    if a.Covers(b) {
      assert a.Contains(Ip(b.family, b.First())) && b.Contains(Ip(b.family, b.First()));
    } else if b.Covers(a) {
      assert a.Contains(Ip(a.family, a.First())) && b.Contains(Ip(a.family, a.First()));
    }
    if ip :| a.Contains(ip) && b.Contains(ip) {
      if a.len <= b.len {
        Nesting(a, b, ip);
      } else {
        Nesting(b, a, ip);
      }
    }
  }

  // ----- bitwise tests -----

  /** Bitwise conjunction of two unsigned numbers. */
  function BitAnd(a: nat, b: nat): nat
    decreases a
  {
    if a == 0 || b == 0 then 0
    else 2 * BitAnd(a / 2, b / 2) + (if a % 2 == 1 && b % 2 == 1 then 1 else 0)
  }

  /** The number of bits up to and including the highest set one: 128 minus the leading zeros. */
  function BitLen(s: nat): nat {
    if s == 0 then 0 else 1 + BitLen(s / 2)
  }

  lemma {:induction false} BitAndSelf(s: nat)
    ensures BitAnd(s, s) == s
  {
    if s > 0 {
      BitAndSelf(s / 2);
    }
  }

  /** A number and its successor share no bit exactly when the number is all ones. */
  lemma {:induction false} AllOnesTest(s: nat)
    ensures BitAnd(s, s + 1) == 0 <==> s + 1 == Pow2(BitLen(s))
    decreases s
  {
    if s == 0 {
    } else if s % 2 == 0 {
      assert (s + 1) / 2 == s / 2;
      BitAndSelf(s / 2);
      assert BitAnd(s, s + 1) == 2 * (s / 2);
      assert s + 1 != Pow2(BitLen(s));
    } else {
      AllOnesTest(s / 2);
      assert (s + 1) / 2 == s / 2 + 1;
    }
  }

  /** A mask of low ones tests whether clearing those bits changes anything. */
  lemma {:induction false} LowBitsTest(a: nat, k: nat)
    ensures BitAnd(a, Pow2(k) - 1) == a - ClearLow(a, k)
    decreases k
  {
    if k > 0 {
      LowBitsTest(a / 2, k - 1);
      assert (Pow2(k) - 1) / 2 == Pow2(k - 1) - 1;
    }
  }

  /** Masking with a netmask of `w - h` leading ones clears the `h` host bits. */
  lemma {:induction false} NetmaskClears(x: nat, w: nat, h: nat)
    requires h <= w && x < Pow2(w)
    ensures Pow2(h) <= Pow2(w)
    ensures BitAnd(x, Pow2(w) - Pow2(h)) == ClearLow(x, h)
    decreases h
  {
    if h == 0 {
      LowBitsTest(x, w);
      ClearAll(x, w);
    } else {
      NetmaskClears(x / 2, w - 1, h - 1);
      assert (Pow2(w) - Pow2(h)) / 2 == Pow2(w - 1) - Pow2(h - 1);
    }
  }

  // ----- ranges reported by the kernel -----

  /** Successor in unsigned arithmetic of `bits` bits. */
  function WrappingSucc(x: nat, bits: nat): nat {
    if x + 1 == Pow2(bits) then 0 else x + 1
  }

  /** The two bit tests on a range, carried out in `bits`-bit arithmetic. */
  predicate SpanTests(lo: nat, hi: nat, bits: nat)
    requires lo <= hi
  {
    BitAnd(hi - lo, WrappingSucc(hi - lo, bits)) == 0 && BitAnd(lo, hi - lo) == 0
  }

  /** Both families are checked in 128-bit arithmetic. */
  const WORD: nat := 128

  /** The sync client's check on a range of its interval sets. */
  predicate IsCidr(lo: Ip, hi: Ip) {
    lo.family == hi.family && lo.addr <= hi.addr && SpanTests(lo.addr, hi.addr, WORD)
  }

  /** The daemon's reading of a range: the net it spans, or nothing. A prefix length that the family
      does not have is refused by the net type itself. */
  function RangeToNet(lo: Ip, hi: Ip): Option<Net> {
    if lo.family != hi.family || hi.addr < lo.addr then None
    else if !SpanTests(lo.addr, hi.addr, WORD) then None
    else
      var hostBits := BitLen(hi.addr - lo.addr);
      if hostBits > Width(lo.family) then None
      else Some(Net(lo.family, lo.addr, Width(lo.family) - hostBits))
  }

  lemma {:induction false} BitLenPow2(k: nat)
    ensures BitLen(Pow2(k) - 1) == k
  {
    if k > 0 {
      BitLenPow2(k - 1);
      assert (Pow2(k) - 1) / 2 == Pow2(k - 1) - 1;
    }
  }

  /** The bit tests in terms of powers of two, the wrap at 2^bits included. */
  lemma SpanTestsMeaning(lo: nat, hi: nat, bits: nat)
    requires lo <= hi < Pow2(bits)
    ensures var k := BitLen(hi - lo);
            SpanTests(lo, hi, bits) <==> hi - lo + 1 == Pow2(k) && ClearLow(lo, k) == lo
  {
    var span := hi - lo;
    if span + 1 == Pow2(bits) {
      BitLenPow2(bits);
    } else {
      AllOnesTest(span);
    }
    LowBitsTest(lo, BitLen(span));
  }

  ghost predicate Spans(n: Net, lo: Ip, hi: Ip) {
    n.Canonical() && n.family == lo.family == hi.family && n.First() == lo.addr && n.Last() == hi.addr
  }

  lemma InWord(ip: Ip)
    requires ip.Valid()
    ensures ip.addr < Pow2(WORD)
  {
    if ip.family == V4 {
      Pow2Monotone(32, WORD);
    }
  }

  /** Ranges of equal end points: the host bits of the net are the bit length of the span. */
  lemma SpanOfNet(n: Net, lo: Ip, hi: Ip)
    requires Spans(n, lo, hi)
    ensures lo.addr <= hi.addr && BitLen(hi.addr - lo.addr) == n.HostBits()
    ensures hi.addr - lo.addr + 1 == Pow2(n.HostBits()) && ClearLow(lo.addr, n.HostBits()) == lo.addr
  {
    hide Pow2, ClearLow, BitAnd, BitLen;
    BitLenPow2(n.HostBits());
  }

  /** The daemon reads a range as a net exactly when the net spans it. */
  lemma RangeToNetExact(lo: Ip, hi: Ip, n: Net)
    requires lo.Valid() && hi.Valid()
    ensures RangeToNet(lo, hi) == Some(n) <==> Spans(n, lo, hi)
  {
    hide Pow2, ClearLow, BitAnd, BitLen, SpanTests;
    InWord(hi);
    if lo.family == hi.family && lo.addr <= hi.addr {
      SpanTestsMeaning(lo.addr, hi.addr, WORD);
    }
    if Spans(n, lo, hi) {
      SpanOfNet(n, lo, hi);
    }
  }

  /** The check of the sync client accepts exactly the ranges of CIDR blocks. */
  lemma IsCidrExact(lo: Ip, hi: Ip)
    requires lo.Valid() && hi.Valid()
    ensures IsCidr(lo, hi) <==> exists n: Net :: Spans(n, lo, hi)
    ensures IsCidr(lo, hi) <==> RangeToNet(lo, hi).Some?
  {
    hide Pow2, ClearLow, BitAnd, BitLen, SpanTests;
    if IsCidr(lo, hi) {
      InWord(hi);
      SpanTestsMeaning(lo.addr, hi.addr, WORD);
      var k := BitLen(hi.addr - lo.addr);
      if k > Width(lo.family) {
        Pow2Monotone(Width(lo.family), k);
      }
      RangeToNetExact(lo, hi, RangeToNet(lo, hi).value);
    }
    if n: Net :| Spans(n, lo, hi) {
      RangeToNetExact(lo, hi, n);
    }
  }

  /** Every net survives the trip through its range; host bits are dropped on the way. */
  lemma RangeRoundTrip(n: Net)
    requires n.Valid()
    ensures RangeToNet(Ip(n.family, n.First()), Ip(n.family, n.Last())) == Some(n.Trunc())
    ensures IsCidr(Ip(n.family, n.First()), Ip(n.family, n.Last()))
  {
    hide Pow2, ClearLow, BitAnd, BitLen;
    NetBounds(n);
    RangeToNetExact(Ip(n.family, n.First()), Ip(n.family, n.Last()), n.Trunc());
  }
}
