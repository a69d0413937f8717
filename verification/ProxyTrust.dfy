/** Trusted-proxy patterns: comparing address prefixes by bytes and masks. */
module ProxyTrust {
  import opened Options

  type Byte = x: int | 0 <= x < 256

  type Octets = seq<bv8>

  type Bytes = seq<Byte>

  datatype Address = V4(octets: Octets) | V6(octets: Octets) {
    predicate Valid() {
      match this
      case V4(o) => |o| == 4
      case V6(o) => |o| == 16
    }
  }

  const MAPPED: Octets := [0, 0, 0, 0, 0, 0, 0, 0, 0, 0, 0xff, 0xff]

  predicate IsMapped(a: Address)
    requires a.Valid()
  {
    a.V6? && a.octets[..12] == MAPPED
  }

  /** An IPv4-mapped IPv6 address becomes the IPv4 address it carries. */
  function Canonical(a: Address): (c: Address)
    requires a.Valid()
    ensures c.Valid()
  {
    if IsMapped(a) then V4(a.octets[12..]) else a
  }

  /** A pattern as its parts parse: a bare address, or a network and a prefix length of 0 to 255. */
  datatype Pattern = Bare(address: Option<Address>) | Block(net: Option<Address>, prefix: Option<nat>) {
    predicate Valid() {
      match this
      case Bare(address) => address.Some? ==> address.value.Valid()
      case Block(net, prefix) => net.Some? ==> net.value.Valid()
    }
  }

  /** The leading `rest` bits of a byte. */
  function Mask(rest: nat): bv8
    requires 1 <= rest <= 7
  {
    match rest
    case 1 => 0x80
    case 2 => 0xc0
    case 3 => 0xe0
    case 4 => 0xf0
    case 5 => 0xf8
    case 6 => 0xfc
    case 7 => 0xfe
  }

  lemma MaskKeepsLeadingBits(rest: nat)
    requires 1 <= rest <= 7
    ensures Mask(rest) == 0xff << (8 - rest)
  {
  }

  /** Whole bytes first, then the leading bits of the next one; nothing is read past the end. */
  predicate PrefixEq(a: Octets, b: Octets, prefix: nat, max: nat)
    requires |a| == |b| && 8 * |a| == max
  {
    prefix <= max
    && (var whole := prefix / 8;
        var rest := prefix % 8;
        && a[..whole] == b[..whole]
        && (rest == 0 || a[whole] & Mask(rest) == b[whole] & Mask(rest)))
  }

  /** `ip` has been made canonical; a bare pattern is too, a network is taken as written. */
  predicate PatternMatches(p: Pattern, ip: Address)
    requires ip.Valid() && p.Valid()
  {
    match p
    case Bare(address) => address.Some? && Canonical(address.value) == ip
    case Block(net, prefix) =>
      if net.None? || prefix.None? || prefix.value > 255 then false
      else
        match (net.value, ip)
        case (V4(n), V4(i)) => PrefixEq(n, i, prefix.value, 32)
        case (V6(n), V6(i)) => PrefixEq(n, i, prefix.value, 128)
        case _ => false
  }

  predicate IsTrusted(patterns: seq<Pattern>, ip: Address)
    requires ip.Valid() && forall k :: 0 <= k < |patterns| ==> patterns[k].Valid()
  {
    exists k :: 0 <= k < |patterns| && PatternMatches(patterns[k], Canonical(ip))
  }

  // ----- the numeric meaning -----

  function Value(x: bv8): Byte {
    x as int
  }

  function Values(a: Octets): (v: Bytes)
    ensures |v| == |a| && forall i :: 0 <= i < |a| ==> v[i] == Value(a[i])
  {
    seq(|a|, i requires 0 <= i < |a| => Value(a[i]))
  }

  /** Octets agree up to `k` exactly when their values do. */
  lemma SameValues(a: Octets, b: Octets, k: nat)
    requires k <= |a| == |b|
    ensures a[..k] == b[..k] <==> Values(a)[..k] == Values(b)[..k]
  {
  }

  /** The address as a number, first byte most significant. */
  function Number(a: Bytes): nat {
    if a == [] then 0 else 256 * Number(a[..|a| - 1]) + a[|a| - 1]
  }

  function Pow2(e: nat): (p: nat)
    ensures p >= 1
  {
    if e == 0 then 1 else 2 * Pow2(e - 1)
  }

  lemma MulAtLeast(m: nat, k: nat)
    ensures k >= 1 ==> m * k >= m
  {
  }

  /** No multiple of `m` but zero lies strictly between `-m` and `m`. */
  lemma SmallMultiple(m: int, d: int)
    requires -m < m * d < m
    ensures d == 0
  {
  }

  lemma QuotientUnique(n: nat, m: nat, q: nat, r: nat)
    requires m >= 1 && n == m * q + r && r < m
    ensures n / m == q
  {
    var q', r' := n / m, n % m;
    assert n == m * q' + r' && 0 <= r' < m;
    assert m * (q - q') == m * q - m * q' == r' - r;
    SmallMultiple(m, q - q');
  }

  lemma HalveFirst(x: nat, m: nat)
    requires m >= 1
    ensures x / (2 * m) == x / 2 / m
  {
    var q, r := x / 2 / m, x / 2 % m;
    assert x / 2 == m * q + r && 0 <= r < m;
    assert x == 2 * (m * q + r) + x % 2;
    assert 2 * (m * q) == (2 * m) * q;
    QuotientUnique(x, 2 * m, q, 2 * r + x % 2);
  }

  /** Halving `e` times. */
  function Halved(n: nat, e: nat): nat {
    if e == 0 then n else Halved(n / 2, e - 1)
  }

  lemma {:induction false} HalvedDivides(n: nat, e: nat)
    ensures Halved(n, e) == n / Pow2(e)
    decreases e
  {
    if e > 0 {
      HalvedDivides(n / 2, e - 1);
      HalveFirst(n, Pow2(e - 1));
    }
  }

  lemma {:induction false} HalvedTwice(n: nat, i: nat, j: nat)
    ensures Halved(n, i + j) == Halved(Halved(n, i), j)
    decreases i
  {
    if i > 0 {
      HalvedTwice(n / 2, i - 1, j);
    }
  }

  /** How many values of a byte share their leading `rest` bits. */
  function Span(rest: nat): nat
    requires 1 <= rest <= 7
  {
    match rest
    case 1 => 128
    case 2 => 64
    case 3 => 32
    case 4 => 16
    case 5 => 8
    case 6 => 4
    case 7 => 2
  }

  lemma SpanIsPower(rest: nat)
    requires 1 <= rest <= 7
    ensures Span(rest) == Pow2(8 - rest) && Span(rest) * Pow2(rest) == 256
  {
    PowersUpTo8();
  }

  lemma PowersUpTo8()
    ensures Pow2(1) == 2 && Pow2(2) == 4 && Pow2(3) == 8 && Pow2(4) == 16
    ensures Pow2(5) == 32 && Pow2(6) == 64 && Pow2(7) == 128 && Pow2(8) == 256
  {
  }

  lemma DropByte(p: nat, x: nat)
    requires x < 256
    ensures Halved(256 * p + x, 8) == p
  {
    PowersUpTo8();
    HalvedDivides(256 * p + x, 8);
  }

  /** Halving eight times for each byte drops the bytes at the end. */
  lemma {:induction false} DropBytes(a: Bytes, k: nat)
    requires k <= |a|
    ensures Halved(Number(a), 8 * k) == Number(a[..|a| - k])
    decreases k
  {
    if k == 0 {
      assert a[..|a|] == a;
    } else {
      var n := |a| - 1;
      HalvedTwice(Number(a), 8, 8 * (k - 1));
      assert 8 + 8 * (k - 1) == 8 * k;
      DropByte(Number(a[..n]), a[n]);
      DropBytes(a[..n], k - 1);
      assert a[..n][..n - (k - 1)] == a[..|a| - k];
    }
  }

  lemma EqualByLast(a: Bytes, b: Bytes, n: nat)
    requires |a| == |b| == n + 1
    ensures a == b <==> a[..n] == b[..n] && a[n] == b[n]
  {
  }

  /** Equally long byte strings are equal when their numbers are. */
  lemma {:induction false} NumberInjective(a: Bytes, b: Bytes)
    requires |a| == |b|
    ensures Number(a) == Number(b) <==> a == b
  {
    if a != [] {
      var n := |a| - 1;
      DigitsAgree(256, Number(a[..n]), a[n], Number(b[..n]), b[n]);
      NumberInjective(a[..n], b[..n]);
      EqualByLast(a, b, n);
    }
  }

  /** The leading `rest` bits of a byte, shifted down. */
  function High(x: bv8, rest: nat): bv8
    requires 1 <= rest <= 7
  {
    match rest
    case 1 => x >> 7
    case 2 => x >> 6
    case 3 => x >> 5
    case 4 => x >> 4
    case 5 => x >> 3
    case 6 => x >> 2
    case 7 => x >> 1
  }

  lemma MaskIsShift(x: bv8, y: bv8, rest: nat)
    requires 1 <= rest <= 7
    ensures x & Mask(rest) == y & Mask(rest) <==> High(x, rest) == High(y, rest)
  {
  }

  lemma Shift7(x: bv8)
    ensures (x >> 7) as int == x as int / 128
  {
  }

  lemma Shift6(x: bv8)
    ensures (x >> 6) as int == x as int / 64
  {
  }

  lemma Shift5(x: bv8)
    ensures (x >> 5) as int == x as int / 32
  {
  }

  lemma Shift4(x: bv8)
    ensures (x >> 4) as int == x as int / 16
  {
  }

  lemma Shift3(x: bv8)
    ensures (x >> 3) as int == x as int / 8
  {
  }

  lemma Shift2(x: bv8)
    ensures (x >> 2) as int == x as int / 4
  {
  }

  lemma Shift1(x: bv8)
    ensures (x >> 1) as int == x as int / 2
  {
  }

  lemma ShiftIsQuotient(x: bv8, rest: nat)
    requires 1 <= rest <= 7
    ensures High(x, rest) as int == x as int / Span(rest)
  {
    match rest
    case 1 => Shift7(x);
    case 2 => Shift6(x);
    case 3 => Shift5(x);
    case 4 => Shift4(x);
    case 5 => Shift3(x);
    case 6 => Shift2(x);
    case 7 => Shift1(x);
  }

  /** Masking keeps exactly the quotient by the masked-out range. */
  lemma MaskIsQuotient(x: bv8, y: bv8, rest: nat)
    requires 1 <= rest <= 7
    ensures x & Mask(rest) == y & Mask(rest) <==> x as int / Span(rest) == y as int / Span(rest)
  {
    MaskIsShift(x, y, rest);
    ShiftIsQuotient(x, rest);
    ShiftIsQuotient(y, rest);
  }

  lemma Regroup(lo: nat, hi: nat, p: nat, q: nat)
    ensures lo * (hi * p + q) == lo * hi * p + lo * q
  {
  }

  lemma QuotientBelow(lo: nat, hi: nat, q: nat)
    requires lo * q < lo * hi
    ensures q < hi
  {
  }

  lemma CutQuotient(p: nat, x: nat, lo: nat, hi: nat)
    requires lo >= 1 && lo * hi == 256 && x < 256
    ensures (256 * p + x) / lo == hi * p + x / lo && x / lo < hi
  {
    var q, r := x / lo, x % lo;
    assert x == lo * q + r && 0 <= r < lo;
    Regroup(lo, hi, p, q);
    QuotientUnique(256 * p + x, lo, hi * p + q, r);
    QuotientBelow(lo, hi, q);
  }

  lemma DigitsAgree(hi: nat, p: nat, u: nat, q: nat, v: nat)
    requires u < hi && v < hi
    ensures hi * p + u == hi * q + v <==> p == q && u == v
  {
    if hi * p + u == hi * q + v {
      QuotientUnique(hi * p + u, hi, p, u);
      QuotientUnique(hi * q + v, hi, q, v);
    }
  }

  /** A number made of `p` and one more byte, cut inside that byte. */
  lemma CutByte(p: nat, x: nat, q: nat, y: nat, rest: nat)
    requires 1 <= rest <= 7 && x < 256 && y < 256
    ensures Halved(256 * p + x, 8 - rest) == Halved(256 * q + y, 8 - rest)
       <==> p == q && x / Span(rest) == y / Span(rest)
  {
    var lo, hi := Span(rest), Pow2(rest);
    SpanIsPower(rest);
    HalvedDivides(256 * p + x, 8 - rest);
    HalvedDivides(256 * q + y, 8 - rest);
    CutQuotient(p, x, lo, hi);
    CutQuotient(q, y, lo, hi);
    DigitsAgree(hi, p, x / lo, q, y / lo);
  }

  lemma WholeBytes(a: Bytes, b: Bytes, whole: nat)
    requires |a| == |b| && whole <= |a|
    ensures var e := 8 * (|a| - whole);
            a[..whole] == b[..whole] <==> Halved(Number(a), e) == Halved(Number(b), e)
  {
    DropBytes(a, |a| - whole);
    DropBytes(b, |a| - whole);
    NumberInjective(a[..whole], b[..whole]);
  }

  /** The number above a cut inside byte `whole`. */
  lemma CutInside(a: Bytes, whole: nat, rest: nat)
    requires whole < |a| && 1 <= rest <= 7
    ensures Halved(Number(a), 8 * (|a| - whole - 1) + (8 - rest))
         == Halved(256 * Number(a[..whole]) + a[whole], 8 - rest)
  {
    var k := |a| - whole - 1;
    HalvedTwice(Number(a), 8 * k, 8 - rest);
    DropBytes(a, k);
    LastByte(a, whole);
  }

  lemma PartialBytes(a: Bytes, b: Bytes, whole: nat, rest: nat)
    requires |a| == |b| && whole < |a| && 1 <= rest <= 7
    ensures var e := 8 * (|a| - whole - 1) + (8 - rest);
            Halved(Number(a), e) == Halved(Number(b), e)
            <==> a[..whole] == b[..whole] && a[whole] / Span(rest) == b[whole] / Span(rest)
  {
    CutInside(a, whole, rest);
    CutInside(b, whole, rest);
    CutByte(Number(a[..whole]), a[whole], Number(b[..whole]), b[whole], rest);
    NumberInjective(a[..whole], b[..whole]);
  }

  lemma PrefixEqIsHalved(a: Octets, b: Octets, prefix: nat, max: nat)
    requires |a| == |b| && 8 * |a| == max && prefix <= max
    ensures PrefixEq(a, b, prefix, max) <==>
              Halved(Number(Values(a)), max - prefix) == Halved(Number(Values(b)), max - prefix)
  {
    var whole, rest := prefix / 8, prefix % 8;
    SameValues(a, b, whole);
    if rest == 0 {
      assert max - prefix == 8 * (|a| - whole);
      WholeBytes(Values(a), Values(b), whole);
    } else {
      assert max - prefix == 8 * (|a| - whole - 1) + (8 - rest);
      PartialBytes(Values(a), Values(b), whole, rest);
      MaskIsQuotient(a[whole], b[whole], rest);
    }
  }

  /**
   Addresses share a prefix when they agree after division by the size of the block, for every
   length of address and every prefix; a prefix longer than the address matches nothing.
   */
  lemma PrefixEqIsNumeric(a: Octets, b: Octets, prefix: nat, max: nat)
    requires |a| == |b| && 8 * |a| == max
    ensures PrefixEq(a, b, prefix, max) <==>
              prefix <= max && Number(Values(a)) / Pow2(max - prefix) == Number(Values(b)) / Pow2(max - prefix)
  {
    if prefix <= max {
      PrefixEqIsHalved(a, b, prefix, max);
      HalvedDivides(Number(Values(a)), max - prefix);
      HalvedDivides(Number(Values(b)), max - prefix);
    }
  }

  lemma LastByte(a: Bytes, whole: nat)
    requires whole < |a|
    ensures Number(a[..whole + 1]) == 256 * Number(a[..whole]) + a[whole]
  {
    assert a[..whole + 1][..whole] == a[..whole];
  }

  /** Two addresses of one width in the same numeric block. */
  predicate InRange(net: Octets, prefix: nat, ip: Octets) {
    var bits := 8 * |net|;
    && prefix <= bits
    && Number(Values(net)) / Pow2(bits - prefix) == Number(Values(ip)) / Pow2(bits - prefix)
  }

  lemma CanonicalMatches(net: Address, prefix: nat, ip: Address)
    requires net.Valid() && ip.Valid() && prefix <= 255
    ensures PatternMatches(Block(Some(net), Some(prefix)), ip) <==>
              net.V4? == ip.V4? && InRange(net.octets, prefix, ip.octets)
  {
    if net.V4? == ip.V4? {
      PrefixEqIsNumeric(net.octets, ip.octets, prefix, 8 * |net.octets|);
    }
  }

  /**
   Which peers, as they arrive, a block matches. An IPv4 block: those in its numeric range, by
   their own four bytes or, when mapped, by the last four. An IPv6 block: those in its range that
   are not mapped.
   */
  lemma BlockMatches(net: Address, prefix: nat, peer: Address)
    requires net.Valid() && peer.Valid() && prefix <= 255
    ensures PatternMatches(Block(Some(net), Some(prefix)), Canonical(peer)) <==>
              if net.V4?
              then (peer.V4? && InRange(net.octets, prefix, peer.octets))
                   || (IsMapped(peer) && InRange(net.octets, prefix, peer.octets[12..]))
              else peer.V6? && !IsMapped(peer) && InRange(net.octets, prefix, peer.octets)
  {
    CanonicalMatches(net, prefix, Canonical(peer));
  }

  /** A bare address matches itself, and an IPv4 address and its mapped form match each other. */
  lemma BareMatches(address: Address, peer: Address)
    requires address.Valid() && peer.Valid()
    ensures PatternMatches(Bare(Some(address)), Canonical(peer)) <==>
              || address == peer
              || (address.V4? && peer.V6? && peer.octets == MAPPED + address.octets)
              || (peer.V4? && address.V6? && address.octets == MAPPED + peer.octets)
  {
    SplitMapped(address);
    SplitMapped(peer);
  }

  lemma SplitMapped(a: Address)
    requires a.Valid()
    ensures IsMapped(a) ==> a.octets == MAPPED + a.octets[12..]
  {
  }

  /** What does not parse matches nothing. */
  lemma UnparsedMatchesNothing(p: Pattern, peer: Address)
    requires p.Valid() && peer.Valid()
    requires match p case Bare(a) => a.None? case Block(n, k) => n.None? || k.None?
    ensures !PatternMatches(p, Canonical(peer))
  {
  }

  /** A peer is trusted by a list exactly when some pattern of it trusts the peer. */
  lemma TrustedByOne(a: seq<Pattern>, p: Pattern, b: seq<Pattern>, peer: Address)
    requires peer.Valid() && p.Valid()
    requires (forall k :: 0 <= k < |a| ==> a[k].Valid()) && (forall k :: 0 <= k < |b| ==> b[k].Valid())
    ensures !IsTrusted([], peer)
    ensures IsTrusted(a + [p] + b, peer) <==>
              IsTrusted(a, peer) || PatternMatches(p, Canonical(peer)) || IsTrusted(b, peer)
  {
    var all := a + [p] + b;
    assert all[|a|] == p;
    assert forall k :: 0 <= k < |b| ==> all[|a| + 1 + k] == b[k];
    assert forall k :: 0 <= k < |a| ==> all[k] == a[k];
    if IsTrusted(all, peer) {
      var k :| 0 <= k < |all| && PatternMatches(all[k], Canonical(peer));
      if k > |a| {
        assert all[k] == b[k - |a| - 1];
      }
    }
  }

  /** How an IPv4 peer looks to a dual-stack socket. */
  function Mapped(ip: Address): (m: Address)
    requires ip.V4? && ip.Valid()
    ensures m.V6? && m.Valid() && Canonical(m) == ip
  {
    V6(MAPPED + ip.octets)
  }

  /** A peer is trusted alike whether it arrives as IPv4 or mapped into IPv6. */
  lemma TrustIgnoresMapping(patterns: seq<Pattern>, ip: Address)
    requires ip.V4? && ip.Valid() && forall k :: 0 <= k < |patterns| ==> patterns[k].Valid()
    ensures IsTrusted(patterns, Mapped(ip)) == IsTrusted(patterns, ip)
  {
  }

  /** The block matches some peer. */
  ghost predicate TrustsSomebody(net: Address, prefix: nat)
    requires net.Valid()
  {
    exists peer: Address :: peer.Valid() && PatternMatches(Block(Some(net), Some(prefix)), Canonical(peer))
  }

  lemma PrefixEqReflexive(a: Octets, prefix: nat, max: nat)
    requires 8 * |a| == max && prefix <= max
    ensures PrefixEq(a, a, prefix, max)
  {
  }

  /** A peer outside the mapped range that still shares a prefix shorter than 96 with one inside. */
  function Outside(net: Address): (peer: Address)
    requires net.Valid() && IsMapped(net)
    ensures peer.Valid() && peer.V6? && !IsMapped(peer)
  {
    var peer := V6(net.octets[11 := 0xfe]);
    assert peer.octets[..12][11] == 0xfe;
    peer
  }

  lemma LowBitMasked(rest: nat)
    requires 1 <= rest <= 7
    ensures 0xff & Mask(rest) == 0xfe & Mask(rest)
  {
  }

  lemma OutsideMatches(net: Address, prefix: nat)
    requires net.Valid() && IsMapped(net) && prefix < 96
    ensures PatternMatches(Block(Some(net), Some(prefix)), Outside(net))
  {
    var whole, rest := prefix / 8, prefix % 8;
    assert net.octets[11] == net.octets[..12][11] == 0xff;
    assert net.octets[..whole] == Outside(net).octets[..whole];
    if rest != 0 {
      LowBitMasked(rest);
    }
  }

  /** Inside the mapped range every peer has become IPv4, and an IPv6 block matches none of them. */
  lemma MappedBlockTrustsNobody(net: Address, prefix: nat, peer: Address)
    requires net.Valid() && peer.Valid() && IsMapped(net) && prefix >= 96
    ensures !PatternMatches(Block(Some(net), Some(prefix)), Canonical(peer))
  {
  }

  /**
   Which blocks trust anybody. The network is taken as written, so a block inside the mapped
   range, written as IPv6, trusts nobody, not even the peers it names; every other block whose
   prefix fits its address does.
   */
  lemma BlockTrustsSomebodyIff(net: Address, prefix: nat)
    requires net.Valid() && prefix <= 255
    ensures TrustsSomebody(net, prefix) <==> prefix <= 8 * |net.octets| && !(IsMapped(net) && prefix >= 96)
  {
    if IsMapped(net) && prefix >= 96 {
      forall peer: Address | peer.Valid() ensures !PatternMatches(Block(Some(net), Some(prefix)), Canonical(peer)) {
        MappedBlockTrustsNobody(net, prefix, peer);
      }
    } else if prefix <= 8 * |net.octets| {
      if IsMapped(net) {
        OutsideMatches(net, prefix);
        assert Canonical(Outside(net)) == Outside(net);
      } else {
        PrefixEqReflexive(net.octets, prefix, 8 * |net.octets|);
        assert PatternMatches(Block(Some(net), Some(prefix)), Canonical(net));
      }
    }
  }
}
