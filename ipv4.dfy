/** The IPv4 side of Python's `ipaddress.ip_network(text, strict=False)` and
    of `network.hosts()`, as `IPRangeScanner.scan` uses them: dotted-quad
    addresses, prefix lengths and masks, host bits cleared, and the usable
    hosts of the block (RFC 4632 blocks; a /31 is a point-to-point link whose
    two addresses are both hosts, as in RFC 3021). */
module IPv4 {
  import opened Wrappers
  import opened Text

  /** 2^32: the number of IPv4 addresses. */
  const Space: nat := 0x1_0000_0000

  type Address = n: nat | n < 0x1_0000_0000

  // ---------------------------------------------------------------------
  // Decimal digits
  // ---------------------------------------------------------------------

  function DigitValue(c: char): nat
    requires IsDigit(c)
  {
    c as int - '0' as int
  }

  function DigitChar(d: nat): char
    requires d < 10
  {
    ('0' as int + d) as char
  }

  /** `int(s)` for a string of ASCII digits. */
  function DigitsValue(s: string): nat
    requires AllDigits(s)
    decreases |s|
  {
    if s == [] then 0 else DigitsValue(s[..|s| - 1]) * 10 + DigitValue(s[|s| - 1])
  }

  /** `str(v)`: decimal digits, without leading zeros. */
  function Decimal(v: nat): (s: string)
    ensures s != [] && AllDigits(s) && DigitsValue(s) == v
    ensures s[0] == '0' ==> s == "0"
    decreases v
  {
    if v < 10 then [DigitChar(v)]
    else
      var s := Decimal(v / 10) + [DigitChar(v % 10)];
      assert s[..|s| - 1] == Decimal(v / 10);
      s
  }

  /** One digit below ten, two below a hundred, three below a thousand. */
  lemma {:induction false} DecimalLength(v: nat)
    ensures v < 10 ==> |Decimal(v)| == 1
    ensures v < 100 ==> |Decimal(v)| <= 2
    ensures v < 1000 ==> |Decimal(v)| <= 3
    decreases v
  {
    if v >= 10 {
      DecimalLength(v / 10);
    }
  }

  /** A string of digits with a leading digit other than `0` has a value of
      at least one. */
  lemma {:induction false} LeadingDigitPositive(s: string)
    requires s != [] && AllDigits(s) && s[0] != '0'
    ensures DigitsValue(s) >= 1
    decreases |s|
  {
    if |s| > 1 {
      LeadingDigitPositive(s[..|s| - 1]);
    }
  }

  /** Digits without a superfluous leading zero are the decimal form of their
      value: such a string is the only one that denotes its number. */
  lemma {:induction false} DecimalOfDigits(s: string)
    requires s != [] && AllDigits(s) && (s[0] == '0' ==> s == "0")
    ensures Decimal(DigitsValue(s)) == s
    decreases |s|
  {
    var v := DigitsValue(s);
    if |s| == 1 {
      assert DigitChar(DigitValue(s[0])) == s[0];
      assert [s[0]] == s;
    } else {
      var front := s[..|s| - 1];
      LeadingDigitPositive(front);
      DecimalOfDigits(front);
      assert v / 10 == DigitsValue(front) && v % 10 == DigitValue(s[|s| - 1]);
      assert DigitChar(DigitValue(s[|s| - 1])) == s[|s| - 1];
      assert s == front + [s[|s| - 1]];
    }
  }

  // ---------------------------------------------------------------------
  // Addresses
  // ---------------------------------------------------------------------

  /** `_parse_octet`: non-empty ASCII digits, at most three of them, no
      leading zero (bpo-36384), at most 255. */
  function ParseOctet(s: string): Option<nat>
  {
    if s == [] || !AllDigits(s) || |s| > 3 || (s != "0" && s[0] == '0') then None
    else if DigitsValue(s) > 255 then None
    else Some(DigitsValue(s))
  }

  /** The 32-bit value of the four octets, most significant first. */
  function FromOctets(a: nat, b: nat, c: nat, d: nat): Address
    requires a < 256 && b < 256 && c < 256 && d < 256
  {
    ((a * 256 + b) * 256 + c) * 256 + d
  }

  /** `_ip_int_from_string`: exactly four dot-separated octets. */
  function ParseAddress(s: string): Option<Address>
  {
    if s == [] then None
    else
      var parts := SplitOn(s, '.');
      if |parts| != 4 then None
      else
        match (ParseOctet(parts[0]), ParseOctet(parts[1]), ParseOctet(parts[2]), ParseOctet(parts[3]))
        case (Some(a), Some(b), Some(c), Some(d)) => Some(FromOctets(a, b, c, d))
        case _ => None
  }

  /** The four octets of an address, most significant first. */
  function Octets(n: Address): (o: seq<nat>)
    ensures |o| == 4 && o[0] < 256 && o[1] < 256 && o[2] < 256 && o[3] < 256
    ensures FromOctets(o[0], o[1], o[2], o[3]) == n
  {
    var m1 := n / 256;
    var m2 := m1 / 256;
    [m2 / 256, m2 % 256, m1 % 256, n % 256]
  }

  lemma DivModByte(x: nat, d: nat)
    requires d < 256
    ensures (x * 256 + d) / 256 == x && (x * 256 + d) % 256 == d
  {
  }

  /** The octets of a value built from octets are those octets. */
  lemma OctetsFromOctets(a: nat, b: nat, c: nat, d: nat)
    requires a < 256 && b < 256 && c < 256 && d < 256
    ensures Octets(FromOctets(a, b, c, d)) == [a, b, c, d]
  {
    DivModByte((a * 256 + b) * 256 + c, d);
    DivModByte(a * 256 + b, c);
    DivModByte(a, b);
  }

  /** `str(IPv4Address(n))`: the dotted quad. */
  function FormatAddress(n: Address): string
  {
    var o := Octets(n);
    Join([Decimal(o[0]), Decimal(o[1]), Decimal(o[2]), Decimal(o[3])], '.')
  }

  lemma DigitsLackDot(s: string)
    requires AllDigits(s)
    ensures Lacks(s, '.')
  {
  }

  lemma ParseDecimalOctet(v: nat)
    requires v < 256
    ensures ParseOctet(Decimal(v)) == Some(v)
  {
    DecimalLength(v);
  }

  /** Formatting and parsing are inverse: the dotted quad of an address
      parses back to it, ... */
  lemma ParseFormatAddress(n: Address)
    ensures ParseAddress(FormatAddress(n)) == Some(n)
  {
    var o := Octets(n);
    var parts := [Decimal(o[0]), Decimal(o[1]), Decimal(o[2]), Decimal(o[3])];
    forall k | 0 <= k < 4 ensures Lacks(parts[k], '.') {
      DigitsLackDot(parts[k]);
    }
    JoinSplitOn(parts, '.');
    ParseDecimalOctet(o[0]);
    ParseDecimalOctet(o[1]);
    ParseDecimalOctet(o[2]);
    ParseDecimalOctet(o[3]);
    assert FormatAddress(n) != [] by {
      assert |Join(parts, '.')| >= |parts[0]|;
    }
  }

  /** ... and every text that parses is the dotted quad of its value, so
      each address has exactly one accepted spelling. */
  lemma FormatParseAddress(s: string)
    requires ParseAddress(s).Some?
    ensures FormatAddress(ParseAddress(s).value) == s
  {
    var parts := SplitOn(s, '.');
    var a, b, c, d := ParseOctet(parts[0]).value, ParseOctet(parts[1]).value, ParseOctet(parts[2]).value, ParseOctet(parts[3]).value;
    DecimalOfDigits(parts[0]);
    DecimalOfDigits(parts[1]);
    DecimalOfDigits(parts[2]);
    DecimalOfDigits(parts[3]);
    OctetsFromOctets(a, b, c, d);
    SplitOnJoin(s, '.');
    assert parts == [parts[0], parts[1], parts[2], parts[3]];
  }

  /** Distinct addresses are written differently. */
  lemma FormatInjective(m: Address, n: Address)
    requires FormatAddress(m) == FormatAddress(n)
    ensures m == n
  {
    ParseFormatAddress(m);
    ParseFormatAddress(n);
  }

  // ---------------------------------------------------------------------
  // Prefixes and masks
  // ---------------------------------------------------------------------

  function Pow2(k: nat): (r: nat)
    ensures r >= 1
  {
    if k == 0 then 1 else 2 * Pow2(k - 1)
  }

  lemma {:induction false} Pow2Split(k: nat, j: nat)
    ensures Pow2(k + j) == Pow2(k) * Pow2(j)
    decreases k
  {
    if k > 0 {
      Pow2Split(k - 1, j);
    }
  }

  lemma Pow2Of32()
    ensures Pow2(32) == Space
  {
    assert Pow2(2) == 4;
    Pow2Split(2, 2);
    assert Pow2(4) == 16;
    Pow2Split(4, 4);
    assert Pow2(8) == 256;
    Pow2Split(8, 8);
    assert Pow2(16) == 65536;
    Pow2Split(16, 16);
  }

  lemma {:induction false} Pow2Monotone(k: nat, j: nat)
    requires k <= j
    ensures Pow2(k) <= Pow2(j)
    decreases j
  {
    if k < j {
      Pow2Monotone(k, j - 1);
    }
  }

  /** The netmask of a `/p` block: `p` one bits, then zero bits. */
  function Netmask(p: nat): (m: nat)
    requires p <= 32
    ensures m < Space
  {
    Pow2Of32();
    Pow2Monotone(32 - p, 32);
    Space - Pow2(32 - p)
  }

  /** The hostmask of a `/p` block: the netmask's complement. */
  function Hostmask(p: nat): nat
    requires p <= 32
  {
    Pow2(32 - p) - 1
  }

  /** The first `p` from `from` on (up to 32) whose netmask, or hostmask, is `n`. */
  function MaskPrefixFrom(n: nat, from: nat, host: bool): (r: Option<nat>)
    requires from <= 33
    ensures r.Some? ==> from <= r.value <= 32 && n == (if host then Hostmask(r.value) else Netmask(r.value))
    ensures r.None? ==> forall p :: from <= p <= 32 ==> n != (if host then Hostmask(p) else Netmask(p))
    decreases 33 - from
  {
    if from == 33 then None
    else if n == (if host then Hostmask(from) else Netmask(from)) then Some(from)
    else MaskPrefixFrom(n, from + 1, host)
  }

  /** `_make_netmask` for text: a prefix length in ASCII digits, at most 32
      (leading zeros allowed); otherwise a dotted quad read first as a
      netmask and then as a hostmask (so the all-zero and all-one masks read
      as netmasks). */
  function ParseMask(s: string): (r: Option<nat>)
    ensures r.Some? ==> r.value <= 32
  {
    if s != [] && AllDigits(s) then
      if DigitsValue(s) <= 32 then Some(DigitsValue(s)) else None
    else
      match ParseAddress(s)
      case None => None
      case Some(m) =>
        match MaskPrefixFrom(m, 0, false)
        case Some(p) => Some(p)
        case None => MaskPrefixFrom(m, 0, true)
  }

  /** A block: its network address (host bits clear) and prefix length. */
  datatype Network = Network(base: Address, prefix: nat)

  /** The number of addresses in a `/p` block. */
  function BlockSize(p: nat): nat
    requires p <= 32
  {
    Pow2(32 - p)
  }

  lemma MulMonotone(a: nat, b: nat, c: nat)
    requires a <= b
    ensures a * c <= b * c
  {
  }

  /** Euclidean division has one quotient and one remainder. */
  lemma DivModUnique(n: nat, a: nat, q: nat, r: nat)
    requires a >= 1 && r < a && n == q * a + r
    ensures n / a == q && n % a == r
  {
    var q', r' := n / a, n % a;
    assert n == q' * a + r';
    if q' < q {
      MulMonotone(q' + 1, q, a);
    } else if q < q' {
      MulMonotone(q + 1, q', a);
    }
  }

  lemma MulMod(a: nat, b: nat)
    requires a >= 1
    ensures (b * a) % a == 0
  {
    DivModUnique(b * a, a, b, 0);
  }

  /** The address space is a whole number of `/p` blocks. */
  lemma SpaceAligned(p: nat)
    requires p <= 32
    ensures Space % BlockSize(p) == 0
  {
    Pow2Of32();
    Pow2Split(p, 32 - p);
    MulMod(Pow2(32 - p), Pow2(p));
  }

  /** Below a multiple of `size`, a multiple of `size` is followed by a
      whole block of `size`. */
  lemma AlignedBelow(base: nat, size: nat, top: nat)
    requires size >= 1 && base % size == 0 && top % size == 0 && base < top
    ensures base + size <= top
  {
    var q, t := base / size, top / size;
    assert base == q * size && top == t * size;
    MulMonotone(q + 1, t, size);
    assert (q + 1) * size <= t * size;
  }

  /** A block that starts on a multiple of its size ends inside the address space. */
  lemma BlockEnd(base: nat, p: nat)
    requires p <= 32 && base < Space && base % BlockSize(p) == 0
    ensures base + BlockSize(p) <= Space
  {
    SpaceAligned(p);
    AlignedBelow(base, BlockSize(p), Space);
  }

  /** Rounding down to a multiple of `size` keeps `n` inside the block
      that starts there. */
  lemma RoundDown(n: nat, size: nat)
    requires size >= 1
    ensures n % size <= n < n - n % size + size
    ensures (n - n % size) % size == 0
  {
    DivModUnique(n - n % size, size, n / size, 0);
  }

  /** `addr` with its host bits cleared: `addr & netmask`. */
  function MaskHostBits(addr: Address, p: nat): (base: Address)
    requires p <= 32
    ensures base % BlockSize(p) == 0
    ensures base <= addr < base + BlockSize(p) <= Space
  {
    var size := BlockSize(p);
    RoundDown(addr, size);
    BlockEnd(addr - addr % size, p);
    addr - addr % size
  }

  predicate ValidNetwork(net: Network)
  {
    net.prefix <= 32 && net.base % BlockSize(net.prefix) == 0
  }

  /** `ip_network(cidr, strict=False)` for IPv4 text: an address, and
      optionally `/` and a mask; more than one `/` is an error. */
  function ParseNetwork(cidr: string): (r: Option<Network>)
    ensures r.Some? ==> ValidNetwork(r.value)
  {
    var parts := SplitOn(cidr, '/');
    if |parts| > 2 then None
    else
      match ParseAddress(parts[0])
      case None => None
      case Some(addr) =>
        var mask := if |parts| == 1 then Some(32) else ParseMask(parts[1]);
        match mask
        case None => None
        case Some(p) => Some(Network(MaskHostBits(addr, p), p))
  }

  /** The addresses `hosts()` yields, in increasing order: the whole block
      for /31 (RFC 3021) and /32, otherwise every address of the block but
      the first (the network address) and the last (the broadcast address). */
  function HostAddresses(net: Network): (hosts: seq<Address>)
    requires ValidNetwork(net)
    ensures forall i :: 0 <= i < |hosts| ==> net.base <= hosts[i] < net.base + BlockSize(net.prefix)
  {
    var size := BlockSize(net.prefix);
    BlockEnd(net.base, net.prefix);
    var (lo, hi) :=
      if net.prefix >= 31 then (net.base, net.base + size)
      else
        assert size >= 4 by {
          assert Pow2(2) == 4;
          Pow2Split(2, 30 - net.prefix);
        }
        (net.base + 1, net.base + size - 1);
    seq(hi - lo, i requires 0 <= i < hi - lo => lo + i)
  }

  /** `[str(ip) for ip in network.hosts()]`. */
  function Hosts(net: Network): (hosts: seq<string>)
    requires ValidNetwork(net)
    ensures |hosts| == |HostAddresses(net)|
  {
    var addrs := HostAddresses(net);
    seq(|addrs|, i requires 0 <= i < |addrs| => FormatAddress(addrs[i]))
  }

  /** Hosts are listed in increasing address order, each once. */
  lemma HostAddressesAscending(net: Network)
    requires ValidNetwork(net)
    ensures forall i, j :: 0 <= i < j < |HostAddresses(net)| ==> HostAddresses(net)[i] < HostAddresses(net)[j]
  {
  }

  /** Up to /30 the network and broadcast addresses are not hosts and every
      other address of the block is, so there are two fewer hosts than
      addresses. */
  lemma HostAddressesSkipEnds(net: Network)
    requires ValidNetwork(net) && net.prefix <= 30
    ensures net.base !in HostAddresses(net)
    ensures net.base + BlockSize(net.prefix) - 1 !in HostAddresses(net)
    ensures forall n :: net.base < n < net.base + BlockSize(net.prefix) - 1 ==> n in HostAddresses(net)
    ensures |HostAddresses(net)| == BlockSize(net.prefix) - 2
  {
    var addrs := HostAddresses(net);
    forall n | net.base < n < net.base + BlockSize(net.prefix) - 1
      ensures n in addrs
    {
      assert addrs[n - net.base - 1] == n;
    }
  }

  /** A /31 lists both of its addresses; a /32 lists its one address. */
  lemma HostAddressesSmallBlocks(net: Network)
    requires ValidNetwork(net) && net.prefix >= 31
    ensures net.prefix == 31 ==> HostAddresses(net) == [net.base, net.base + 1]
    ensures net.prefix == 32 ==> HostAddresses(net) == [net.base]
  {
    if net.prefix == 31 {
      assert BlockSize(31) == 2;
    } else {
      assert BlockSize(32) == 1;
    }
  }

  /** An address is written among the hosts exactly when it is a host. */
  lemma HostsMembership(net: Network, n: Address)
    requires ValidNetwork(net)
    ensures FormatAddress(n) in Hosts(net) <==> n in HostAddresses(net)
  {
    var addrs, hosts := HostAddresses(net), Hosts(net);
    if FormatAddress(n) in hosts {
      var i :| 0 <= i < |hosts| && hosts[i] == FormatAddress(n);
      FormatInjective(addrs[i], n);
    }
    if n in addrs {
      var i :| 0 <= i < |addrs| && addrs[i] == n;
      assert hosts[i] == FormatAddress(n);
    }
  }

  /** Every listed host parses back to its address; no host is listed twice. */
  lemma HostsParse(net: Network)
    requires ValidNetwork(net)
    ensures forall i :: 0 <= i < |Hosts(net)| ==> ParseAddress(Hosts(net)[i]) == Some(HostAddresses(net)[i])
    ensures forall i, j :: 0 <= i < j < |Hosts(net)| ==> Hosts(net)[i] != Hosts(net)[j]
  {
    var addrs, hosts := HostAddresses(net), Hosts(net);
    forall i | 0 <= i < |hosts|
      ensures ParseAddress(hosts[i]) == Some(addrs[i])
    {
      ParseFormatAddress(addrs[i]);
    }
  }

  /** A dotted quad holds no `/`, and it is not a plain run of digits. */
  lemma FormatShape(n: Address)
    ensures Lacks(FormatAddress(n), '/')
    ensures !AllDigits(FormatAddress(n))
  {
    var o := Octets(n);
    var parts := [Decimal(o[0]), Decimal(o[1]), Decimal(o[2]), Decimal(o[3])];
    JoinLacks(parts, '.', '/');
    assert FormatAddress(n)[|parts[0]|] == '.';
  }

  /** A /32 block has no host bits to clear. */
  lemma MaskHostBitsWhole(n: Address)
    ensures MaskHostBits(n, 32) == n
  {
    assert BlockSize(32) == 1;
  }

  /** An address without a mask is the /32 block of that address. */
  lemma ParseNetworkBareAddress(n: Address)
    ensures ParseNetwork(FormatAddress(n)) == Some(Network(n, 32))
  {
    var text := FormatAddress(n);
    FormatShape(n);
    SplitOnLacking(text, '/');
    ParseFormatAddress(n);
    MaskHostBitsWhole(n);
  }

  /** With `strict=False` the address written before the mask may have host
      bits set: the block is the one that contains it. */
  lemma ParseNetworkContains(cidr: string)
    requires ParseNetwork(cidr).Some?
    ensures ParseAddress(SplitOn(cidr, '/')[0]).Some?
    ensures var net, addr := ParseNetwork(cidr).value, ParseAddress(SplitOn(cidr, '/')[0]).value;
      net.base <= addr < net.base + BlockSize(net.prefix)
  {
  }

  /** More than one `/` is rejected. */
  lemma ParseNetworkOneSlash(cidr: string)
    requires |SplitOn(cidr, '/')| > 2
    ensures ParseNetwork(cidr).None?
  {
  }

  lemma {:induction false} Pow2Strict(k: nat, j: nat)
    requires k < j
    ensures Pow2(k) < Pow2(j)
    decreases j
  {
    if k < j - 1 {
      Pow2Strict(k, j - 1);
    }
  }

  /** Different prefix lengths have different netmasks. */
  lemma NetmaskInjective(p: nat, q: nat)
    requires p <= 32 && q <= 32 && Netmask(p) == Netmask(q)
    ensures p == q
  {
    if p < q {
      Pow2Strict(32 - q, 32 - p);
    } else if q < p {
      Pow2Strict(32 - p, 32 - q);
    }
  }

  /** A mask written as a dotted-quad netmask gives its prefix length. */
  lemma ParseMaskNetmask(p: nat)
    requires p <= 32
    ensures ParseMask(FormatAddress(Netmask(p))) == Some(p)
  {
    var m := Netmask(p);
    FormatShape(m);
    ParseFormatAddress(m);
    var r := MaskPrefixFrom(m, 0, false);
    assert r.Some?;
    NetmaskInjective(r.value, p);
  }

  /** A hostmask is odd and below 2^31 unless its prefix is 0 or 32, while
      every netmask is even or all ones: the two kinds meet only there. */
  lemma HostmaskNotNetmask(p: nat, q: nat)
    requires 0 < p < 32 && q <= 32
    ensures Hostmask(p) != Netmask(q)
  {
    Pow2Of32();
    Pow2Monotone(32 - p, 31);
    assert Pow2(32) == 2 * Pow2(31);
    if q < 32 {
      assert Pow2(32 - q) == 2 * Pow2(31 - q);
    }
    assert Pow2(32 - p) == 2 * Pow2(31 - p);
  }

  lemma HostmaskInjective(p: nat, q: nat)
    requires p <= 32 && q <= 32 && Hostmask(p) == Hostmask(q)
    ensures p == q
  {
    if p < q {
      Pow2Strict(32 - q, 32 - p);
    } else if q < p {
      Pow2Strict(32 - p, 32 - q);
    }
  }

  /** A mask written as a dotted-quad hostmask gives its prefix length,
      except `0.0.0.0` and `255.255.255.255`, which read as netmasks. */
  lemma ParseMaskHostmask(p: nat)
    requires 0 < p < 32
    ensures Hostmask(p) < Space
    ensures ParseMask(FormatAddress(Hostmask(p))) == Some(p)
  {
    Pow2Of32();
    Pow2Monotone(32 - p, 32);
    var m := Hostmask(p);
    FormatShape(m);
    ParseFormatAddress(m);
    var asNetmask := MaskPrefixFrom(m, 0, false);
    if asNetmask.Some? {
      HostmaskNotNetmask(p, asNetmask.value);
    }
    var r := MaskPrefixFrom(m, 0, true);
    assert r.Some?;
    HostmaskInjective(r.value, p);
  }

  /** A prefix length written in decimal reads back as itself. */
  lemma ParseMaskDecimal(p: nat)
    requires p <= 32
    ensures ParseMask(Decimal(p)) == Some(p)
  {
  }

  lemma SplitCidr(n: Address, p: nat)
    ensures SplitOn(FormatAddress(n) + ['/'] + Decimal(p), '/') == [FormatAddress(n), Decimal(p)]
  {
    var a, d := FormatAddress(n), Decimal(p);
    FormatShape(n);
    assert Lacks(d, '/');
    SplitOnFirst(a, '/', d);
    SplitOnLacking(d, '/');
  }

  /** `a.b.c.d/p` is the `/p` block around the address `a.b.c.d`. */
  lemma ParseNetworkWithPrefix(n: Address, p: nat)
    requires p <= 32
    ensures ParseNetwork(FormatAddress(n) + ['/'] + Decimal(p)) == Some(Network(MaskHostBits(n, p), p))
  {
    SplitCidr(n, p);
    ParseFormatAddress(n);
    ParseMaskDecimal(p);
  }
}
