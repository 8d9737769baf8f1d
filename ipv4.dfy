/**
 IPv4 address arithmetic: dotted-decimal text to a 32-bit integer and back,
 the subnet mask of a prefix length, and the expansion of a CIDR block into
 every address it contains, network and broadcast addresses included.
 */
module IPv4 {
  import opened Bits
  import opened Text
  import opened Wrappers

  /** 2^32, the number of IPv4 addresses. */
  const ADDRESS_COUNT: nat := 0x1_0000_0000

  /** 0xFFFFFFFF, the all-ones 32-bit value. */
  const ALL_ONES: nat := 0xFFFF_FFFF

  /** The right-shift amounts of the four octets, most significant first. */
  const OCTET_SHIFTS: seq<nat> := [24, 16, 8, 0]

  /**
   Text that splits at '.' into exactly four decimal numerals: what
   `a, b, c, d = ip.split(".")` and `int()` accept.
   */
  predicate IsDottedQuad(s: string)
    ensures IsDottedQuad(s) ==> Occurrences(s, '.') == 3 && '/' !in s
  {
    var parts := Split(s, '.');
    SplitCount(s, '.');
    if |parts| == 4 && forall i :: 0 <= i < 4 ==> IsNumeral(parts[i]) then
      NumeralsHaveNoDot(parts);
      JoinSplit(s, '.');
      NotInJoin(parts, ".", '/');
      true
    else
      false
  }

  /** The value of part i (0 is the leftmost) of a dotted quad. */
  function OctetOf(s: string, i: nat): nat
    requires IsDottedQuad(s) && i < 4
  {
    NumeralValue(Split(s, '.')[i])
  }

  /** Four numerals joined with '.' make a dotted quad whose values are theirs. */
  lemma DottedQuadOfParts(parts: seq<string>)
    requires |parts| == 4 && forall i :: 0 <= i < 4 ==> IsNumeral(parts[i])
    ensures IsDottedQuad(Join(parts, "."))
      && forall i :: 0 <= i < 4 ==> IsNumeral(parts[i]) && OctetOf(Join(parts, "."), i) == NumeralValue(parts[i])
  {
    NumeralsHaveNoDot(parts);
    SplitJoin(parts, '.');
  }

  /** A dotted quad whose four values are octets, 0 .. 255. */
  predicate IsAddress(s: string)
  {
    IsDottedQuad(s) && forall i :: 0 <= i < 4 ==> OctetOf(s, i) < 256
  }

  /** An address as Python's `str()` prints it: no leading zeros. */
  predicate IsCanonicalAddress(s: string)
  {
    IsAddress(s) && forall i :: 0 <= i < 4 ==> IsCanonicalNumeral(Split(s, '.')[i])
  }

  /**
   `IPToInt`: the four values shifted into place and OR-ed together. On an
   address this is the base-256 number of its octets, below 2^32; a value
   above 255 overlaps its neighbours' bits and is OR-ed in all the same.
   */
  function IPToInt(ip: string): (n: nat)
    requires IsDottedQuad(ip)
    ensures IsAddress(ip) ==> n < ADDRESS_COUNT
    ensures IsAddress(ip) ==>
      n == OctetOf(ip, 0) * 0x100_0000 + OctetOf(ip, 1) * 0x1_0000 + OctetOf(ip, 2) * 0x100 + OctetOf(ip, 3)
  {
    var a, b, c, d := OctetOf(ip, 0), OctetOf(ip, 1), OctetOf(ip, 2), OctetOf(ip, 3);
    PackOctets(a, b, c, d);
    Or(Or(Or(Shl(a, 24), Shl(b, 16)), Shl(c, 8)), d)
  }

  /** OR-ing octets shifted into disjoint byte positions is base-256 addition. */
  lemma PackOctets(a: nat, b: nat, c: nat, d: nat)
    ensures a < 256 && b < 256 && c < 256 && d < 256 ==>
      Or(Or(Or(Shl(a, 24), Shl(b, 16)), Shl(c, 8)), d) == a * 0x100_0000 + b * 0x1_0000 + c * 0x100 + d
  {
    if a < 256 && b < 256 && c < 256 && d < 256 {
      PackBytes(a, b, c, d);
    }
  }

  lemma PackBytes(a: nat, b: nat, c: nat, d: nat)
    requires a < 256 && b < 256 && c < 256 && d < 256
    ensures Or(Or(Or(Shl(a, 24), Shl(b, 16)), Shl(c, 8)), d)
         == a * 0x100_0000 + b * 0x1_0000 + c * 0x100 + d
  {
    Pow2Constants();
    AndShiftedDisjoint(a, 24, Shl(b, 16));
    OrDisjoint(Shl(a, 24), Shl(b, 16));
    var ab := a * 0x100 + b;
    assert Or(Shl(a, 24), Shl(b, 16)) == Shl(ab, 16);
    AndShiftedDisjoint(ab, 16, Shl(c, 8));
    OrDisjoint(Shl(ab, 16), Shl(c, 8));
    var abc := ab * 0x100 + c;
    assert Or(Shl(ab, 16), Shl(c, 8)) == Shl(abc, 8);
    AndShiftedDisjoint(abc, 8, d);
    OrDisjoint(Shl(abc, 8), d);
  }

  /** `(n >> shift) & 0xFF`: one octet of n. */
  function Octet(n: nat, shift: nat): (o: nat)
    ensures o == (n / Pow2(shift)) % 256
  {
    Pow2Constants();
    AndLowMask(Shr(n, shift), 8);
    And(Shr(n, shift), 0xFF)
  }

  /** Base-256 digit i of n (0 is the most significant of the low 32 bits). */
  function OctetDigit(n: nat, i: nat): nat
    requires i < 4
  {
    (n / Pow2(OCTET_SHIFTS[i])) % 256
  }

  /**
   `intToIP`: the four octets of n, printed in decimal and joined with '.'.
   The result is always a canonical dotted quad whose octets are the
   base-256 digits of the low 32 bits of n.
   */
  function IntToIP(n: nat): (s: string)
    ensures IsCanonicalAddress(s)
  {
    var parts := seq(4, i requires 0 <= i < 4 => Decimal(Octet(n, OCTET_SHIFTS[i])));
    NumeralsHaveNoDot(parts);
    SplitJoin(parts, '.');
    Join(parts, ".")
  }

  /** The octets of a printed address are the base-256 digits of its low 32 bits. */
  lemma IntToIPOctets(n: nat)
    ensures forall i :: 0 <= i < 4 ==> OctetOf(IntToIP(n), i) == OctetDigit(n, i)
  {
    var parts := seq(4, i requires 0 <= i < 4 => Decimal(Octet(n, OCTET_SHIFTS[i])));
    NumeralsHaveNoDot(parts);
    SplitJoin(parts, '.');
  }

  lemma NumeralsHaveNoDot(parts: seq<string>)
    requires forall i :: 0 <= i < |parts| ==> IsNumeral(parts[i])
    ensures forall i :: 0 <= i < |parts| ==> '.' !in parts[i] && '/' !in parts[i]
  {
    forall i | 0 <= i < |parts|
      ensures '.' !in parts[i] && '/' !in parts[i]
    {
      assert forall j :: 0 <= j < |parts[i]| ==> IsDigit(parts[i][j]);
    }
  }

  /** The base-256 digits of n % 2^32 add back up to it. */
  lemma OctetDigitsSum(n: nat)
    ensures OctetDigit(n, 0) * 0x100_0000 + OctetDigit(n, 1) * 0x1_0000 + OctetDigit(n, 2) * 0x100 + OctetDigit(n, 3)
         == n % ADDRESS_COUNT
  {
    Pow2Constants();
    var m := n % ADDRESS_COUNT;
    DropHighBits(n, 24);
    DropHighBits(n, 16);
    DropHighBits(n, 8);
    DropHighBits(n, 0);
    LowDigitsSum(m);
  }

  /** Below 2^32, a value is the sum of its four base-256 digits. */
  lemma LowDigitsSum(m: nat)
    requires m < ADDRESS_COUNT
    ensures (m / 0x100_0000) % 0x100 * 0x100_0000 + (m / 0x1_0000) % 0x100 * 0x1_0000 + (m / 0x100) % 0x100 * 0x100 + m % 0x100
         == m
  {
    var d, m1 := m % 0x100, m / 0x100;
    var c, m2 := m1 % 0x100, m1 / 0x100;
    var b, a := m2 % 0x100, m2 / 0x100;
    assert m == a * 0x100_0000 + b * 0x1_0000 + c * 0x100 + d;
    DivModUnique(m, 0x100_0000, a, b * 0x1_0000 + c * 0x100 + d);
    DivModUnique(m, 0x1_0000, m2, c * 0x100 + d);
  }

  /** An octet below bit 32 does not depend on the bits above it. */
  lemma DropHighBits(n: nat, s: nat)
    requires s in OCTET_SHIFTS
    ensures (n / Pow2(s)) % 0x100 == ((n % ADDRESS_COUNT) / Pow2(s)) % 0x100
  {
    Pow2Constants();
    var p := Pow2(s);
    DropHighBitsBy(n, p, ADDRESS_COUNT / p);
  }

  lemma DropHighBitsBy(n: nat, p: nat, r: nat)
    requires p > 0 && r > 0 && p * r == ADDRESS_COUNT && r % 0x100 == 0
    ensures (n / p) % 0x100 == ((n % ADDRESS_COUNT) / p) % 0x100
  {
    var q, m := n / ADDRESS_COUNT, n % ADDRESS_COUNT;
    var t := r / 0x100;
    assert n == (q * r) * p + m by {
      MulAssoc(q, r, p);
    }
    assert n / p == q * r + m / p by {
      DivOfSum(q * r, p, m);
    }
    assert q * r == (q * t) * 0x100 by {
      MulAssoc(q, t, 0x100);
    }
    DivOfSum(q * t, 0x100, m / p);
  }

  /** Reading back a printed address gives the address (modulo 2^32, as `& 0xFF` drops the rest). */
  lemma IPToIntOfIntToIP(n: nat)
    ensures IPToInt(IntToIP(n)) == n % ADDRESS_COUNT
  {
    var s := IntToIP(n);
    IntToIPOctets(n);
    OctetDigitsSum(n);
    assert OctetOf(s, 0) == OctetDigit(n, 0) && OctetOf(s, 1) == OctetDigit(n, 1);
    assert OctetOf(s, 2) == OctetDigit(n, 2) && OctetOf(s, 3) == OctetDigit(n, 3);
  }

  /** Printing the value of a canonical dotted quad gives back the text. */
  lemma IntToIPOfIPToInt(s: string)
    requires IsCanonicalAddress(s)
    ensures IntToIP(IPToInt(s)) == s
  {
    PrintValue(s, IPToInt(s));
  }

  /** The base-256 number made of a canonical dotted quad's octets prints as the quad. */
  lemma PrintValue(s: string, n: nat)
    requires IsCanonicalAddress(s)
    requires n == OctetOf(s, 0) * 0x100_0000 + OctetOf(s, 1) * 0x1_0000 + OctetOf(s, 2) * 0x100 + OctetOf(s, 3)
    ensures IntToIP(n) == s
  {
    UnpackOctets(OctetOf(s, 0), OctetOf(s, 1), OctetOf(s, 2), OctetOf(s, 3));
    PrintOctets(s, n);
  }

  /** A number whose octets are those of a canonical dotted quad prints as it. */
  lemma PrintOctets(s: string, n: nat)
    requires IsCanonicalAddress(s)
    requires Octet(n, 24) == OctetOf(s, 0) && Octet(n, 16) == OctetOf(s, 1)
    requires Octet(n, 8) == OctetOf(s, 2) && Octet(n, 0) == OctetOf(s, 3)
    ensures IntToIP(n) == s
  {
    var p := Split(s, '.');
    var parts := seq(4, i requires 0 <= i < 4 => Decimal(Octet(n, OCTET_SHIFTS[i])));
    assert IntToIP(n) == Join(parts, ".");
    forall i | 0 <= i < 4
      ensures parts[i] == p[i]
    {
      DecimalOfNumeralValue(p[i]);
    }
    assert parts == p;
    JoinSplit(s, '.');
  }

  /** The octets of a base-256 sum of four digits are those digits. */
  lemma UnpackOctets(a: nat, b: nat, c: nat, d: nat)
    requires a < 256 && b < 256 && c < 256 && d < 256
    ensures var n := a * 0x100_0000 + b * 0x1_0000 + c * 0x100 + d;
      Octet(n, 24) == a && Octet(n, 16) == b && Octet(n, 8) == c && Octet(n, 0) == d
  {
    Pow2Constants();
    Base256Digits(a, b, c, d);
  }

  lemma Base256Digits(a: nat, b: nat, c: nat, d: nat)
    requires a < 256 && b < 256 && c < 256 && d < 256
    ensures var n := a * 0x100_0000 + b * 0x1_0000 + c * 0x100 + d;
      n / 0x100_0000 % 256 == a && n / 0x1_0000 % 256 == b && n / 0x100 % 256 == c && n / 1 % 256 == d
  {
    var n := a * 0x100_0000 + b * 0x1_0000 + c * 0x100 + d;
    DivModUnique(n, 0x100_0000, a, b * 0x1_0000 + c * 0x100 + d);
    DivModUnique(n, 0x1_0000, a * 0x100 + b, c * 0x100 + d);
    DivModUnique(a * 0x100 + b, 0x100, a, b);
    DivModUnique(n, 0x100, a * 0x1_0000 + b * 0x100 + c, d);
    DivModUnique(a * 0x1_0000 + b * 0x100 + c, 0x100, a * 0x100 + b, c);
    DivModUnique(a, 0x100, 0, a);
  }

  /** Distinct addresses print differently. */
  lemma IntToIPInjective(m: nat, n: nat)
    requires m < ADDRESS_COUNT && n < ADDRESS_COUNT
    ensures IntToIP(m) == IntToIP(n) <==> m == n
  {
    if IntToIP(m) == IntToIP(n) {
      IPToIntOfIntToIP(m);
      IPToIntOfIntToIP(n);
      DivModUnique(m, ADDRESS_COUNT, 0, m);
      DivModUnique(n, ADDRESS_COUNT, 0, n);
    }
  }

  /** The number of host bits of a prefix length: the block has 2^HostBits addresses. */
  function HostBits(prefix: nat): nat
    requires prefix <= 32
  {
    32 - prefix
  }

  /**
   `(0xFFFFFFFF << (32 - prefix)) & 0xFFFFFFFF`: the subnet mask, whose top
   `prefix` bits are set and whose other bits are clear.
   */
  function Mask(prefix: nat): (m: nat)
    requires prefix <= 32
    ensures m == HighMask(32, HostBits(prefix))
    ensures m < ADDRESS_COUNT
    ensures prefix == 0 ==> m == 0
    ensures prefix == 32 ==> m == ALL_ONES
  {
    MaskValue(HostBits(prefix));
    And(Shl(ALL_ONES, HostBits(prefix)), ALL_ONES)
  }

  /** Masking the shifted all-ones value to 32 bits keeps bits k .. 31. */
  lemma MaskValue(k: nat)
    requires k <= 32
    ensures And(Shl(ALL_ONES, k), ALL_ONES) == HighMask(32, k)
    ensures HighMask(32, k) < ADDRESS_COUNT
    ensures k == 32 ==> HighMask(32, k) == 0
    ensures k == 0 ==> HighMask(32, k) == ALL_ONES
  {
    Pow2Constants();
    var p := Pow2(k);
    Pow2Monotone(k, 32);
    AndLowMask(Shl(ALL_ONES, k), 32);
    DivModUnique(Shl(ALL_ONES, k), ADDRESS_COUNT, p - 1, ADDRESS_COUNT - p);
  }

  /** Bit i of the mask is set exactly when it is one of the top `prefix` bits. */
  lemma MaskBits(prefix: nat, i: nat)
    requires prefix <= 32 && i < 32
    ensures TestBit(Mask(prefix), i) <==> i >= 32 - prefix
  {
    HighMaskBits(32, HostBits(prefix), i);
  }

  /**
   `ip_int & mask`: the lowest address of the block, the low 32 bits of
   the address rounded down to a multiple of the block size.
   */
  function Network(ipInt: nat, prefix: nat): (net: nat)
    requires prefix <= 32
    ensures net < ADDRESS_COUNT
  {
    And(ipInt, Mask(prefix))
  }

  /** The network address is the low 32 bits of the address with the host bits cleared. */
  lemma NetworkValue(ipInt: nat, prefix: nat)
    requires prefix <= 32
    ensures Network(ipInt, prefix) == ipInt % ADDRESS_COUNT - ipInt % ADDRESS_COUNT % Pow2(HostBits(prefix))
  {
    Pow2Constants();
    AndBelow(ipInt, Mask(prefix), 32);
    AndHighMask(ipInt % ADDRESS_COUNT, 32, HostBits(prefix));
  }

  /**
   `network | (~mask & 0xFFFFFFFF)`: the highest address of the block, the
   network address with every host bit set.
   */
  function Broadcast(ipInt: nat, prefix: nat): (bc: nat)
    requires prefix <= 32
    ensures bc + 1 == Network(ipInt, prefix) + Pow2(HostBits(prefix))
    ensures bc < ADDRESS_COUNT
  {
    Pow2Constants();
    BroadcastValue(ipInt, prefix);
    BlockBelowLimit(ipInt, prefix);
    Or(Network(ipInt, prefix), Complement(Mask(prefix), 32))
  }

  lemma BroadcastValue(ipInt: nat, prefix: nat)
    requires prefix <= 32
    ensures Or(Network(ipInt, prefix), Complement(Mask(prefix), 32)) + 1 == Network(ipInt, prefix) + Pow2(HostBits(prefix))
  {
    Pow2Constants();
    var k := HostBits(prefix);
    var p := Pow2(k);
    var net := Network(ipInt, prefix);
    assert Complement(Mask(prefix), 32) == p - 1;
    NetworkAligned(ipInt, prefix);
    AndLowMask(net, k);
    OrDisjoint(net, p - 1);
  }

  /** The network address is a multiple of the block size. */
  lemma NetworkAligned(ipInt: nat, prefix: nat)
    requires prefix <= 32
    ensures Network(ipInt, prefix) % Pow2(HostBits(prefix)) == 0
  {
    NetworkValue(ipInt, prefix);
    RoundDown(ipInt % ADDRESS_COUNT, Pow2(HostBits(prefix)));
  }

  /** The block lies below 2^32. */
  lemma BlockBelowLimit(ipInt: nat, prefix: nat)
    requires prefix <= 32
    ensures Network(ipInt, prefix) + Pow2(HostBits(prefix)) <= ADDRESS_COUNT
  {
    Pow2Constants();
    var k := HostBits(prefix);
    NetworkValue(ipInt, prefix);
    Pow2Add(prefix, k);
    BlockFits(ipInt % ADDRESS_COUNT, Pow2(k), Pow2(prefix));
  }

  /**
   `[intToIP(i) for i in range(network, broadcast + 1)]`: every address of
   the block in ascending order, network and broadcast addresses included.
   */
  function Expand(ipInt: nat, prefix: nat): (addrs: seq<string>)
    requires prefix <= 32
    ensures addrs == Printed(Network(ipInt, prefix), Pow2(HostBits(prefix)))
  {
    var net := Network(ipInt, prefix);
    Printed(net, Broadcast(ipInt, prefix) + 1 - net)
  }

  /** The printed forms of the `count` addresses from `first` on. */
  function Printed(first: nat, count: nat): (addrs: seq<string>)
    ensures |addrs| == count
    ensures forall i :: 0 <= i < count ==> addrs[i] == IntToIP(first + i)
  {
    seq(count, i requires 0 <= i => IntToIP(first + i))
  }

  /** Printed addresses below 2^32 are canonical and read back as consecutive integers. */
  lemma PrintedReadBack(first: nat, count: nat)
    requires first + count <= ADDRESS_COUNT
    ensures forall i :: 0 <= i < count ==>
      IsCanonicalAddress(Printed(first, count)[i]) && IPToInt(Printed(first, count)[i]) == first + i
  {
    forall i | 0 <= i < count
      ensures IsCanonicalAddress(Printed(first, count)[i]) && IPToInt(Printed(first, count)[i]) == first + i
    {
      PrintedAt(first, count, i);
    }
  }

  lemma PrintedAt(first: nat, count: nat, i: nat)
    requires first + count <= ADDRESS_COUNT && i < count
    ensures IsCanonicalAddress(Printed(first, count)[i]) && IPToInt(Printed(first, count)[i]) == first + i
  {
    ReadBack(first + i);
  }

  /** An address is printed in the range exactly when it lies in the range. */
  lemma PrintedMembership(first: nat, count: nat, a: nat)
    requires first + count <= ADDRESS_COUNT && a < ADDRESS_COUNT
    ensures IntToIP(a) in Printed(first, count) <==> first <= a < first + count
  {
    var addrs := Printed(first, count);
    if first <= a < first + count {
      assert addrs[a - first] == IntToIP(a);
    }
    if IntToIP(a) in addrs {
      var i :| 0 <= i < count && addrs[i] == IntToIP(a);
      IntToIPInjective(a, first + i);
    }
  }

  /** An address below 2^32 reads back from its printed form. */
  lemma ReadBack(a: nat)
    requires a < ADDRESS_COUNT
    ensures IPToInt(IntToIP(a)) == a
  {
    IPToIntOfIntToIP(a);
    DivModUnique(a, ADDRESS_COUNT, 0, a);
  }


  /**
   The expansion holds canonical addresses that read back as consecutive
   integers from the network address, so it is strictly ascending.
   */
  lemma ExpandAscending(ipInt: nat, prefix: nat)
    requires prefix <= 32
    ensures forall i :: 0 <= i < |Expand(ipInt, prefix)| ==>
      IsCanonicalAddress(Expand(ipInt, prefix)[i])
      && IPToInt(Expand(ipInt, prefix)[i]) == Network(ipInt, prefix) + i
  {
    BlockBelowLimit(ipInt, prefix);
    PrintedReadBack(Network(ipInt, prefix), Pow2(HostBits(prefix)));
  }

  /** The expansion starts at the network address. */
  lemma ExpandFirst(ipInt: nat, prefix: nat)
    requires prefix <= 32
    ensures Expand(ipInt, prefix)[0] == IntToIP(Network(ipInt, prefix))
  {
  }

  /** The expansion ends at the broadcast address. */
  lemma ExpandLast(ipInt: nat, prefix: nat)
    requires prefix <= 32
    ensures Expand(ipInt, prefix)[|Expand(ipInt, prefix)| - 1] == IntToIP(Broadcast(ipInt, prefix))
  {
    PrintedLast(Expand(ipInt, prefix), Network(ipInt, prefix), Pow2(HostBits(prefix)), Broadcast(ipInt, prefix));
  }

  lemma PrintedLast(addrs: seq<string>, first: nat, count: nat, last: nat)
    requires addrs == Printed(first, count) && last + 1 == first + count && count > 0
    ensures |addrs| > 0 && addrs[|addrs| - 1] == IntToIP(last)
  {
  }

  lemma PrintedSingle(first: nat)
    ensures Printed(first, 1) == [IntToIP(first)]
  {
  }

  /** A /32 block is the one address itself. */
  lemma ExpandHostRoute(ipInt: nat)
    ensures Expand(ipInt, 32) == [IntToIP(ipInt % ADDRESS_COUNT)]
  {
    assert Pow2(HostBits(32)) == 1;
    NetworkValue(ipInt, 32);
    PrintedSingle(ipInt % ADDRESS_COUNT);
  }

  /**
   An address lies in the expansion exactly when it agrees with the block's
   address on the masked bits: `i & mask == ip_int & mask`.
   */
  lemma ExpandMembership(ipInt: nat, prefix: nat, a: nat)
    requires prefix <= 32 && a < ADDRESS_COUNT
    ensures IntToIP(a) in Expand(ipInt, prefix) <==> And(a, Mask(prefix)) == And(ipInt, Mask(prefix))
  {
    InBlock(ipInt, prefix, a);
    BlockBelowLimit(ipInt, prefix);
    PrintedMembership(Network(ipInt, prefix), Pow2(HostBits(prefix)), a);
  }

  /** Masking keeps the network part, so a is in the block exactly when it lies between its ends. */
  lemma InBlock(ipInt: nat, prefix: nat, a: nat)
    requires prefix <= 32 && a < ADDRESS_COUNT
    ensures And(a, Mask(prefix)) == Network(a, prefix)
    ensures And(ipInt, Mask(prefix)) == Network(ipInt, prefix)
    ensures Network(a, prefix) == Network(ipInt, prefix)
        <==> Network(ipInt, prefix) <= a < Network(ipInt, prefix) + Pow2(HostBits(prefix))
  {
    var p := Pow2(HostBits(prefix));
    DivModUnique(a, ADDRESS_COUNT, 0, a);
    NetworkValue(a, prefix);
    NetworkValue(ipInt, prefix);
    SameBlock(ipInt % ADDRESS_COUNT, a, p);
  }

  /** Why a CIDR string is refused; each is a `ValueError` in the source. */
  datatype CidrError =
    | MalformedCidr     // not exactly one '/'
    | MalformedPrefix   // the prefix is not a decimal numeral
    | MalformedAddress  // the address is not four '.'-separated numerals
    | PrefixTooLong     // a prefix above 32 makes the shift count negative

  /**
   `cidrToIPS`: parse `<ip>/<prefix>` and expand the block. The text is
   refused as malformed exactly when it does not hold exactly one '/'; an
   accepted block holds between 1 and 2^32 canonical addresses.
   */
  function CidrToIPs(cidr: string): (r: Result<seq<string>, CidrError>)
    ensures r == Failure(MalformedCidr) <==> Occurrences(cidr, '/') != 1
    ensures r.Success? ==> 0 < |r.value| <= ADDRESS_COUNT
    ensures r.Success? ==> forall i :: 0 <= i < |r.value| ==> IsCanonicalAddress(r.value[i])
  {
    var halves := Split(cidr, '/');
    SplitCount(cidr, '/');
    if |halves| != 2 then Failure(MalformedCidr)
    else if !IsNumeral(halves[1]) then Failure(MalformedPrefix)
    else if !IsDottedQuad(halves[0]) then Failure(MalformedAddress)
    else if NumeralValue(halves[1]) > 32 then Failure(PrefixTooLong)
    else
      var prefix := NumeralValue(halves[1]);
      Pow2Constants();
      Pow2Monotone(HostBits(prefix), 32);
      Success(Expand(IPToInt(halves[0]), prefix))
  }

  /**
   On `<ip>/<prefix>` with no other '/', the prefix is checked first, then the
   address, then the prefix's range; a text that passes expands to the block
   of the address and the prefix's value.
   */
  lemma CidrToIPsOfParts(ip: string, prefix: string)
    requires '/' !in ip && '/' !in prefix
    ensures CidrToIPs(ip + "/" + prefix) ==
      if !IsNumeral(prefix) then Failure(MalformedPrefix)
      else if !IsDottedQuad(ip) then Failure(MalformedAddress)
      else if NumeralValue(prefix) > 32 then Failure(PrefixTooLong)
      else Success(Expand(IPToInt(ip), NumeralValue(prefix)))
  {
    SplitAtSep(ip, '/', prefix);
    SplitWithoutSep(prefix, '/');
    assert ip + "/" + prefix == ip + ['/'] + prefix;
  }

  /** A /32 block is the one address, printed as given. */
  lemma CidrToIPsHostRoute(ip: string)
    requires IsCanonicalAddress(ip)
    ensures CidrToIPs(ip + "/32") == Success([ip])
  {
    var prefix := "32";
    assert prefix[..1] == "3";
    assert IsNumeral(prefix) && NumeralValue(prefix) == 32;
    CidrToIPsOfParts(ip, prefix);
    assert ip + "/32" == ip + "/" + prefix;
    ExpandHostRoute(IPToInt(ip));
    DivModUnique(IPToInt(ip), ADDRESS_COUNT, 0, IPToInt(ip));
    IntToIPOfIPToInt(ip);
  }
}
