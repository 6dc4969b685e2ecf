/**
 IP addresses, CIDR networks and their text forms.

 The address and CIDR parsers belong to `std::net` and `ipnet`, and the rule that widens an
 address to its quarantine network belongs to `phylax`. They enter the model as a `Codec`, a
 record of four functions; the theorems hold for every codec that keeps the laws in `Lawful`.
 */
module Networks {
  import opened Wrappers
  import opened Text

  datatype Family = V4 | V6

  function Width(f: Family): nat {
    match f
    case V4 => 32
    case V6 => 128
  }

  function Pow2(n: nat): (r: nat)
    ensures r > 0
  {
    if n == 0 then 1 else 2 * Pow2(n - 1)
  }

  datatype AddrBits = Addr(family: Family, bits: nat)

  type Addr = a: AddrBits | a.bits < Pow2(Width(a.family)) witness Addr(V4, 0)

  datatype NetBits = Net(addr: Addr, prefixLen: nat)

  /** An `IpNet` keeps the host bits it was given; two spellings of one range are two nets. */
  type Net = n: NetBits | n.prefixLen <= Width(n.addr.family) witness Net(Addr(V4, 0), 0)

  /** `IpNet::contains`: same family and the same leading `prefixLen` bits. */
  predicate Contains(n: Net, a: Addr) {
    && n.addr.family == a.family
    && var hostSize := Pow2(Width(a.family) - n.prefixLen);
       n.addr.bits / hostSize == a.bits / hostSize
  }

  /** The /32 or /128 network of one address. */
  function HostNet(a: Addr): Net {
    Net(a, Width(a.family))
  }

  lemma HostNetContainsOnlyItself(a: Addr, b: Addr)
    ensures Contains(HostNet(a), b) <==> a == b
  {
    assert Pow2(0) == 1;
  }

  // ---- containment as a range ----

  // Products of two variables, a step at a time.

  lemma {:induction false} TimesAtLeast(h: nat, d: nat)
    requires d > 0
    ensures h * d >= h
  {
    if d > 1 {
      TimesAtLeast(h, d - 1);
      assert h * d == h * (d - 1) + h;
    }
  }

  lemma TimesMinus(h: int, q: int, r: int)
    ensures h * q - h * r == h * (q - r)
  {
  }

  lemma TimesAssociates(a: int, b: int, c: int)
    ensures a * (b * c) == (a * b) * c
  {
  }

  /** A number has one quotient and one rest. */
  lemma OneQuotient(h: nat, q: nat, r: nat, q': nat, r': nat)
    requires r < h && r' < h && h * q + r == h * q' + r'
    ensures q == q' && r == r'
  {
    TimesMinus(h, q, q');
    if q > q' {
      TimesAtLeast(h, q - q');
    } else if q < q' {
      TimesMinus(h, q', q);
      TimesAtLeast(h, q' - q);
    }
  }

  lemma Parts(x: nat, h: nat)
    requires h > 0
    ensures x == h * (x / h) + x % h && 0 <= x % h < h && x / h >= 0
  {
  }

  lemma QuotientIs(x: nat, h: nat, q: nat, r: nat)
    requires r < h && x == h * q + r
    ensures x / h == q && x % h == r
  {
    Parts(x, h);
    OneQuotient(h, q, r, x / h, x % h);
  }

  lemma {:induction false} Pow2Adds(m: nat, n: nat)
    ensures Pow2(m + n) == Pow2(m) * Pow2(n)
  {
    if m > 0 {
      Pow2Adds(m - 1, n);
      TimesAssociates(2, Pow2(m - 1), Pow2(n));
    }
  }

  lemma Pow2Product(m: nat, n: nat, u: nat, v: nat)
    requires Pow2(m) == u && Pow2(n) == v
    ensures Pow2(m + n) == u * v
  {
    Pow2Adds(m, n);
  }

  lemma Pow2Values()
    ensures Pow2(0) == 1 && Pow2(8) == 0x100 && Pow2(24) == 0x100_0000 && Pow2(32) == 0x1_0000_0000
    ensures Pow2(128) == 0x1_0000_0000_0000_0000_0000_0000_0000_0000
  {
    Pow2Product(2, 2, 4, 4);
    Pow2Product(4, 4, 0x10, 0x10);
    Pow2Product(8, 8, 0x100, 0x100);
    Pow2Product(8, 16, 0x100, 0x1_0000);
    Pow2Product(16, 16, 0x1_0000, 0x1_0000);
    Pow2Product(32, 32, 0x1_0000_0000, 0x1_0000_0000);
    Pow2Product(64, 64, 0x1_0000_0000_0000_0000, 0x1_0000_0000_0000_0000);
  }

  lemma SameQuotient(x: nat, y: nat, size: nat)
    requires size > 0
    ensures x / size == y / size <==> x - x % size <= y < x - x % size + size
  {
    Parts(x, size);
    Parts(y, size);
    var base := size * (x / size);
    if base <= y < base + size {
      QuotientIs(y, size, x / size, y - base);
    }
  }

  /** A network is the addresses of its family from its base, one size up: 2^(32 - prefix), or 2^(128 - prefix). */
  lemma ContainsExactlyTheRange(n: Net, a: Addr)
    ensures Contains(n, a) <==>
      && n.addr.family == a.family
      && var size := Pow2((if n.addr.family == V4 then 32 else 128) - n.prefixLen);
         var base := n.addr.bits - n.addr.bits % size;
         base <= a.bits < base + size
  {
    SameQuotient(n.addr.bits, a.bits, Pow2(Width(n.addr.family) - n.prefixLen));
  }

  lemma PrefixZeroContainsFamily(n: Net, a: Addr)
    requires n.prefixLen == 0
    ensures Contains(n, a) <==> n.addr.family == a.family
  {
    if n.addr.family == a.family {
      var size := Pow2(Width(a.family));
      QuotientIs(a.bits, size, 0, a.bits);
      QuotientIs(n.addr.bits, size, 0, n.addr.bits);
    }
  }

  /** Dividing by a product is dividing twice. */
  lemma QuotientOfProduct(x: nat, h: nat, p: nat)
    requires h > 0 && p > 0
    ensures h * p > 0 && x / (h * p) == x / h / p
  {
    var q := x / h;
    Parts(x, h);
    Parts(q, p);
    var top, low := q / p, q % p;
    TimesAtLeast(h, p);
    TimesAssociates(h, p, top);
    assert h * q == h * (p * top) + h * low;
    TimesMinus(h, p, low);
    TimesAtLeast(h, p - low);
    QuotientIs(x, h * p, top, h * low + x % h);
  }

  /** A network contains all of every narrower one whose address it contains. */
  lemma ContainsNarrower(wide: Net, narrow: Net, a: Addr)
    requires wide.prefixLen <= narrow.prefixLen && Contains(wide, narrow.addr) && Contains(narrow, a)
    ensures Contains(wide, a)
  {
    var width := Width(a.family);
    var h, p := Pow2(width - narrow.prefixLen), Pow2(narrow.prefixLen - wide.prefixLen);
    Pow2Adds(width - narrow.prefixLen, narrow.prefixLen - wide.prefixLen);
    QuotientOfProduct(narrow.addr.bits, h, p);
    QuotientOfProduct(a.bits, h, p);
  }

  /** 10.0.0.0/8 holds 10.1.1.3 and not 11.0.0.0. */
  lemma TenSlashEight()
    ensures 0x0a01_0103 < Pow2(Width(V4)) && 0x0b00_0000 < Pow2(Width(V4)) && 0x0a00_0000 < Pow2(Width(V4))
    ensures Contains(Net(Addr(V4, 0x0a00_0000), 8), Addr(V4, 0x0a01_0103))
    ensures !Contains(Net(Addr(V4, 0x0a00_0000), 8), Addr(V4, 0x0b00_0000))
  {
    Pow2Values();
  }

  datatype Codec = Codec(
    parseAddr: string -> Option<Addr>,
    parseNet: string -> Option<Net>,
    showNet: Net -> string,
    deriveCidr: string -> Option<string>)

  /**
   Printing then parsing a network gives it back; network text has a slash and address text has
   none; neither is empty or has whitespace around it; a derived quarantine CIDR is the printed
   form of a network.
   */
  ghost predicate Lawful(c: Codec) {
    && (forall n :: c.parseNet(c.showNet(n)) == Some(n))
    && (forall s :: c.parseNet(s).Some? ==> '/' in s)
    && (forall s :: c.parseAddr(s).Some? ==> '/' !in s)
    && (forall s {:trigger Trim(s)} :: c.parseAddr(s).Some? || c.parseNet(s).Some? ==> s != [] && Trim(s) == s)
    && (forall s :: c.deriveCidr(s).Some? ==> exists n :: c.deriveCidr(s).value == c.showNet(n))
  }

  /** Text that is the printed form of some network. */
  ghost predicate Canonical(c: Codec, text: string) {
    c.parseNet(text).Some? && c.showNet(c.parseNet(text).value) == text
  }

  lemma ShownIsCanonical(c: Codec, n: Net)
    requires Lawful(c)
    ensures Canonical(c, c.showNet(n)) && c.parseAddr(c.showNet(n)) == None
  {
    assert c.parseNet(c.showNet(n)) == Some(n);
  }

  // ---- the laws can be met ----

  function Tally(n: nat): string {
    seq(n, _ => '1')
  }

  function TallyAddr(a: Addr): string {
    [if a.family == V4 then '4' else '6'] + Tally(a.bits)
  }

  function TallyNet(n: Net): string {
    TallyAddr(n.addr) + ['/'] + Tally(n.prefixLen)
  }

  lemma TallyAddrInjective(a: Addr, b: Addr)
    requires TallyAddr(a) == TallyAddr(b)
    ensures a == b
  {
    assert TallyAddr(a)[0] == TallyAddr(b)[0];
    assert |TallyAddr(a)| == 1 + a.bits && |TallyAddr(b)| == 1 + b.bits;
  }

  lemma TallyNetInjective(m: Net, n: Net)
    requires TallyNet(m) == TallyNet(n)
    ensures m == n
  {
    var s, t := TallyNet(m), TallyNet(n);
    assert s[0] == t[0];
    assert |s| == 2 + m.addr.bits + m.prefixLen && |t| == 2 + n.addr.bits + n.prefixLen;
    assert s[1 + m.addr.bits] == '/' && t[1 + n.addr.bits] == '/';
    assert forall i :: 1 <= i <= m.addr.bits ==> s[i] == '1';
    assert forall i :: 1 <= i <= n.addr.bits ==> t[i] == '1';
  }

  ghost function ParseTallyAddr(s: string): (r: Option<Addr>)
    ensures r.Some? ==> TallyAddr(r.value) == s
  {
    if exists a: Addr :: TallyAddr(a) == s then
      var a: Addr :| TallyAddr(a) == s;
      Some(a)
    else None
  }

  ghost function ParseTallyNet(s: string): (r: Option<Net>)
    ensures r.Some? ==> TallyNet(r.value) == s
  {
    if exists n: Net :: TallyNet(n) == s then
      var n: Net :| TallyNet(n) == s;
      Some(n)
    else None
  }

  /** Some network around an address, wider than the address itself. */
  function HalfNet(a: Addr): Net {
    Net(a, Width(a.family) / 2)
  }

  /** Besides the printed form of a network, the same with one more slash is read as it. */
  ghost function ReadTallyNet(s: string): Option<Net> {
    if ParseTallyNet(s).Some? then ParseTallyNet(s)
    else if s != [] && s[|s| - 1] == '/' then ParseTallyNet(s[..|s| - 1])
    else None
  }

  ghost function TallyCodec(): Codec {
    Codec(s => ParseTallyAddr(s), s => ReadTallyNet(s), (n: Net) => TallyNet(n),
          s => var a := ParseTallyAddr(s); if a.None? then None else Some(TallyNet(HalfNet(a.value))))
  }

  lemma TallyAddrShape(s: string)
    requires ParseTallyAddr(s).Some?
    ensures '/' !in s && s != [] && Trim(s) == s
  {
    TrimOfClean(s);
  }

  lemma TallyNetShape(s: string)
    requires ParseTallyNet(s).Some?
    ensures '/' in s && s != [] && !IsWhitespace(s[0]) && !IsWhitespace(s[|s| - 1])
  {
    var n := ParseTallyNet(s).value;
    assert TallyNet(n)[1 + n.addr.bits] == '/';
  }

  lemma ReadTallyNetShape(s: string)
    requires ReadTallyNet(s).Some?
    ensures '/' in s && s != [] && Trim(s) == s
  {
    if ParseTallyNet(s).Some? {
      TallyNetShape(s);
    } else {
      TallyNetShape(s[..|s| - 1]);
      assert s[0] == s[..|s| - 1][0];
    }
    TrimOfClean(s);
  }

  lemma TallyCodecIsLawful()
    ensures Lawful(TallyCodec())
  {
    var c := TallyCodec();
    forall n: Net
      ensures c.parseNet(c.showNet(n)) == Some(n)
    {
      TallyNetInjective(ParseTallyNet(TallyNet(n)).value, n);
    }
    forall s: string
      ensures c.parseNet(s).Some? ==> '/' in s
      ensures c.parseAddr(s).Some? ==> '/' !in s
      ensures c.parseAddr(s).Some? || c.parseNet(s).Some? ==> s != [] && Trim(s) == s
    {
      if ParseTallyAddr(s).Some? {
        TallyAddrShape(s);
      }
      if ReadTallyNet(s).Some? {
        ReadTallyNetShape(s);
      }
    }
    forall s: string | c.deriveCidr(s).Some?
      ensures exists n :: c.deriveCidr(s).value == c.showNet(n)
    {
      assert c.deriveCidr(s).value == c.showNet(HalfNet(ParseTallyAddr(s).value));
    }
  }

  /** The codec reads some text as the address, and derives a quarantine CIDR from it. */
  ghost predicate Reads(c: Codec, a: Addr) {
    exists s :: c.parseAddr(s) == Some(a) && c.deriveCidr(s).Some?
  }

  /** The codec reads some text other than the printed form as the network. */
  ghost predicate ReadsOtherSpelling(c: Codec, n: Net) {
    exists s :: c.parseNet(s) == Some(n) && s != c.showNet(n)
  }

  lemma TallyCodecReads(a: Addr)
    ensures Reads(TallyCodec(), a)
  {
    var s := TallyAddr(a);
    TallyAddrInjective(ParseTallyAddr(s).value, a);
    assert TallyCodec().parseAddr(s) == Some(a);
  }

  lemma TwoSlashesAreNoPrint(n: Net, m: Net)
    ensures TallyNet(m) != TallyNet(n) + ['/']
  {
    var s, t := TallyNet(m), TallyNet(n) + ['/'];
    assert t[1 + n.addr.bits] == '/' && t[|t| - 1] == '/';
    assert forall i :: 0 <= i < |s| && s[i] == '/' ==> i == 1 + m.addr.bits;
  }

  lemma TallyCodecReadsOtherSpelling(n: Net)
    ensures ReadsOtherSpelling(TallyCodec(), n)
  {
    var s := TallyNet(n) + ['/'];
    if ParseTallyNet(s).Some? {
      TwoSlashesAreNoPrint(n, ParseTallyNet(s).value);
    }
    assert s[..|s| - 1] == TallyNet(n);
    TallyNetInjective(ParseTallyNet(TallyNet(n)).value, n);
    assert TallyCodec().parseNet(s) == Some(n) && s != TallyNet(n);
  }

  /**
   A codec that writes numbers in unary keeps the laws; it reads and widens every address, and
   reads every network from a second spelling.
   */
  lemma LawfulCodecExists()
    ensures exists c: Codec :: Lawful(c) && (forall a: Addr :: Reads(c, a)) && forall n: Net :: ReadsOtherSpelling(c, n)
  {
    TallyCodecIsLawful();
    forall a: Addr {
      TallyCodecReads(a);
    }
    forall n: Net {
      TallyCodecReadsOtherSpelling(n);
    }
  }
}
