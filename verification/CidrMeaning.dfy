/** The client-network test against what a network prefix means numerically
    (prefix notation of section 3.1 of RFC 4632), for canonical dotted quads.
  */
module CidrMeaning {
  import opened PathSegments
  import opened RouteRules
  import opened DecimalText

  type Octet = x: nat | x < 256

  datatype Address = Address(a: Octet, b: Octet, c: Octet, d: Octet)

  function Value(x: Address): nat {
    ((x.a * 256 + x.b) * 256 + x.c) * 256 + x.d
  }

  function Dotted(x: Address): string {
    Quad(Decimal(x.a), Decimal(x.b), Decimal(x.c), Decimal(x.d))
  }

  function Quad(a: string, b: string, c: string, d: string): string {
    a + "." + (b + "." + (c + "." + d))
  }

  function Cidr(prefix: Address, length: nat): string {
    Dotted(prefix) + "/" + Decimal(length)
  }

  function Pow2(n: nat): (p: nat)
    ensures p >= 1
  {
    if n == 0 then 1 else 2 * Pow2(n - 1)
  }

  /** The address agrees with the prefix in its `length` leading bits. */
  ghost predicate InNetwork(x: Address, prefix: Address, length: nat)
    requires length <= 32
  {
    Value(x) / Pow2(32 - length) == Value(prefix) / Pow2(32 - length)
  }

  // ----- the parts of a dotted quad ------------------------------------------------------------

  lemma {:induction false} FindSkips(run: string, c: char, rest: string, i: nat)
    requires c !in run && i <= |run|
    ensures FindFrom(run + [c] + rest, c, i) == |run|
    decreases |run| - i
  {
    if i < |run| {
      FindSkips(run, c, rest, i + 1);
    }
  }

  lemma {:induction false} FindNowhere(text: string, c: char, i: nat)
    requires c !in text && i <= |text|
    ensures FindFrom(text, c, i) == |text|
    decreases |text| - i
  {
    if i < |text| {
      FindNowhere(text, c, i + 1);
    }
  }

  lemma {:induction false} BeforeLastOf(text: string, c: char, run: string)
    requires c !in run
    ensures BeforeLast(text + [c] + run, c) == text
    decreases |run|
  {
    var all := text + [c] + run;
    assert c in all by { assert all[|text|] == c; }
    if run == "" {
      assert all[..|all| - 1] == text;
    } else {
      var shorter := run[..|run| - 1];
      assert run == shorter + [run[|run| - 1]];
      assert all[|all| - 1] == run[|run| - 1] && run[|run| - 1] in run;
      assert all[..|all| - 1] == text + [c] + shorter;
      BeforeLastOf(text, c, shorter);
    }
  }

  lemma {:induction false} FindInLonger(text: string, longer: string, c: char, i: nat)
    requires text <= longer && i <= |text| && FindFrom(text, c, i) < |text|
    ensures FindFrom(longer, c, i) == FindFrom(text, c, i)
    decreases |text| - i
  {
    if text[i] != c {
      FindInLonger(text, longer, c, i + 1);
    }
  }

  /** Two texts cut at a separator that the left parts do not contain. */
  lemma PrefixAtSeparator(u: string, v: string, u': string, rest: string, c: char)
    requires c !in u && c !in u'
    ensures u + [c] + v <= u' + [c] + rest <==> u == u' && v <= rest
  {
    var left, right := u + [c] + v, u' + [c] + rest;
    if left <= right {
      FindSkips(u, c, v, 0);
      FindSkips(u', c, rest, 0);
      FindInLonger(left, right, c, 0);
      assert left[..|u|] == u && right[..|u|] == u';
      assert left[|u| + 1..] == v && right[|u| + 1..] == rest;
    }
  }

  lemma SplitAtSeparator(u: string, v: string, u': string, v': string, c: char)
    requires c !in u && c !in u'
    ensures u + [c] + v == u' + [c] + v' <==> u == u' && v == v'
  {
    PrefixAtSeparator(u, v, u', v', c);
    PrefixAtSeparator(u', v', u, v, c);
  }

  lemma QuadFirst(a: string, b: string, c: string, d: string)
    requires '.' !in a
    ensures BeforeFirst(Quad(a, b, c, d), '.') == a
  {
    var rest := b + "." + (c + "." + d);
    FindSkips(a, '.', rest, 0);
    assert Quad(a, b, c, d) == a + ['.'] + rest;
    assert (a + ['.'] + rest)[..|a|] == a;
  }

  lemma QuadTwo(a: string, b: string, c: string, d: string)
    requires '.' !in a && '.' !in b
    ensures SecondDot(Quad(a, b, c, d)) == |a + "." + b| < |Quad(a, b, c, d)|
    ensures Quad(a, b, c, d)[..SecondDot(Quad(a, b, c, d))] == a + "." + b
  {
    var text, last := Quad(a, b, c, d), c + "." + d;
    FindSkips(a, '.', b + "." + last, 0);
    assert text == a + ['.'] + (b + "." + last);
    FindShifts(text, '.', |a| + 1, |a| + 1);
    FindSkips(b, '.', last, 0);
    assert text[|a| + 1..] == b + ['.'] + last;
    assert text == (a + "." + b) + ("." + last);
  }

  lemma QuadThree(a: string, b: string, c: string, d: string)
    requires '.' !in d
    ensures BeforeLast(Quad(a, b, c, d), '.') == a + "." + (b + "." + c)
  {
    BeforeLastOf(a + "." + (b + "." + c), '.', d);
    assert Quad(a, b, c, d) == a + "." + (b + "." + c) + ['.'] + d;
  }

  lemma QuadInjective(a: string, b: string, c: string, d: string, a': string, b': string, c': string, d': string)
    requires '.' !in a + b + c && '.' !in a' + b' + c'
    ensures a + "." + (b + "." + c) == a' + "." + (b' + "." + c') <==> a == a' && b == b' && c == c'
    ensures Quad(a, b, c, d) == Quad(a', b', c', d') <==> a == a' && b == b' && c == c' && d == d'
  {
    SplitAtSeparator(b, c, b', c', '.');
    SplitAtSeparator(a, b + "." + c, a', b' + "." + c', '.');
    SplitAtSeparator(c, d, c', d', '.');
    SplitAtSeparator(b, c + "." + d, b', c' + "." + d', '.');
    SplitAtSeparator(a, b + "." + (c + "." + d), a', b' + "." + (c' + "." + d'), '.');
  }

  lemma DecimalHasNo(n: nat)
    ensures '.' !in Decimal(n) && '/' !in Decimal(n)
  {
    DecimalIsDigits(n);
  }

  lemma DottedHasNoSlash(x: Address)
    ensures '/' !in Dotted(x)
  {
    DecimalHasNo(x.a);
    DecimalHasNo(x.b);
    DecimalHasNo(x.c);
    DecimalHasNo(x.d);
  }

  /** Canonical quads are equal as text exactly when they are equal octet by octet. */
  lemma DottedInjective(x: Address, y: Address)
    ensures BeforeFirst(Dotted(x), '.') == BeforeFirst(Dotted(y), '.') <==> x.a == y.a
    ensures BeforeLast(Dotted(x), '.') == BeforeLast(Dotted(y), '.') <==> x.a == y.a && x.b == y.b && x.c == y.c
    ensures Dotted(x) == Dotted(y) <==> x == y
  {
    PartsOf(x);
    PartsOf(y);
    QuadInjective(Decimal(x.a), Decimal(x.b), Decimal(x.c), Decimal(x.d),
                  Decimal(y.a), Decimal(y.b), Decimal(y.c), Decimal(y.d));
    SameNumbers(x.a, y.a);
    SameNumbers(x.b, y.b);
    SameNumbers(x.c, y.c);
    SameNumbers(x.d, y.d);
  }

  lemma PartsOf(x: Address)
    ensures BeforeFirst(Dotted(x), '.') == Decimal(x.a)
    ensures BeforeLast(Dotted(x), '.') == Decimal(x.a) + "." + (Decimal(x.b) + "." + Decimal(x.c))
    ensures '.' !in Decimal(x.a) + Decimal(x.b) + Decimal(x.c)
  {
    DecimalHasNo(x.a);
    DecimalHasNo(x.b);
    DecimalHasNo(x.c);
    DecimalHasNo(x.d);
    QuadFirst(Decimal(x.a), Decimal(x.b), Decimal(x.c), Decimal(x.d));
    QuadThree(Decimal(x.a), Decimal(x.b), Decimal(x.c), Decimal(x.d));
  }

  lemma SameNumbers(m: nat, n: nat)
    ensures Decimal(m) == Decimal(n) <==> m == n
  {
    if Decimal(m) == Decimal(n) {
      DecimalInjective(m, n);
    }
  }

  /** What the test compares, once the entry is cut at its slash. */
  lemma CidrParts(prefix: Address, length: nat)
    ensures var cidr := Cidr(prefix, length);
            var slash := FindFrom(cidr, '/', 0);
            slash < |cidr| && cidr[..slash] == Dotted(prefix) && cidr[slash + 1..] == Decimal(length)
  {
    DottedHasNoSlash(prefix);
    FindSkips(Dotted(prefix), '/', Decimal(length), 0);
  }

  lemma LengthTexts(length: nat)
    ensures Decimal(length) == "24" <==> length == 24
    ensures Decimal(length) == "16" <==> length == 16
    ensures Decimal(length) == "8" <==> length == 8
    ensures Decimal(length) == "0" <==> length == 0
  {
    assert Decimal(2) == "2" && Decimal(1) == "1";
    assert Decimal(24) == "24" && Decimal(16) == "16" && Decimal(8) == "8" && Decimal(0) == "0";
    SameNumbers(length, 24);
    SameNumbers(length, 16);
    SameNumbers(length, 8);
    SameNumbers(length, 0);
  }

  /** The test, with the length read as a number. */
  lemma TestByLength(text: string, prefix: Address, length: nat)
    ensures var inside, p := IpInCidr(text, Cidr(prefix, length)), Dotted(prefix);
            if length == 24 then inside <==> BeforeLast(p, '.') == BeforeLast(text, '.')
            else if length == 16 then inside <==> Decimal(prefix.a) + "." + Decimal(prefix.b) <= text
            else if length == 8 then inside <==> BeforeFirst(p, '.') == BeforeFirst(text, '.')
            else if length == 0 then inside
            else inside <==> text == p
  {
    CidrParts(prefix, length);
    LengthTexts(length);
    DecimalHasNo(prefix.a);
    DecimalHasNo(prefix.b);
    QuadTwo(Decimal(prefix.a), Decimal(prefix.b), Decimal(prefix.c), Decimal(prefix.d));
    var wanted := Decimal(prefix.a) + "." + Decimal(prefix.b);
    assert Take(text, |wanted|) == wanted <==> wanted <= text;
  }

  // ----- the numeric meaning --------------------------------------------------------------------

  lemma OctetBoundaries(x: Address)
    ensures Value(x) / Pow2(0) == Value(x)
    ensures Value(x) / Pow2(8) == (x.a * 256 + x.b) * 256 + x.c
    ensures Value(x) / Pow2(16) == x.a * 256 + x.b
    ensures Value(x) / Pow2(24) == x.a
    ensures Value(x) / Pow2(32) == 0
  {
    assert Pow2(4) == 16;
    assert Pow2(8) == 256;
    assert Pow2(12) == 4096;
    assert Pow2(16) == 65536;
    assert Pow2(20) == 0x10_0000;
    assert Pow2(24) == 0x100_0000;
    assert Pow2(28) == 0x1000_0000;
    assert Pow2(32) == 0x1_0000_0000;
  }

  lemma LastOctet(x: nat, a: Octet, y: nat, b: Octet)
    ensures x * 256 + a == y * 256 + b <==> x == y && a == b
  {
  }

  lemma NetworkByOctets(x: Address, prefix: Address)
    ensures InNetwork(x, prefix, 0)
    ensures InNetwork(x, prefix, 8) <==> x.a == prefix.a
    ensures InNetwork(x, prefix, 16) <==> x.a == prefix.a && x.b == prefix.b
    ensures InNetwork(x, prefix, 24) <==> x.a == prefix.a && x.b == prefix.b && x.c == prefix.c
    ensures InNetwork(x, prefix, 32) <==> x == prefix
  {
    OctetBoundaries(x);
    OctetBoundaries(prefix);
    LastOctet(x.a, x.b, prefix.a, prefix.b);
    LastOctet(x.a * 256 + x.b, x.c, prefix.a * 256 + prefix.b, prefix.c);
    LastOctet((x.a * 256 + x.b) * 256 + x.c, x.d, (prefix.a * 256 + prefix.b) * 256 + prefix.c, prefix.d);
  }

  /** What the test comes to, octet by octet. */
  lemma TestByOctets(ip: Address, prefix: Address, length: nat)
    ensures IpInCidr(Dotted(ip), Cidr(prefix, length)) <==>
            if length == 24 then ip.a == prefix.a && ip.b == prefix.b && ip.c == prefix.c
            else if length == 16 then ip.a == prefix.a && Decimal(prefix.b) <= Decimal(ip.b)
            else if length == 8 then ip.a == prefix.a
            else if length == 0 then true
            else ip == prefix
  {
    TestByLength(Dotted(ip), prefix, length);
    if length == 16 {
      SixteenComparesText(ip, prefix);
    } else {
      DottedInjective(ip, prefix);
    }
  }

  /** For these lengths, and for a bare address, the text test is the numeric test. */
  lemma ExactLengths(ip: Address, prefix: Address, length: nat)
    requires length in {0, 8, 24, 32}
    ensures IpInCidr(Dotted(ip), Cidr(prefix, length)) <==> InNetwork(ip, prefix, length)
  {
    TestByOctets(ip, prefix, length);
    NetworkByOctets(ip, prefix);
  }

  lemma BareAddressIsExact(ip: Address, entry: Address)
    ensures IpInCidr(Dotted(ip), Dotted(entry)) <==> ip == entry
  {
    DottedHasNoSlash(entry);
    FindNowhere(Dotted(entry), '/', 0);
    DottedInjective(ip, entry);
  }

  /** At /16 the second octets are compared without their end. */
  lemma SixteenComparesText(ip: Address, prefix: Address)
    ensures IpInCidr(Dotted(ip), Cidr(prefix, 16)) <==> ip.a == prefix.a && Decimal(prefix.b) <= Decimal(ip.b)
  {
    TestByLength(Dotted(ip), prefix, 16);
    DecimalHasNo(ip.a);
    DecimalHasNo(prefix.a);
    DecimalHasNo(prefix.b);
    var rest := Decimal(ip.c) + "." + Decimal(ip.d);
    PrefixAtSeparator(Decimal(prefix.a), Decimal(prefix.b), Decimal(ip.a), Decimal(ip.b) + "." + rest, '.');
    SameNumbers(ip.a, prefix.a);
    PrefixStopsAt(Decimal(prefix.b), Decimal(ip.b), rest, '.');
  }

  lemma PrefixStopsAt(b: string, y: string, rest: string, c: char)
    requires c !in b
    ensures b <= y + [c] + rest <==> b <= y
  {
    var text := y + [c] + rest;
    assert text[|y|] == c;
    if b <= text {
      assert forall i | 0 <= i < |b| :: text[i] == b[i] && b[i] in b;
    }
  }

  lemma SecondOctetPrefix(b: Octet, y: Octet)
    ensures Decimal(b) <= Decimal(y) ==> b == y || (b != 0 && 10 * b <= y)
    ensures b != 0 && 10 * b < 256 ==> Decimal(b) <= Decimal(10 * b)
  {
    DecimalPrefix(b, y);
    DecimalPrefix(b, y / 10);
    DecimalPrefix(b, y / 100);
    assert y / 10 / 10 == y / 100 && y / 100 / 10 == 0;
    DecimalPrefix(0, y);
    assert y >= 100 ==> Decimal(0) != Decimal(y / 100) by { SameNumbers(0, y / 100); }
    if b != 0 && 10 * b < 256 {
      DecimalPrefix(b, 10 * b);
    }
  }

  lemma SixteenAt(ip: Address, prefix: Address)
    ensures InNetwork(ip, prefix, 16) ==> IpInCidr(Dotted(ip), Cidr(prefix, 16))
    ensures prefix.b == 0 || prefix.b >= 26 ==>
              (IpInCidr(Dotted(ip), Cidr(prefix, 16)) <==> InNetwork(ip, prefix, 16))
  {
    TestByOctets(ip, prefix, 16);
    NetworkByOctets(ip, prefix);
    SecondOctetPrefix(prefix.b, ip.b);
  }

  /** The address whose second octet is the prefix's one with a zero behind it is let in by mistake. */
  lemma SixteenAdmitsOutsider(prefix: Address)
    requires 0 < prefix.b < 26
    ensures var outsider := Address(prefix.a, 10 * prefix.b, 0, 0);
            IpInCidr(Dotted(outsider), Cidr(prefix, 16)) && !InNetwork(outsider, prefix, 16)
  {
    var outsider := Address(prefix.a, 10 * prefix.b, 0, 0);
    TestByOctets(outsider, prefix, 16);
    NetworkByOctets(outsider, prefix);
    SecondOctetPrefix(prefix.b, outsider.b);
  }

  /** /16 never misses a member, and is exact precisely when no longer octet begins with the prefix's second one. */
  lemma SixteenIsExactWhen(prefix: Address)
    ensures forall ip: Address | InNetwork(ip, prefix, 16) :: IpInCidr(Dotted(ip), Cidr(prefix, 16))
    ensures (forall ip: Address :: IpInCidr(Dotted(ip), Cidr(prefix, 16)) <==> InNetwork(ip, prefix, 16))
            <==> prefix.b == 0 || prefix.b >= 26
  {
    forall ip: Address
      ensures InNetwork(ip, prefix, 16) ==> IpInCidr(Dotted(ip), Cidr(prefix, 16))
      ensures prefix.b == 0 || prefix.b >= 26 ==>
                (IpInCidr(Dotted(ip), Cidr(prefix, 16)) <==> InNetwork(ip, prefix, 16))
    {
      SixteenAt(ip, prefix);
    }
    if 0 < prefix.b < 26 {
      SixteenAdmitsOutsider(prefix);
    }
  }

  lemma HalvesShareQuotient(v: nat, w: nat, k: nat)
    requires v / 2 == w / 2 && k >= 1
    ensures v / Pow2(k) == w / Pow2(k)
  {
    var m := Pow2(k - 1);
    NestedDivision(v, m);
    NestedDivision(w, m);
  }

  lemma NestedDivision(v: nat, m: nat)
    requires m >= 1
    ensures v / (2 * m) == v / 2 / m
  {
    var q, r := v / 2 / m, v / 2 % m;
    assert v / 2 == q * m + r;
    assert v == (2 * m) * q + (2 * r + v % 2);
    QuotientIs(v, 2 * m, q, 2 * r + v % 2);
  }

  lemma QuotientIs(v: nat, m: nat, q: nat, r: nat)
    requires v == m * q + r && r < m
    ensures v / m == q
  {
    assert m * (v / m - q) == r - v % m by { assert v == m * (v / m) + v % m; }
    MultipleIsFar(m, v / m - q);
  }

  lemma MultipleIsFar(m: nat, d: int)
    ensures d >= 1 ==> m * d >= m
    ensures d <= -1 ==> m * d + m <= 0
  {
  }

  /** Any other length admits the prefix address alone: always right when it admits, but it misses
      members of every network that has more than one. */
  lemma OtherLengthsAdmitOneAddress(ip: Address, prefix: Address, length: nat)
    requires length <= 32 && length !in {0, 8, 16, 24}
    ensures IpInCidr(Dotted(ip), Cidr(prefix, length)) <==> ip == prefix
    ensures IpInCidr(Dotted(ip), Cidr(prefix, length)) ==> InNetwork(ip, prefix, length)
    ensures length < 32 ==>
              exists missed: Address ::
                InNetwork(missed, prefix, length) && !IpInCidr(Dotted(missed), Cidr(prefix, length))
  {
    TestByOctets(ip, prefix, length);
    if length < 32 {
      var missed := prefix.(d := if prefix.d % 2 == 0 then prefix.d + 1 else prefix.d - 1);
      HalvesShareQuotient(Value(missed), Value(prefix), 32 - length);
      TestByOctets(missed, prefix, length);
      assert InNetwork(missed, prefix, length) && !IpInCidr(Dotted(missed), Cidr(prefix, length));
    }
  }
}
