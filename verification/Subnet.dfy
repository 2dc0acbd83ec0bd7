/** The "same network" relation of the fuzzy tier (`_network_for` and the prefix clamps of
    ingestion/correlation.py), with CIDR prefixes as in section 3.1 of RFC 4632. */
module Subnet {
  import opened Wrappers

  datatype Address = V4(value: nat) | V6(value: nat)
  {
    function Width(): nat {
      if V4? then 32 else 128
    }
  }

  /** A network: family, base address with the host bits cleared, prefix length. */
  datatype Network = Network(v4: bool, base: nat, prefix: nat)

  function Pow2(n: nat): (p: nat)
    ensures p >= 1
  {
    if n == 0 then 1 else 2 * Pow2(n - 1)
  }

  /** min(max(bits, 1), most) */
  function Clamp(bits: int, most: nat): (p: nat)
    requires most >= 1
    ensures 1 <= p <= most
  {
    if bits < 1 then 1 else if bits > most then most else bits
  }

  /** The two configured prefixes, before clamping. */
  datatype Prefixes = Prefixes(bitsV4: int, bitsV6: int)
  {
    function For(a: Address): (p: nat)
      ensures 1 <= p <= a.Width()
    {
      if a.V4? then Clamp(bitsV4, 32) else Clamp(bitsV6, 128)
    }
  }

  /** `value & netmask`: the low `n` bits cleared. */
  function Masked(value: nat, n: nat): nat {
    if n == 0 then value else 2 * Masked(value / 2, n - 1)
  }

  function NetworkOf(a: Address, p: Prefixes): Network {
    Network(a.V4?, Masked(a.value, a.Width() - p.For(a)), p.For(a))
  }

  /** `_network_for` on text: None when the text is no address. */
  function NetworkFor(parse: string -> Option<Address>, text: string, p: Prefixes): Option<Network> {
    match parse(text)
    case None => None
    case Some(a) => Some(NetworkOf(a, p))
  }

  predicate SameNetwork(a: Address, b: Address, p: Prefixes) {
    NetworkOf(a, p) == NetworkOf(b, p)
  }

  /** The value shifted right by `n` bits. */
  function Shifted(value: nat, n: nat): nat {
    if n == 0 then value else Shifted(value / 2, n - 1)
  }

  lemma {:induction false} MaskedIsShifted(x: nat, y: nat, n: nat)
    ensures Masked(x, n) == Masked(y, n) <==> Shifted(x, n) == Shifted(y, n)
  {
    if n > 0 {
      MaskedIsShifted(x / 2, y / 2, n - 1);
    }
  }

  lemma {:induction false} ProductStep(d: nat, a: nat, b: nat)
    requires a < b
    ensures d * a + d <= d * b
    decreases b
  {
    assert d * b == d * (b - 1) + d;
    if a < b - 1 {
      ProductStep(d, a, b - 1);
    }
  }

  lemma QuotientUnique(x: nat, d: nat, q: nat, r: nat)
    requires d >= 1 && x == d * q + r && r < d
    ensures x / d == q
  {
    if x / d < q {
      ProductStep(d, x / d, q);
      assert false;
    } else if q < x / d {
      ProductStep(d, q, x / d);
      assert false;
    }
  }

  lemma HalfThenDivide(x: nat, d: nat)
    requires d >= 1
    ensures x / 2 / d == x / (2 * d)
  {
    var h := x / 2;
    var q, r := h / d, h % d;
    assert h == d * q + r;
    assert (2 * d) * q == 2 * (d * q);
    QuotientUnique(x, 2 * d, q, 2 * r + x % 2);
  }

  lemma {:induction false} ShiftedIsQuotient(x: nat, n: nat)
    ensures Shifted(x, n) == x / Pow2(n)
  {
    if n > 0 {
      ShiftedIsQuotient(x / 2, n - 1);
      HalfThenDivide(x, Pow2(n - 1));
    }
  }

  lemma TwiceProduct(d: nat, q: nat)
    ensures 2 * (d * q) == (2 * d) * q
  {
  }

  lemma {:induction false} MaskedIsProduct(x: nat, n: nat)
    ensures Masked(x, n) == Pow2(n) * (x / Pow2(n))
  {
    if n > 0 {
      var d := Pow2(n - 1);
      MaskedIsProduct(x / 2, n - 1);
      HalfThenDivide(x, d);
      TwiceProduct(d, x / 2 / d);
    } else {
      assert Pow2(0) == 1;
    }
  }

  lemma Bracket(x: nat, size: nat)
    requires size >= 1
    ensures size * (x / size) <= x < size * (x / size) + size
  {
    assert x == size * (x / size) + x % size;
  }

  /** The network of an address: of its family, with its prefix, from a multiple of 2^(width - prefix) up to the next, and the
      address lies between. */
  lemma NetworkHoldsAddress(a: Address, p: Prefixes)
    ensures NetworkOf(a, p).v4 == a.V4? && NetworkOf(a, p).prefix == p.For(a)
    ensures NetworkOf(a, p).base <= a.value < NetworkOf(a, p).base + Pow2(a.Width() - p.For(a))
    ensures NetworkOf(a, p).base % Pow2(a.Width() - p.For(a)) == 0
  {
    MaskHolds(a.value, a.Width() - p.For(a));
  }

  lemma MaskHolds(x: nat, n: nat)
    ensures Masked(x, n) <= x < Masked(x, n) + Pow2(n) && Masked(x, n) % Pow2(n) == 0
  {
    MaskedIsProduct(x, n);
    Bracket(x, Pow2(n));
    MultipleRemainder(Pow2(n), x / Pow2(n));
  }

  lemma MultipleRemainder(d: nat, q: nat)
    requires d >= 1
    ensures (d * q) % d == 0
  {
    QuotientUnique(d * q, d, q, 0);
    assert d * q == d * ((d * q) / d) + (d * q) % d;
  }

  /** Two addresses share a network exactly when they are of one family and their integer values agree
      after division by 2^(width - prefix); so IPv4 is never related to IPv6. */
  lemma SameNetworkIsSameQuotient(a: Address, b: Address, p: Prefixes)
    ensures SameNetwork(a, b, p) <==>
      a.V4? == b.V4? && a.value / Pow2(a.Width() - p.For(a)) == b.value / Pow2(b.Width() - p.For(b))
  {
    MaskedIsShifted(a.value, b.value, a.Width() - p.For(a));
    ShiftedIsQuotient(a.value, a.Width() - p.For(a));
    ShiftedIsQuotient(b.value, b.Width() - p.For(b));
  }

  lemma {:induction false} MasksMeet(x: nat, y: nat, m: nat, n: nat)
    requires m <= n && Masked(x, m) == Masked(y, m)
    ensures Masked(x, n) == Masked(y, n)
    decreases m
  {
    if m > 0 {
      MasksMeet(x / 2, y / 2, m - 1, n - 1);
    }
  }

  /** A match at a longer prefix is a match at every shorter one. */
  lemma ShorterPrefixKeepsMatch(a: Address, b: Address, longer: Prefixes, shorter: Prefixes)
    requires SameNetwork(a, b, longer)
    requires shorter.bitsV4 <= longer.bitsV4 && shorter.bitsV6 <= longer.bitsV6
    ensures SameNetwork(a, b, shorter)
  {
    var w := a.Width();
    MasksMeet(a.value, b.value, w - longer.For(a), w - shorter.For(a));
  }

  /** At the longest prefixes only equal addresses match. */
  lemma FullPrefixIsEquality(a: Address, b: Address)
    ensures SameNetwork(a, b, Prefixes(32, 128)) <==> a == b
  {
    var p := Prefixes(32, 128);
    assert p.For(a) == a.Width() && p.For(b) == b.Width();
  }
}
