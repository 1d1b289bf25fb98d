/** Address blocks in prefix notation (RFC 4632 section 3.1), and the least number of them
    that makes up a range of addresses. */
module Prefixes {
  function Pow2(n: nat): (p: nat)
    ensures p >= 1
  {
    if n == 0 then 1 else 2 * Pow2(n - 1)
  }

  lemma {:induction false} Pow2Adds(m: nat, n: nat)
    ensures Pow2(m + n) == Pow2(m) * Pow2(n)
  {
    if m > 0 {
      Pow2Adds(m - 1, n);
    }
  }

  lemma {:induction false} Pow2Monotone(m: nat, n: nat)
    requires m <= n
    ensures Pow2(m) <= Pow2(n) && (m < n ==> 2 * Pow2(m) <= Pow2(n))
  {
    if m < n {
      Pow2Monotone(m, n - 1);
    }
  }

  /** 32 bits for IPv4 addresses, 128 for IPv6. */
  datatype Version = V4 | V6

  function Width(v: Version): nat
  {
    if v.V4? then 32 else 128
  }

  datatype Addr = Addr(version: Version, n: nat)

  predicate ValidAddr(a: Addr)
  {
    a.n < Pow2(Width(a.version))
  }

  /** The block of all addresses that share the first `len` bits of `base`. */
  datatype Block = Block(version: Version, base: nat, len: nat)

  function Size(b: Block): (s: nat)
    requires b.len <= Width(b.version)
    ensures s >= 1
  {
    Pow2(Width(b.version) - b.len)
  }

  /** Canonical blocks, as CIDRField stores them: no host bits set. */
  predicate Canonical(b: Block)
  {
    b.len <= Width(b.version) && b.base % Size(b) == 0 && b.base + Size(b) <= Pow2(Width(b.version))
  }

  /** PostgreSQL's `>>=`. */
  predicate Contains(b: Block, a: Addr)
    requires Canonical(b)
  {
    b.version == a.version && b.base <= a.n < b.base + Size(b)
  }

  function RoundDown(n: nat, size: nat): (r: nat)
    requires size >= 1
    ensures r <= n < r + size
  {
    DivMod(n, size);
    n - n % size
  }

  /** `ip_network(value, strict=False)`: clear the host bits. */
  function Network(a: Addr, len: nat): Block
    requires ValidAddr(a) && len <= Width(a.version)
  {
    Block(a.version, RoundDown(a.n, Pow2(Width(a.version) - len)), len)
  }

  lemma DivMod(x: nat, d: nat)
    requires d >= 1
    ensures x == d * (x / d) + x % d && 0 <= x % d < d
  {
  }

  /** Two aligned stretches whose sizes divide one another are nested or disjoint. */
  lemma AlignedNest(x: nat, p: nat, y: nat, q: nat)
    requires p >= 1 && q >= 1 && p % q == 0 && x % p == 0 && y % q == 0
    ensures y + q <= x || x + p <= y || (x <= y && y + q <= x + p)
  {
    DivMod(p, q); DivMod(x, p); DivMod(y, q);
    var k, i, j := p / q, x / p, y / q;
    assert p == q * k && x == p * i && y == q * j;
    assert x == q * (k * i) && x + p == q * (k * i + k) by { Associate(q, k, i); }
    if j < k * i {
      MulLe(q, j + 1, k * i);
    } else if j >= k * i + k {
      MulLe(q, k * i + k, j);
    } else {
      MulLe(q, k * i, j);
      MulLe(q, j + 1, k * i + k);
    }
  }

  lemma Associate(q: nat, k: nat, i: nat)
    ensures (q * k) * i == q * (k * i)
    ensures q * (k * i) + q * k == q * (k * i + k)
  {
  }

  lemma MulLe(q: nat, a: int, b: int)
    requires a <= b
    ensures q * a <= q * b
  {
  }

  lemma {:induction false} Pow2Divides(m: nat, n: nat)
    requires m <= n
    ensures Pow2(n) % Pow2(m) == 0
  {
    Pow2Adds(n - m, m);
    MultipleMod(Pow2(n - m), Pow2(m));
  }

  lemma MultipleMod(a: nat, b: nat)
    requires b >= 1
    ensures (a * b) % b == 0
  {
    DivMod(a * b, b);
    var r, k := (a * b) % b, (a * b) / b;
    assert r == b * (a - k) by { Distribute(b, a, k); }
    if a - k >= 1 { MulLe(b, 1, a - k); } else if a - k <= -1 { MulLe(b, a - k, -1); }
  }

  lemma Distribute(b: nat, a: int, k: int)
    ensures a * b - b * k == b * (a - k)
  {
  }

  /** Canonical blocks are nested or disjoint. */
  lemma NestedOrDisjoint(b: Block, c: Block)
    requires Canonical(b) && Canonical(c) && b.version == c.version && b.len <= c.len
    ensures c.base + Size(c) <= b.base || b.base + Size(b) <= c.base
        || (b.base <= c.base && c.base + Size(c) <= b.base + Size(b))
  {
    Pow2Divides(Width(b.version) - c.len, Width(b.version) - b.len);
    AlignedNest(b.base, Size(b), c.base, Size(c));
  }

  /** Two canonical blocks of one length that hold the same address are equal. */
  lemma SameLengthSameBlock(b: Block, c: Block, a: Addr)
    requires Canonical(b) && Canonical(c) && Contains(b, a) && Contains(c, a) && b.len == c.len
    ensures b == c
  {
    NestedOrDisjoint(b, c);
  }

  lemma RoundDownAligned(n: nat, size: nat)
    requires size >= 1
    ensures RoundDown(n, size) % size == 0
  {
    DivMod(n, size);
    assert RoundDown(n, size) == (n / size) * size by { Associate(1, size, n / size); }
    MultipleMod(n / size, size);
  }

  /** Clearing the host bits gives a canonical block that holds the address; with
      SameLengthSameBlock, the only one of its length. */
  lemma NetworkIsCanonical(a: Addr, len: nat)
    requires ValidAddr(a) && len <= Width(a.version)
    ensures Canonical(Network(a, len)) && Contains(Network(a, len), a)
  {
    hide Pow2, RoundDown;
    var w := Width(a.version);
    var size, all := Pow2(w - len), Pow2(w);
    var base := RoundDown(a.n, size);
    RoundDownAligned(a.n, size);
    Pow2Divides(w - len, w);
    assert all % all == 0 by { MultipleMod(1, all); }
    AlignedNest(all, all, base, size);
  }

  /** The canonical blocks are exactly the networks of valid addresses. */
  lemma CanonicalIff(b: Block)
    ensures Canonical(b) <==>
      b.len <= Width(b.version) && exists a :: ValidAddr(a) && a.version == b.version && b == Network(a, b.len)
  {
    if Canonical(b) {
      var a := Addr(b.version, b.base);
      assert ValidAddr(a) && b == Network(a, b.len);
    } else if b.len <= Width(b.version) {
      forall a | ValidAddr(a) && a.version == b.version ensures b != Network(a, b.len) {
        NetworkIsCanonical(a, b.len);
      }
    }
  }
}
