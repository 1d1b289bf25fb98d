/** The table of country networks, and the most specific enabled Iranian block that holds an
    address (longest match, RFC 4632 section 5.1). */
module CountryNetworks {
  import opened Common
  import opened Prefixes

  const IRAN := "IR"

  /** The unique constraint on (country_code, cidr): the table is a map from such pairs. */
  datatype NetKey = NetKey(country: string, cidr: Block)

  datatype NetworkRow = NetworkRow(network: string, prefixLength: nat, source: string, enabled: bool,
      verifiedAt: Option<int>)

  type Networks = map<NetKey, NetworkRow>

  /** Rows as CIDRField and CountryNetwork.save store them. */
  ghost predicate ValidNetworks(nets: Networks)
  {
    forall k :: k in nets ==> Canonical(k.cidr) && nets[k].prefixLength == k.cidr.len
  }

  predicate Holds(b: Block, a: Addr)
  {
    Canonical(b) && Contains(b, a)
  }

  /** The rows the query's filter keeps. */
  predicate Matches(nets: Networks, k: NetKey, a: Addr)
  {
    k in nets && k.country == IRAN && nets[k].enabled && Holds(k.cidr, a)
  }

  /** What `order_by("-prefix_length").first()` may return: ties come in any order. */
  ghost predicate IsAnswer(nets: Networks, a: Addr, k: NetKey)
  {
    && Matches(nets, k, a)
    && forall j :: Matches(nets, j, a) ==> nets[j].prefixLength <= nets[k].prefixLength
  }

  ghost function Enabled(nets: Networks): set<Block>
  {
    set k | k in nets && k.country == IRAN && nets[k].enabled :: k.cidr
  }

  ghost predicate IsLongest(blocks: set<Block>, a: Addr, b: Block)
  {
    && b in blocks && Holds(b, a)
    && forall c :: c in blocks && Holds(c, a) ==> c.len <= b.len
  }

  ghost function Longest(blocks: set<Block>, a: Addr): Option<Block>
  {
    if exists b :: IsLongest(blocks, a, b) then
      var b :| IsLongest(blocks, a, b);
      Some(b)
    else None
  }

  ghost function Match(nets: Networks, a: Addr): Option<Block>
  {
    Longest(Enabled(nets), a)
  }

  lemma {:induction false} SomeLongest(blocks: set<Block>, a: Addr, b: Block)
    requires b in blocks && Holds(b, a)
    ensures exists c :: IsLongest(blocks, a, c)
  {
    hide Holds;
    var rest := blocks - {b};
    if c :| c in rest && Holds(c, a) {
      SomeLongest(rest, a, c);
      var d :| IsLongest(rest, a, d);
      assert IsLongest(blocks, a, if d.len >= b.len then d else b);
    } else {
      assert IsLongest(blocks, a, b);
    }
  }

  /** The longest match exists when some block holds the address, and there is only one. */
  lemma LongestIsUnique(blocks: set<Block>, a: Addr)
    ensures Longest(blocks, a).None? <==> forall b :: b in blocks ==> !Holds(b, a)
    ensures forall b :: Longest(blocks, a) == Some(b) <==> IsLongest(blocks, a, b)
  {
    hide Canonical;
    if b :| b in blocks && Holds(b, a) {
      SomeLongest(blocks, a, b);
    }
    forall b, c | IsLongest(blocks, a, b) && IsLongest(blocks, a, c) ensures b == c {
      SameLengthSameBlock(b, c, a);
    }
  }

  /** The ordered query has one answer, whatever order the rows come in. */
  lemma QueryHasOneAnswer(nets: Networks, a: Addr, k: NetKey)
    requires ValidNetworks(nets)
    ensures IsAnswer(nets, a, k) <==> k.country == IRAN && Match(nets, a) == Some(k.cidr)
    ensures Match(nets, a).None? <==> forall j :: !Matches(nets, j, a)
  {
    hide Holds, Canonical, Longest;
    LongestIsUnique(Enabled(nets), a);
    forall b | b in Enabled(nets) && Holds(b, a) ensures Matches(nets, NetKey(IRAN, b), a) {}
    forall j | Matches(nets, j, a) ensures j.cidr in Enabled(nets) && j == NetKey(IRAN, j.cidr) {}
  }

  /** The query, visiting the rows in any order. */
  method FindMatchingCidr(nets: Networks, a: Addr) returns (r: Option<NetKey>)
    requires ValidNetworks(nets)
    ensures r.Some? ==> r.value.country == IRAN && r.value in nets
    ensures Match(nets, a) == if r.Some? then Some(r.value.cidr) else None
  {
    hide Holds, Match;
    r := None;
    var todo := nets.Keys;
    while todo != {}
      invariant todo <= nets.Keys
      invariant r.None? ==> forall k :: Matches(nets, k, a) ==> k in todo
      invariant r.Some? ==> Matches(nets, r.value, a)
      invariant r.Some? ==> forall k :: Matches(nets, k, a) && k !in todo ==>
          nets[k].prefixLength <= nets[r.value].prefixLength
    {
      var k :| k in todo;
      todo := todo - {k};
      if Matches(nets, k, a) && (r.None? || nets[k].prefixLength > nets[r.value].prefixLength) {
        r := Some(k);
      }
    }
    if r.Some? {
      assert IsAnswer(nets, a, r.value);
      QueryHasOneAnswer(nets, a, r.value);
    } else {
      QueryHasOneAnswer(nets, a, NetKey(IRAN, Block(V4, 0, 0)));
    }
  }

  function Disabled(nets: Networks, k: NetKey): Networks
    requires k in nets
  {
    nets[k := nets[k].(enabled := false)]
  }

  /** Disabling a row changes the answer for exactly the addresses whose answer was that row;
      theirs becomes a wider block around it, or none. */
  lemma DisablingOne(nets: Networks, k: NetKey, a: Addr)
    requires ValidNetworks(nets) && k in nets && k.country == IRAN && nets[k].enabled
    ensures var now := Match(Disabled(nets, k), a);
      && (now == Match(nets, a) <==> Match(nets, a) != Some(k.cidr))
      && (Match(nets, a) == Some(k.cidr) && now.Some? ==> Wider(now.value, k.cidr))
  {
    hide Holds, Longest, Canonical;
    var e, f := Enabled(nets), Enabled(Disabled(nets, k));
    assert f == e - {k.cidr} by { EnabledWithout(nets, k); }
    LongestIsUnique(e, a);
    LongestIsUnique(f, a);
    if Match(nets, a) == Some(k.cidr) {
      if now :| Match(Disabled(nets, k), a) == Some(now) {
        HoldersNest(now, k.cidr, a);
      }
    } else if b :| Match(nets, a) == Some(b) {
      assert IsLongest(f, a, b);
    }
  }

  /** `b` is a strictly shorter prefix whose block lies around `c`. */
  predicate Wider(b: Block, c: Block)
  {
    && Canonical(b) && Canonical(c)
    && b.version == c.version && b.len < c.len && b.base <= c.base && c.base + Size(c) <= b.base + Size(b)
  }

  lemma HoldersNest(b: Block, c: Block, a: Addr)
    requires Holds(b, a) && Holds(c, a) && b.len <= c.len && b != c
    ensures Wider(b, c)
  {
    NestedOrDisjoint(b, c);
    if b.len == c.len {
      SameLengthSameBlock(b, c, a);
    }
  }

  lemma EnabledWithout(nets: Networks, k: NetKey)
    requires k in nets && k.country == IRAN
    ensures Enabled(Disabled(nets, k)) == Enabled(nets) - {k.cidr}
  {
    var t := Disabled(nets, k);
    forall b | b in Enabled(nets) && b != k.cidr ensures b in Enabled(t) {
      assert NetKey(IRAN, b) in t && NetKey(IRAN, b) != k;
    }
    assert NetKey(IRAN, k.cidr) == k;
  }

  /** How the answer changes when blocks come and go: it is still `b` exactly when `b` stayed
      and no block that came is longer around the address. */
  lemma LongestAfter(before: set<Block>, after: set<Block>, a: Addr)
    requires before <= after
    ensures Longest(after, a) == Longest(before, a) <==>
      !exists b :: b in after - before && Holds(b, a)
          && (Longest(before, a).None? || b.len > Longest(before, a).value.len)
  {
    hide Holds, Longest, Canonical;
    LongestIsUnique(before, a);
    LongestIsUnique(after, a);
    if m :| Longest(before, a) == Some(m) {
      if b :| b in after - before && Holds(b, a) && b.len > m.len {
        assert !IsLongest(after, a, m);
      } else {
        forall c | c in after && Holds(c, a) ensures c.len <= m.len {}
        assert IsLongest(after, a, m);
      }
    }
  }
}
