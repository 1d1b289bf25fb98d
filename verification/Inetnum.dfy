/** The block noted on an address's row for a WHOIS `inetnum` value. */
module Inetnum {
  import opened Common
  import opened Text
  import opened Prefixes
  import opened Summaries

  /** `ip_address` and `ip_network(..., strict=False)` as text readers: None where they raise
      ValueError. A network text gives an address and a prefix length. */
  datatype Readers = Readers(address: string -> Option<Addr>, network: string -> Option<(Addr, nat)>)

  ghost predicate ValidReaders(rd: Readers)
  {
    && (forall s :: rd.address(s).Some? ==> ValidAddr(rd.address(s).value))
    && (forall s :: rd.network(s).Some? ==>
         ValidAddr(rd.network(s).value.0) && rd.network(s).value.1 <= Width(rd.network(s).value.0.version))
  }

  /** The function's results. `TypeRaised` is the TypeError of `summarize_address_range` for
      mixed versions, which the `except ValueError` does not catch. */
  datatype Result = Cidr(block: Block) | NoCidr | TypeRaised

  /** Where `c` first occurs, or the length. */
  function FirstAt(s: string, c: char): (i: nat)
    ensures i <= |s| && c !in s[..i] && (i < |s| ==> s[i] == c)
  {
    if s == [] || s[0] == c then 0
    else
      var i := FirstAt(s[1..], c);
      assert s[..1 + i] == [s[0]] + s[1..][..i];
      1 + i
  }

  lemma ReadNetwork(s: string, rd: Readers)
    requires ValidReaders(rd) && rd.network(s).Some?
    ensures ValidAddr(rd.network(s).value.0) && rd.network(s).value.1 <= Width(rd.network(s).value.0.version)
  {
    hide ValidAddr;
  }

  lemma ReadAddress(s: string, rd: Readers)
    requires ValidReaders(rd) && rd.address(s).Some?
    ensures ValidAddr(rd.address(s).value)
    ensures InSpace(rd.address(s).value.version, rd.address(s).value.n)
  {
    LastInSpace(rd.address(s).value);
  }

  function CidrOf(inetnum: string, rd: Readers): Result
    requires ValidReaders(rd)
  {
    var text := Strip(inetnum);
    if '/' in text then
      if rd.network(text).None? then NoCidr
      else
        ReadNetwork(text, rd);
        Cidr(Network(rd.network(text).value.0, rd.network(text).value.1))
    else if '-' in text then
      var i := FirstAt(text, '-');
      var first, last := Strip(text[..i]), Strip(text[i + 1..]);
      if rd.address(first).None? || rd.address(last).None? then NoCidr
      else
        ReadAddress(last, rd);
        RangeCidr(rd.address(first).value, rd.address(last).value)
    else NoCidr
  }

  function RangeCidr(first: Addr, last: Addr): Result
    requires InSpace(last.version, last.n)
  {
    if first.version != last.version then TypeRaised
    else if first.n > last.n then NoCidr
    else
      var blocks := Summarize(first.version, first.n, last.n);
      if blocks == [] then NoCidr else Cidr(blocks[0])
  }

  predicate Starts(b: Block, first: Addr)
  {
    Canonical(b) && b.version == first.version && b.base == first.n
  }

  /** Of a range in one version the result is its largest leading block, and nothing of the
      range is lost exactly when the range is one aligned block. */
  lemma RangeGivesFirstBlock(first: Addr, last: Addr)
    requires InSpace(last.version, last.n) && first.version == last.version && first.n <= last.n
    ensures RangeCidr(first, last).Cidr?
    ensures var b := RangeCidr(first, last).block;
      && Starts(b, first) && first.n + Size(b) <= last.n + 1
      && (forall c :: Starts(c, first) && first.n + Size(c) <= last.n + 1 ==> Size(c) <= Size(b))
      && (first.n + Size(b) == last.n + 1 <==> exists c :: Starts(c, first) && first.n + Size(c) == last.n + 1)
  {
    hide Summarize, Pow2;
    FirstIsWhole(first.version, first.n, last.n);
  }

  /** A value that is taken for a range: it has no slash, and its first dash splits it. */
  predicate RangeText(inetnum: string, first: string, last: string)
  {
    '/' !in inetnum && inetnum == first + "-" + last && '-' !in first
  }

  lemma {:induction false} FirstAtConcat(a: string, c: char, b: string)
    requires c !in a
    ensures FirstAt(a + [c] + b, c) == |a|
  {
    var s := a + [c] + b;
    if a == [] {
      assert s[0] == c;
    } else {
      assert s[0] == a[0] && s[1..] == a[1..] + [c] + b;
      FirstAtConcat(a[1..], c, b);
    }
  }

  /** When the value yields a block, and when the call fails with a TypeError instead of None:
      for every text without a slash and with a dash, exactly for two addresses of different versions. */
  lemma RangeOutcome(inetnum: string, first: string, last: string, rd: Readers)
    requires ValidReaders(rd) && RangeText(Strip(inetnum), first, last)
    ensures var f, l, r := rd.address(Strip(first)), rd.address(Strip(last)), CidrOf(inetnum, rd);
      && (r.TypeRaised? <==> f.Some? && l.Some? && f.value.version != l.value.version)
      && (r.Cidr? <==> f.Some? && l.Some? && f.value.version == l.value.version && f.value.n <= l.value.n)
      && (r.Cidr? ==> r == RangeCidr(f.value, l.value))
  {
    hide ValidReaders, Pow2, Summarize, Strip;
    var text := Strip(inetnum);
    FirstAtConcat(first, '-', last);
    assert text[..|first|] == first && text[|first| + 1..] == last;
    assert text[|first|] == '-';
    if rd.address(Strip(first)).Some? && rd.address(Strip(last)).Some? {
      ReadAddress(Strip(last), rd);
      OutcomeOfRange(rd.address(Strip(first)).value, rd.address(Strip(last)).value);
    }
  }

  /** A value with a slash gives the network's canonical block around its address, or None when it
      is no network; a value with neither slash nor dash gives None. */
  lemma NetworkOutcome(inetnum: string, rd: Readers)
    requires ValidReaders(rd)
    ensures '/' in Strip(inetnum) ==>
      var n, r := rd.network(Strip(inetnum)), CidrOf(inetnum, rd);
      && (n.None? ==> r == NoCidr)
      && (n.Some? ==> r.Cidr? && Canonical(r.block) && r.block.version == n.value.0.version
                      && r.block.len == n.value.1 && Contains(r.block, n.value.0))
    ensures '/' !in Strip(inetnum) && '-' !in Strip(inetnum) ==> CidrOf(inetnum, rd) == NoCidr
  {
    hide Strip, Pow2, Canonical, Contains, ValidAddr, RoundDown;
    var text := Strip(inetnum);
    if '/' in text && rd.network(text).Some? {
      ReadNetwork(text, rd);
      NetworkIsCanonical(rd.network(text).value.0, rd.network(text).value.1);
    }
  }

  lemma OutcomeOfRange(first: Addr, last: Addr)
    requires InSpace(last.version, last.n)
    ensures RangeCidr(first, last).TypeRaised? <==> first.version != last.version
    ensures RangeCidr(first, last).Cidr? <==> first.version == last.version && first.n <= last.n
  {
    if first.version == last.version && first.n <= last.n {
      RangeGivesFirstBlock(first, last);
    }
  }
}
