/** Reading RIPE NCC's delegated-extended statistics into blocks. */
module DelegatedStats {
  import opened Common
  import opened Text
  import opened Splitting
  import opened Prefixes
  import opened Summaries

  /** `int`, `IPv4Address` and the address part of `IPv6Network`: None where they raise. */
  datatype Readers = Readers(integer: string -> Option<int>, v4: string -> Option<nat>, v6: string -> Option<nat>)

  ghost predicate ValidReaders(rd: Readers)
  {
    && (forall s :: rd.v4(s).Some? ==> rd.v4(s).value < Pow2(32))
    && (forall s :: rd.v6(s).Some? ==> rd.v6(s).value < Pow2(128))
  }

  /** What an accepted line delegates: `count` addresses from `start` on, or the prefix of
      length `len` that `start` has. */
  datatype Delegation = Range4(start: nat, count: nat) | Prefix6(start: nat, len: nat)

  predicate ValidDelegation(d: Delegation)
  {
    match d
    case Range4(start, count) => count > 0 && start + count <= Pow2(32)
    case Prefix6(start, len) => len <= 128 && start < Pow2(128)
  }

  /** The line's delegation, or None when the line is skipped: blank, a comment, too few fields,
      another country, type or status, or a value that does not parse or fit. */
  function DelegationOf(rawLine: string, rd: Readers): Option<Delegation>
  {
    var line := Strip(rawLine);
    if line == [] || line[0] == '#' then None
    else
      var fields := Split(line, '|');
      if |fields| < 7 then None
      else
        var cc, rtype, status := fields[1], fields[2], fields[6];
        if cc != "IR" || (rtype != "ipv4" && rtype != "ipv6") then None
        else if status != "allocated" && status != "assigned" then None
        else ValueOf(fields, rd)
  }

  function ValueOf(fields: seq<string>, rd: Readers): Option<Delegation>
    requires |fields| >= 7
  {
    var rtype, start, value := fields[2], fields[3], fields[4];
    if rd.integer(value).None? then None
    else if rtype == "ipv4" then RangeOf(rd.v4(start), rd.integer(value).value)
    else PrefixOf(rd.v6(start), rd.integer(value).value)
  }

  function RangeOf(start: Option<nat>, count: int): Option<Delegation>
  {
    if start.None? || count <= 0 || start.value + count > Pow2(32) then None else Some(Range4(start.value, count))
  }

  function PrefixOf(start: Option<nat>, len: int): Option<Delegation>
  {
    if start.None? || !(0 <= len <= 128) then None else Some(Prefix6(start.value, len))
  }

  lemma DelegationIsValid(rawLine: string, rd: Readers)
    requires ValidReaders(rd) && DelegationOf(rawLine, rd).Some?
    ensures ValidDelegation(DelegationOf(rawLine, rd).value)
  {
    hide Split, Strip, Pow2;
  }

  /** The blocks of one line. */
  function Blocks4And6(d: Delegation): seq<Block>
    requires ValidDelegation(d)
  {
    match d
    case Range4(start, count) => Summarize(V4, start, start + count - 1)
    case Prefix6(start, len) => [Network(Addr(V6, start), len)]
  }

  /** The addresses a delegation is about, in its own terms. */
  predicate Delegates(d: Delegation, a: Addr)
    requires ValidDelegation(d)
  {
    match d
    case Range4(start, count) => a.version == V4 && start <= a.n < start + count
    case Prefix6(start, len) => a.version == V6 && a.n / Pow2(128 - len) == start / Pow2(128 - len)
  }

  ghost predicate InSome(blocks: seq<Block>, a: Addr)
  {
    exists b :: b in blocks && Canonical(b) && Contains(b, a)
  }

  // ---- What a line delegates --------------------------------------------------------

  /** The line has these fields, with any white space around it. */
  ghost predicate HasFields(rawLine: string, fields: seq<string>, lead: string, trail: string)
  {
    && |fields| >= 1 && Free(fields, '|') && rawLine == lead + Join(fields, '|') + trail
    && Blank(lead) && Blank(trail) && Trimmed(Join(fields, '|'))
  }

  /** An Iranian line that is no comment, of a type and a status that count. */
  ghost predicate Counts(fields: seq<string>)
  {
    && |fields| >= 7 && (fields[0] == "" || fields[0][0] != '#')
    && fields[1] == "IR" && fields[2] in {"ipv4", "ipv6"} && fields[6] in {"allocated", "assigned"}
  }

  /** `count` IPv4 addresses from `start` on. */
  ghost predicate GivesRange(fields: seq<string>, rd: Readers, start: nat, count: nat)
  {
    && Counts(fields) && fields[2] == "ipv4"
    && rd.v4(fields[3]) == Some(start) && rd.integer(fields[4]) == Some(count)
    && count > 0 && start + count <= Pow2(32)
  }

  /** The IPv6 prefix of length `len` that `start` has. */
  ghost predicate GivesPrefix(fields: seq<string>, rd: Readers, start: nat, len: nat)
  {
    && Counts(fields) && fields[2] == "ipv6"
    && rd.v6(fields[3]) == Some(start) && rd.integer(fields[4]) == Some(len) && len <= 128
  }

  /** The address is one that the fields delegate. */
  ghost predicate FieldsDelegate(fields: seq<string>, rd: Readers, start: nat, n: nat, a: Addr)
  {
    || (GivesRange(fields, rd, start, n) && a.version == V4 && start <= a.n < start + n)
    || (GivesPrefix(fields, rd, start, n) && a.version == V6 && a.n / Pow2(128 - n) == start / Pow2(128 - n))
  }

  ghost predicate DelegatedBy(rawLine: string, rd: Readers, a: Addr)
  {
    exists fields, lead, trail, start, n ::
      HasFields(rawLine, fields, lead, trail) && FieldsDelegate(fields, rd, start, n, a)
  }

  lemma FieldsAreRead(rawLine: string, fields: seq<string>, lead: string, trail: string, rd: Readers)
    requires HasFields(rawLine, fields, lead, trail)
    ensures DelegationOf(rawLine, rd) == if Counts(fields) then ValueOf(fields, rd) else None
  {
    hide Strip, Split, ValueOf, Trimmed, Blank;
    var line := Join(fields, '|');
    StripPads(lead, line, trail);
    SplitJoin(fields, '|');
    FirstChar(fields);
    hide Join, Free;
  }

  lemma FirstChar(fields: seq<string>)
    requires |fields| >= 1
    ensures var line := Join(fields, '|');
      line != [] ==> (line[0] == '#' <==> fields[0] != "" && fields[0][0] == '#')
    ensures |fields| > 1 ==> Join(fields, '|') != []
  {
    if |fields| > 1 {
      JoinMore(fields[0], fields[1..], '|');
      assert fields == [fields[0]] + fields[1..];
      hide Join;
    }
  }

  lemma DelegationFromFields(fields: seq<string>, rd: Readers, start: nat, n: nat)
    requires Counts(fields)
    ensures ValueOf(fields, rd) == Some(Range4(start, n)) <==> GivesRange(fields, rd, start, n)
    ensures ValueOf(fields, rd) == Some(Prefix6(start, n)) <==> GivesPrefix(fields, rd, start, n)
  {
    hide Pow2;
  }

  /** Every line has exactly one list of fields, so these three say what every line contributes,
      from its fields: an IPv4 line the fewest blocks that make up its range; */
  lemma RangeLine(rawLine: string, fields: seq<string>, lead: string, trail: string, rd: Readers, start: nat,
      count: nat)
    requires ValidReaders(rd) && HasFields(rawLine, fields, lead, trail) && GivesRange(fields, rd, start, count)
    ensures Tiles(LineBlocks(rawLine, rd), V4, start, start + count - 1)
    ensures LineBlocks(rawLine, rd) == Summarize(V4, start, start + count - 1)
  {
    hide DelegationOf, Pow2, Tiles, Summarize;
    FieldsAreRead(rawLine, fields, lead, trail, rd);
    DelegationFromFields(fields, rd, start, count);
    DelegationIsValid(rawLine, rd);
    SummarizeTiles(V4, start, start + count - 1);
  }

  /** an IPv6 line one block, of its length and around its address; */
  lemma PrefixLine(rawLine: string, fields: seq<string>, lead: string, trail: string, rd: Readers, start: nat, len: nat)
    requires ValidReaders(rd) && HasFields(rawLine, fields, lead, trail) && GivesPrefix(fields, rd, start, len)
    ensures |LineBlocks(rawLine, rd)| == 1
    ensures var b := LineBlocks(rawLine, rd)[0];
      Canonical(b) && b.version == V6 && b.len == len && Contains(b, Addr(V6, start))
  {
    hide DelegationOf, Pow2, Canonical, RoundDown, Contains;
    FieldsAreRead(rawLine, fields, lead, trail, rd);
    DelegationFromFields(fields, rd, start, len);
    DelegationIsValid(rawLine, rd);
    NetworkIsCanonical(Addr(V6, start), len);
  }

  /** and any other line nothing. */
  lemma OtherLine(rawLine: string, fields: seq<string>, lead: string, trail: string, rd: Readers)
    requires ValidReaders(rd) && HasFields(rawLine, fields, lead, trail)
    requires forall start, n :: !GivesRange(fields, rd, start, n) && !GivesPrefix(fields, rd, start, n)
    ensures LineBlocks(rawLine, rd) == []
  {
    hide DelegationOf, GivesRange, GivesPrefix, ValueOf;
    FieldsAreRead(rawLine, fields, lead, trail, rd);
    var d := DelegationOf(rawLine, rd);
    if d.Some? {
      match d.value {
        case Range4(start, count) => DelegationFromFields(fields, rd, start, count);
        case Prefix6(start, len) => DelegationFromFields(fields, rd, start, len);
      }
    }
  }

  lemma LineHasFields(rawLine: string) returns (fields: seq<string>, lead: string, trail: string)
    ensures HasFields(rawLine, fields, lead, trail)
  {
    lead, trail := StripCuts(rawLine);
    fields := Split(Strip(rawLine), '|');
    JoinSplit(Strip(rawLine), '|');
  }

  /** The blocks of a delegation hold exactly the addresses it is about. */
  lemma BlocksAreDelegation(d: Delegation, a: Addr)
    requires ValidDelegation(d)
    ensures forall b :: b in Blocks4And6(d) ==> Canonical(b)
    ensures InSome(Blocks4And6(d), a) <==> Delegates(d, a)
  {
    hide Canonical, Summarize, Pow2, InSome, Network;
    match d {
      case Range4(start, count) =>
        RangeBlocks(start, count, a);
      case Prefix6(start, len) =>
        PrefixBlock(start, len, a);
        OneBlock(Network(Addr(V6, start), len), a);
    }
  }

  lemma OneBlock(b: Block, a: Addr)
    requires Canonical(b)
    ensures InSome([b], a) <==> Contains(b, a)
  {
    hide Canonical;
    assert [b][0] == b;
  }

  lemma RangeBlocks(start: nat, count: nat, a: Addr)
    requires count > 0 && start + count <= Pow2(32)
    ensures InSpace(V4, start + count - 1)
    ensures forall b :: b in Summarize(V4, start, start + count - 1) ==> Canonical(b)
    ensures InSome(Summarize(V4, start, start + count - 1), a) <==> a.version == V4 && start <= a.n < start + count
  {
    hide Pow2, Canonical;
    var blocks, last := Summarize(V4, start, start + count - 1), start + count - 1;
    SummarizeTiles(V4, start, last);
    TilesPartition(blocks, V4, start, last, Addr(V4, a.n));
    TilesVersion(blocks, V4, start, last);
    hide Summarize, Tiles;
    if a.version == V4 {
      assert a == Addr(V4, a.n);
      if InSome(blocks, a) {
        var b :| b in blocks && Canonical(b) && Contains(b, a);
        var i :| 0 <= i < |blocks| && blocks[i] == b;
        assert Contains(blocks[i], a);
      }
      if start <= a.n < start + count {
        var i :| 0 <= i < |blocks| && Contains(blocks[i], Addr(V4, a.n));
        assert blocks[i] in blocks;
      }
    }
  }

  lemma PrefixBlock(start: nat, len: nat, a: Addr)
    requires len <= 128 && start < Pow2(128)
    ensures Canonical(Network(Addr(V6, start), len))
    ensures Contains(Network(Addr(V6, start), len), a) <==>
        a.version == V6 && a.n / Pow2(128 - len) == start / Pow2(128 - len)
  {
    hide Pow2, RoundDown;
    assert ValidAddr(Addr(V6, start));
    NetworkIsCanonical(Addr(V6, start), len);
    SameQuotient(start, a.n, Pow2(128 - len));
  }

  lemma {:induction false} TilesVersion(blocks: seq<Block>, v: Version, first: int, last: int)
    requires Tiles(blocks, v, first, last)
    ensures forall b :: b in blocks ==> b.version == v && Canonical(b)
  {
    if blocks != [] {
      TilesVersion(blocks[1..], v, first + Size(blocks[0]), last);
    }
  }

  lemma SameQuotient(x: nat, y: nat, size: nat)
    requires size >= 1
    ensures y / size == x / size <==> RoundDown(x, size) <= y < RoundDown(x, size) + size
  {
    DivMod(x, size);
    DivMod(y, size);
    var i, j := x / size, y / size;
    assert size * (i + 1) == size * i + size && size * (j + 1) == size * j + size;
    if i < j {
      MulLe(size, i + 1, j);
    } else if j < i {
      MulLe(size, j + 1, i);
    }
  }

  // ---- The whole body --------------------------------------------------------------

  function LineBlocks(rawLine: string, rd: Readers): seq<Block>
    requires ValidReaders(rd)
  {
    var d := DelegationOf(rawLine, rd);
    if d.None? then []
    else
      DelegationIsValid(rawLine, rd);
      Blocks4And6(d.value)
  }

  function LinesBlocks(lines: seq<string>, rd: Readers): seq<Block>
    requires ValidReaders(rd)
  {
    if lines == [] then [] else LineBlocks(lines[0], rd) + LinesBlocks(lines[1..], rd)
  }

  function Entries(body: string, rd: Readers): seq<Block>
    requires ValidReaders(rd)
  {
    LinesBlocks(SplitLines(body), rd)
  }

  lemma {:induction false} LinesBlocksConcat(a: seq<string>, b: seq<string>, rd: Readers)
    requires ValidReaders(rd)
    ensures LinesBlocks(a + b, rd) == LinesBlocks(a, rd) + LinesBlocks(b, rd)
  {
    hide LineBlocks, ValidReaders;
    if a == [] {
      assert a + b == b;
    } else {
      LinesBlocksConcat(a[1..], b, rd);
      assert (a + b)[1..] == a[1..] + b;
      assert LineBlocks(a[0], rd) + (LinesBlocks(a[1..], rd) + LinesBlocks(b, rd))
          == LineBlocks(a[0], rd) + LinesBlocks(a[1..], rd) + LinesBlocks(b, rd);
    }
  }

  /** The method: a line that does not parse does not stop the others. */
  method Parse(body: string, rd: Readers) returns (entries: seq<Block>)
    requires ValidReaders(rd)
    ensures entries == Entries(body, rd)
    ensures HoldsDelegated(entries, SplitLines(body), rd)
  {
    hide HoldsDelegated, LinesBlocks, LineBlocks, SplitLines, DelegationOf, ValidReaders, Blocks4And6;
    entries := [];
    var lines := SplitLines(body);
    for i := 0 to |lines|
      invariant entries + LinesBlocks(lines[i..], rd) == LinesBlocks(lines, rd)
    {
      var delegation := DelegationOf(lines[i], rd);
      LineStep(lines, i, rd);
      assert entries + (LineBlocks(lines[i], rd) + LinesBlocks(lines[i + 1..], rd))
          == entries + LineBlocks(lines[i], rd) + LinesBlocks(lines[i + 1..], rd);
      if delegation.Some? {
        entries := entries + Blocks4And6(delegation.value);
      }
    }
    NothingLeft(lines, entries, rd);
    BlocksOfLines(lines, rd);
  }

  /** An address is in the blocks exactly when some line delegates it. */
  ghost predicate HoldsDelegated(entries: seq<Block>, lines: seq<string>, rd: Readers)
    requires ValidReaders(rd)
  {
    forall a :: InSome(entries, a) <==> exists i :: 0 <= i < |lines| && DelegatedBy(lines[i], rd, a)
  }

  lemma BlocksOfLines(lines: seq<string>, rd: Readers)
    requires ValidReaders(rd)
    ensures HoldsDelegated(LinesBlocks(lines, rd), lines, rd)
  {
    hide ValidReaders, InSome, DelegatedBy;
    forall a ensures InSome(LinesBlocks(lines, rd), a) <==>
        exists i :: 0 <= i < |lines| && DelegatedBy(lines[i], rd, a) {
      EntriesAreDelegations(lines, rd, a);
    }
  }

  lemma NothingLeft(lines: seq<string>, entries: seq<Block>, rd: Readers)
    requires ValidReaders(rd)
    ensures LinesBlocks(lines[0..], rd) == LinesBlocks(lines, rd)
    ensures entries + LinesBlocks(lines[|lines|..], rd) == entries
  {
    assert lines[0..] == lines && entries + [] == entries;
  }

  lemma LineStep(lines: seq<string>, i: nat, rd: Readers)
    requires ValidReaders(rd) && i < |lines|
    ensures LinesBlocks(lines[i..], rd) == LineBlocks(lines[i], rd) + LinesBlocks(lines[i + 1..], rd)
    ensures DelegationOf(lines[i], rd).None? ==> LineBlocks(lines[i], rd) == []
    ensures DelegationOf(lines[i], rd).Some? ==>
      ValidDelegation(DelegationOf(lines[i], rd).value)
          && LineBlocks(lines[i], rd) == Blocks4And6(DelegationOf(lines[i], rd).value)
  {
    hide DelegationOf, ValidReaders, Blocks4And6;
    if DelegationOf(lines[i], rd).Some? {
      DelegationIsValid(lines[i], rd);
    }
    assert lines[i..][1..] == lines[i + 1..];
  }

  lemma BlankLine(rd: Readers)
    requires ValidReaders(rd)
    ensures LineBlocks("", rd) == []
  {
  }

  /** Parsing two bodies joined by a newline is the concatenation of their results, wherever
      the first one ends: in the middle of a line, after a line break, or between a carriage
      return and the newline that joins them. */
  lemma {:induction false} ParseConcat(a: string, b: string, rd: Readers)
    requires ValidReaders(rd)
    ensures Entries(a + "\n" + b, rd) == Entries(a, rd) + Entries(b, rd)
    decreases |a|
  {
    hide LineBlocks, ValidReaders, BreakAt, SplitLines, LinesBlocks;
    BlankLine(rd);
    var i := BreakAt(a);
    if i == |a| {
      SplitFirstLine(a, b);
      FirstLineBlocks(a, SplitLines(b), rd);
      WholeLine(a, rd);
    } else {
      var w := BreakWidth(a, i);
      var rest := a[i + w..];
      LineThenRest(a, rd);
      if a[i] == '\r' && i == |a| - 1 {
        JoinedBreak(a[..i], b);
        assert a == a[..i] + "\r";
        FirstLineBlocks(a[..i], SplitLines(b), rd);
        NoEntries(rd);
        assert rest == "";
        assert a + "\n" + b == a[..i] + "\r\n" + b;
      } else {
        LaterBreak(a, b, i, w);
        ParseConcat(rest, b, rd);
        FirstLineBlocks(a[..i], SplitLines(rest + "\n" + b), rd);
        assert LineBlocks(a[..i], rd) + (Entries(rest, rd) + Entries(b, rd))
            == LineBlocks(a[..i], rd) + Entries(rest, rd) + Entries(b, rd);
      }
    }
  }

  lemma FirstLineBlocks(line: string, rest: seq<string>, rd: Readers)
    requires ValidReaders(rd)
    ensures LinesBlocks([line] + rest, rd) == LineBlocks(line, rd) + LinesBlocks(rest, rd)
  {
    assert ([line] + rest)[1..] == rest;
  }

  lemma NoEntries(rd: Readers)
    requires ValidReaders(rd)
    ensures Entries("", rd) == []
  {
  }

  /** A body without line breaks is one line, or none. */
  lemma WholeLine(a: string, rd: Readers)
    requires ValidReaders(rd) && BreakAt(a) == |a|
    ensures Entries(a, rd) == LineBlocks(a, rd)
  {
    hide LineBlocks, BreakAt;
    if a == "" {
      BlankLine(rd);
    } else {
      assert SplitLines(a) == [a];
      FirstLineBlocks(a, [], rd);
      assert [a] + [] == [a];
    }
  }

  lemma LineThenRest(a: string, rd: Readers)
    requires ValidReaders(rd) && BreakAt(a) < |a|
    ensures Entries(a, rd) == LineBlocks(a[..BreakAt(a)], rd) + Entries(a[BreakAt(a) + BreakWidth(a, BreakAt(a))..], rd)
  {
    hide LineBlocks, LinesBlocks, BreakAt, SplitLines, ValidReaders;
    var i := BreakAt(a);
    FirstLine(a, i, BreakWidth(a, i), a[..i], a[i + BreakWidth(a, i)..]);
    FirstLineBlocks(a[..i], SplitLines(a[i + BreakWidth(a, i)..]), rd);
  }

  lemma FirstLine(s: string, i: nat, w: nat, head: string, tail: string)
    requires i == BreakAt(s) < |s| && w == BreakWidth(s, i) && head == s[..i] && tail == s[i + w..]
    ensures SplitLines(s) == [head] + SplitLines(tail)
  {
    hide BreakAt, BreakWidth, IsBreak;
  }

  /** A carriage return and the joining newline are one break. */
  lemma JoinedBreak(line: string, b: string)
    requires forall k :: 0 <= k < |line| ==> !IsBreak(line[k])
    ensures SplitLines(line + "\r\n" + b) == [line] + SplitLines(b)
  {
    hide BreakAt;
    var s := line + "\r\n" + b;
    assert forall k :: 0 <= k < |line| ==> s[k] == line[k];
    assert s[|line|] == '\r' && s[|line| + 1] == '\n';
    assert BreakAt(s) == |line|;
    assert s[..|line|] == line && s[|line| + 2..] == b;
  }

  lemma LaterBreak(a: string, b: string, i: nat, w: nat)
    requires i == BreakAt(a) < |a| && w == BreakWidth(a, i) && !(a[i] == '\r' && i == |a| - 1)
    ensures SplitLines(a + "\n" + b) == [a[..i]] + SplitLines(a[i + w..] + "\n" + b)
  {
    hide BreakAt, BreakWidth, SplitLines, IsBreak;
    SameBreak(a, b, i);
    CutInFirst(a, "\n", b, i);
    CutInFirst(a, "\n", b, i + w);
    FirstLine(a + "\n" + b, i, w, a[..i], a[i + w..] + "\n" + b);
  }

  lemma SameBreak(a: string, b: string, i: nat)
    requires i == BreakAt(a) < |a| && !(a[i] == '\r' && i == |a| - 1)
    ensures BreakAt(a + "\n" + b) == i && BreakWidth(a + "\n" + b, i) == BreakWidth(a, i)
  {
    hide BreakAt;
    var s := a + "\n" + b;
    assert forall k :: 0 <= k < |a| ==> s[k] == a[k];
  }

  lemma CutInFirst(a: string, sep: string, b: string, i: nat)
    requires i <= |a|
    ensures (a + sep + b)[..i] == a[..i] && (a + sep + b)[i..] == a[i..] + sep + b
  {
  }

  /** An address is in the parsed blocks exactly when some line of the body delegates it; every
      block is canonical. Lines that are skipped contribute nothing. */
  lemma {:induction false} EntriesAreDelegations(lines: seq<string>, rd: Readers, a: Addr)
    requires ValidReaders(rd)
    ensures forall b :: b in LinesBlocks(lines, rd) ==> Canonical(b)
    ensures InSome(LinesBlocks(lines, rd), a) <==>
      exists i :: 0 <= i < |lines| && DelegatedBy(lines[i], rd, a)
  {
    hide LineBlocks, ValidReaders, DelegatedBy;
    if lines != [] {
      EntriesAreDelegations(lines[1..], rd, a);
      LineDelegates(lines[0], rd, a);
      InSomeConcat(LineBlocks(lines[0], rd), LinesBlocks(lines[1..], rd), a);
      assert forall i :: 1 <= i < |lines| ==> lines[i] == lines[1..][i - 1];
      if exists i :: 0 <= i < |lines[1..]| && DelegatedBy(lines[1..][i], rd, a) {
        var i :| 0 <= i < |lines[1..]| && DelegatedBy(lines[1..][i], rd, a);
        assert DelegatedBy(lines[i + 1], rd, a);
      }
    }
  }

  lemma LineDelegates(line: string, rd: Readers, a: Addr)
    requires ValidReaders(rd)
    ensures forall b :: b in LineBlocks(line, rd) ==> Canonical(b)
    ensures InSome(LineBlocks(line, rd), a) <==> DelegatedBy(line, rd, a)
  {
    hide DelegationOf, ValidReaders, Blocks4And6, Delegates, DelegatedBy, InSome;
    DelegationIffFields(line, rd, a);
    if DelegationOf(line, rd).Some? {
      DelegationIsValid(line, rd);
      BlocksAreDelegation(DelegationOf(line, rd).value, a);
    } else {
      NothingInNone(a);
    }
  }

  lemma NothingInNone(a: Addr)
    ensures !InSome([], a)
  {
  }

  lemma DelegationIffFields(line: string, rd: Readers, a: Addr)
    requires ValidReaders(rd)
    ensures DelegatedBy(line, rd, a) <==>
      DelegationOf(line, rd).Some?
      && (DelegationIsValid(line, rd); Delegates(DelegationOf(line, rd).value, a))
  {
    hide DelegationOf, ValueOf, Pow2, HasFields, GivesRange, GivesPrefix, Counts;
    if DelegationOf(line, rd).Some? {
      DelegationIsValid(line, rd);
      var fields, lead, trail := LineHasFields(line);
      FieldsAreRead(line, fields, lead, trail, rd);
      match DelegationOf(line, rd).value {
        case Range4(start, n) =>
          DelegationFromFields(fields, rd, start, n);
          assert Delegates(Range4(start, n), a) ==> FieldsDelegate(fields, rd, start, n, a);
        case Prefix6(start, n) =>
          DelegationFromFields(fields, rd, start, n);
          assert Delegates(Prefix6(start, n), a) ==> FieldsDelegate(fields, rd, start, n, a);
      }
    }
    if fields, lead, trail, start, n :|
        HasFields(line, fields, lead, trail) && FieldsDelegate(fields, rd, start, n, a) {
      FieldsAreRead(line, fields, lead, trail, rd);
      assert Counts(fields) by { GivingCounts(fields, rd, start, n); }
      DelegationFromFields(fields, rd, start, n);
    }
  }

  lemma GivingCounts(fields: seq<string>, rd: Readers, start: nat, n: nat)
    requires GivesRange(fields, rd, start, n) || GivesPrefix(fields, rd, start, n)
    ensures Counts(fields)
  {
    hide Counts;
  }

  lemma InSomeConcat(x: seq<Block>, y: seq<Block>, a: Addr)
    ensures InSome(x + y, a) <==> InSome(x, a) || InSome(y, a)
  {
    hide Canonical;
    if InSome(x, a) {
      var b :| b in x && Canonical(b) && Contains(b, a);
      assert b in x + y;
    } else if InSome(y, a) {
      var b :| b in y && Canonical(b) && Contains(b, a);
      assert b in x + y;
    }
  }
}
