/** The periodic validation of the network table against a provider, and which addresses it
    leaves with an outdated classification. */
module CidrValidation {
  import opened Common
  import opened Prefixes
  import opened CountryNetworks
  import opened CountryHistory

  /** `cidr` is the canonical block of the provider's text, as CIDRField stores and compares it. */
  datatype CidrEntry = CidrEntry(country: string, cidr: Block, network: string)

  ghost predicate ValidEntries(entries: seq<CidrEntry>)
  {
    forall e :: e in entries ==> Canonical(e.cidr)
  }

  function KeyOf(e: CidrEntry): NetKey
  {
    NetKey(e.country, e.cidr)
  }

  function EntryKeys(entries: seq<CidrEntry>): set<NetKey>
  {
    set e | e in entries :: KeyOf(e)
  }

  function Fetched(entries: seq<CidrEntry>): set<Block>
  {
    set e | e in entries :: e.cidr
  }

  /** The rows the source no longer reports: Iranian, enabled and of this source only. */
  predicate Reported(k: NetKey, row: NetworkRow, source: string, fetched: set<Block>)
  {
    !(k.country == IRAN && row.source == source && row.enabled) || k.cidr in fetched
  }

  function Dropped(nets: Networks, source: string, fetched: set<Block>): set<NetKey>
  {
    set k | k in nets && !Reported(k, nets[k], source, fetched)
  }

  /** The description that the last entry for the key gives. */
  function LastNetwork(entries: seq<CidrEntry>, k: NetKey): Option<string>
  {
    if entries == [] then None
    else if KeyOf(entries[|entries| - 1]) == k then Some(entries[|entries| - 1].network)
    else LastNetwork(entries[..|entries| - 1], k)
  }

  lemma {:induction false} LastNetworkKnown(entries: seq<CidrEntry>, k: NetKey)
    ensures LastNetwork(entries, k).Some? <==> k in EntryKeys(entries)
  {
    if entries != [] {
      var rest, last := entries[..|entries| - 1], entries[|entries| - 1];
      LastNetworkKnown(rest, k);
      assert entries == rest + [last];
    }
  }

  function FetchedRow(network: string, k: NetKey, source: string, now: int): NetworkRow
  {
    NetworkRow(network, k.cidr.len, source, true, Some(now))
  }

  /** The table after the entries are stored. */
  ghost predicate Upserted(nets: Networks, source: string, entries: seq<CidrEntry>, now: int, after: Networks)
  {
    && (forall k :: k in after <==> k in nets || LastNetwork(entries, k).Some?)
    && (forall k :: k in after && LastNetwork(entries, k).Some? ==>
         after[k] == FetchedRow(LastNetwork(entries, k).value, k, source, now))
    && (forall k :: k in after && LastNetwork(entries, k).None? ==> after[k] == nets[k])
  }

  function DroppedRow(nets: Networks, source: string, entries: seq<CidrEntry>, k: NetKey, now: int): NetworkRow
    requires k in nets
  {
    if k in Dropped(nets, source, Fetched(entries)) then nets[k].(enabled := false, verifiedAt := Some(now))
        else nets[k]
  }

  /** The table after a run, row by row. */
  ghost predicate Validated(nets: Networks, source: string, entries: seq<CidrEntry>, now: int, after: Networks)
  {
    && (forall k :: k in after <==> k in nets || LastNetwork(entries, k).Some?)
    && (forall k :: k in after && LastNetwork(entries, k).Some? ==>
         after[k] == FetchedRow(LastNetwork(entries, k).value, k, source, now))
    && (forall k :: k in after && LastNetwork(entries, k).None? ==>
         after[k] == DroppedRow(nets, source, entries, k, now))
  }

  datatype Summary = Summary(fetched: nat, created: nat, disabled: nat, reevaluated: nat)

  function Iranian(ips: seq<IpRow>): set<nat>
  {
    set id: nat | id < |ips| && ips[id].isIran
  }

  /** Reclassifying the addresses of `order` one after another. */
  ghost function Rescanned(s: State, order: seq<nat>, clock: nat -> int): State
  {
    if order == [] then s
    else
      var last := |order| - 1;
      var t := Rescanned(s, order[..last], clock);
      if order[last] < |t.ips| then Classified(t, order[last], clock(last + 1)) else t
  }

  ghost predicate Visits(order: seq<nat>, ids: set<nat>)
  {
    && (forall id :: id in order <==> id in ids)
    && (forall i, j :: 0 <= i < j < |order| ==> order[i] != order[j])
  }

  lemma UpsertNext(nets: Networks, source: string, entries: seq<CidrEntry>, i: nat, now: int, mid: Networks)
    requires i < |entries| && Upserted(nets, source, entries[..i], now, mid)
    ensures var k := KeyOf(entries[i]);
      Upserted(nets, source, entries[..i + 1], now, mid[k := FetchedRow(entries[i].network, k, source, now)])
    ensures KeyOf(entries[i]) in mid <==> KeyOf(entries[i]) in nets || KeyOf(entries[i]) in EntryKeys(entries[..i])
  {
    hide EntryKeys, LastNetwork;
    var k := KeyOf(entries[i]);
    LastNetworkKnown(entries[..i], k);
    forall j ensures LastNetwork(entries[..i + 1], j) == if j == k then Some(entries[i].network)
        else LastNetwork(entries[..i], j) {
      LastNetworkNext(entries, i, j);
    }
  }

  lemma LastNetworkNext(entries: seq<CidrEntry>, i: nat, k: NetKey)
    requires i < |entries|
    ensures LastNetwork(entries[..i + 1], k) == if k == KeyOf(entries[i]) then Some(entries[i].network)
        else LastNetwork(entries[..i], k)
  {
    assert entries[..i + 1][..i] == entries[..i];
  }

  lemma EntrySetsNext(entries: seq<CidrEntry>, i: nat)
    requires i < |entries|
    ensures EntryKeys(entries[..i + 1]) == EntryKeys(entries[..i]) + {KeyOf(entries[i])}
    ensures Fetched(entries[..i + 1]) == Fetched(entries[..i]) + {entries[i].cidr}
  {
    assert entries[..i + 1] == entries[..i] + [entries[i]];
  }

  lemma CountNext(keys: set<NetKey>, known: set<NetKey>, k: NetKey)
    ensures |keys + {k} - known| == |keys - known| + if k in known || k in keys then 0 else 1
  {
    if k in known || k in keys {
      assert keys + {k} - known == keys - known;
    } else {
      assert keys + {k} - known == (keys - known) + {k};
    }
  }

  method UpsertAll(nets: Networks, source: string, entries: seq<CidrEntry>, now: int)
    returns (after: Networks, created: nat, fetched: set<Block>)
    ensures Upserted(nets, source, entries, now, after)
    ensures created == |EntryKeys(entries) - nets.Keys|
    ensures fetched == Fetched(entries)
  {
    hide LastNetwork, Upserted, EntryKeys, Fetched, KeyOf, FetchedRow;
    after, created, fetched := nets, 0, {};
    NothingUpserted(nets, source, now);
    assert EntryKeys([]) == {} && Fetched([]) == {} by { NoEntries(); }
    assert entries[..0] == [] && entries[..|entries|] == entries;
    ghost var keys := {};
    for i := 0 to |entries|
      invariant Upserted(nets, source, entries[..i], now, after)
      invariant fetched == Fetched(entries[..i]) && keys == EntryKeys(entries[..i])
      invariant created == |keys - nets.Keys|
    {
      var k := KeyOf(entries[i]);
      UpsertNext(nets, source, entries, i, now, after);
      EntrySetsNext(entries, i);
      CountNext(keys, nets.Keys, k);
      keys := keys + {k};
      fetched := fetched + {entries[i].cidr};
      if k !in after {
        created := created + 1;
      }
      after := after[k := FetchedRow(entries[i].network, k, source, now)];
    }
  }

  lemma NoEntries()
    ensures EntryKeys([]) == {} && Fetched([]) == {}
  {
  }

  lemma NothingUpserted(nets: Networks, source: string, now: int)
    ensures Upserted(nets, source, [], now, nets)
  {
  }

  /** Disabling is decided on the table as the entries left it, which drops the same rows. */
  lemma SameDropped(nets: Networks, source: string, entries: seq<CidrEntry>, now: int, mid: Networks)
    requires Upserted(nets, source, entries, now, mid)
    ensures Dropped(mid, source, Fetched(entries)) == Dropped(nets, source, Fetched(entries))
    ensures forall k :: k in Dropped(nets, source, Fetched(entries)) ==> LastNetwork(entries, k).None?
  {
    forall k | LastNetwork(entries, k).Some? ensures k.cidr in Fetched(entries) {
      LastNetworkKnown(entries, k);
    }
  }

  method DisableDropped(mid: Networks, source: string, fetched: set<Block>, now: int)
      returns (after: Networks, disabled: nat)
    ensures after.Keys == mid.Keys
    ensures forall k :: k in mid ==>
      after[k] == if k in Dropped(mid, source, fetched) then mid[k].(enabled := false, verifiedAt := Some(now))
          else mid[k]
    ensures disabled == |Dropped(mid, source, fetched)|
  {
    var dropped := Dropped(mid, source, fetched);
    after := map k | k in mid :: if k in dropped then mid[k].(enabled := false, verifiedAt := Some(now)) else mid[k];
    disabled := |dropped|;
  }

  lemma StaysValid(nets: Networks, source: string, entries: seq<CidrEntry>, now: int, after: Networks)
    requires ValidNetworks(nets) && ValidEntries(entries) && Validated(nets, source, entries, now, after)
    ensures ValidNetworks(after)
  {
    forall k | k in after ensures Canonical(k.cidr) && after[k].prefixLength == k.cidr.len {
      LastNetworkKnown(entries, k);
    }
  }

  /** The counters of a run say whether it scanned: with nothing created and nothing disabled
      every fetched row existed and no row was dropped. */
  lemma NothingCounted(nets: Networks, source: string, entries: seq<CidrEntry>)
    ensures |EntryKeys(entries) - nets.Keys| == 0 <==> EntryKeys(entries) <= nets.Keys
    ensures |Dropped(nets, source, Fetched(entries))| == 0 <==> Dropped(nets, source, Fetched(entries)) == {}
  {
    hide EntryKeys, Dropped, Fetched;
    if EntryKeys(entries) - nets.Keys == {} {
      forall k | k in EntryKeys(entries) ensures k in nets.Keys {
        assert k !in EntryKeys(entries) - nets.Keys;
      }
    }
  }

  /** What `Run` ensures, for one run on values. */
  ghost predicate RunResult(before: State, source: string, entries: seq<CidrEntry>, clock: nat -> int, after: State,
      order: seq<nat>)
  {
    && Validated(before.networks, source, entries, clock(0), after.networks)
    && after == Rescanned(before.(networks := after.networks), order, clock)
    && (if EntryKeys(entries) <= before.networks.Keys
         && Dropped(before.networks, source, Fetched(entries)) == {} then order == []
        else Visits(order, Iranian(before.ips)))
  }

  /** The last entry for its country and block. */
  ghost predicate IsLastEntry(entries: seq<CidrEntry>, i: nat, country: string, cidr: Block)
  {
    && i < |entries| && entries[i].country == country && entries[i].cidr == cidr
    && forall j :: i < j < |entries| ==> entries[j].country != country || entries[j].cidr != cidr
  }

  /** The table after a run, in the provider's terms. A fetched row says what its last entry says,
      verified at the run; a row of the source that no entry names any more is disabled, verified
      at the run; every other row is as it was. */
  lemma RowsAfterRun(before: State, source: string, entries: seq<CidrEntry>, clock: nat -> int, after: State,
      order: seq<nat>, k: NetKey)
    requires RunResult(before, source, entries, clock, after, order)
    ensures k in after.networks <==>
      k in before.networks || exists e :: e in entries && e.country == k.country && e.cidr == k.cidr
    ensures forall i: nat :: IsLastEntry(entries, i, k.country, k.cidr) ==>
      k in after.networks
      && after.networks[k] == NetworkRow(entries[i].network, k.cidr.len, source, true, Some(clock(0)))
    ensures k in before.networks && (forall e :: e in entries ==> e.country != k.country || e.cidr != k.cidr) ==>
      var row := before.networks[k];
      var dropped := k.country == IRAN && row.source == source && row.enabled
          && forall e :: e in entries ==> e.cidr != k.cidr;
      k in after.networks
      && after.networks[k] == if dropped then row.(enabled := false, verifiedAt := Some(clock(0))) else row
  {
    hide Rescanned, LastNetwork, Visits;
    LastNetworkKnown(entries, k);
    assert k in EntryKeys(entries) <==> exists e :: e in entries && e.country == k.country && e.cidr == k.cidr by {
      if e :| e in entries && e.country == k.country && e.cidr == k.cidr {
        assert KeyOf(e) == k;
      }
    }
    forall i: nat | IsLastEntry(entries, i, k.country, k.cidr)
        ensures LastNetwork(entries, k) == Some(entries[i].network) {
      LastEntryGives(entries, i, k);
    }
  }

  lemma {:induction false} LastEntryGives(entries: seq<CidrEntry>, i: nat, k: NetKey)
    requires IsLastEntry(entries, i, k.country, k.cidr)
    ensures LastNetwork(entries, k) == Some(entries[i].network)
  {
    var last := |entries| - 1;
    if i < last {
      assert entries[last].country != k.country || entries[last].cidr != k.cidr;
      LastEntryGives(entries[..last], i, k);
    }
  }

  method Run(db: CountryDb, source: string, entries: seq<CidrEntry>, clock: nat -> int)
      returns (summary: Summary, ghost order: seq<nat>)
    requires ValidNetworks(db.networks) && ValidEntries(entries)
    modifies db
    ensures ValidNetworks(db.networks)
    ensures RunResult(State(old(db.networks), old(db.ips), old(db.history)), source, entries, clock,
        State(db.networks, db.ips, db.history), order)
    ensures summary.fetched == |entries|
    ensures summary.created == |EntryKeys(entries) - old(db.networks).Keys|
    ensures summary.disabled == |Dropped(old(db.networks), source, Fetched(entries))|
    ensures summary.reevaluated == |order|
  {
    hide Upserted, LastNetwork, Dropped, EntryKeys, Fetched, ValidNetworks, ValidEntries, Rescanned, Visits, Validated;
    var now := clock(0);
    var mid, created, fetched := UpsertAll(db.networks, source, entries, now);
    var after, disabled := DisableDropped(mid, source, fetched, now);
    ValidatedBy(db.networks, source, entries, now, mid, after);
    StaysValid(db.networks, source, entries, now, after);
    NothingCounted(db.networks, source, entries);
    db.networks := after;
    order := [];
    var reevaluated := 0;
    if created > 0 || disabled > 0 {
      reevaluated, order := ReclassifyIranian(db, clock);
    } else {
      NotRescanned(State(db.networks, db.ips, db.history), clock);
    }
    summary := Summary(|entries|, created, disabled, reevaluated);
  }

  lemma NotRescanned(s: State, clock: nat -> int)
    ensures Rescanned(s, [], clock) == s
  {
  }

  lemma ValidatedBy(nets: Networks, source: string, entries: seq<CidrEntry>, now: int, mid: Networks, after: Networks)
    requires Upserted(nets, source, entries, now, mid) && after.Keys == mid.Keys
    requires var dropped := Dropped(mid, source, Fetched(entries));
      forall k :: k in mid ==>
          after[k] == if k in dropped then mid[k].(enabled := false, verifiedAt := Some(now)) else mid[k]
    ensures Validated(nets, source, entries, now, after)
    ensures Dropped(mid, source, Fetched(entries)) == Dropped(nets, source, Fetched(entries))
  {
    hide LastNetwork, Dropped, Fetched;
    SameDropped(nets, source, entries, now, mid);
    forall k | k in after ensures k in mid {}
  }

  /** Every address that was Iranian when the scan began, in any order. */
  method ReclassifyIranian(db: CountryDb, clock: nat -> int) returns (reevaluated: nat, ghost order: seq<nat>)
    requires ValidNetworks(db.networks)
    modifies db`ips, db`history
    ensures reevaluated == |order| && Visits(order, Iranian(old(db.ips)))
    ensures State(db.networks, db.ips, db.history)
        == Rescanned(State(db.networks, old(db.ips), old(db.history)), order, clock)
  {
    hide ValidNetworks, Rescanned, VerdictOf, HistoryAfter;
    var rows := db.ips;
    var todo := Iranian(rows);
    ghost var start := State(db.networks, db.ips, db.history);
    reevaluated, order := 0, [];
    NotRescanned(start, clock);
    while todo != {}
      invariant todo <= Iranian(rows) && reevaluated == |order| && |db.ips| == |rows|
      invariant Visits(order, Iranian(rows) - todo)
      invariant forall id :: id in todo ==> db.ips[id] == rows[id]
      invariant State(db.networks, db.ips, db.history) == Rescanned(start, order, clock)
    {
      var id :| id in todo;
      todo := todo - {id};
      reevaluated := reevaluated + 1;
      RescanNext(start, order, id, clock);
      db.Classify(id, rows[id], clock(reevaluated));
      order := order + [id];
    }
  }

  lemma RescanNext(start: State, order: seq<nat>, id: nat, clock: nat -> int)
    requires id < |Rescanned(start, order, clock).ips|
    ensures Rescanned(start, order + [id], clock) == Classified(Rescanned(start, order, clock), id, clock(|order| + 1))
  {
    assert (order + [id])[..|order|] == order;
  }

  // ---- What a run does to the table ------------------------------------------------

  function IranEntries(entries: seq<CidrEntry>): set<Block>
  {
    set e | e in entries && e.country == IRAN :: e.cidr
  }

  ghost function EnabledOf(nets: Networks, source: string): set<Block>
  {
    set k | k in nets && k.country == IRAN && nets[k].enabled && nets[k].source == source :: k.cidr
  }

  lemma IranKeys(entries: seq<CidrEntry>, b: Block)
    ensures b in IranEntries(entries) <==> LastNetwork(entries, NetKey(IRAN, b)).Some?
    ensures b in IranEntries(entries) ==> b in Fetched(entries)
  {
    LastNetworkKnown(entries, NetKey(IRAN, b));
    if NetKey(IRAN, b) in EntryKeys(entries) {
      var e :| e in entries && KeyOf(e) == NetKey(IRAN, b);
    }
    if e :| e in entries && e.country == IRAN && e.cidr == b {
      assert KeyOf(e) == NetKey(IRAN, b);
    }
  }

  /** The enabled Iranian rows of the provider's source are the fetched ones, and those that an
      entry of another country with the same block protected; rows of other sources outside the
      fetch are as they were. With only Iranian entries, exactly the fetched blocks are left. */
  lemma SourceRowsAreFetched(nets: Networks, source: string, entries: seq<CidrEntry>, now: int, after: Networks)
    requires Validated(nets, source, entries, now, after)
    ensures EnabledOf(after, source) == IranEntries(entries) + (EnabledOf(nets, source) * Fetched(entries))
    ensures (forall e :: e in entries ==> e.country == IRAN) ==> EnabledOf(after, source) == Fetched(entries)
    ensures forall k :: k in nets && nets[k].source != source && k !in EntryKeys(entries) ==>
        k in after && after[k] == nets[k]
    ensures after.Keys == nets.Keys + EntryKeys(entries)
  {
    hide LastNetwork, Fetched, IranEntries, EntryKeys;
    forall k ensures LastNetwork(entries, k).Some? <==> k in EntryKeys(entries) {
      LastNetworkKnown(entries, k);
    }
    forall b ensures b in EnabledOf(after, source) <==>
        b in IranEntries(entries) + (EnabledOf(nets, source) * Fetched(entries)) {
      IranKeys(entries, b);
      EnabledOfAt(nets, source, b);
      EnabledOfAt(after, source, b);
    }
    if forall e :: e in entries ==> e.country == IRAN {
      OnlyIranian(entries);
    }
  }

  lemma OnlyIranian(entries: seq<CidrEntry>)
    requires forall e :: e in entries ==> e.country == IRAN
    ensures IranEntries(entries) == Fetched(entries)
  {
    forall b | b in Fetched(entries) ensures b in IranEntries(entries) {
      var e :| e in entries && e.cidr == b;
      assert e.country == IRAN;
    }
  }

  lemma EnabledOfAt(nets: Networks, source: string, b: Block)
    ensures var k := NetKey(IRAN, b);
      b in EnabledOf(nets, source) <==> k in nets && nets[k].enabled && nets[k].source == source
  {
    var k := NetKey(IRAN, b);
    if k in nets && nets[k].enabled && nets[k].source == source {
      assert k.cidr == b;
    }
  }

  lemma EnabledAt(nets: Networks, b: Block)
    ensures var k := NetKey(IRAN, b);
      b in Enabled(nets) <==> k in nets && nets[k].enabled
  {
    var k := NetKey(IRAN, b);
    if k in nets && nets[k].enabled {
      assert k.cidr == b;
    }
  }

  function DroppedBlocks(nets: Networks, source: string, entries: seq<CidrEntry>): set<Block>
  {
    set k | k in Dropped(nets, source, Fetched(entries)) :: k.cidr
  }

  lemma DroppedAt(nets: Networks, source: string, entries: seq<CidrEntry>, b: Block)
    ensures b in DroppedBlocks(nets, source, entries) <==> NetKey(IRAN, b) in Dropped(nets, source, Fetched(entries))
  {
    if b in DroppedBlocks(nets, source, entries) {
      var j :| j in Dropped(nets, source, Fetched(entries)) && j.cidr == b;
      assert j == NetKey(IRAN, b);
    } else {
      assert NetKey(IRAN, b).cidr == b;
    }
  }

  lemma EnabledAfter(nets: Networks, source: string, entries: seq<CidrEntry>, now: int, after: Networks)
    requires Validated(nets, source, entries, now, after)
    ensures Enabled(after) == (Enabled(nets) - DroppedBlocks(nets, source, entries)) + IranEntries(entries)
  {
    hide LastNetwork, Fetched, IranEntries;
    forall b ensures b in Enabled(after) <==>
        b in (Enabled(nets) - DroppedBlocks(nets, source, entries)) + IranEntries(entries) {
      IranKeys(entries, b);
      EnabledAt(nets, b);
      EnabledAt(after, b);
      DroppedAt(nets, source, entries, b);
    }
  }

  // ---- Which classifications are outdated afterwards --------------------------------

  ghost predicate Current(nets: Networks, ip: IpRow)
  {
    Stored(ip) == VerdictOf(nets, ip)
  }

  lemma {:induction false} RescannedAt(s: State, order: seq<nat>, clock: nat -> int, id: nat)
    requires id < |s.ips|
    ensures var t := Rescanned(s, order, clock);
      && t.networks == s.networks && |t.ips| == |s.ips|
      && t.ips[id].address == s.ips[id].address && t.ips[id].whoisCountry == s.ips[id].whoisCountry
      && Stored(t.ips[id]) == if id in order then VerdictOf(s.networks, s.ips[id]) else Stored(s.ips[id])
  {
    hide HistoryAfter, Match;
    if order != [] {
      var rest, last := order[..|order| - 1], order[|order| - 1];
      assert order == rest + [last];
      RescannedAt(s, rest, clock, id);
    }
  }

  /** After a run that scanned, starting from classifications that were all current, exactly the
      addresses outside Iran that lie in some fetched Iranian block are outdated. */
  lemma StaleAfterScan(before: State, source: string, entries: seq<CidrEntry>, now: int, after: State, id: nat)
    requires forall i :: 0 <= i < |before.ips| ==> Current(before.networks, before.ips[i])
    requires Validated(before.networks, source, entries, now, after.networks)
    requires id < |before.ips| == |after.ips|
    requires Scanned(before, after, id)
    ensures !Current(after.networks, after.ips[id]) <==>
      !before.ips[id].isIran && exists b :: b in IranEntries(entries) && Holds(b, before.ips[id].address)
  {
    hide Holds, Longest, IranEntries, DroppedBlocks, Validated;
    var a, ip := before.ips[id].address, before.ips[id];
    EnabledAfter(before.networks, source, entries, now, after.networks);
    LongestIsUnique(Enabled(before.networks), a);
    LongestIsUnique(Enabled(after.networks), a);
    assert Current(before.networks, ip);
    if !ip.isIran {
      assert Match(before.networks, a) == None;
      if b :| b in IranEntries(entries) && Holds(b, a) {
        assert b in Enabled(after.networks);
      }
    }
  }

  /** What a scan does to one row: an Iranian address is classified again, another is left. */
  ghost predicate Scanned(before: State, after: State, id: nat)
    requires id < |before.ips| == |after.ips|
  {
    && after.ips[id].address == before.ips[id].address && after.ips[id].whoisCountry == before.ips[id].whoisCountry
    && Stored(after.ips[id]) == if before.ips[id].isIran then VerdictOf(after.networks, before.ips[id])
         else Stored(before.ips[id])
  }

  /** After a run that skipped the scan, exactly the addresses whose longest match a re-enabled
      block replaces are outdated. */
  lemma StaleAfterSkip(before: State, source: string, entries: seq<CidrEntry>, now: int, after: State, id: nat)
    requires forall i :: 0 <= i < |before.ips| ==> Current(before.networks, before.ips[i])
    requires Validated(before.networks, source, entries, now, after.networks)
    requires EntryKeys(entries) <= before.networks.Keys && Dropped(before.networks, source, Fetched(entries)) == {}
    requires id < |before.ips| && after.ips == before.ips
    ensures !Current(after.networks, after.ips[id]) <==>
      exists b :: Reenabled(before.networks, entries, b) && Replaces(before.networks, before.ips[id].address, b)
  {
    hide Holds, Longest, IranEntries, Validated, Dropped, EntryKeys, Fetched;
    var a, ip, e, f := before.ips[id].address, before.ips[id], Enabled(before.networks), Enabled(after.networks);
    assert Current(before.networks, ip);
    EnabledAfter(before.networks, source, entries, now, after.networks);
    assert DroppedBlocks(before.networks, source, entries) == {};
    LongestAfter(e, f, a);
    forall b ensures b in f - e <==> Reenabled(before.networks, entries, b) {
      AddedIsReenabled(before.networks, entries, b);
    }
    VerdictChanges(before.networks, after.networks, ip);
    if b :| b in f - e && Holds(b, a) && (Longest(e, a).None? || b.len > Longest(e, a).value.len) {
      assert Replaces(before.networks, a, b);
    }
    if b :| Reenabled(before.networks, entries, b) && Replaces(before.networks, a, b) {
      assert b in f - e && Holds(b, a) && (Longest(e, a).None? || b.len > Longest(e, a).value.len);
    }
  }

  lemma VerdictChanges(nets: Networks, after: Networks, ip: IpRow)
    ensures VerdictOf(nets, ip) == VerdictOf(after, ip) <==> Match(nets, ip.address) == Match(after, ip.address)
  {
  }

  /** A fetched Iranian block whose row existed and was disabled. */
  ghost predicate Reenabled(nets: Networks, entries: seq<CidrEntry>, b: Block)
  {
    b in IranEntries(entries) && NetKey(IRAN, b) in nets && !nets[NetKey(IRAN, b)].enabled
  }

  ghost predicate Replaces(nets: Networks, a: Addr, b: Block)
  {
    Holds(b, a) && (Match(nets, a).None? || b.len > Match(nets, a).value.len)
  }

  lemma AddedIsReenabled(nets: Networks, entries: seq<CidrEntry>, b: Block)
    requires EntryKeys(entries) <= nets.Keys
    ensures b in IranEntries(entries) && b !in Enabled(nets) <==> Reenabled(nets, entries, b)
  {
    hide LastNetwork, IranEntries;
    IranKeys(entries, b);
    LastNetworkKnown(entries, NetKey(IRAN, b));
    EnabledAt(nets, b);
  }

  ghost predicate NewlyCreated(nets: Networks, entries: seq<CidrEntry>, b: Block)
  {
    b in IranEntries(entries) && NetKey(IRAN, b) !in nets
  }

  /** Incremental re-evaluation against full re-evaluation. When everything was current and no
      fetched block named a disabled row, the outdated addresses afterwards are exactly those
      outside Iran that lie in a newly created block; when nothing was created there is none,
      whether the run scanned or not. */
  lemma IncrementalEqualsFull(before: State, source: string, entries: seq<CidrEntry>, clock: nat -> int, after: State,
      order: seq<nat>, id: nat)
    requires RunResult(before, source, entries, clock, after, order)
    requires forall i :: 0 <= i < |before.ips| ==> Current(before.networks, before.ips[i])
    requires forall b :: !Reenabled(before.networks, entries, b)
    requires id < |before.ips|
    ensures |after.ips| == |before.ips|
    ensures !Current(after.networks, after.ips[id]) <==>
      && !before.ips[id].isIran
      && exists b :: NewlyCreated(before.networks, entries, b) && Holds(b, before.ips[id].address)
  {
    hide Holds, Validated, IranEntries, EntryKeys, Fetched, Dropped, Longest, Rescanned;
    var nets, a := before.networks, before.ips[id].address;
    RescannedAt(before.(networks := after.networks), order, clock, id);
    if order == [] && EntryKeys(entries) <= nets.Keys && Dropped(nets, source, Fetched(entries)) == {} {
      NotRescanned(before.(networks := after.networks), clock);
      StaleAfterSkip(before, source, entries, clock(0), after, id);
      forall b ensures !NewlyCreated(nets, entries, b) {
        CreatedIsNewKey(nets, entries, b);
      }
    } else {
      StaleAfterScan(before, source, entries, clock(0), after, id);
      assert Current(nets, before.ips[id]);
      LongestIsUnique(Enabled(nets), a);
      forall b | b in IranEntries(entries) && b !in Enabled(nets) ensures NewlyCreated(nets, entries, b) {
        assert !Reenabled(nets, entries, b);
        EnabledAt(nets, b);
      }
    }
  }

  lemma CreatedIsNewKey(nets: Networks, entries: seq<CidrEntry>, b: Block)
    ensures NewlyCreated(nets, entries, b) ==>
        NetKey(IRAN, b) in EntryKeys(entries) && !(EntryKeys(entries) <= nets.Keys)
  {
    IranKeys(entries, b);
    LastNetworkKnown(entries, NetKey(IRAN, b));
  }

  /** Re-enabling a row is not counted as creating it, so a run can change which networks are
      enabled, report nothing, skip the scan and leave an Iranian address outdated. */
  lemma ReenablingIsNotCounted()
    ensures exists before: State, entries, clock, after: State, order ::
      && RunResult(before, "ripencc", entries, clock, after, order) && order == []
      && |before.ips| == |after.ips| == 1 && Current(before.networks, before.ips[0]) && before.ips[0].isIran
      && !Current(after.networks, after.ips[0])
  {
    hide Holds, Longest, Validated, Dropped, EntryKeys, Fetched, Rescanned;
    var a, all := Addr(V4, 0), Block(V4, 0, 0);
    var k := NetKey(IRAN, all);
    var nets, entries, clock :=
        map[k := NetworkRow("", 0, "ripencc", false, None)], [CidrEntry(IRAN, all, "")], (n: nat) => 0;
    var before := State(nets, [IpRow(a, IRAN, true, None, None)], []);
    var after := before.(networks := nets[k := FetchedRow("", k, "ripencc", 0)]);
    OneReenabled(k, nets, entries, after.networks);
    NotRescanned(after, clock);
    assert RunResult(before, "ripencc", entries, clock, after, []);
    WholeSpaceHolds(a);
    LongestIsUnique(Enabled(before.networks), a);
    LongestIsUnique(Enabled(after.networks), a);
    EnabledAt(after.networks, all);
  }

  lemma OneReenabled(k: NetKey, nets: Networks, entries: seq<CidrEntry>, after: Networks)
    requires nets == map[k := NetworkRow("", k.cidr.len, "ripencc", false, None)]
        && entries == [CidrEntry(k.country, k.cidr, "")]
    requires after == nets[k := FetchedRow("", k, "ripencc", 0)]
    ensures EntryKeys(entries) <= nets.Keys && Dropped(nets, "ripencc", Fetched(entries)) == {}
    ensures Validated(nets, "ripencc", entries, 0, after)
  {
    hide EntryKeys;
    forall j ensures LastNetwork(entries, j) == if j == k then Some("") else None {
      assert entries[..0] == [] && LastNetwork([], j) == None;
    }
    assert EntryKeys(entries) == {k} by { OneKey(entries); }
  }

  lemma OneKey(entries: seq<CidrEntry>)
    requires |entries| == 1
    ensures EntryKeys(entries) == {KeyOf(entries[0])}
  {
  }

  lemma WholeSpaceHolds(a: Addr)
    requires a == Addr(V4, 0)
    ensures Holds(Block(V4, 0, 0), a)
  {
    hide Pow2;
    MultipleMod(0, Pow2(32));
  }

  // ---- The static provider ---------------------------------------------------------

  const MANUAL := "manual"

  /** What `StaticIranCIDRProvider.fetch` returns: the Iranian rows of its source, enabled or
      not, in any order. */
  ghost predicate StaticFetch(nets: Networks, entries: seq<CidrEntry>)
  {
    && (forall e :: e in entries ==> e.country == IRAN && KeyOf(e) in nets && nets[KeyOf(e)].source == MANUAL)
    && (forall k :: k in nets && k.country == IRAN && nets[k].source == MANUAL ==> k in EntryKeys(entries))
  }

  /** Validation against the static provider is documented to be a self-consistency pass. It
      creates and disables nothing and so never scans, but it enables every manual Iranian row:
      the enabled networks stay the same only if no such row was disabled. */
  lemma StaticRunEnablesAll(nets: Networks, entries: seq<CidrEntry>, now: int, after: Networks)
    requires StaticFetch(nets, entries) && Validated(nets, "manual", entries, now, after)
    ensures EntryKeys(entries) <= nets.Keys && Dropped(nets, "manual", Fetched(entries)) == {}
    ensures forall k :: k in nets && k.country == IRAN && nets[k].source == "manual" ==> k in after && after[k].enabled
    ensures Enabled(after) == Enabled(nets) <==>
      forall k :: k in nets && k.country == IRAN && nets[k].source == "manual" ==> nets[k].enabled
  {
    hide LastNetwork, Fetched;
    forall k ensures LastNetwork(entries, k).Some? <==> k in EntryKeys(entries) {
      LastNetworkKnown(entries, k);
    }
    forall k | k in nets && k.country == IRAN && nets[k].source == MANUAL ensures k.cidr in Fetched(entries) {
      assert NetKey(IRAN, k.cidr) == k;
      IranKeys(entries, k.cidr);
    }
    assert forall k :: k in EntryKeys(entries) ==> k in nets && k.country == IRAN && nets[k].source == MANUAL;
    forall b ensures b in Enabled(after) <==> b in Enabled(nets) || NetKey(IRAN, b) in EntryKeys(entries) {
      EnabledAt(nets, b);
      EnabledAt(after, b);
    }
    if Enabled(after) == Enabled(nets) {
      forall k | k in nets && k.country == IRAN && nets[k].source == MANUAL ensures nets[k].enabled {
        assert k == NetKey(IRAN, k.cidr) && k.cidr in Enabled(after);
        EnabledAt(nets, k.cidr);
      }
    } else if forall k :: k in nets && k.country == IRAN && nets[k].source == MANUAL ==> nets[k].enabled {
      forall b | NetKey(IRAN, b) in EntryKeys(entries) ensures b in Enabled(nets) {
        EnabledAt(nets, b);
      }
    }
  }

  // ---- A run is a sequence of classifications ---------------------------------------

  /** With a clock that does not go back, a run keeps everything CountryHistory proves of
      classifications: it is one change of the networks and fresh classifications after it. */
  lemma RunKeepsHistory(w: World, source: string, entries: seq<CidrEntry>, clock: nat -> int, after: State,
      order: seq<nat>)
      returns (z: World)
    requires Inv(w) && RunResult(w.state, source, entries, clock, after, order)
    requires w.clock <= clock(0) && forall i: nat :: clock(i) <= clock(i + 1)
    ensures Inv(z) && z.state == after && Grows(w.state.history, after.history)
  {
    hide Inv, Rescanned, Validated;
    var start := Other(w.state.(networks := after.networks));
    OtherKeeps(w, start.next);
    var events;
    events, z := RescannedLeads(Happen(w, start), order, clock);
    RunKeeps(Happen(w, start), events, z);
    HistoryOnlyGrows(Happen(w, start), events, z);
  }

  lemma {:induction false} LeadsNext(w: World, events: seq<Event>, z: World, e: Event)
    requires Leads(w, events, z) && CanHappen(z, e)
    ensures Leads(w, events + [e], Happen(z, e))
    decreases |events|
  {
    hide CanHappen, Happen;
    if events == [] {
      assert [e][1..] == [] && [] + [e] == [e];
    } else {
      LeadsNext(Happen(w, events[0]), events[1..], z, e);
      assert (events + [e])[1..] == events[1..] + [e];
    }
  }

  lemma {:induction false} RescannedLeads(w: World, order: seq<nat>, clock: nat -> int)
      returns (events: seq<Event>, z: World)
    requires forall id :: id in order ==> id < |w.state.ips|
    requires w.clock <= clock(0) && forall i: nat :: clock(i) <= clock(i + 1)
    ensures Leads(w, events, z) && z.state == Rescanned(w.state, order, clock) && z.clock <= clock(|order|)
  {
    if order == [] {
      events, z := [], w;
    } else {
      var rest, last := order[..|order| - 1], order[|order| - 1];
      assert order == rest + [last];
      assert last in order && forall id :: id in rest ==> id in order;
      var soFar, m := RescannedLeads(w, rest, clock);
      RescannedAt(w.state, rest, clock, last);
      hide Leads, HistoryAfter, VerdictOf, Rescanned;
      RescanNext(w.state, rest, last, clock);
      assert clock(|rest|) <= clock(|rest| + 1);
      var e := Classify(last, clock(|order|));
      LeadsNext(w, soFar, m, e);
      events, z := soFar + [e], Happen(m, e);
    }
  }
}