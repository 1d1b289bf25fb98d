/** Classifying an address as Iranian or not, and the table that records every period for which
    it was Iranian. */
module CountryHistory {
  import opened Common
  import opened Prefixes
  import opened CountryNetworks

  const CIDR_CONFIDENCE := 1.0
  const WHOIS_CONFIDENCE := 0.5

  datatype IpRow = IpRow(address: Addr, whoisCountry: string, isIran: bool, matchCidr: Option<Block>,
      checkedAt: Option<int>)

  /** One period; `ip` is the primary key of an address row. */
  datatype HistoryRow = HistoryRow(ip: nat, country: string, source: string, cidr: Option<Block>,
                                   validFrom: int, validUntil: Option<int>, confidence: real)

  datatype Verdict = Verdict(isIran: bool, cidr: Option<Block>)

  const NOT_IRANIAN := Verdict(false, None)

  function Stored(ip: IpRow): Verdict
  {
    Verdict(ip.isIran, ip.matchCidr)
  }

  /** The network table first, then the country that WHOIS reported. */
  ghost function VerdictOf(nets: Networks, ip: IpRow): Verdict
  {
    if Match(nets, ip.address).Some? then Verdict(true, Match(nets, ip.address))
    else Verdict(ip.whoisCountry == IRAN, None)
  }

  /** The period a verdict opens. */
  function Opened(nets: Networks, id: nat, cidr: Option<Block>, now: int): HistoryRow
  {
    if cidr.Some? && NetKey(IRAN, cidr.value) in nets then
      HistoryRow(id, IRAN, nets[NetKey(IRAN, cidr.value)].source, cidr, now, None, CIDR_CONFIDENCE)
    else HistoryRow(id, IRAN, "whois", cidr, now, None, WHOIS_CONFIDENCE)
  }

  function CloseRow(row: HistoryRow, id: nat, now: int): HistoryRow
  {
    if row.ip == id && row.validUntil.None? then row.(validUntil := Some(now)) else row
  }

  function Closed(h: seq<HistoryRow>, id: nat, now: int): (r: seq<HistoryRow>)
    ensures |r| == |h| && forall i :: 0 <= i < |h| ==> r[i] == CloseRow(h[i], id, now)
  {
    seq(|h|, i requires 0 <= i < |h| => CloseRow(h[i], id, now))
  }

  /** The history after a verdict on an address whose loaded row says `stored`. */
  function HistoryAfter(h: seq<HistoryRow>, nets: Networks, id: nat, stored: Verdict, v: Verdict,
      now: int): seq<HistoryRow>
  {
    if v == stored then h
    else if v.isIran then Closed(h, id, now) + [Opened(nets, id, v.cidr, now)]
    else Closed(h, id, now)
  }

  function Marked(row: IpRow, v: Verdict, now: int): IpRow
  {
    row.(isIran := v.isIran, matchCidr := v.cidr, checkedAt := Some(now))
  }

  /** The three tables that classification reads and writes. */
  class CountryDb {
    var networks: Networks
    var ips: seq<IpRow>
    var history: seq<HistoryRow>

    /** `ip` is the row as the caller loaded it; only three columns of the stored row are written. */
    method Classify(id: nat, ip: IpRow, now: int)
      requires ValidNetworks(networks) && id < |ips|
      modifies this`ips, this`history
      ensures ips == old(ips)[id := Marked(old(ips)[id], VerdictOf(networks, ip), now)]
      ensures var row, before := ips[id], old(ips)[id];
        && (row.isIran <==> Match(networks, ip.address).Some? || ip.whoisCountry == "IR")
        && row.matchCidr == Match(networks, ip.address) && row.checkedAt == Some(now)
        && row.address == before.address && row.whoisCountry == before.whoisCountry
      ensures history == HistoryAfter(old(history), networks, id, Stored(ip), VerdictOf(networks, ip), now)
    {
      hide Match, Canonical, ValidNetworks;
      var match_ := FindMatchingCidr(networks, ip.address);
      var newIsIran, newCidr, source, confidence;
      if match_.Some? {
        newIsIran, newCidr, source, confidence :=
            true, Some(match_.value.cidr), networks[match_.value].source, CIDR_CONFIDENCE;
        assert match_.value == NetKey(IRAN, match_.value.cidr);
      } else if ip.whoisCountry == IRAN {
        newIsIran, newCidr, source, confidence := true, None, "whois", WHOIS_CONFIDENCE;
      } else {
        newIsIran, newCidr, source, confidence := false, None, "", CIDR_CONFIDENCE;
      }
      var changed := newIsIran != ip.isIran || newCidr != ip.matchCidr;
      if changed {
        history := Closed(history, id, now);
        if newIsIran {
          history := history + [HistoryRow(id, IRAN, source, newCidr, now, None, confidence)];
        }
      }
      ips := ips[id := ips[id].(isIran := newIsIran, matchCidr := newCidr, checkedAt := Some(now))];
    }
  }

  // ---- Runs ------------------------------------------------------------------------

  datatype State = State(networks: Networks, ips: seq<IpRow>, history: seq<HistoryRow>)

  /** `Classify` on values, with the row freshly loaded. */
  ghost function Classified(s: State, id: nat, now: int): State
    requires id < |s.ips|
  {
    var v := VerdictOf(s.networks, s.ips[id]);
    State(s.networks, s.ips[id := Marked(s.ips[id], v, now)],
        HistoryAfter(s.history, s.networks, id, Stored(s.ips[id]), v, now))
  }

  /** What else may happen in between: any change of the networks and of the other columns, and
      new addresses, which start out as not Iranian. */
  ghost predicate Elsewhere(s: State, t: State)
  {
    && t.history == s.history && |s.ips| <= |t.ips|
    && (forall i :: 0 <= i < |s.ips| ==> Stored(t.ips[i]) == Stored(s.ips[i]))
    && (forall i :: |s.ips| <= i < |t.ips| ==> Stored(t.ips[i]) == NOT_IRANIAN)
  }

  datatype Event = Classify(id: nat, now: int) | Other(next: State)

  /** One classification, as it happened. */
  datatype Entry = Entry(ip: nat, at: int, verdict: Verdict)

  datatype World = World(state: State, log: seq<Entry>, clock: int)

  ghost predicate CanHappen(w: World, e: Event)
  {
    match e
    case Classify(id, now) => id < |w.state.ips| && w.clock <= now
    case Other(next) => Elsewhere(w.state, next)
  }

  ghost function Happen(w: World, e: Event): World
    requires CanHappen(w, e)
  {
    match e
    case Classify(id, now) =>
      World(Classified(w.state, id, now), w.log + [Entry(id, now, VerdictOf(w.state.networks, w.state.ips[id]))], now)
    case Other(next) => w.(state := next)
  }

  /** `w` can become `z` through the events. */
  ghost predicate Leads(w: World, events: seq<Event>, z: World)
    decreases |events|
  {
    if events == [] then z == w else CanHappen(w, events[0]) && Leads(Happen(w, events[0]), events[1..], z)
  }

  ghost predicate Initial(w: World)
  {
    w.state.history == [] && w.log == [] && forall i :: 0 <= i < |w.state.ips| ==> Stored(w.state.ips[i]) == NOT_IRANIAN
  }

  /** What the last classification of the address at or before `t` said. */
  function LastAt(log: seq<Entry>, id: nat, t: int): Verdict
  {
    if log == [] then NOT_IRANIAN
    else
      var last := log[|log| - 1];
      if last.ip == id && last.at <= t then last.verdict else LastAt(log[..|log| - 1], id, t)
  }

  /** The half-open period of the row holds `t`. */
  predicate During(row: HistoryRow, t: int)
  {
    row.validFrom <= t && (row.validUntil.Some? ==> t < row.validUntil.value)
  }

  /** Reading the table for the address at `t` gives the verdict: the one row whose period
      holds `t`, or none. */
  ghost predicate Reads(h: seq<HistoryRow>, id: nat, t: int, v: Verdict)
  {
    && (forall i :: 0 <= i < |h| && h[i].ip == id && During(h[i], t) ==> v == Verdict(true, h[i].cidr))
    && (forall i, j :: 0 <= i < j < |h| && h[i].ip == id && h[j].ip == id ==> !(During(h[i], t) && During(h[j], t)))
    && (v.isIran ==> exists i :: 0 <= i < |h| && h[i].ip == id && During(h[i], t))
  }

  /** The open row of an address is its current classification. */
  ghost predicate OpenIsCurrent(h: seq<HistoryRow>, id: nat, v: Verdict)
  {
    && (forall i :: 0 <= i < |h| && h[i].ip == id && h[i].validUntil.None? ==> v == Verdict(true, h[i].cidr))
    && (forall i, j :: 0 <= i < j < |h| && h[i].ip == id && h[j].ip == id ==>
         h[i].validUntil.Some? || h[j].validUntil.Some?)
    && (v.isIran ==> exists i :: 0 <= i < |h| && h[i].ip == id && h[i].validUntil.None?)
  }

  ghost predicate Past(h: seq<HistoryRow>, ips: nat, clock: int)
  {
    forall i :: 0 <= i < |h| ==>
      && h[i].ip < ips && h[i].validFrom <= clock
      && (h[i].validUntil.Some? ==> h[i].validFrom <= h[i].validUntil.value <= clock)
  }

  ghost predicate LogPast(log: seq<Entry>, clock: int)
  {
    forall i :: 0 <= i < |log| ==> log[i].at <= clock
  }

  ghost predicate Inv(w: World)
  {
    var h, ips := w.state.history, w.state.ips;
    && Past(h, |ips|, w.clock) && LogPast(w.log, w.clock)
    && (forall id: nat :: id < |ips| ==> Stored(ips[id]) == LastAt(w.log, id, w.clock))
    && (forall id: nat :: id < |ips| ==> OpenIsCurrent(h, id, Stored(ips[id])))
    && (forall id: nat, t: int :: id < |ips| ==> Reads(h, id, t, LastAt(w.log, id, t)))
    && (forall id: nat, t: int :: id >= |ips| ==> LastAt(w.log, id, t) == NOT_IRANIAN)
  }

  lemma {:induction false} LastAtLater(log: seq<Entry>, id: nat, clock: int, t: int)
    requires LogPast(log, clock) && clock <= t
    ensures LastAt(log, id, t) == LastAt(log, id, clock)
  {
    if log != [] {
      LastAtLater(log[..|log| - 1], id, clock, t);
    }
  }

  lemma LastAtAppend(log: seq<Entry>, e: Entry, id: nat, t: int)
    ensures LastAt(log + [e], id, t) == if e.ip == id && e.at <= t then e.verdict else LastAt(log, id, t)
  {
    assert (log + [e])[..|log|] == log;
  }

  /** The rows of other addresses are as they were. */
  lemma OthersKeepReading(h: seq<HistoryRow>, nets: Networks, id: nat, stored: Verdict, v: Verdict, now: int,
      other: nat, t: int, r: Verdict)
    requires other != id
    ensures Reads(h, other, t, r) ==> Reads(HistoryAfter(h, nets, id, stored, v, now), other, t, r)
    ensures OpenIsCurrent(h, other, r) ==> OpenIsCurrent(HistoryAfter(h, nets, id, stored, v, now), other, r)
  {
    var g := HistoryAfter(h, nets, id, stored, v, now);
    assert forall i :: 0 <= i < |h| && h[i].ip == other ==> g[i] == h[i];
    assert forall i :: 0 <= i < |g| && g[i].ip == other ==> i < |h| && h[i].ip == other;
  }

  lemma OpenAfter(h: seq<HistoryRow>, nets: Networks, id: nat, stored: Verdict, v: Verdict, now: int)
    requires OpenIsCurrent(h, id, stored) && (!v.isIran ==> v == NOT_IRANIAN)
    ensures OpenIsCurrent(HistoryAfter(h, nets, id, stored, v, now), id, v)
  {
    var g := HistoryAfter(h, nets, id, stored, v, now);
    if v != stored && v.isIran {
      assert g[|h|] == Opened(nets, id, v.cidr, now);
    }
  }

  /** Before `now` nothing changes. */
  lemma ReadsEarlier(h: seq<HistoryRow>, nets: Networks, id: nat, stored: Verdict, v: Verdict, now: int, t: int,
      r: Verdict)
    requires Reads(h, id, t, r) && t < now
    ensures Reads(HistoryAfter(h, nets, id, stored, v, now), id, t, r)
  {
    var g := HistoryAfter(h, nets, id, stored, v, now);
    assert forall i :: 0 <= i < |h| ==>
        (During(g[i], t) <==> During(h[i], t)) && g[i].ip == h[i].ip && g[i].cidr == h[i].cidr;
    assert forall i :: |h| <= i < |g| ==> !During(g[i], t);
  }

  /** From `now` on, only the open row is read. */
  lemma ReadsLater(h: seq<HistoryRow>, nets: Networks, ips: nat, id: nat, stored: Verdict, v: Verdict, clock: int,
      now: int, t: int)
    requires Past(h, ips, clock) && clock <= now <= t
    requires OpenIsCurrent(h, id, stored) && (!v.isIran ==> v == NOT_IRANIAN)
    ensures Reads(HistoryAfter(h, nets, id, stored, v, now), id, t, v)
  {
    var g := HistoryAfter(h, nets, id, stored, v, now);
    OpenAfter(h, nets, id, stored, v, now);
    forall i | 0 <= i < |g| && g[i].ip == id ensures During(g[i], t) <==> g[i].validUntil.None? {
      if i < |h| && v != stored {
        assert g[i] == CloseRow(h[i], id, now);
      }
    }
  }

  lemma PastAfter(h: seq<HistoryRow>, nets: Networks, ips: nat, id: nat, stored: Verdict, v: Verdict, clock: int,
      now: int)
    requires Past(h, ips, clock) && clock <= now && id < ips
    ensures Past(HistoryAfter(h, nets, id, stored, v, now), ips, now)
  {
  }

  /** A classification keeps the invariant. */
  lemma ClassifyKeeps(w: World, id: nat, now: int)
    requires Inv(w) && CanHappen(w, Classify(id, now))
    ensures Inv(Happen(w, Classify(id, now)))
  {
    var h, ips, nets, log := w.state.history, w.state.ips, w.state.networks, w.log;
    var stored, v := Stored(ips[id]), VerdictOf(nets, ips[id]);
    var g, log', ips' :=
        HistoryAfter(h, nets, id, stored, v, now), log + [Entry(id, now, v)], ips[id := Marked(ips[id], v, now)];
    assert Happen(w, Classify(id, now)) == World(State(nets, ips', g), log', now);
    PastAfter(h, nets, |ips|, id, stored, v, w.clock, now);
    hide Match, HistoryAfter, Reads, OpenIsCurrent, Past;
    forall x: nat, t: int ensures x < |ips| ==> Reads(g, x, t, LastAt(log', x, t)) {
      LastAtAppend(log, Entry(id, now, v), x, t);
      if x < |ips| {
        assert Reads(h, x, t, LastAt(log, x, t));
        if x != id {
          OthersKeepReading(h, nets, id, stored, v, now, x, t, LastAt(log, x, t));
        } else if t < now {
          ReadsEarlier(h, nets, id, stored, v, now, t, LastAt(log, x, t));
        } else {
          ReadsLater(h, nets, |ips|, id, stored, v, w.clock, now, t);
        }
      }
    }
    forall x: nat | x < |ips| ensures OpenIsCurrent(g, x, Stored(ips'[x])) && Stored(ips'[x]) == LastAt(log', x, now) {
      LastAtAppend(log, Entry(id, now, v), x, now);
      LastAtLater(log, x, w.clock, now);
      if x == id {
        OpenAfter(h, nets, id, stored, v, now);
      } else {
        OthersKeepReading(h, nets, id, stored, v, now, x, now, Stored(ips[x]));
      }
    }
    forall x: nat, t: int | x >= |ips| ensures LastAt(log', x, t) == NOT_IRANIAN {
      LastAtAppend(log, Entry(id, now, v), x, t);
    }
  }

  lemma OtherKeeps(w: World, next: State)
    requires Inv(w) && CanHappen(w, Other(next))
    ensures Inv(Happen(w, Other(next)))
  {
    var h, n := w.state.history, |w.state.ips|;
    forall x: nat, t: int | n <= x < |next.ips|
        ensures Reads(h, x, t, LastAt(w.log, x, t)) && OpenIsCurrent(h, x, Stored(next.ips[x])) {
      assert LastAt(w.log, x, t) == NOT_IRANIAN;
    }
    forall x: nat | n <= x < |next.ips|
        ensures Stored(next.ips[x]) == LastAt(w.log, x, w.clock) && OpenIsCurrent(h, x, Stored(next.ips[x])) {
      assert Reads(h, x, 0, LastAt(w.log, x, 0));
    }
  }

  lemma {:induction false} RunKeeps(w: World, events: seq<Event>, z: World)
    requires Inv(w) && Leads(w, events, z)
    ensures Inv(z)
    decreases |events|
  {
    hide Inv, Happen, CanHappen;
    if events != [] {
      match events[0] {
        case Classify(id, now) => ClassifyKeeps(w, id, now);
        case Other(next) => OtherKeeps(w, next);
      }
      RunKeeps(Happen(w, events[0]), events[1..], z);
    }
  }

  lemma InitialInv(w: World)
    requires Initial(w)
    ensures Inv(w)
  {
  }

  // ---- What the table is worth -----------------------------------------------------

  /** Reading the history of any address at any time gives what the last classification at or
      before that time said; the open row is the address's own classification. */
  lemma HistoryIsLossless(w: World, events: seq<Event>, z: World, id: nat, t: int)
    requires Initial(w) && Leads(w, events, z) && id < |z.state.ips|
    ensures Reads(z.state.history, id, t, LastAt(z.log, id, t))
    ensures OpenIsCurrent(z.state.history, id, Stored(z.state.ips[id]))
    ensures Stored(z.state.ips[id]) == LastAt(z.log, id, z.clock)
  {
    hide Reads, OpenIsCurrent, Leads, Initial;
    InitialInv(w);
    RunKeeps(w, events, z);
  }

  ghost predicate Touch(a: HistoryRow, b: HistoryRow)
  {
    a.ip == b.ip && a.validUntil == Some(b.validFrom)
  }

  /** What the classifications of the address at the instant said, in order. */
  function SaidAt(log: seq<Entry>, id: nat, t: int): seq<Verdict>
  {
    if log == [] then []
    else
      var last := log[|log| - 1];
      SaidAt(log[..|log| - 1], id, t) + if last.ip == id && last.at == t then [last.verdict] else []
  }

  /** The verdict before the instant, and then those of the instant. */
  function TurnsAt(log: seq<Entry>, id: nat, t: int): (turns: seq<Verdict>)
    ensures |turns| >= 1
  {
    [LastAt(log, id, t - 1)] + SaidAt(log, id, t)
  }

  ghost predicate Leaves(turns: seq<Verdict>, v: Verdict)
  {
    exists a, b :: 0 <= a < b < |turns| && turns[a] == v && turns[b] != v
  }

  ghost predicate Returns(turns: seq<Verdict>, v: Verdict)
  {
    exists a, b, c :: 0 <= a < b < c < |turns| && turns[a] == v && turns[b] != v && turns[c] == v
  }

  /** Some row of the address with this CIDR ends at the instant. */
  ghost predicate EndsAt(h: seq<HistoryRow>, id: nat, t: int, cidr: Option<Block>)
  {
    exists i :: 0 <= i < |h| && h[i].ip == id && h[i].validUntil == Some(t) && h[i].cidr == cidr
  }

  /** A row and a later one touch at the instant and have the same CIDR. */
  ghost predicate EqualTouchAt(h: seq<HistoryRow>, id: nat, t: int, cidr: Option<Block>)
  {
    exists i, j :: 0 <= i < j < |h| && h[i].ip == id && Touch(h[i], h[j]) && h[j].validFrom == t
                   && h[i].cidr == cidr && h[j].cidr == cidr
  }

  /** An address's rows are opened one after another. */
  ghost predicate OneByOne(h: seq<HistoryRow>, id: nat)
  {
    forall i, j :: 0 <= i < j < |h| && h[i].ip == id && h[j].ip == id ==> h[i].validUntil.Some?
  }

  ghost predicate TouchInv(h: seq<HistoryRow>, log: seq<Entry>, id: nat, t: int, cidr: Option<Block>)
  {
    var turns, v := TurnsAt(log, id, t), Verdict(true, cidr);
    && OneByOne(h, id) && turns[|turns| - 1] == LastAt(log, id, t)
    && (EndsAt(h, id, t, cidr) <==> Leaves(turns, v))
    && (EqualTouchAt(h, id, t, cidr) <==> Returns(turns, v))
  }

  lemma {:induction false} SaidNothing(log: seq<Entry>, clock: int, id: nat, t: int)
    requires LogPast(log, clock) && clock < t
    ensures SaidAt(log, id, t) == []
  {
    if log != [] {
      SaidNothing(log[..|log| - 1], clock, id, t);
    }
  }

  lemma TurnsAppend(log: seq<Entry>, e: Entry, id: nat, t: int)
    ensures TurnsAt(log + [e], id, t)
         == if e.ip != id || e.at > t then TurnsAt(log, id, t)
            else if e.at == t then TurnsAt(log, id, t) + [e.verdict]
            else [e.verdict] + SaidAt(log, id, t)
  {
    assert (log + [e])[..|log|] == log;
    LastAtAppend(log, e, id, t - 1);
    assert SaidAt(log, id, t) + [] == SaidAt(log, id, t);
  }

  lemma LeavesNext(turns: seq<Verdict>, x: Verdict, v: Verdict)
    requires turns != []
    ensures Leaves(turns + [x], v) <==> Leaves(turns, v) || (turns[|turns| - 1] == v && x != v)
  {
    var next, n := turns + [x], |turns|;
    if Leaves(turns, v) {
      var a, b :| 0 <= a < b < n && turns[a] == v && turns[b] != v;
      assert next[a] == v && next[b] != v;
    } else if turns[n - 1] == v && x != v {
      assert next[n - 1] == v && next[n] != v;
    } else if a, b :| 0 <= a < b < n + 1 && next[a] == v && next[b] != v {
      LeftEarlier(turns, x, v, a, b);
    }
  }

  lemma LeftEarlier(turns: seq<Verdict>, x: Verdict, v: Verdict, a: nat, b: nat)
    requires a < b <= |turns| && (turns + [x])[a] == v && (turns + [x])[b] != v
    ensures Leaves(turns, v) || (turns[|turns| - 1] == v && x != v)
  {
    var last := |turns| - 1;
    assert turns[a] == v;
    if b < |turns| {
      assert turns[b] != v;
    } else if turns[last] != v {
      assert a < last;
    }
  }

  lemma ReturnsNext(turns: seq<Verdict>, x: Verdict, v: Verdict)
    ensures Returns(turns + [x], v) <==> Returns(turns, v) || (x == v && Leaves(turns, v))
  {
    hide Returns, Leaves;
    ReturnsStill(turns, x, v);
    ReturnsBack(turns, x, v);
    if Returns(turns + [x], v) {
      ReturnedEarlier(turns, x, v);
    }
  }

  lemma ReturnsStill(turns: seq<Verdict>, x: Verdict, v: Verdict)
    ensures Returns(turns, v) ==> Returns(turns + [x], v)
  {
    if Returns(turns, v) {
      var a, b, c :| 0 <= a < b < c < |turns| && turns[a] == v && turns[b] != v && turns[c] == v;
      var next := turns + [x];
      assert next[a] == v && next[b] != v && next[c] == v;
    }
  }

  lemma ReturnsBack(turns: seq<Verdict>, x: Verdict, v: Verdict)
    ensures x == v && Leaves(turns, v) ==> Returns(turns + [x], v)
  {
    if x == v && Leaves(turns, v) {
      var a, b :| 0 <= a < b < |turns| && turns[a] == v && turns[b] != v;
      var next := turns + [x];
      assert next[a] == v && next[b] != v && next[|turns|] == v;
    }
  }

  lemma ReturnedEarlier(turns: seq<Verdict>, x: Verdict, v: Verdict)
    requires Returns(turns + [x], v)
    ensures Returns(turns, v) || (x == v && Leaves(turns, v))
  {
    var next, n := turns + [x], |turns|;
    var a, b, c :| 0 <= a < b < c < n + 1 && next[a] == v && next[b] != v && next[c] == v;
    assert turns[a] == v && turns[b] != v;
    if c < n {
      assert turns[c] == v;
    }
  }

  lemma LeftAndLast(turns: seq<Verdict>, v: Verdict)
    requires turns != [] && turns[|turns| - 1] == v && Leaves(turns, v)
    ensures Returns(turns, v)
  {
    var a, b :| 0 <= a < b < |turns| && turns[a] == v && turns[b] != v;
    assert b < |turns| - 1;
  }

  lemma RowEnds(h: seq<HistoryRow>, i: nat, id: nat, t: int, cidr: Option<Block>)
    requires i < |h| && h[i].ip == id && h[i].validUntil == Some(t) && h[i].cidr == cidr
    ensures EndsAt(h, id, t, cidr)
  {
  }

  lemma RowsTouch(h: seq<HistoryRow>, i: nat, j: nat, id: nat, t: int, cidr: Option<Block>)
    requires i < j < |h| && h[i].ip == h[j].ip == id && h[i].validUntil == Some(t) && h[j].validFrom == t
    requires h[i].cidr == h[j].cidr == cidr
    ensures EqualTouchAt(h, id, t, cidr)
  {
  }

  /** At the instant itself a changed verdict ends the open row ... */
  lemma EndsAtInstant(h: seq<HistoryRow>, nets: Networks, id: nat, stored: Verdict, v: Verdict, t: int,
      cidr: Option<Block>)
    requires OpenIsCurrent(h, id, stored) && v != stored
    ensures EndsAt(HistoryAfter(h, nets, id, stored, v, t), id, t, cidr)
         <==> EndsAt(h, id, t, cidr) || stored == Verdict(true, cidr)
  {
    var g := HistoryAfter(h, nets, id, stored, v, t);
    hide EndsAt;
    if EndsAt(h, id, t, cidr) {
      var i := EndingRow(h, id, t, cidr);
      RowEnds(g, i, id, t, cidr);
    } else if stored == Verdict(true, cidr) {
      var i :| 0 <= i < |h| && h[i].ip == id && h[i].validUntil.None?;
      RowEnds(g, i, id, t, cidr);
    } else if EndsAt(g, id, t, cidr) {
      var i := EndingRow(g, id, t, cidr);
      assert v.isIran ==> g[|h|] == Opened(nets, id, v.cidr, t);
      assert i < |h| && g[i] == CloseRow(h[i], id, t);
      if h[i].validUntil.Some? {
        RowEnds(h, i, id, t, cidr);
      }
    }
  }

  lemma EndingRow(h: seq<HistoryRow>, id: nat, t: int, cidr: Option<Block>) returns (i: nat)
    requires EndsAt(h, id, t, cidr)
    ensures i < |h| && h[i].ip == id && h[i].validUntil == Some(t) && h[i].cidr == cidr
  {
    i :| 0 <= i < |h| && h[i].ip == id && h[i].validUntil == Some(t) && h[i].cidr == cidr;
  }

  lemma TouchingPair(h: seq<HistoryRow>, id: nat, t: int, cidr: Option<Block>) returns (i: nat, j: nat)
    requires EqualTouchAt(h, id, t, cidr)
    ensures i < j < |h| && h[i].ip == h[j].ip == id && h[i].validUntil == Some(t) && h[j].validFrom == t
    ensures h[i].cidr == h[j].cidr == cidr
  {
    i, j :| 0 <= i < j < |h| && h[i].ip == id && Touch(h[i], h[j]) && h[j].validFrom == t
            && h[i].cidr == cidr && h[j].cidr == cidr;
  }

  /** ... and an Iranian one opens a row that touches every row that ends at the instant. */
  lemma TouchesAtInstant(h: seq<HistoryRow>, nets: Networks, id: nat, stored: Verdict, v: Verdict, t: int,
      cidr: Option<Block>)
    requires OpenIsCurrent(h, id, stored) && OneByOne(h, id) && v != stored
    ensures EqualTouchAt(HistoryAfter(h, nets, id, stored, v, t), id, t, cidr)
         <==> EqualTouchAt(h, id, t, cidr) || (v == Verdict(true, cidr) && EndsAt(h, id, t, cidr))
  {
    var g := HistoryAfter(h, nets, id, stored, v, t);
    hide EndsAt, EqualTouchAt;
    if EqualTouchAt(h, id, t, cidr) {
      var i, j := TouchingPair(h, id, t, cidr);
      RowsTouch(g, i, j, id, t, cidr);
    } else if v == Verdict(true, cidr) && EndsAt(h, id, t, cidr) {
      var i := EndingRow(h, id, t, cidr);
      assert g[|h|] == Opened(nets, id, v.cidr, t);
      RowsTouch(g, i, |h|, id, t, cidr);
    } else if EqualTouchAt(g, id, t, cidr) {
      var i, j := TouchingPair(g, id, t, cidr);
      assert g[i] == CloseRow(h[i], id, t);
      if j < |h| {
        assert g[j] == CloseRow(h[j], id, t);
        RowsTouch(h, i, j, id, t, cidr);
      } else {
        assert g[j] == Opened(nets, id, v.cidr, t);
        EndsAtInstant(h, nets, id, stored, v, t, cidr);
        RowEnds(g, i, id, t, cidr);
      }
    }
  }

  lemma OneByOneAfter(h: seq<HistoryRow>, nets: Networks, id: nat, stored: Verdict, v: Verdict, now: int, x: nat)
    requires OneByOne(h, x)
    ensures OneByOne(HistoryAfter(h, nets, id, stored, v, now), x)
  {
    var g := HistoryAfter(h, nets, id, stored, v, now);
    forall i, j | 0 <= i < j < |g| && g[i].ip == x && g[j].ip == x ensures g[i].validUntil.Some? {
      assert g[i].ip == h[i].ip;
    }
  }

  /** Rows that the classification does not touch at this instant: those of other addresses, and
      all of them when it happens at another time. */
  lemma TouchesElsewhere(h: seq<HistoryRow>, nets: Networks, id: nat, stored: Verdict, v: Verdict, now: int, x: nat,
      t: int, cidr: Option<Block>)
    requires x != id || now != t
    ensures EndsAt(HistoryAfter(h, nets, id, stored, v, now), x, t, cidr) <==> EndsAt(h, x, t, cidr)
    ensures EqualTouchAt(HistoryAfter(h, nets, id, stored, v, now), x, t, cidr) <==> EqualTouchAt(h, x, t, cidr)
  {
    var g := HistoryAfter(h, nets, id, stored, v, now);
    hide EndsAt, EqualTouchAt, HistoryAfter;
    assert forall i :: 0 <= i < |h| ==> SameAt(h[i], g[i], x, t) by { RowsSameAt(h, nets, id, stored, v, now, x, t); }
    assert forall i :: |h| <= i < |g| ==> g[i].ip != x || (g[i].validUntil.None? && g[i].validFrom != t) by {
      RowsSameAt(h, nets, id, stored, v, now, x, t);
    }
    assert |h| <= |g| by { RowsSameAt(h, nets, id, stored, v, now, x, t); }
    if EndsAt(h, x, t, cidr) {
      var i := EndingRow(h, x, t, cidr);
      RowEnds(g, i, x, t, cidr);
    } else if EndsAt(g, x, t, cidr) {
      var i := EndingRow(g, x, t, cidr);
      RowEnds(h, i, x, t, cidr);
    }
    if EqualTouchAt(h, x, t, cidr) {
      var i, j := TouchingPair(h, x, t, cidr);
      RowsTouch(g, i, j, x, t, cidr);
    } else if EqualTouchAt(g, x, t, cidr) {
      var i, j := TouchingPair(g, x, t, cidr);
      RowsTouch(h, i, j, x, t, cidr);
    }
  }

  predicate SameAt(a: HistoryRow, b: HistoryRow, x: nat, t: int)
  {
    a.ip == b.ip && a.cidr == b.cidr && a.validFrom == b.validFrom
        && (a.ip == x ==> (a.validUntil == Some(t) <==> b.validUntil == Some(t)))
  }

  lemma RowsSameAt(h: seq<HistoryRow>, nets: Networks, id: nat, stored: Verdict, v: Verdict, now: int, x: nat, t: int)
    requires x != id || now != t
    ensures var g := HistoryAfter(h, nets, id, stored, v, now);
      && |h| <= |g| && (forall i :: 0 <= i < |h| ==> SameAt(h[i], g[i], x, t))
      && (forall i :: |h| <= i < |g| ==> g[i].ip != x || (g[i].validUntil.None? && g[i].validFrom != t))
  {
  }

  lemma TouchElsewhere(h: seq<HistoryRow>, nets: Networks, stored: Verdict, e: Entry, log: seq<Entry>, x: nat, t: int,
      cidr: Option<Block>)
    requires TouchInv(h, log, x, t, cidr) && (x != e.ip || e.at > t)
    ensures TouchInv(HistoryAfter(h, nets, e.ip, stored, e.verdict, e.at), log + [e], x, t, cidr)
  {
    hide HistoryAfter, OneByOne, EndsAt, EqualTouchAt, Leaves, Returns, TurnsAt;
    OneByOneAfter(h, nets, e.ip, stored, e.verdict, e.at, x);
    TurnsAppend(log, e, x, t);
    LastAtAppend(log, e, x, t);
    TouchesElsewhere(h, nets, e.ip, stored, e.verdict, e.at, x, t, cidr);
  }

  lemma TouchBefore(h: seq<HistoryRow>, nets: Networks, ips: nat, clock: int, stored: Verdict, e: Entry,
      log: seq<Entry>, t: int, cidr: Option<Block>)
    requires TouchInv(h, log, e.ip, t, cidr) && clock <= e.at < t && e.ip < ips && Past(h, ips, clock)
        && LogPast(log, clock)
    ensures TouchInv(HistoryAfter(h, nets, e.ip, stored, e.verdict, e.at), log + [e], e.ip, t, cidr)
  {
    hide HistoryAfter, OneByOne, EndsAt, EqualTouchAt, Leaves, Returns, TurnsAt, Past;
    var g := HistoryAfter(h, nets, e.ip, stored, e.verdict, e.at);
    OneByOneAfter(h, nets, e.ip, stored, e.verdict, e.at, e.ip);
    TurnsAppend(log, e, e.ip, t);
    LastAtAppend(log, e, e.ip, t);
    SaidNothing(log, clock, e.ip, t);
    assert [e.verdict] + [] == [e.verdict];
    PastAfter(h, nets, ips, e.ip, stored, e.verdict, clock, e.at);
    NothingEndsYet(g, ips, e.at, e.ip, t, cidr);
    OneTurn(e.verdict, Verdict(true, cidr));
  }

  lemma TouchNow(h: seq<HistoryRow>, nets: Networks, clock: int, stored: Verdict, e: Entry, log: seq<Entry>,
      cidr: Option<Block>)
    requires TouchInv(h, log, e.ip, e.at, cidr) && clock <= e.at && LogPast(log, clock)
    requires OpenIsCurrent(h, e.ip, stored) && stored == LastAt(log, e.ip, clock)
    ensures TouchInv(HistoryAfter(h, nets, e.ip, stored, e.verdict, e.at), log + [e], e.ip, e.at, cidr)
  {
    hide HistoryAfter, OneByOne, EndsAt, EqualTouchAt, Leaves, Returns, TurnsAt, OpenIsCurrent;
    var turns, iranian := TurnsAt(log, e.ip, e.at), Verdict(true, cidr);
    OneByOneAfter(h, nets, e.ip, stored, e.verdict, e.at, e.ip);
    TurnsAppend(log, e, e.ip, e.at);
    LastAtAppend(log, e, e.ip, e.at);
    LastAtLater(log, e.ip, clock, e.at);
    LeavesNext(turns, e.verdict, iranian);
    ReturnsNext(turns, e.verdict, iranian);
    if e.verdict == stored {
      Unchanged(h, nets, e.ip, stored, e.at);
      if Leaves(turns, iranian) && stored == iranian {
        LeftAndLast(turns, iranian);
      }
    } else {
      EndsAtInstant(h, nets, e.ip, stored, e.verdict, e.at, cidr);
      TouchesAtInstant(h, nets, e.ip, stored, e.verdict, e.at, cidr);
    }
  }

  lemma ClassifyKeepsTouch(w: World, id: nat, now: int, x: nat, t: int, cidr: Option<Block>)
    requires Inv(w) && CanHappen(w, Classify(id, now)) && TouchInv(w.state.history, w.log, x, t, cidr)
    ensures var z := Happen(w, Classify(id, now)); TouchInv(z.state.history, z.log, x, t, cidr)
  {
    hide Match, HistoryAfter, TouchInv, OpenIsCurrent, Reads, Past;
    var h, ips, nets := w.state.history, w.state.ips, w.state.networks;
    var stored, e := Stored(ips[id]), Entry(id, now, VerdictOf(nets, ips[id]));
    if x != id || now > t {
      TouchElsewhere(h, nets, stored, e, w.log, x, t, cidr);
    } else if now < t {
      TouchBefore(h, nets, |ips|, w.clock, stored, e, w.log, t, cidr);
    } else {
      TouchNow(h, nets, w.clock, stored, e, w.log, cidr);
    }
  }

  lemma {:induction false} RunKeepsTouch(w: World, events: seq<Event>, z: World, x: nat, t: int, cidr: Option<Block>)
    requires Inv(w) && TouchInv(w.state.history, w.log, x, t, cidr) && Leads(w, events, z)
    ensures TouchInv(z.state.history, z.log, x, t, cidr)
    decreases |events|
  {
    hide Inv, TouchInv, VerdictOf, HistoryAfter;
    if events != [] {
      var m := Happen(w, events[0]);
      match events[0] {
        case Classify(id, now) =>
          ClassifyKeeps(w, id, now);
          ClassifyKeepsTouch(w, id, now, x, t, cidr);
        case Other(next) => OtherKeeps(w, next);
      }
      RunKeepsTouch(m, events[1..], z, x, t, cidr);
    }
  }

  lemma InitialTouch(w: World, x: nat, t: int, cidr: Option<Block>)
    requires Initial(w)
    ensures TouchInv(w.state.history, w.log, x, t, cidr)
  {
    OneTurn(NOT_IRANIAN, Verdict(true, cidr));
    hide Leaves, Returns;
    assert TurnsAt(w.log, x, t) == [NOT_IRANIAN];
  }

  /** A row of an address and a later one that touch at an instant have the same CIDR exactly
      when, of the verdict before the instant and those given at it, that Iranian verdict was left
      and returned to. */
  lemma EqualRowsTouchIff(w: World, events: seq<Event>, z: World, id: nat, t: int, cidr: Option<Block>)
    requires Initial(w) && Leads(w, events, z)
    ensures EqualTouchAt(z.state.history, id, t, cidr) <==> Returns(TurnsAt(z.log, id, t), Verdict(true, cidr))
  {
    hide Initial, Leads, EqualTouchAt, Returns, TurnsAt;
    InitialInv(w);
    InitialTouch(w, id, t, cidr);
    RunKeepsTouch(w, events, z, id, t, cidr);
  }

  lemma Unchanged(h: seq<HistoryRow>, nets: Networks, id: nat, v: Verdict, now: int)
    ensures HistoryAfter(h, nets, id, v, v, now) == h
  {
  }

  lemma NothingEndsYet(h: seq<HistoryRow>, ips: nat, clock: int, id: nat, t: int, cidr: Option<Block>)
    requires Past(h, ips, clock) && clock < t
    ensures !EndsAt(h, id, t, cidr) && !EqualTouchAt(h, id, t, cidr)
  {
  }

  lemma OneTurn(x: Verdict, v: Verdict)
    ensures !Leaves([x], v) && !Returns([x], v)
  {
  }

  /** With three classifications at one instant it does happen: Iranian, not Iranian and Iranian
      again by WHOIS leaves two touching rows that say the same. */
  lemma EqualRowsCanTouch()
    ensures exists w, events, z :: Initial(w) && Leads(w, events, z) && EqualTouchAt(z.state.history, 0, 5, None)
  {
    var seen := IpRow(Addr(V4, 0), "IR", false, None, None);
    var w0 := World(State(map[], [seen], []), [], 0);
    var e := Classify(0, 5);
    LongestIsUnique(Enabled(map[]), Addr(V4, 0));
    hide Longest;
    var w1 := Happen(w0, e);
    var off := Other(w1.state.(ips := [w1.state.ips[0].(whoisCountry := "")]));
    var w2 := Happen(w1, off);
    var w3 := Happen(w2, e);
    var on := Other(w3.state.(ips := [w3.state.ips[0].(whoisCountry := "IR")]));
    var w4 := Happen(w3, on);
    var w5 := Happen(w4, e);
    var rows := w5.state.history;
    assert rows == [HistoryRow(0, IRAN, "whois", None, 5, Some(5), WHOIS_CONFIDENCE),
        HistoryRow(0, IRAN, "whois", None, 5, None, WHOIS_CONFIDENCE)];
    RowsTouch(rows, 0, 1, 0, 5, None);
    LeadsFive(w0, e, off, e, on, e);
  }

  lemma LeadsFive(w0: World, e1: Event, e2: Event, e3: Event, e4: Event, e5: Event)
    requires CanHappen(w0, e1)
    requires var w1 := Happen(w0, e1); CanHappen(w1, e2)
    requires var w2 := Happen(Happen(w0, e1), e2); CanHappen(w2, e3)
    requires var w3 := Happen(Happen(Happen(w0, e1), e2), e3); CanHappen(w3, e4)
    requires var w4 := Happen(Happen(Happen(Happen(w0, e1), e2), e3), e4); CanHappen(w4, e5)
    ensures Leads(w0, [e1, e2, e3, e4, e5], Happen(Happen(Happen(Happen(Happen(w0, e1), e2), e3), e4), e5))
  {
    hide Happen, CanHappen;
    var all := [e1, e2, e3, e4, e5];
    assert all[1..] == [e2, e3, e4, e5] && all[1..][1..] == [e3, e4, e5] && all[1..][1..][1..] == [e4, e5]
        && all[1..][1..][1..][1..] == [e5];
    var w4 := Happen(Happen(Happen(Happen(w0, e1), e2), e3), e4);
    assert Leads(w4, [e5], Happen(w4, e5)) by {
      assert [e5][1..] == [];
    }
    assert Leads(Happen(Happen(Happen(w0, e1), e2), e3), [e4, e5], Happen(w4, e5));
    assert Leads(Happen(Happen(w0, e1), e2), [e3, e4, e5], Happen(w4, e5));
    assert Leads(Happen(w0, e1), [e2, e3, e4, e5], Happen(w4, e5));
  }

  /** Rows are never removed, a closed row never changes, and of an open row only the end. */
  ghost predicate Grows(h: seq<HistoryRow>, g: seq<HistoryRow>)
  {
    && |h| <= |g|
    && forall i :: 0 <= i < |h| ==>
         g[i] == h[i] || (h[i].validUntil.None? && g[i] == h[i].(validUntil := g[i].validUntil))
  }

  lemma {:induction false} HistoryOnlyGrows(w: World, events: seq<Event>, z: World)
    requires Leads(w, events, z)
    ensures Grows(w.state.history, z.state.history)
    decreases |events|
  {
    hide VerdictOf;
    if events != [] {
      var m := Happen(w, events[0]);
      assert Grows(w.state.history, m.state.history);
      HistoryOnlyGrows(m, events[1..], z);
    }
  }

  /** The row a verdict opens: an open period of Iran from now on, which says where the verdict
      came from: the matched network's source at full confidence, or WHOIS at half. */
  lemma OpenedSaysWhy(nets: Networks, ip: IpRow, id: nat, now: int)
    requires ValidNetworks(nets) && VerdictOf(nets, ip).isIran
    ensures var cidr := VerdictOf(nets, ip).cidr;
      var row := Opened(nets, id, cidr, now);
      && row.ip == id && row.country == "IR" && row.cidr == cidr
      && row.validFrom == now && row.validUntil == None
      && (cidr.Some? ==> Matches(nets, NetKey(IRAN, cidr.value), ip.address)
                         && row.source == nets[NetKey(IRAN, cidr.value)].source && row.confidence == 1.0)
      && (cidr.None? ==> ip.whoisCountry == IRAN && row.source == "whois" && row.confidence == 0.5
                         && forall k :: !Matches(nets, k, ip.address))
  {
    hide Match, Holds;
    var cidr := VerdictOf(nets, ip).cidr;
    QueryHasOneAnswer(nets, ip.address, if cidr.Some? then NetKey(IRAN, cidr.value) else NetKey(IRAN, Block(V4, 0, 0)));
  }

  /** Only the verdict is compared: when a matched network changes its source, the open row
      keeps the old one. */
  lemma SourceIsNotTracked(s: State, nets: Networks, id: nat, now: int)
    requires id < |s.ips| && Enabled(nets) == Enabled(s.networks)
    requires Stored(s.ips[id]) == VerdictOf(s.networks, s.ips[id])
    ensures Classified(s.(networks := nets), id, now).history == s.history
  {
  }

  /** A classification whose row was loaded before another one changed it: afterwards the open
      row is the address's classification, unless the verdict is the one that was loaded and no
      longer the one that is stored. */
  lemma StaleRowIff(h: seq<HistoryRow>, nets: Networks, id: nat, stored: Verdict, loaded: Verdict, v: Verdict, now: int)
    requires OpenIsCurrent(h, id, stored)
    requires (stored.isIran || stored == NOT_IRANIAN) && (v.isIran || v == NOT_IRANIAN)
    ensures OpenIsCurrent(HistoryAfter(h, nets, id, loaded, v, now), id, v) <==> (v == loaded ==> loaded == stored)
  {
    var g := HistoryAfter(h, nets, id, loaded, v, now);
    if v != loaded {
      if v.isIran {
        assert g[|h|] == Opened(nets, id, v.cidr, now);
      }
    } else if stored.isIran {
      var i :| 0 <= i < |h| && h[i].ip == id && h[i].validUntil.None?;
    }
  }
}
