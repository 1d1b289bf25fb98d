/** The purges of old events and stale addresses, next to everything else that writes the
    address, event and history tables, one statement or transaction at a time. */
module Retention {
  import opened Common
  import opened CountryNetworks
  import opened CountryHistory

  /** An address row as far as retention looks at it, under its primary key. */
  datatype IpRecord = IpRecord(lastSeen: int, stored: Verdict)

  type Ips = map<nat, IpRecord>

  datatype EventRow = EventRow(ip: nat, timestamp: int)

  /** A stored WHOIS reply. */
  datatype WhoisRow = WhoisRow(ip: nat, queriedAt: int)

  /** How long events, WHOIS replies and addresses are kept. */
  datatype Retain = Retain(events: nat, whois: nat, ips: nat)

  // ---- The purges ------------------------------------------------------------------

  /** The rows that are kept, in order. */
  function Filter<T>(rows: seq<T>, keep: T -> bool): (r: seq<T>)
    ensures |r| <= |rows|
  {
    if rows == [] then []
    else if keep(rows[0]) then [rows[0]] + Filter(rows[1..], keep)
    else Filter(rows[1..], keep)
  }

  lemma {:induction false} FilterMembers<T>(rows: seq<T>, keep: T -> bool, x: T)
    ensures x in Filter(rows, keep) <==> x in rows && keep(x)
  {
    if rows != [] {
      FilterMembers(rows[1..], keep, x);
    }
  }

  lemma FilterKept<T(!new)>(rows: seq<T>, keep: T -> bool)
    ensures forall x :: x in Filter(rows, keep) <==> x in rows && keep(x)
  {
    forall x ensures x in Filter(rows, keep) <==> x in rows && keep(x) {
      FilterMembers(rows, keep, x);
    }
  }

  /** Filtering keeps or drops every copy of a row. */
  lemma {:induction false} FilterCounts<T>(rows: seq<T>, keep: T -> bool, x: T)
    ensures multiset(Filter(rows, keep))[x] == if keep(x) then multiset(rows)[x] else 0
  {
    if rows != [] {
      FilterCounts(rows[1..], keep, x);
      assert rows == [rows[0]] + rows[1..];
      assert multiset(rows) == multiset([rows[0]]) + multiset(rows[1..]);
    }
  }

  /** `after` holds the rows of `before` that `kept` says, each as often as it was there. */
  ghost predicate Exactly<T(!new)>(after: seq<T>, before: seq<T>, kept: T -> bool)
  {
    forall x :: multiset(after)[x] == if kept(x) then multiset(before)[x] else 0
  }

  lemma FilterExactly<T(!new)>(rows: seq<T>, keep: T -> bool)
    ensures Exactly(Filter(rows, keep), rows, keep)
  {
    forall x ensures multiset(Filter(rows, keep))[x] == if keep(x) then multiset(rows)[x] else 0 {
      FilterCounts(rows, keep, x);
    }
  }

  lemma {:induction false} FilterKeepsAll<T>(rows: seq<T>, keep: T -> bool)
    requires forall x :: x in rows ==> keep(x)
    ensures Filter(rows, keep) == rows
  {
    if rows != [] {
      assert rows[0] in rows;
      FilterKeepsAll(rows[1..], keep);
    }
  }

  lemma {:induction false} FilterOfAll<T>(rows: seq<T>, keep: T -> bool)
    requires |Filter(rows, keep)| == |rows|
    ensures Filter(rows, keep) == rows
  {
    if rows != [] {
      FilterOfAll(rows[1..], keep);
    }
  }

  function EventsSince(cutoff: int): EventRow -> bool
  {
    (e: EventRow) => e.timestamp >= cutoff
  }

  function RepliesSince(cutoff: int): WhoisRow -> bool
  {
    (r: WhoisRow) => r.queriedAt >= cutoff
  }

  predicate HasEvent(events: seq<EventRow>, id: nat)
  {
    exists e :: e in events && e.ip == id
  }

  predicate HasHistory(history: seq<HistoryRow>, id: nat)
  {
    exists h :: h in history && h.ip == id
  }

  /** Past the age cutoff, not Iranian and without history: eligible but for its events. */
  predicate Stale(ips: Ips, history: seq<HistoryRow>, id: nat, cutoff: int)
    requires id in ips
  {
    ips[id].lastSeen < cutoff && !ips[id].stored.isIran && !HasHistory(history, id)
  }

  /** The compound rule of the purge. It does not look at WHOIS replies. */
  function Eligible(ips: Ips, events: seq<EventRow>, history: seq<HistoryRow>, cutoff: int): set<nat>
  {
    set id | id in ips && Stale(ips, history, id, cutoff) && !HasEvent(events, id)
  }

  /** Who is eligible, in the policy's terms. */
  lemma EligibleIff(ips: Ips, events: seq<EventRow>, history: seq<HistoryRow>, cutoff: int, id: nat)
    ensures id in Eligible(ips, events, history, cutoff) <==>
      && id in ips && ips[id].lastSeen < cutoff && !ips[id].stored.isIran
      && (forall e :: e in events ==> e.ip != id) && (forall h :: h in history ==> h.ip != id)
  {
  }

  // Deleting address rows deletes what refers to them.

  function EventOfNone(ids: set<nat>): EventRow -> bool
  {
    (e: EventRow) => e.ip !in ids
  }

  function HistoryOfNone(ids: set<nat>): HistoryRow -> bool
  {
    (h: HistoryRow) => h.ip !in ids
  }

  function ReplyOfNone(ids: set<nat>): WhoisRow -> bool
  {
    (r: WhoisRow) => r.ip !in ids
  }

  /** No event and no history row refers to an address that the purge may delete. */
  lemma EligibleAreUnreferred(ips: Ips, events: seq<EventRow>, history: seq<HistoryRow>, cutoff: int)
    ensures var ids := Eligible(ips, events, history, cutoff);
      Filter(events, EventOfNone(ids)) == events && Filter(history, HistoryOfNone(ids)) == history
  {
    var ids := Eligible(ips, events, history, cutoff);
    FilterKeepsAll(events, EventOfNone(ids));
    FilterKeepsAll(history, HistoryOfNone(ids));
  }

  lemma SomeRemoved(ips: Ips, events: seq<EventRow>, history: seq<HistoryRow>, cutoff: int)
    ensures var ids := Eligible(ips, events, history, cutoff); |ids| == |ips| - |ips - ids|
  {
    var ids := Eligible(ips, events, history, cutoff);
    assert ips.Keys == (ips - ids).Keys + ids;
  }

  /** The tables that the maintenance tasks delete from. */
  class MaintenanceDb {
    var ips: Ips
    var events: seq<EventRow>
    var history: seq<HistoryRow>
    var whois: seq<WhoisRow>
    const retain: Retain

    method PurgeOldRequestEvents(now: int) returns (count: nat)
      modifies this`events
      ensures events == Filter(old(events), EventsSince(now - retain.events))
      ensures Exactly(events, old(events), (e: EventRow) => e.timestamp >= now - retain.events)
      ensures count == |old(events)| - |events|
    {
      FilterExactly(events, EventsSince(now - retain.events));
      var kept := Filter(events, EventsSince(now - retain.events));
      count := |events| - |kept|;
      if count > 0 {
        events := kept;
      } else {
        FilterOfAll(events, EventsSince(now - retain.events));
      }
    }

    method PurgeOldWhoisRecords(now: int) returns (count: nat)
      modifies this`whois
      ensures whois == Filter(old(whois), RepliesSince(now - retain.whois))
      ensures Exactly(whois, old(whois), (r: WhoisRow) => r.queriedAt >= now - retain.whois)
      ensures count == |old(whois)| - |whois|
    {
      FilterExactly(whois, RepliesSince(now - retain.whois));
      var kept := Filter(whois, RepliesSince(now - retain.whois));
      count := |whois| - |kept|;
      if count > 0 {
        whois := kept;
      } else {
        FilterOfAll(whois, RepliesSince(now - retain.whois));
      }
    }

    /** Deletes the eligible addresses and, with them, exactly their WHOIS replies: no event and
        no history row. */
    method PurgeStaleIps(now: int) returns (count: nat)
      modifies this
      ensures var ids := Eligible(old(ips), old(events), old(history), now - retain.ips);
        && ips == old(ips) - ids && count == |ids|
        && whois == Filter(old(whois), ReplyOfNone(ids))
        && Exactly(whois, old(whois), (r: WhoisRow) => r.ip !in ids)
      ensures events == old(events) && history == old(history)
    {
      hide Eligible, Filter;
      var ids := Eligible(ips, events, history, now - retain.ips);
      FilterExactly(whois, ReplyOfNone(ids));
      count := |ids|;
      if count > 0 {
        EligibleAreUnreferred(ips, events, history, now - retain.ips);
        ips := ips - ids;
        events := Filter(events, EventOfNone(ids));
        history := Filter(history, HistoryOfNone(ids));
        whois := Filter(whois, ReplyOfNone(ids));
      } else {
        FilterKeepsAll(whois, ReplyOfNone(ids));
      }
    }

    /** Events and WHOIS replies first, addresses last. */
    method PurgeOldData(now: int, next: int, later: int) returns (eventCount: nat, replyCount: nat, ipCount: nat)
      modifies this
      ensures events == Filter(old(events), EventsSince(now - retain.events)) && history == old(history)
      ensures Exactly(events, old(events), (e: EventRow) => e.timestamp >= now - retain.events)
      ensures var ids := Eligible(old(ips), events, old(history), later - retain.ips);
        && ips == old(ips) - ids
        && Exactly(whois, old(whois), (r: WhoisRow) => r.queriedAt >= next - retain.whois && r.ip !in ids)
      ensures eventCount == |old(events)| - |events| && ipCount == |old(ips)| - |ips|
    {
      hide Eligible, Filter;
      eventCount := PurgeOldRequestEvents(now);
      replyCount := PurgeOldWhoisRecords(next);
      ipCount := PurgeStaleIps(later);
      SomeRemoved(old(ips), events, history, later - retain.ips);
    }
  }

  // ---- Runs ------------------------------------------------------------------------

  /** `recorded` are the sightings whose statement has been executed: a new row inserted, or an
      existing one brought up to that time. Keys are never used twice. */
  datatype State = State(
    ips: Ips, events: seq<EventRow>, history: seq<HistoryRow>, whois: seq<WhoisRow>,
    nextId: nat, recorded: set<EventRow>, clock: int)

  /** The statements and transactions of the reader, of classification and of maintenance. */
  datatype Step =
    | InsertIp(seenAt: int)
    | Sight(id: nat, seenAt: int)
    | CreateEvents(batch: seq<EventRow>)
    | Classify(id: nat, networks: Networks, verdict: Verdict)
    | StoreReply(id: nat)
    | PurgeEvents
    | PurgeWhois
    | PurgeIps
    | Tick(time: nat)

  /** The event is no later than some recorded sighting of its address. */
  ghost predicate Seen(s: State, e: EventRow)
  {
    exists r :: r in s.recorded && r.ip == e.ip && e.timestamp <= r.timestamp
  }

  /** The reader creates events only after it has recorded the latest sightings of their batch. */
  ghost predicate CanStep(s: State, step: Step)
  {
    match step
    case Sight(id, _) => id < s.nextId
    case CreateEvents(batch) => forall e :: e in batch ==> Seen(s, e)
    case _ => true
  }

  /** Statements about an address row that was deleted meanwhile change nothing: the update
      matches no row, and the inserts fail on their foreign key. */
  function Next(s: State, step: Step, retain: Retain): State
  {
    match step
    case InsertIp(seenAt) =>
      s.(ips := s.ips[s.nextId := IpRecord(seenAt, NOT_IRANIAN)], nextId := s.nextId + 1,
         recorded := s.recorded + {EventRow(s.nextId, seenAt)})
    case Sight(id, seenAt) =>
      s.(ips := if id in s.ips then s.ips[id := s.ips[id].(lastSeen := Max(s.ips[id].lastSeen, seenAt))] else s.ips,
         recorded := s.recorded + {EventRow(id, seenAt)})
    case CreateEvents(batch) =>
      if forall e :: e in batch ==> e.ip in s.ips then s.(events := s.events + batch) else s
    case Classify(id, networks, v) =>
      if id !in s.ips then s
      else s.(history := HistoryAfter(s.history, networks, id, s.ips[id].stored, v, s.clock),
              ips := s.ips[id := s.ips[id].(stored := v)])
    case StoreReply(id) => if id in s.ips then s.(whois := s.whois + [WhoisRow(id, s.clock)]) else s
    case PurgeEvents => s.(events := Filter(s.events, EventsSince(s.clock - retain.events)))
    case PurgeWhois => s.(whois := Filter(s.whois, RepliesSince(s.clock - retain.whois)))
    case PurgeIps =>
      var ids := Eligible(s.ips, s.events, s.history, s.clock - retain.ips);
      s.(ips := s.ips - ids, events := Filter(s.events, EventOfNone(ids)),
         history := Filter(s.history, HistoryOfNone(ids)), whois := Filter(s.whois, ReplyOfNone(ids)))
    case Tick(time) => s.(clock := s.clock + time)
  }

  /** How often an event row and a WHOIS reply are there after a statement, in the policy's terms. */
  lemma RowsAfterStep(s: State, step: Step, retain: Retain, e: EventRow, r: WhoisRow)
    ensures multiset(Next(s, step, retain).events)[e]
         == (if step.PurgeEvents? && e.timestamp < s.clock - retain.events then 0 else multiset(s.events)[e])
          + (if step.CreateEvents?
              && (forall x :: x in step.batch ==> x.ip in s.ips) then multiset(step.batch)[e] else 0)
    ensures multiset(Next(s, step, retain).whois)[r]
         == (if (step.PurgeWhois? && r.queriedAt < s.clock - retain.whois)
                || (step.PurgeIps? && r.ip in Eligible(s.ips, s.events, s.history, s.clock - retain.ips)) then 0
             else multiset(s.whois)[r])
          + (if step.StoreReply? && step.id in s.ips && r == WhoisRow(step.id, s.clock) then 1 else 0)
  {
    hide Eligible, Filter, HistoryAfter;
    match step {
      case CreateEvents(batch) => assert multiset(s.events + batch) == multiset(s.events) + multiset(batch);
      case StoreReply(ip) =>
        assert multiset(s.whois + [WhoisRow(ip, s.clock)]) == multiset(s.whois) + multiset([WhoisRow(ip, s.clock)]);
      case PurgeEvents => FilterCounts(s.events, EventsSince(s.clock - retain.events), e);
      case PurgeWhois => FilterCounts(s.whois, RepliesSince(s.clock - retain.whois), r);
      case PurgeIps =>
        var ids := Eligible(s.ips, s.events, s.history, s.clock - retain.ips);
        EligibleAreUnreferred(s.ips, s.events, s.history, s.clock - retain.ips);
        FilterCounts(s.whois, ReplyOfNone(ids), r);
      case _ =>
    }
  }

  /** Which addresses there are after a statement, what they say, and the history. */
  lemma AddressesAfterStep(s: State, step: Step, retain: Retain, id: nat)
    ensures id in Next(s, step, retain).ips <==>
      || (id in s.ips && !(step.PurgeIps? && id in Eligible(s.ips, s.events, s.history, s.clock - retain.ips)))
      || (step.InsertIp? && id == s.nextId)
    ensures id in Next(s, step, retain).ips ==>
      Next(s, step, retain).ips[id]
      == if step.InsertIp? && id == s.nextId then IpRecord(step.seenAt, NOT_IRANIAN)
         else if step.Sight? && id == step.id then IpRecord(Max(s.ips[id].lastSeen, step.seenAt), s.ips[id].stored)
         else if step.Classify? && id == step.id then IpRecord(s.ips[id].lastSeen, step.verdict)
         else s.ips[id]
    ensures Next(s, step, retain).history
         == if step.Classify? && step.id in s.ips then
              HistoryAfter(s.history, step.networks, step.id, s.ips[step.id].stored, step.verdict, s.clock)
            else s.history
  {
    hide Eligible, Filter, HistoryAfter;
    EligibleAreUnreferred(s.ips, s.events, s.history, s.clock - retain.ips);
  }

  /** Once the reader has recorded a sighting, it can create the events up to it, whatever runs
      in between. */
  lemma SightedCanBeCreated(s: State, id: nat, seenAt: int, later: seq<Step>, z: State, batch: seq<EventRow>,
      retain: Retain)
    requires var m := Next(s, Sight(id, seenAt), retain); Leads(m, later, z, retain)
    requires forall e :: e in batch ==> e.ip == id && e.timestamp <= seenAt
    ensures CanStep(z, CreateEvents(batch))
    ensures (forall e :: e in batch ==> e.ip in z.ips) ==>
        Next(z, CreateEvents(batch), retain).events == z.events + batch
  {
    hide Leads, Eligible, Filter, HistoryAfter;
    var m := Next(s, Sight(id, seenAt), retain);
    assert EventRow(id, seenAt) in m.recorded;
    RecordedStays(m, later, z, retain);
  }

  lemma {:induction false} RecordedStays(s: State, steps: seq<Step>, z: State, retain: Retain)
    requires Leads(s, steps, z, retain)
    ensures s.recorded <= z.recorded
    decreases |steps|
  {
    hide Eligible, Filter, HistoryAfter, CanStep;
    if steps != [] {
      RecordedStays(Next(s, steps[0], retain), steps[1..], z, retain);
    }
  }

  /** `s` can become `z` through the steps. */
  ghost predicate Leads(s: State, steps: seq<Step>, z: State, retain: Retain)
    decreases |steps|
  {
    if steps == [] then z == s
    else CanStep(s, steps[0]) && Leads(Next(s, steps[0], retain), steps[1..], z, retain)
  }

  ghost predicate Initial(s: State)
  {
    s.ips == map[] && s.events == [] && s.history == [] && s.whois == [] && s.recorded == {}
  }

  /** Every event, history row and WHOIS reply refers to an existing address, and no event is
      later than its address was last seen. */
  ghost predicate Inv(s: State)
  {
    && (forall id :: id in s.ips ==> id < s.nextId)
    && (forall e :: e in s.recorded ==> e.ip < s.nextId && (e.ip in s.ips ==> e.timestamp <= s.ips[e.ip].lastSeen))
    && (forall e :: e in s.events ==> e.ip in s.ips && e.timestamp <= s.ips[e.ip].lastSeen)
    && (forall h :: h in s.history ==> h.ip in s.ips)
    && (forall r :: r in s.whois ==> r.ip in s.ips)
  }

  lemma HistoryOwners(h: seq<HistoryRow>, nets: Networks, id: nat, stored: Verdict, v: Verdict, now: int)
    ensures var g := HistoryAfter(h, nets, id, stored, v, now);
      && (forall r :: r in g ==> r.ip == id || exists o :: o in h && o.ip == r.ip)
      && Grows(h, g)
  {
    var g := HistoryAfter(h, nets, id, stored, v, now);
    forall r | r in g ensures r.ip == id || exists o :: o in h && o.ip == r.ip {
      var i :| 0 <= i < |g| && g[i] == r;
      if i < |h| {
        assert h[i] in h && h[i].ip == r.ip;
      }
    }
  }

  /** No step deletes a history row, changes a closed one, or breaks a reference; and the purge
      of addresses leaves events and history as they are. */
  lemma NextKeeps(s: State, step: Step, retain: Retain)
    requires Inv(s) && CanStep(s, step)
    ensures Inv(Next(s, step, retain))
    ensures Grows(s.history, Next(s, step, retain).history)
    ensures step.PurgeIps? ==> Next(s, step, retain).events == s.events && Next(s, step, retain).history == s.history
  {
    hide HistoryAfter, Filter, Eligible;
    match step {
      case Classify(id, networks, v) =>
        if id in s.ips {
          HistoryOwners(s.history, networks, id, s.ips[id].stored, v, s.clock);
        }
      case PurgeIps =>
        EligibleAreUnreferred(s.ips, s.events, s.history, s.clock - retain.ips);
        PurgeIpsKeeps(s, retain);
      case PurgeEvents => FilterKept(s.events, EventsSince(s.clock - retain.events));
      case PurgeWhois => FilterKept(s.whois, RepliesSince(s.clock - retain.whois));
      case _ =>
    }
  }

  lemma PurgeIpsKeeps(s: State, retain: Retain)
    requires Inv(s)
    ensures Inv(Next(s, PurgeIps, retain))
  {
    hide Eligible, Filter, Grows;
    var ids := Eligible(s.ips, s.events, s.history, s.clock - retain.ips);
    NoRowOfEligible(s.ips, s.events, s.history, s.clock - retain.ips);
    EligibleAreUnreferred(s.ips, s.events, s.history, s.clock - retain.ips);
    FilterKept(s.whois, ReplyOfNone(ids));
    assert forall r :: r in Filter(s.whois, ReplyOfNone(ids)) ==> r.ip in s.ips && r.ip !in ids;
  }

  lemma NoRowOfEligible(ips: Ips, events: seq<EventRow>, history: seq<HistoryRow>, cutoff: int)
    ensures forall e :: e in events ==> e.ip !in Eligible(ips, events, history, cutoff)
    ensures forall h :: h in history ==> h.ip !in Eligible(ips, events, history, cutoff)
  {
    forall e | e in events ensures HasEvent(events, e.ip) {}
    forall h | h in history ensures HasHistory(history, h.ip) {}
  }

  lemma InitialInv(s: State)
    requires Initial(s)
    ensures Inv(s)
  {
  }

  lemma {:induction false} ReferencesStay(s: State, steps: seq<Step>, z: State, retain: Retain)
    requires Inv(s) && Leads(s, steps, z, retain)
    ensures Inv(z) && Grows(s.history, z.history) && s.clock <= z.clock
    decreases |steps|
  {
    hide Inv, CanStep;
    if steps != [] {
      var m := Next(s, steps[0], retain);
      NextKeeps(s, steps[0], retain);
      assert s.clock <= m.clock;
      ReferencesStay(m, steps[1..], z, retain);
    }
  }

  /** Over any run an event that is within retention at the end was never deleted: not by its own
      purge, nor by the cascade of another. */
  lemma {:induction false} RecentEventsStay(s: State, steps: seq<Step>, z: State, retain: Retain, e: EventRow)
    requires Inv(s) && Leads(s, steps, z, retain) && e.timestamp >= z.clock - retain.events
    ensures multiset(z.events)[e] >= multiset(s.events)[e]
    decreases |steps|
  {
    hide Inv, CanStep, Next;
    if steps != [] {
      var m := Next(s, steps[0], retain);
      NextKeeps(s, steps[0], retain);
      ReferencesStay(m, steps[1..], z, retain);
      assert s.clock <= m.clock by { ClockForward(s, steps[0], retain); }
      RowsAfterStep(s, steps[0], retain, e, WhoisRow(0, 0));
      RecentEventsStay(m, steps[1..], z, retain, e);
    }
  }

  lemma ClockForward(s: State, step: Step, retain: Retain)
    ensures s.clock <= Next(s, step, retain).clock
  {
    hide Eligible, Filter, HistoryAfter;
  }

  /** Over any run from empty tables. */
  lemma ReferentialIntegrity(s: State, steps: seq<Step>, z: State, retain: Retain)
    requires Initial(s) && Leads(s, steps, z, retain)
    ensures forall e :: e in z.events ==> e.ip in z.ips && e.timestamp <= z.ips[e.ip].lastSeen
    ensures forall h :: h in z.history ==> h.ip in z.ips
    ensures forall r :: r in z.whois ==> r.ip in z.ips
  {
    hide Leads;
    ReferencesStay(s, steps, z, retain);
  }

  // ---- Is the explicit exclusion of addresses with events needed? -------------------

  /** The purge would delete the same addresses if its rule did not look at the events. */
  ghost predicate ExclusionIsRedundant(s: State, cutoff: int)
  {
    Eligible(s.ips, s.events, s.history, cutoff) == set id | id in s.ips && Stale(s.ips, s.history, id, cutoff)
  }

  lemma RedundantIff(s: State, cutoff: int)
    ensures ExclusionIsRedundant(s, cutoff) <==>
      forall id :: id in s.ips && Stale(s.ips, s.history, id, cutoff) ==> !HasEvent(s.events, id)
  {
    hide HasEvent, Stale;
    if ExclusionIsRedundant(s, cutoff) {
      forall id | id in s.ips && Stale(s.ips, s.history, id, cutoff) ensures !HasEvent(s.events, id) {
        assert id in Eligible(s.ips, s.events, s.history, cutoff);
      }
    }
  }

  ghost predicate NoneBefore(events: seq<EventRow>, time: int)
  {
    forall e :: e in events ==> e.timestamp >= time
  }

  /** Events are created for recent lines only. */
  ghost predicate CreatesFrom(steps: seq<Step>, time: int)
  {
    forall k :: 0 <= k < |steps| && steps[k].CreateEvents? ==> NoneBefore(steps[k].batch, time)
  }

  lemma {:induction false} NoneBeforeStays(s: State, steps: seq<Step>, z: State, retain: Retain, time: int)
    requires Inv(s) && NoneBefore(s.events, time) && CreatesFrom(steps, time) && Leads(s, steps, z, retain)
    ensures NoneBefore(z.events, time)
    decreases |steps|
  {
    hide Inv, HistoryAfter, Eligible, Filter;
    if steps != [] {
      var m := Next(s, steps[0], retain);
      NextKeeps(s, steps[0], retain);
      FilterKept(s.events, EventsSince(s.clock - retain.events));
      assert NoneBefore(m.events, time);
      NoneBeforeStays(m, steps[1..], z, retain, time);
    }
  }

  /** When the address purge comes within the difference of the two retention times after the
      event purge, and no older event was created in between, no address past the age cutoff has
      an event, and so the exclusion is redundant, as its documentation claims. */
  lemma PurgesInTime(s: State, steps: seq<Step>, z: State, retain: Retain)
    requires Inv(s) && Leads(Next(s, PurgeEvents, retain), steps, z, retain)
    requires CreatesFrom(steps, s.clock - retain.events)
    requires z.clock - s.clock <= retain.ips - retain.events
    ensures forall id :: id in z.ips && z.ips[id].lastSeen < z.clock - retain.ips ==> !HasEvent(z.events, id)
    ensures ExclusionIsRedundant(z, z.clock - retain.ips)
  {
    hide Leads, Next, Eligible;
    var p := Next(s, PurgeEvents, retain);
    NextKeeps(s, PurgeEvents, retain);
    assert NoneBefore(p.events, s.clock - retain.events) by { PurgedEvents(s, retain); }
    NoneBeforeStays(p, steps, z, retain, s.clock - retain.events);
    ReferencesStay(p, steps, z, retain);
    RedundantIff(z, z.clock - retain.ips);
  }

  lemma PurgedEvents(s: State, retain: Retain)
    ensures NoneBefore(Next(s, PurgeEvents, retain).events, s.clock - retain.events)
  {
    hide Filter;
    FilterKept(s.events, EventsSince(s.clock - retain.events));
  }

  ghost predicate Reachable(s: State, retain: Retain)
  {
    exists first, steps :: Initial(first) && Leads(first, steps, s, retain)
  }

  /** The two purges are `delay` apart: `s` is purged of its old events and becomes `z`, and only
      recent events are created in between. */
  ghost predicate Apart(s: State, steps: seq<Step>, z: State, retain: Retain, delay: nat)
  {
    && Reachable(s, retain) && Leads(Next(s, PurgeEvents, retain), steps, z, retain)
    && CreatesFrom(steps, s.clock - retain.events) && z.clock - s.clock == delay
  }

  /** Exactly for which delays the exclusion is redundant, over all runs from empty tables: those
      up to the difference of the two retention times. When events are kept longer than
      addresses, for none. */
  lemma RedundantForDelayIff(retain: Retain, delay: nat)
    ensures (forall s, steps, z :: Apart(s, steps, z, retain, delay) ==> ExclusionIsRedundant(z, z.clock - retain.ips))
       <==> delay <= retain.ips - retain.events
  {
    hide Apart, ExclusionIsRedundant;
    if delay <= retain.ips - retain.events {
      forall s, steps, z | Apart(s, steps, z, retain, delay) ensures ExclusionIsRedundant(z, z.clock - retain.ips) {
        ApartInTime(s, steps, z, retain, delay);
      }
    } else {
      var s, z := LateRun(retain, delay);
      assert Apart(s, [Tick(delay)], z, retain, delay);
    }
  }

  lemma ApartInTime(s: State, steps: seq<Step>, z: State, retain: Retain, delay: nat)
    requires Apart(s, steps, z, retain, delay) && delay <= retain.ips - retain.events
    ensures ExclusionIsRedundant(z, z.clock - retain.ips)
  {
    hide Next, ExclusionIsRedundant, Initial, Inv, CreatesFrom;
    var first, before :| Initial(first) && Leads(first, before, s, retain);
    hide Leads;
    InitialInv(first);
    ReferencesStay(first, before, s, retain);
    PurgesInTime(s, steps, z, retain);
  }

  /** For a longer delay: an address sighted once, with its event as old as the event purge just
      leaves, is past the age cutoff afterwards and still has that event. */
  lemma LateRun(retain: Retain, delay: nat) returns (s: State, z: State)
    requires delay > retain.ips - retain.events
    ensures Apart(s, [Tick(delay)], z, retain, delay) && !ExclusionIsRedundant(z, z.clock - retain.ips)
  {
    var first := State.State(map[], [], [], [], 0, {}, retain.events);
    var event := EventRow(0, 0);
    s := OneEvent(first, event, retain);
    z := OnlyEvent(s, event, retain, delay);
  }

  /** The state with just this event, as old as the purge leaves. */
  ghost predicate JustSighted(s: State, event: EventRow, retain: Retain)
  {
    && s.ips == map[event.ip := IpRecord(event.timestamp, NOT_IRANIAN)] && s.history == []
    && s.events == [event] && event.timestamp == s.clock - retain.events
  }

  lemma OneEvent(first: State, event: EventRow, retain: Retain) returns (s: State)
    requires Initial(first) && first.nextId == event.ip && first.clock - retain.events == event.timestamp
    ensures Reachable(s, retain) && JustSighted(s, event, retain)
  {
    hide Leads, Filter;
    var inserted := Next(first, InsertIp(event.timestamp), retain);
    assert event in inserted.recorded && Seen(inserted, event);
    s := Next(inserted, CreateEvents([event]), retain);
    TwoSteps(first, InsertIp(event.timestamp), CreateEvents([event]), retain);
  }

  lemma OnlyEvent(s: State, event: EventRow, retain: Retain, delay: nat) returns (z: State)
    requires Reachable(s, retain) && JustSighted(s, event, retain) && delay > retain.ips - retain.events
    ensures Apart(s, [Tick(delay)], z, retain, delay) && !ExclusionIsRedundant(z, z.clock - retain.ips)
  {
    hide Leads, Reachable, ExclusionIsRedundant;
    FilterKeepsAll(s.events, EventsSince(s.clock - retain.events));
    hide Filter;
    var purged := Next(s, PurgeEvents, retain);
    z := Next(purged, Tick(delay), retain);
    OneStep(purged, Tick(delay), retain);
    StillReferred(z, event, retain);
  }

  lemma OneStep(s: State, step: Step, retain: Retain)
    requires CanStep(s, step)
    ensures Leads(s, [step], Next(s, step, retain), retain)
  {
    hide Next, CanStep;
    assert [step][1..] == [];
  }

  lemma TwoSteps(s: State, one: Step, two: Step, retain: Retain)
    requires CanStep(s, one) && CanStep(Next(s, one, retain), two)
    ensures Leads(s, [one, two], Next(Next(s, one, retain), two, retain), retain)
  {
    hide Next, CanStep;
    OneStep(Next(s, one, retain), two, retain);
    assert [one, two][1..] == [two];
  }

  /** Without that hypothesis no delay is short enough: one batch of old lines of a new address
      between the purges is kept, and its address is past the age cutoff. */
  lemma LateBatchNeedsExclusion(s: State, retain: Retain, delay: nat) returns (steps: seq<Step>, z: State)
    requires Inv(s) && s.nextId !in s.ips && s.history == []
    ensures Leads(Next(s, PurgeEvents, retain), steps, z, retain) && z.clock - s.clock == delay
    ensures !ExclusionIsRedundant(z, z.clock - retain.ips)
  {
    hide Leads, ExclusionIsRedundant, Filter;
    var purged, event := Next(s, PurgeEvents, retain), EventRow(s.nextId, s.clock + delay - retain.ips - 1);
    var inserted := Next(purged, InsertIp(event.timestamp), retain);
    assert event in inserted.recorded && Seen(inserted, event);
    NextKeeps(s, PurgeEvents, retain);
    NextKeeps(purged, InsertIp(event.timestamp), retain);
    var created := Next(inserted, CreateEvents([event]), retain);
    z := Next(created, Tick(delay), retain);
    steps := [InsertIp(event.timestamp), CreateEvents([event]), Tick(delay)];
    ThreeSteps(purged, InsertIp(event.timestamp), CreateEvents([event]), Tick(delay), retain);
    StillReferred(z, event, retain);
  }

  lemma ThreeSteps(s: State, one: Step, two: Step, three: Step, retain: Retain)
    requires CanStep(s, one) && CanStep(Next(s, one, retain), two)
    requires CanStep(Next(Next(s, one, retain), two, retain), three)
    ensures Leads(s, [one, two, three], Next(Next(Next(s, one, retain), two, retain), three, retain), retain)
  {
    hide Next, CanStep;
    TwoSteps(Next(s, one, retain), two, three, retain);
    assert [one, two, three][1..] == [two, three];
  }

  lemma StillReferred(z: State, event: EventRow, retain: Retain)
    requires event in z.events && event.ip in z.ips && z.ips[event.ip].lastSeen < z.clock - retain.ips
    requires !z.ips[event.ip].stored.isIran && z.history == []
    ensures !ExclusionIsRedundant(z, z.clock - retain.ips)
  {
    hide ExclusionIsRedundant, Eligible;
    RedundantIff(z, z.clock - retain.ips);
    assert Stale(z.ips, z.history, event.ip, z.clock - retain.ips) && HasEvent(z.events, event.ip);
  }
}
