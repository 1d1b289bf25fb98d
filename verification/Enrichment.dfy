/** The tasks that enrich one address: processing it as new, looking it up with WHOIS, and
    classifying it, run one at a time in any order from a shared queue. */
module Enrichment {
  import opened Common
  import opened CountryNetworks
  import opened CountryHistory
  import opened Inetnum
  import Locks
  import opened Prefixes
  import opened Text

  const MAX_RETRIES: nat := 3
  const FIRST_BACKOFF := 30

  datatype WhoisStatus = NeverChecked | Checked | Error

  /** The columns that a reply fills in for display. */
  datatype Details = Details(organization: string, network: string, asn: Option<nat>, cidr: Option<Block>)

  /** The address's row: the columns classification uses, and the WHOIS ones. */
  datatype Enriched = Enriched(
    ip: IpRow, status: WhoisStatus, error: string, checkedAt: Option<int>, nextCheckAt: Option<int>, details: Details)

  datatype WhoisRecord = WhoisRecord(queriedAt: int, raw: string)

  datatype Task = Process | Lookup(force: bool, retries: nat) | ClassifyIp | EnrichGeo

  /** What the WHOIS client gives: a reply with the known fields parsed from it, or a failure. */
  datatype Reply = Answer(raw: string, known: map<string, string>) | Failed(error: string, retryable: bool)

  /** The fixed surroundings: the networks, how many seconds a lookup counts as fresh and may take,
      and the readers of an `origin` and an `inetnum` value. */
  datatype Setting = Setting(
    networks: Networks, cacheTime: nat, whoisTimeout: nat,
    asnOf: string -> Option<nat>, cidrOf: string -> Inetnum.Result)

  /** The address's own lock for each kind of task. */
  function LockOf(t: Task): Locks.Key
  {
    match t
    case Process => "ip:process"
    case Lookup(_, _) => "whois"
    case ClassifyIp => "iran"
    case EnrichGeo => "geo"
  }

  function LockTime(t: Task, st: Setting): nat
  {
    match t
    case Process => 300
    case Lookup(_, _) => st.whoisTimeout + 30
    case _ => 60
  }

  predicate NeedsWhoisCheck(e: Enriched, now: int)
  {
    e.nextCheckAt.None? || e.nextCheckAt.value <= now
  }

  function Known(known: map<string, string>, key: string): string
  {
    if key in known then known[key] else ""
  }

  function CountryOf(known: map<string, string>): string
  {
    Cut(Known(known, "country"), 2)
  }

  /** The reply is stored, and then the `inetnum` raises the TypeError that nothing catches. */
  predicate BreaksOff(known: map<string, string>, st: Setting)
  {
    Known(known, "inetnum") != "" && st.cidrOf(Known(known, "inetnum")).TypeRaised?
  }

  predicate Retries(reply: Reply, retries: nat)
  {
    reply.Failed? && reply.retryable && retries < MAX_RETRIES
  }

  function DetailsOf(before: Details, known: map<string, string>, st: Setting): Details
  {
    var origin, inetnum := Known(known, "origin"), Known(known, "inetnum");
    Details(
      Cut(Known(known, "organization"), 255),
      Cut(if "netname" in known then known["netname"] else inetnum, 255),
      if origin != "" then st.asnOf(origin) else before.asn,
      if inetnum != "" then BlockOf(st.cidrOf(inetnum)) else before.cidr)
  }

  function BlockOf(r: Inetnum.Result): Option<Block>
  {
    if r.Cidr? then Some(r.block) else None
  }

  /** What a task commits, in this order: a stored reply, the row, and each task it queues. */
  datatype Effect = Effect(records: seq<WhoisRecord>, row: Enriched, news: seq<Task>)

  /** The task has something to do: only an unforced lookup of a fresh row has not. */
  predicate Wanted(e: Enriched, t: Task, now: int)
  {
    t.Lookup? && !t.force ==> NeedsWhoisCheck(e, now)
  }

  /** The task gets into its lock: it is wanted and the lock is free. */
  predicate Enters(e: Enriched, locks: Locks.Entries, t: Task, now: int)
  {
    Wanted(e, t, now) && !Locks.Live(locks, LockOf(t), now)
  }

  /** A lookup inside its lock that had its answer at `done`. */
  function Answered(e: Enriched, force: bool, retries: nat, done: int, reply: Reply, st: Setting): Effect
  {
    match reply
    case Failed(error, _) =>
      if Retries(reply, retries) then Effect([], e, [Lookup(force, retries + 1)])
      else
        var row := e.(status := Error, error := error, checkedAt := Some(done));
        Effect([], row.(nextCheckAt := Some(done + st.cacheTime)), [])
    case Answer(raw, known) =>
      if BreaksOff(known, st) then Effect([WhoisRecord(done, raw)], e, [])
      else
        var row := Enriched(e.ip.(whoisCountry := CountryOf(known)), Checked, "", Some(done),
                            Some(done + st.cacheTime), DetailsOf(e.details, known, st));
        Effect([WhoisRecord(done, raw)], row, if CountryOf(known) != "" then [ClassifyIp] else [])
  }

  /** What a new address queues. */
  function ForNew(e: Enriched, now: int): seq<Task>
  {
    if NeedsWhoisCheck(e, now) then [Lookup(false, 0), ClassifyIp, EnrichGeo] else [ClassifyIp, EnrichGeo]
  }

  /** A task inside its lock. */
  ghost function EffectOf(e: Enriched, task: Task, start: int, done: int, reply: Reply, st: Setting): Effect
  {
    match task
    case Process => Effect([], e, ForNew(e, start))
    case Lookup(force, retries) => Answered(e, force, retries, done, reply, st)
    case ClassifyIp => Effect([], e.(ip := Marked(e.ip, VerdictOf(st.networks, e.ip), done)), [])
    case EnrichGeo => Effect([], e, [])
  }

  /** The tasks as they run, each under its lock; the log line of a LockHeldError is left out. */
  class EnrichmentDb {
    var row: Enriched
    var records: seq<WhoisRecord>
    var queue: seq<Task>
    const setting: Setting
    const cache: Locks.SharedCache

    constructor (row: Enriched, queue: seq<Task>, setting: Setting, cache: Locks.SharedCache)
      ensures this.row == row && this.records == [] && this.queue == queue
      ensures this.setting == setting && this.cache == cache
    {
      this.row, this.records, this.queue, this.setting, this.cache := row, [], queue, setting, cache;
    }

    /** The cache after the task: as it was when the task did not get in, and else with the lock
        free. */
    ghost function CacheAfter(before: Locks.Entries, t: Task, now: int): Locks.Entries
    {
      if Locks.Live(before, LockOf(t), now) then before
      else Locks.Left(Locks.Entered(before, LockOf(t), LockTime(t, setting), now), LockOf(t))
    }

    /** `inside` is the cache as other workers find it while the task is in its lock. */
    method ProcessNewIp(now: int) returns (ghost inside: Locks.Entries)
      modifies this`queue, cache
      ensures cache.entries == CacheAfter(old(cache.entries), Process, now)
      ensures inside == if Enters(row, old(cache.entries), Process, now)
        then Locks.Entered(old(cache.entries), LockOf(Process), LockTime(Process, setting), now)
        else old(cache.entries)
      ensures queue == if Enters(row, old(cache.entries), Process, now) then old(queue) + ForNew(row, now)
          else old(queue)
    {
      var entered := cache.Enter(LockOf(Process), LockTime(Process, setting), now);
      inside := cache.entries;
      if !entered {
        return;
      }
      if NeedsWhoisCheck(row, now) {
        queue := queue + [Lookup(false, 0)];
      }
      queue := queue + [ClassifyIp];
      queue := queue + [EnrichGeo];
      cache.Exit(LockOf(Process));
    }

    method PerformWhoisLookup(force: bool, retries: nat, start: int, done: int, reply: Reply)
      returns (ghost inside: Locks.Entries)
      modifies this, cache
      ensures var t := Lookup(force, retries);
        && cache.entries
             == (if Wanted(old(row), t, start) then CacheAfter(old(cache.entries), t, start) else old(cache.entries))
        && (Enters(old(row), old(cache.entries), t, start) ==>
              var e := EffectOf(old(row), t, start, done, reply, setting);
              row == e.row && records == old(records) + e.records && queue == old(queue) + e.news)
        && inside == (if Enters(old(row), old(cache.entries), t, start)
                      then Locks.Entered(old(cache.entries), LockOf(t), LockTime(t, setting), start)
                      else old(cache.entries))
        && (!Enters(old(row), old(cache.entries), t, start) ==>
              row == old(row) && records == old(records) && queue == old(queue))
    {
      inside := cache.entries;
      if !force && !NeedsWhoisCheck(row, start) {
        return;
      }
      var t := Lookup(force, retries);
      var entered := cache.Enter(LockOf(t), LockTime(t, setting), start);
      inside := cache.entries;
      if !entered {
        return;
      }
      RunLookup(force, retries, done, reply);
      cache.Exit(LockOf(t));
    }

    method RunLookup(force: bool, retries: nat, done: int, reply: Reply)
      modifies this`row, this`records, this`queue
      ensures var e := Answered(old(row), force, retries, done, reply, setting);
        row == e.row && records == old(records) + e.records && queue == old(queue) + e.news
    {
      assert queue + [] == queue && records + [] == records;
      match reply {
        case Failed(error, retryable) =>
          if retryable && retries < MAX_RETRIES {
            queue := queue + [Lookup(force, retries + 1)];
            return;
          }
          row := row.(status := Error, error := error);
          row := row.(checkedAt := Some(done), nextCheckAt := Some(done + setting.cacheTime));
        case Answer(raw, known) =>
          records := records + [WhoisRecord(done, raw)];
          var saved := row.(status := Checked, error := "", checkedAt := Some(done));
          saved := saved.(nextCheckAt := Some(done + setting.cacheTime));
          saved := saved.(ip := row.ip.(whoisCountry := CountryOf(known)));
          if BreaksOff(known, setting) {
            return;
          }
          row := saved.(details := DetailsOf(row.details, known, setting));
          if row.ip.whoisCountry != "" {
            queue := queue + [ClassifyIp];
          }
      }
    }
  }

  /** Which replies break a lookup off, for the reader of `inetnum` values: of ranges exactly
      those between addresses of different versions. */
  lemma MixedRangesBreakOff(known: map<string, string>, first: string, last: string, rd: Readers, st: Setting)
    requires ValidReaders(rd) && st.cidrOf(Known(known, "inetnum")) == CidrOf(Known(known, "inetnum"), rd)
    requires Known(known, "inetnum") != "" && RangeText(Strip(Known(known, "inetnum")), first, last)
    ensures var f, l := rd.address(Strip(first)), rd.address(Strip(last));
      BreaksOff(known, st) <==> f.Some? && l.Some? && f.value.version != l.value.version
  {
    hide ValidReaders, CidrOf, RangeText, Known;
    RangeOutcome(Known(known, "inetnum"), first, last, rd);
  }

  // ---- Runs ------------------------------------------------------------------------

  datatype System = System(row: Enriched, records: seq<WhoisRecord>, queue: seq<Task>, locks: Locks.Entries)

  /** How an execution ends: acknowledged, or with the death of its worker, before it does
      anything, inside its lock after so many of the commits (a stored reply, the row, and each
      queued task counting one), or after it has left the lock. */
  datatype Fate = Acknowledged | DiedBefore | DiedInside(commits: nat) | DiedAfter

  /** A queued task runs. */
  datatype Delivery = Delivery(index: nat, fate: Fate, start: int, done: int, reply: Reply)

  predicate Saves(fate: Fate)
  {
    fate.Acknowledged? || fate.DiedAfter? || (fate.DiedInside? && fate.commits >= 2)
  }

  /** The queued ones of a task's news. */
  function QueuedOf(news: seq<Task>, fate: Fate): (r: seq<Task>)
    ensures r <= news
  {
    match fate
    case Acknowledged => news
    case DiedAfter => news
    case DiedBefore => []
    case DiedInside(commits) => news[..Min(|news|, Max(0, commits - 2))]
  }

  function Without<T>(s: seq<T>, i: nat): (r: seq<T>)
    requires i < |s|
    ensures multiset(s) == multiset(r) + multiset{s[i]}
  {
    assert s == s[..i] + [s[i]] + s[i + 1..];
    s[..i] + s[i + 1..]
  }

  ghost function EffectIn(w: System, d: Delivery, st: Setting): Effect
    requires d.index < |w.queue|
  {
    EffectOf(w.row, w.queue[d.index], d.start, d.done, d.reply, st)
  }

  /** The delivery finds a task that gets into its lock. */
  predicate GetsIn(w: System, d: Delivery)
  {
    d.index < |w.queue| && !d.fate.DiedBefore? && Enters(w.row, w.locks, w.queue[d.index], d.start)
  }

  /** A task that does not get in returns at once. A task whose worker died stays queued, since
      tasks are acknowledged late and given back when their worker is lost; a worker that died
      inside a lock leaves it taken until its timeout. */
  ghost function Deliver(w: System, d: Delivery, st: Setting): System
  {
    if d.index >= |w.queue| then w
    else
      var rest := if d.fate.Acknowledged? then Without(w.queue, d.index) else w.queue;
      if !GetsIn(w, d) then w.(queue := rest)
      else
        var e, t := EffectIn(w, d, st), w.queue[d.index];
        var locks := Locks.Entered(w.locks, LockOf(t), LockTime(t, st), d.start);
        System(
          if Saves(d.fate) then e.row else w.row,
          if d.fate == DiedInside(0) then w.records else w.records + e.records,
          rest + QueuedOf(e.news, d.fate),
          if d.fate.DiedInside? then locks else Locks.Left(locks, LockOf(t)))
  }

  ghost function Run(w: System, run: seq<Delivery>, st: Setting): System
  {
    if run == [] then w else Deliver(Run(w, run[..|run| - 1], st), run[|run| - 1], st)
  }

  lemma RunNext(w: System, run: seq<Delivery>, d: Delivery, st: Setting)
    ensures Run(w, run + [d], st) == Deliver(Run(w, run, st), d, st)
  {
    assert (run + [d])[..|run|] == run;
  }

  /** The row of an address that was just created, and the task queued for it. */
  ghost predicate New(w: System)
  {
    && Process in w.queue && w.locks == map[]
    && w.row.nextCheckAt.None? && w.row.ip.whoisCountry == "" && Stored(w.row.ip) == NOT_IRANIAN
  }

  // ---- Confluence ------------------------------------------------------------------

  ghost predicate Current(e: Enriched, st: Setting)
  {
    Stored(e.ip) == VerdictOf(st.networks, e.ip)
  }

  /** The delivery saves a classification. */
  ghost predicate Classifies(w: System, d: Delivery)
  {
    GetsIn(w, d) && w.queue[d.index].ClassifyIp? && Saves(d.fate)
  }

  /** The delivery is a lookup that gets past the freshness check and the lock. */
  ghost predicate LooksUp(w: System, d: Delivery)
  {
    GetsIn(w, d) && w.queue[d.index].Lookup?
  }

  /** The delivery is a task that is dropped because it finds its lock taken. */
  ghost predicate Skips(w: System, d: Delivery)
  {
    && d.index < |w.queue| && d.fate.Acknowledged?
    && Wanted(w.row, w.queue[d.index], d.start) && Locks.Live(w.locks, LockOf(w.queue[d.index]), d.start)
  }

  ghost predicate SkipsOneOf(w: System, d: Delivery, tasks: set<Task>)
  {
    Skips(w, d) && w.queue[d.index] in tasks
  }

  /** A saved answer turns the verdict around: the country becomes "IR" or ceases to be, for an
      address that no enabled network holds. */
  ghost predicate Flips(w: System, d: Delivery, st: Setting)
  {
    && LooksUp(w, d) && Saves(d.fate) && d.reply.Answer? && !BreaksOff(d.reply.known, st)
    && (CountryOf(d.reply.known) == IRAN <==> w.row.ip.whoisCountry != IRAN)
    && Match(st.networks, w.row.ip.address).None?
  }

  /** The lookup queues a classification: its reply has a country and the worker lives to
      queue it. */
  predicate Announces(d: Delivery)
  {
    d.reply.Answer? && CountryOf(d.reply.known) != ""
        && (d.fate.Acknowledged? || d.fate.DiedAfter? || (d.fate.DiedInside? && d.fate.commits >= 3))
  }

  /** How often saved answers have turned the verdict around since a classification was saved. */
  ghost function FlipsSince(w: System, run: seq<Delivery>, st: Setting): nat
  {
    if run == [] then 0
    else
      var init, d := run[..|run| - 1], run[|run| - 1];
      if Classifies(Run(w, init, st), d) then 0
      else FlipsSince(w, init, st) + if Flips(Run(w, init, st), d, st) then 1 else 0
  }

  ghost predicate EverClassified(w: System, run: seq<Delivery>, st: Setting)
  {
    exists k :: 0 <= k < |run| && Classifies(Run(w, run[..k], st), run[k])
  }

  lemma EverNext(w: System, init: seq<Delivery>, d: Delivery, st: Setting)
    ensures EverClassified(w, init + [d], st) <==> EverClassified(w, init, st) || Classifies(Run(w, init, st), d)
  {
    hide Run, Classifies;
    var run := init + [d];
    assert run[..|init|] == init;
    assert forall k :: 0 <= k < |init| ==> run[..k] == init[..k] && run[k] == init[k];
    if Classifies(Run(w, init, st), d) {
      assert Classifies(Run(w, run[..|init|], st), run[|init|]);
    } else if EverClassified(w, init, st) {
      var k :| 0 <= k < |init| && Classifies(Run(w, init[..k], st), init[k]);
      assert Classifies(Run(w, run[..k], st), run[k]);
    }
  }

  /** The other of the two verdicts of an address that no network holds. */
  function Opposite(v: Verdict): Verdict
  {
    if v.isIran then NOT_IRANIAN else Verdict(true, None)
  }

  /** The stored classification after `flips` changes of the verdict: each one undoes the last. */
  ghost predicate Tracks(e: Enriched, flips: nat, st: Setting)
  {
    if flips % 2 == 0 then Current(e, st)
    else Match(st.networks, e.ip.address).None? && Stored(e.ip) == Opposite(VerdictOf(st.networks, e.ip))
  }

  lemma DeliverTracks(w: System, d: Delivery, flips: nat, st: Setting)
    requires Tracks(w.row, flips, st)
    ensures Tracks(Deliver(w, d, st).row, if Classifies(w, d) then 0 else flips + if Flips(w, d, st) then 1 else 0, st)
  {
    hide Match, Without, Enters, BreaksOff, DetailsOf, CountryOf, QueuedOf, Locks.Entered, Locks.Left;
  }

  lemma ClassifyTracks(w: System, d: Delivery, st: Setting)
    requires Classifies(w, d)
    ensures Tracks(Deliver(w, d, st).row, 0, st)
  {
    hide Match, Without, Enters, QueuedOf, Locks.Entered, Locks.Left;
  }

  /** What no delivery changes but a classification. */
  lemma DeliverKeepsStored(w: System, d: Delivery, st: Setting)
    ensures Deliver(w, d, st).row.ip.address == w.row.ip.address
    ensures !Classifies(w, d) ==> Stored(Deliver(w, d, st).row.ip) == Stored(w.row.ip)
    ensures Match(st.networks, w.row.ip.address).Some? ==> !Flips(w, d, st)
  {
    hide Match, Without, Enters, BreaksOff, DetailsOf, CountryOf, QueuedOf, Locks.Entered, Locks.Left;
  }

  /** Before the first classification the row is still that of a new address. */
  ghost predicate Untouched(w: System, end: System, flips: nat, st: Setting)
  {
    && end.row.ip.address == w.row.ip.address && Stored(end.row.ip) == NOT_IRANIAN
    && (Match(st.networks, w.row.ip.address).Some? ==> flips == 0)
    && (Match(st.networks, w.row.ip.address).None? ==> Tracks(end.row, flips, st))
  }

  lemma {:induction false} RunTracks(w: System, run: seq<Delivery>, st: Setting)
    requires New(w)
    ensures var end, flips := Run(w, run, st), FlipsSince(w, run, st);
      if EverClassified(w, run, st) then Tracks(end.row, flips, st) else Untouched(w, end, flips, st)
  {
    hide EverClassified, Deliver, Tracks, Classifies, Flips, Match;
    if run == [] {
      assert !EverClassified(w, [], st) by { NeverClassified(w, st); }
      NewTracks(w, st);
    } else {
      var init, d := run[..|run| - 1], run[|run| - 1];
      assert run == init + [d];
      RunTracks(w, init, st);
      EverNext(w, init, d, st);
      var mid, flips := Run(w, init, st), FlipsSince(w, init, st);
      if Classifies(mid, d) {
        ClassifyTracks(mid, d, st);
      } else {
        DeliverKeepsStored(mid, d, st);
        if Tracks(mid.row, flips, st) {
          DeliverTracks(mid, d, flips, st);
        }
      }
    }
  }

  lemma NewTracks(w: System, st: Setting)
    requires New(w)
    ensures Match(st.networks, w.row.ip.address).None? ==> Tracks(w.row, 0, st)
  {
    hide Match;
  }

  lemma NeverClassified(w: System, st: Setting)
    ensures !EverClassified(w, [], st)
  {
  }

  /** At any point of any run of a new address's tasks, in whatever order they ran and with
      whatever retries, deaths of workers, redeliveries and skips at locks that dead workers left,
      the stored classification is the verdict on the networks and the stored WHOIS country
      exactly when saved answers have turned that verdict around an even number of times since the
      last saved classification, and an address inside an enabled network has ever been
      classified. */
  lemma EnrichmentIsConfluent(w: System, run: seq<Delivery>, st: Setting)
    requires New(w)
    ensures var e := Run(w, run, st).row;
      && (Current(e, st) <==>
            FlipsSince(w, run, st) % 2 == 0 && (Match(st.networks, e.ip.address).Some? ==> EverClassified(w, run, st)))
      && (FlipsSince(w, run, st) % 2 == 1 ==>
            Match(st.networks, e.ip.address).None? && (e.ip.isIran <==> e.ip.whoisCountry != IRAN))
  {
    hide Run, EverClassified, FlipsSince, Match;
    RunTracks(w, run, st);
  }

  // ---- Why a classification is missing ------------------------------------------------

  lemma QueueAfter(w: System, d: Delivery, st: Setting, t: Task)
    requires d.index < |w.queue|
    ensures GetsIn(w, d) && t in QueuedOf(EffectIn(w, d, st).news, d.fate) ==> t in Deliver(w, d, st).queue
    ensures t in w.queue && (w.queue[d.index] != t || !d.fate.Acknowledged?) ==> t in Deliver(w, d, st).queue
  {
    hide EffectIn, QueuedOf, Enters, Locks.Entered, Locks.Left;
    var rest := if d.fate.Acknowledged? then Without(w.queue, d.index) else w.queue;
    if d.fate.Acknowledged? {
      assert t in w.queue && w.queue[d.index] != t ==> multiset(rest)[t] == multiset(w.queue)[t] > 0;
    }
    hide Without;
    if GetsIn(w, d) {
      assert Deliver(w, d, st).queue == rest + QueuedOf(EffectIn(w, d, st).news, d.fate);
    }
  }

  /** A classification is due. */
  predicate Due(queue: seq<Task>)
  {
    Process in queue || ClassifyIp in queue
  }

  lemma StaysDue(w: System, d: Delivery, st: Setting)
    requires Due(w.queue)
    ensures Due(Deliver(w, d, st).queue) || Classifies(w, d) || SkipsOneOf(w, d, {Process, ClassifyIp})
  {
    if d.index < |w.queue| {
      QueueAfter(w, d, st, Process);
      QueueAfter(w, d, st, ClassifyIp);
      ProcessQueuesClassify(w, d, st);
      hide Deliver, EffectIn;
    }
  }

  lemma ProcessQueuesClassify(w: System, d: Delivery, st: Setting)
    requires d.index < |w.queue|
    ensures w.queue[d.index].Process? && d.fate.Acknowledged? ==>
      ClassifyIp in QueuedOf(EffectIn(w, d, st).news, d.fate)
  {
    hide Deliver;
  }

  /** From delivery `from` on, some task of these was skipped at its lock. */
  ghost predicate SomeSkip(w: System, run: seq<Delivery>, from: nat, tasks: set<Task>, st: Setting)
  {
    exists j :: from <= j < |run| && SkipsOneOf(Run(w, run[..j], st), run[j], tasks)
  }

  lemma SomeSkipNext(w: System, init: seq<Delivery>, d: Delivery, from: nat, tasks: set<Task>, st: Setting)
    requires from <= |init|
    ensures SomeSkip(w, init, from, tasks, st) || SkipsOneOf(Run(w, init, st), d, tasks) ==>
      SomeSkip(w, init + [d], from, tasks, st)
  {
    hide Run, SkipsOneOf;
    var run := init + [d];
    assert run[..|init|] == init && run[|init|] == d;
    if j :| from <= j < |init| && SkipsOneOf(Run(w, init[..j], st), init[j], tasks) {
      assert init[..j] == run[..j] && init[j] == run[j];
    }
  }

  /** In a run that drains the queue without any classification, some process or classify task was
      skipped at a lock. */
  lemma UnclassifiedWasSkipped(w: System, run: seq<Delivery>, st: Setting)
    requires New(w) && Run(w, run, st).queue == [] && !EverClassified(w, run, st)
    ensures SomeSkip(w, run, 0, {Process, ClassifyIp}, st)
  {
    hide Run, SomeSkip, EverClassified;
    DueUntilSkipped(w, run, st);
  }

  lemma {:induction false} DueUntilSkipped(w: System, run: seq<Delivery>, st: Setting)
    requires New(w) && !EverClassified(w, run, st)
    ensures Due(Run(w, run, st).queue) || SomeSkip(w, run, 0, {Process, ClassifyIp}, st)
  {
    hide EverClassified, SomeSkip, Deliver, Classifies, SkipsOneOf;
    if run != [] {
      var init, d := run[..|run| - 1], run[|run| - 1];
      assert run == init + [d];
      EverNext(w, init, d, st);
      DueUntilSkipped(w, init, st);
      SomeSkipNext(w, init, d, 0, {Process, ClassifyIp}, st);
      if Due(Run(w, init, st).queue) {
        StaysDue(Run(w, init, st), d, st);
      }
    }
  }

  /** No classification was saved from delivery `from` on. */
  ghost predicate Unclassified(w: System, run: seq<Delivery>, from: nat, st: Setting)
  {
    forall j :: from <= j < |run| ==> !Classifies(Run(w, run[..j], st), run[j])
  }

  lemma UnclassifiedNext(w: System, run: seq<Delivery>, from: nat, st: Setting)
    requires from < |run| && Unclassified(w, run, from, st)
    ensures var n := |run| - 1;
      Unclassified(w, run[..n], from, st) && !Classifies(Run(w, run[..n], st), run[n])
  {
    hide Classifies, Run;
    var init := run[..|run| - 1];
    forall j | from <= j < |init| ensures !Classifies(Run(w, init[..j], st), init[j]) {
      assert init[..j] == run[..j] && init[j] == run[j];
    }
  }

  /** A queued classification stays queued until one is saved or skipped. */
  lemma {:induction false} StaysQueued(w: System, run: seq<Delivery>, from: nat, st: Setting)
    requires from <= |run| && ClassifyIp in Run(w, run[..from], st).queue && Unclassified(w, run, from, st)
    ensures ClassifyIp in Run(w, run, st).queue || SomeSkip(w, run, from, {ClassifyIp}, st)
  {
    hide Deliver, Unclassified, EffectIn, QueuedOf, SomeSkip;
    if from == |run| {
      assert run[..from] == run;
    } else {
      var init, d := run[..|run| - 1], run[|run| - 1];
      assert init[..from] == run[..from] && run == init + [d];
      UnclassifiedNext(w, run, from, st);
      StaysQueued(w, init, from, st);
      SomeSkipNext(w, init, d, from, {ClassifyIp}, st);
      var mid := Run(w, init, st);
      if d.index < |mid.queue| {
        QueueAfter(mid, d, st, ClassifyIp);
      } else {
        assert Deliver(mid, d, st) == mid by { NothingDelivered(mid, d, st); }
      }
    }
  }

  lemma NothingDelivered(w: System, d: Delivery, st: Setting)
    requires d.index >= |w.queue|
    ensures Deliver(w, d, st) == w
  {
  }

  /** In a run that drains the queue a flip with no classification after it had one of three
      causes: its reply had no country, its worker died between saving the row and queueing the
      classification, or a classification was skipped at a lock later on. */
  lemma UnansweredFlip(w: System, run: seq<Delivery>, k: nat, st: Setting)
    requires k < |run| && Run(w, run, st).queue == [] && Flips(Run(w, run[..k], st), run[k], st)
    requires Unclassified(w, run, k + 1, st)
    ensures !Announces(run[k]) || SomeSkip(w, run, k + 1, {ClassifyIp}, st)
  {
    hide Unclassified, Deliver, EffectIn, QueuedOf, Match, SomeSkip, Announces, Enters;
    var mid, d := Run(w, run[..k], st), run[k];
    assert run[..k + 1] == run[..k] + [d];
    RunNext(w, run[..k], d, st);
    QueueAfter(mid, d, st, ClassifyIp);
    if ClassifyIp in Run(w, run[..k + 1], st).queue {
      StaysQueued(w, run, k + 1, st);
    }
    AnnouncedIsQueued(mid, d, st);
  }

  lemma AnnouncedIsQueued(w: System, d: Delivery, st: Setting)
    requires Flips(w, d, st)
    ensures Announces(d) <==> ClassifyIp in QueuedOf(EffectIn(w, d, st).news, d.fate)
  {
    hide Match, Enters, DetailsOf, CountryOf, BreaksOff;
    var news := EffectIn(w, d, st).news;
    assert news == if CountryOf(d.reply.known) != "" then [ClassifyIp] else [];
    if Announces(d) {
      assert QueuedOf(news, d.fate)[0] == ClassifyIp;
    }
  }

  /** Where the flips that FlipsSince counts are. */
  lemma {:induction false} CountedFlip(w: System, run: seq<Delivery>, st: Setting) returns (k: nat)
    requires FlipsSince(w, run, st) > 0
    ensures k < |run| && Flips(Run(w, run[..k], st), run[k], st) && Unclassified(w, run, k + 1, st)
  {
    hide Flips, Classifies, Deliver;
    var init, d := run[..|run| - 1], run[|run| - 1];
    if Flips(Run(w, init, st), d, st) {
      k := |init|;
    } else {
      k := CountedFlip(w, init, st);
      assert init[..k] == run[..k] && init[k] == run[k];
      forall j | k + 1 <= j < |run| ensures !Classifies(Run(w, run[..j], st), run[j]) {
        if j < |init| {
          assert init[..j] == run[..j] && init[j] == run[j];
        } else {
          assert run[..j] == init;
        }
      }
    }
  }

  lemma SkipAmong(w: System, run: seq<Delivery>, from: nat, st: Setting)
    ensures SomeSkip(w, run, from, {ClassifyIp}, st) ==> SomeSkip(w, run, 0, {Process, ClassifyIp}, st)
  {
    hide Run, Skips;
    if j :| from <= j < |run| && SkipsOneOf(Run(w, run[..j], st), run[j], {ClassifyIp}) {
      assert SkipsOneOf(Run(w, run[..j], st), run[j], {Process, ClassifyIp});
    }
  }

  /** When every answer that turns the verdict around is announced and no process or classify
      task is skipped, draining the queue always leaves the current classification. */
  lemma AnnouncedRunsAreCurrent(w: System, run: seq<Delivery>, st: Setting)
    requires New(w) && Run(w, run, st).queue == [] && !SomeSkip(w, run, 0, {Process, ClassifyIp}, st)
    requires forall k :: 0 <= k < |run| && Flips(Run(w, run[..k], st), run[k], st) ==> Announces(run[k])
    ensures Current(Run(w, run, st).row, st)
  {
    hide Run, FlipsSince, Flips, Announces, Current, Unclassified, EverClassified, Match, SomeSkip;
    EnrichmentIsConfluent(w, run, st);
    if !EverClassified(w, run, st) {
      UnclassifiedWasSkipped(w, run, st);
      assert false;
    }
    if FlipsSince(w, run, st) > 0 {
      var k := CountedFlip(w, run, st);
      UnansweredFlip(w, run, k, st);
      SkipAmong(w, run, k + 1, st);
      assert false;
    }
  }

  /** Every entry of the locks was left by a worker that died inside that lock. */
  ghost predicate LeftByDeath(w: System, run: seq<Delivery>, st: Setting, key: Locks.Key, until: int)
  {
    exists i :: 0 <= i < |run| && DiesIn(Run(w, run[..i], st), run[i], st, key, until)
  }

  ghost predicate DiesIn(w: System, d: Delivery, st: Setting, key: Locks.Key, until: int)
  {
    && GetsIn(w, d) && d.fate.DiedInside?
    && LockOf(w.queue[d.index]) == key && until == d.start + LockTime(w.queue[d.index], st)
  }

  lemma LeftNext(w: System, init: seq<Delivery>, d: Delivery, st: Setting, key: Locks.Key, until: int)
    ensures LeftByDeath(w, init, st, key, until) || DiesIn(Run(w, init, st), d, st, key, until) ==>
      LeftByDeath(w, init + [d], st, key, until)
  {
    hide Run, DiesIn;
    var run := init + [d];
    assert run[..|init|] == init && run[|init|] == d;
    if i :| 0 <= i < |init| && DiesIn(Run(w, init[..i], st), init[i], st, key, until) {
      assert init[..i] == run[..i] && init[i] == run[i];
    }
  }

  lemma DeliverLocks(w: System, d: Delivery, st: Setting, key: Locks.Key)
    ensures var locks := Deliver(w, d, st).locks;
      key in locks ==> (key in w.locks && locks[key] == w.locks[key]) || DiesIn(w, d, st, key, locks[key])
  {
    hide EffectIn, QueuedOf, Without;
  }

  lemma {:induction false} LocksAreLeft(w: System, run: seq<Delivery>, st: Setting, key: Locks.Key)
    requires New(w)
    ensures var locks := Run(w, run, st).locks;
      key in locks ==> LeftByDeath(w, run, st, key, locks[key])
  {
    hide Deliver, LeftByDeath, DiesIn;
    if run != [] {
      var init, d := run[..|run| - 1], run[|run| - 1];
      assert run == init + [d];
      LocksAreLeft(w, init, st, key);
      DeliverLocks(Run(w, init, st), d, st, key);
      var locks := Run(w, run, st).locks;
      if key in locks {
        LeftNext(w, init, d, st, key, locks[key]);
      }
    }
  }

  predicate SameKind(t: Task, u: Task)
  {
    (t.Process? && u.Process?) || (t.Lookup? && u.Lookup?) || (t.ClassifyIp? && u.ClassifyIp?)
    || (t.EnrichGeo? && u.EnrichGeo?)
  }

  lemma LockOfIff(t: Task, u: Task)
    ensures LockOf(t) == LockOf(u) <==> SameKind(t, u)
  {
    assert "iran"[0] != "ip:process"[1] && "iran"[0] != "whois"[0] && "iran"[0] != "geo"[0];
    assert |"iran"| != |"ip:process"| && |"iran"| != |"geo"| && |"whois"| != |"geo"| && |"whois"| != |"ip:process"|;
    assert |"geo"| != |"ip:process"|;
  }

  /** The lock that a worker of this task died in, at `died`, is still taken. */
  predicate StillHeld(t: Task, died: int, now: int, st: Setting)
  {
    now < died + if t.Process? then 300 else if t.Lookup? then st.whoisTimeout + 30 else 60
  }

  /** A task is skipped only within the timeout of a lock that an earlier worker of the same kind
      of task died in: redeliveries that come later are never skipped. */
  lemma SkipFollowsDeath(w: System, run: seq<Delivery>, st: Setting, k: nat)
    requires New(w) && k < |run| && Skips(Run(w, run[..k], st), run[k])
    ensures var t := Run(w, run[..k], st).queue[run[k].index];
      exists i :: 0 <= i < k && DiedAs(Run(w, run[..i], st), run[i], t) && StillHeld(t, run[i].start, run[k].start, st)
  {
    var t := Run(w, run[..k], st).queue[run[k].index];
    LocksAreLeft(w, run[..k], st, LockOf(t));
    hide Run, LockOf, LockTime, Enters;
    var until := Run(w, run[..k], st).locks[LockOf(t)];
    var i :| 0 <= i < k && DiesIn(Run(w, run[..k][..i], st), run[..k][i], st, LockOf(t), until);
    assert run[..k][..i] == run[..i] && run[..k][i] == run[i];
    var u := Run(w, run[..i], st).queue[run[i].index];
    LockOfIff(u, t);
    HeldFor(u, t, st);
  }

  /** The worker of a task of this kind dies inside its lock. */
  ghost predicate DiedAs(w: System, d: Delivery, t: Task)
  {
    GetsIn(w, d) && d.fate.DiedInside? && SameKind(w.queue[d.index], t)
  }

  lemma HeldFor(u: Task, t: Task, st: Setting)
    requires SameKind(u, t)
    ensures forall died, now :: now < died + LockTime(u, st) <==> StillHeld(t, died, now, st)
  {
  }

  /** And right after such a death every task of the kind that is delivered in that time is
      skipped. */
  lemma DeathHoldsLock(w: System, d: Delivery, later: Delivery, st: Setting)
    requires GetsIn(w, d) && d.fate.DiedInside? && later.fate.Acknowledged?
    requires var x := Deliver(w, d, st);
      && later.index < |x.queue| && SameKind(w.queue[d.index], x.queue[later.index])
      && Wanted(x.row, x.queue[later.index], later.start)
    ensures var x := Deliver(w, d, st);
      Skips(x, later) <==> StillHeld(x.queue[later.index], d.start, later.start, st)
  {
    var x := Deliver(w, d, st);
    LockOfIff(w.queue[d.index], x.queue[later.index]);
    HeldFor(w.queue[d.index], x.queue[later.index], st);
    hide EffectIn, QueuedOf, Without, Wanted, LockOf, LockTime, StillHeld;
  }

  // ---- How a classification is lost ---------------------------------------------------

  lemma LockReleased(locks: Locks.Entries, key: Locks.Key, timeout: nat, now: int)
    requires key !in locks
    ensures Locks.Left(Locks.Entered(locks, key, timeout, now), key) == locks
  {
  }

  /** An acknowledged delivery, with no lock taken, of the task between `left` and `right`. */
  lemma Taken(w: System, d: Delivery, st: Setting, left: seq<Task>, right: seq<Task>)
    requires d.fate.Acknowledged? && d.index == |left| && GetsIn(w, d) && w.locks == map[]
    requires w.queue == left + [w.queue[d.index]] + right
    ensures var e := EffectIn(w, d, st);
      Deliver(w, d, st) == System(e.row, w.records + e.records, left + right + e.news, map[])
  {
    hide EffectIn, Enters;
    LockReleased(w.locks, LockOf(w.queue[d.index]), LockTime(w.queue[d.index], st), d.start);
    assert w.queue[..d.index] == left && w.queue[d.index + 1..] == right;
  }

  lemma AfterProcess(w: System, d: Delivery, st: Setting, right: seq<Task>)
    requires w.queue == [Process] + right && d.index == 0 && d.fate.Acknowledged? && NeedsWhoisCheck(w.row, d.start)
    requires w.locks == map[]
    ensures var x := Deliver(w, d, st);
      x.row == w.row && x.queue == right + [Lookup(false, 0), ClassifyIp, EnrichGeo] && x.locks == map[]
  {
    Taken(w, d, st, [], right);
    hide Deliver, NeedsWhoisCheck;
  }

  lemma AfterClassify(w: System, d: Delivery, st: Setting, left: seq<Task>, right: seq<Task>)
    requires w.queue == left + [ClassifyIp] + right && d.index == |left| && d.fate.Acknowledged? && w.locks == map[]
    requires Match(st.networks, w.row.ip.address).None?
    ensures var x := Deliver(w, d, st);
      && x.queue == left + right && x.row.nextCheckAt == w.row.nextCheckAt && x.locks == map[]
      && x.row.ip.whoisCountry == w.row.ip.whoisCountry && x.row.ip.address == w.row.ip.address
      && x.row.ip.isIran == (w.row.ip.whoisCountry == IRAN)
  {
    Taken(w, d, st, left, right);
    hide Deliver, Match;
  }

  /** A task that changes nothing: geo enrichment, an unforced lookup of a fresh row, or a task
      whose lock is taken. */
  lemma AfterIdle(w: System, d: Delivery, st: Setting, left: seq<Task>, right: seq<Task>)
    requires d.fate.Acknowledged? && d.index == |left| < |w.queue| && w.queue == left + [w.queue[d.index]] + right
    requires w.queue[d.index].EnrichGeo? || !GetsIn(w, d)
    ensures Deliver(w, d, st).row == w.row && Deliver(w, d, st).queue == left + right
    ensures !GetsIn(w, d) ==> Deliver(w, d, st).locks == w.locks
  {
    hide Enters;
    assert w.queue[..d.index] == left && w.queue[d.index + 1..] == right;
    assert left + right + [] == left + right;
  }

  lemma AfterReply(w: System, d: Delivery, st: Setting)
    requires LooksUp(w, d) && Saves(d.fate) && d.reply.Answer? && !BreaksOff(d.reply.known, st)
    ensures var x := Deliver(w, d, st).row;
      && x.nextCheckAt == Some(d.done + st.cacheTime) && x.ip.isIran == w.row.ip.isIran
      && x.ip.whoisCountry == CountryOf(d.reply.known) && x.ip.address == w.row.ip.address
    ensures d.fate == DiedInside(2) ==> Deliver(w, d, st).queue == w.queue
  {
    hide Enters, DetailsOf, CountryOf, Without, Locks.Entered, Locks.Left;
  }

  /** A worker dies in the classification's lock before it saves anything. */
  lemma AfterLockedDeath(w: System, d: Delivery, st: Setting)
    requires d.index < |w.queue| && w.queue[d.index].ClassifyIp? && d.fate == DiedInside(0) && w.locks == map[]
    ensures var x := Deliver(w, d, st);
      && x.row == w.row && x.queue == w.queue
      && forall t: Task :: Locks.Live(x.locks, LockOf(t), d.start) <==> t.ClassifyIp?
  {
    assert w.queue + [] == w.queue;
    forall t: Task ensures LockOf(t) == LockOf(ClassifyIp) <==> t.ClassifyIp? {
      LockOfIff(t, ClassifyIp);
    }
    hide EffectIn, Without;
  }

  /** The run drains the queue and leaves the address so. */
  ghost predicate Ends(w: System, run: seq<Delivery>, st: Setting, country: string, isIran: bool)
  {
    var e := Run(w, run, st);
    e.queue == [] && e.row.ip.whoisCountry == country && e.row.ip.isIran == isIran
  }

  lemma NoRun(w: System, st: Setting)
    ensures Run(w, [], st) == w
  {
  }

  lemma RunOfFive(w: System, d1: Delivery, d2: Delivery, d3: Delivery, d4: Delivery, d5: Delivery, st: Setting)
    ensures Run(w, [d1] + [d2] + [d3] + [d4] + [d5], st)
         == Deliver(Deliver(Deliver(Deliver(Deliver(w, d1, st), d2, st), d3, st), d4, st), d5, st)
  {
    hide Deliver, Run;
    NoRun(w, st);
    assert [] + [d1] == [d1];
    RunNext(w, [], d1, st);
    RunNext(w, [d1], d2, st);
    RunNext(w, [d1] + [d2], d3, st);
    RunNext(w, [d1] + [d2] + [d3], d4, st);
    RunNext(w, [d1] + [d2] + [d3] + [d4], d5, st);
  }

  /** Every new address that no network holds and that WHOIS reports as Iranian can be left as
      not Iranian: the lookup's worker dies between saving the row and queueing the
      classification, and the redelivered lookup finds the row fresh and does nothing. */
  lemma DeathLosesClassification(w: System, st: Setting, known: map<string, string>)
    requires New(w) && w.queue == [Process] && st.cacheTime >= 1
    requires Match(st.networks, w.row.ip.address).None? && CountryOf(known) == IRAN && !BreaksOff(known, st)
    ensures exists run :: Ends(w, run, st, IRAN, false)
  {
    hide Deliver, Run, Match, CountryOf, BreaksOff;
    var reply := Answer("", known);
    var first, second := Delivery(0, Acknowledged, 0, 0, reply), Delivery(1, Acknowledged, 0, 0, reply);
    var died := Delivery(0, DiedInside(2), 0, 0, reply);
    AfterProcess(w, first, st, []);
    var w1 := Deliver(w, first, st);
    AfterClassify(w1, second, st, [Lookup(false, 0)], [EnrichGeo]);
    var w2 := Deliver(w1, second, st);
    assert w2.queue == [Lookup(false, 0), EnrichGeo];
    AfterReply(w2, died, st);
    var w3 := Deliver(w2, died, st);
    AfterIdle(w3, first, st, [], [EnrichGeo]);
    var w4 := Deliver(w3, first, st);
    AfterIdle(w4, first, st, [], []);
    RunOfFive(w, first, second, died, first, first, st);
    assert Ends(w, [first] + [second] + [died] + [first] + [first], st, IRAN, false);
  }

  /** Every new address inside an enabled network can be left unclassified: the classification's
      worker dies inside its lock, and the redelivered task finds the lock taken and is dropped. */
  lemma LockLosesClassification(w: System, st: Setting)
    requires New(w) && w.queue == [Process] && Match(st.networks, w.row.ip.address).Some?
    ensures exists run :: Ends(w, run, st, "", false)
  {
    hide Deliver, Run, Match;
    var failed := Failed("", false);
    var first, second := Delivery(0, Acknowledged, 0, 0, failed), Delivery(1, Acknowledged, 0, 0, failed);
    var died := Delivery(1, DiedInside(0), 0, 0, failed);
    AfterProcess(w, first, st, []);
    var w1 := Deliver(w, first, st);
    AfterLockedDeath(w1, died, st);
    var w2 := Deliver(w1, died, st);
    AfterIdle(w2, second, st, [Lookup(false, 0)], [EnrichGeo]);
    var w3 := Deliver(w2, second, st);
    assert w3.queue == [Lookup(false, 0), EnrichGeo];
    AfterFailure(w3, first, st);
    var w4 := Deliver(w3, first, st);
    AfterIdle(w4, first, st, [], []);
    RunOfFive(w, first, died, second, first, first, st);
    assert Ends(w, [first] + [died] + [second] + [first] + [first], st, "", false);
  }

  lemma AfterFailure(w: System, d: Delivery, st: Setting)
    requires w.queue == [Lookup(false, 0), EnrichGeo] && d.index == 0 && d.fate.Acknowledged? && GetsIn(w, d)
    requires d.reply.Failed? && !d.reply.retryable
    ensures Deliver(w, d, st).queue == [EnrichGeo] && Deliver(w, d, st).row.ip == w.row.ip
  {
    hide Enters, Locks.Entered, Locks.Left;
    assert w.queue[..0] + w.queue[1..] == [EnrichGeo];
  }

  /** Nor is announcing enough for an address that no network holds: both classifications of an
      "IR" are dropped at the lock that a third execution's worker died in. */
  lemma LockLosesAnnounced(w: System, st: Setting, known: map<string, string>)
    requires New(w) && w.queue == [Process] && Match(st.networks, w.row.ip.address).None?
    requires CountryOf(known) == IRAN && !BreaksOff(known, st)
    ensures exists run :: Ends(w, run, st, IRAN, false)
  {
    hide Deliver, Run, Match, CountryOf, BreaksOff;
    var reply := Answer("", known);
    var first, died := Delivery(0, Acknowledged, 0, 0, reply), Delivery(0, DiedInside(0), 0, 0, reply);
    AfterProcess(w, first, st, []);
    var w1 := Deliver(w, first, st);
    AfterAnnounced(w1, first, st);
    BothDropped(Deliver(w1, first, st), first, died, st);
    RunOfFive(w, first, first, died, first, first.(index := 1), st);
    var five := [first] + [first] + [died] + [first] + [first.(index := 1)];
    RunNext(w, five, first, st);
    assert Ends(w, five + [first], st, IRAN, false);
  }

  /** A worker dies in the classification's lock, and both queued classifications are dropped. */
  lemma BothDropped(w: System, d: Delivery, died: Delivery, st: Setting)
    requires w.queue == [ClassifyIp, EnrichGeo, ClassifyIp] && w.locks == map[] && d.index == 0 == died.index
    requires d.fate.Acknowledged? && died.fate == DiedInside(0) && d.start == died.start
    ensures var x := Deliver(Deliver(Deliver(Deliver(w, died, st), d, st), d.(index := 1), st), d, st);
      x.queue == [] && x.row == w.row
  {
    hide Deliver;
    AfterLockedDeath(w, died, st);
    var w1 := Deliver(w, died, st);
    AfterIdle(w1, d, st, [], [EnrichGeo, ClassifyIp]);
    var w2 := Deliver(w1, d, st);
    AfterIdle(w2, d.(index := 1), st, [EnrichGeo], []);
    AfterIdle(Deliver(w2, d.(index := 1), st), d, st, [], []);
  }

  lemma AfterAnnounced(w: System, d: Delivery, st: Setting)
    requires w.queue == [Lookup(false, 0), ClassifyIp, EnrichGeo] && NeedsWhoisCheck(w.row, d.start)
    requires w.locks == map[] && d.index == 0 && d.fate.Acknowledged?
    requires d.reply.Answer? && !BreaksOff(d.reply.known, st) && CountryOf(d.reply.known) != ""
    ensures var x := Deliver(w, d, st);
      && x.queue == [ClassifyIp, EnrichGeo, ClassifyIp] && x.locks == map[]
      && x.row.ip.whoisCountry == CountryOf(d.reply.known) && x.row.ip.isIran == w.row.ip.isIran
  {
    hide EffectIn, Deliver, CountryOf, BreaksOff;
    assert w.queue == [] + [w.queue[0]] + [ClassifyIp, EnrichGeo];
    assert GetsIn(w, d);
    hide GetsIn;
    Taken(w, d, st, [], [ClassifyIp, EnrichGeo]);
    AnsweredNews(w, d, st);
    assert [] + [ClassifyIp, EnrichGeo] + [ClassifyIp] == [ClassifyIp, EnrichGeo, ClassifyIp];
  }

  /** And it can stay Iranian when WHOIS no longer says so: a later reply without a country
      blanks an "IR" and queues no classification. */
  lemma BlankingKeepsIranian(w: System, st: Setting, known: map<string, string>, blank: map<string, string>)
    requires New(w) && w.queue == [Lookup(true, 0), Process] && st.cacheTime >= 1
    requires Match(st.networks, w.row.ip.address).None? && CountryOf(known) == IRAN && CountryOf(blank) == ""
    requires !BreaksOff(known, st) && !BreaksOff(blank, st)
    ensures exists run :: Ends(w, run, st, "", true)
  {
    hide Deliver, Run, Match, CountryOf, BreaksOff;
    var later := st.cacheTime;
    var found := Delivery(0, Acknowledged, 0, 0, Answer("", known));
    var first, second := found.(start := later, done := later), found.(index := 1);
    var blanked := first.(reply := Answer("", blank));
    AfterFound(w, found, st);
    var w1 := Deliver(w, found, st);
    AfterProcess(w1, first, st, [ClassifyIp]);
    var w2 := Deliver(w1, first, st);
    AfterClassify(w2, first, st, [], [Lookup(false, 0), ClassifyIp, EnrichGeo]);
    var w3 := Deliver(w2, first, st);
    AfterClassify(w3, second, st, [Lookup(false, 0)], [EnrichGeo]);
    var w4 := Deliver(w3, second, st);
    assert w4.queue == [Lookup(false, 0), EnrichGeo];
    AfterBlank(w4, blanked, st);
    var w5 := Deliver(w4, blanked, st);
    AfterIdle(w5, first, st, [], []);
    RunOfFive(w, found, first, first, second, blanked, st);
    RunNext(w, [found] + [first] + [first] + [second] + [blanked], first, st);
    assert Ends(w, [found] + [first] + [first] + [second] + [blanked] + [first], st, "", true);
  }

  lemma AfterFound(w: System, d: Delivery, st: Setting)
    requires w.queue == [Lookup(true, 0), Process] && d.index == 0 && d.fate.Acknowledged? && w.locks == map[]
    requires d.reply.Answer? && !BreaksOff(d.reply.known, st) && CountryOf(d.reply.known) != ""
    ensures var x := Deliver(w, d, st);
      && x.queue == [Process, ClassifyIp] && x.row.nextCheckAt == Some(d.done + st.cacheTime) && x.locks == map[]
      && x.row.ip.whoisCountry == CountryOf(d.reply.known) && x.row.ip.address == w.row.ip.address
  {
    Taken(w, d, st, [], [Process]);
    hide Deliver;
    AnsweredNews(w, d, st);
    hide EffectIn;
  }

  lemma AnsweredNews(w: System, d: Delivery, st: Setting)
    requires d.index < |w.queue| && w.queue[d.index].Lookup?
    requires d.reply.Answer? && !BreaksOff(d.reply.known, st)
    ensures var e := EffectIn(w, d, st);
      && e.news == (if CountryOf(d.reply.known) != "" then [ClassifyIp] else [])
      && e.row.nextCheckAt == Some(d.done + st.cacheTime)
      && e.row.ip.whoisCountry == CountryOf(d.reply.known) && e.row.ip.address == w.row.ip.address
      && e.row.ip.isIran == w.row.ip.isIran
  {
    hide DetailsOf, CountryOf, BreaksOff, NeedsWhoisCheck;
  }

  lemma AfterBlank(w: System, d: Delivery, st: Setting)
    requires w.queue == [Lookup(false, 0), EnrichGeo] && NeedsWhoisCheck(w.row, d.start) && d.index == 0
        && d.fate.Acknowledged? && w.locks == map[]
    requires d.reply.Answer? && !BreaksOff(d.reply.known, st) && CountryOf(d.reply.known) == ""
    ensures var x := Deliver(w, d, st);
      x.queue == [EnrichGeo] && x.row.ip.whoisCountry == "" && x.row.ip.isIran == w.row.ip.isIran
  {
    Taken(w, d, st, [], [EnrichGeo]);
    hide Deliver, DetailsOf, CountryOf, BreaksOff, NeedsWhoisCheck;
  }

  // ---- The queue drains ------------------------------------------------------------

  function Total(queue: seq<Task>, weight: Task -> nat): nat
  {
    if queue == [] then 0 else weight(queue[0]) + Total(queue[1..], weight)
  }

  lemma {:induction false} TotalConcat(a: seq<Task>, b: seq<Task>, weight: Task -> nat)
    ensures Total(a + b, weight) == Total(a, weight) + Total(b, weight)
  {
    if a == [] {
      assert a + b == b;
    } else {
      assert (a + b)[1..] == a[1..] + b;
      TotalConcat(a[1..], b, weight);
    }
  }

  lemma {:induction false} TotalWithout(queue: seq<Task>, i: nat, weight: Task -> nat)
    requires i < |queue|
    ensures Total(Without(queue, i), weight) + weight(queue[i]) == Total(queue, weight)
  {
    TotalConcat(queue[..i], queue[i + 1..], weight);
    TotalConcat(queue[..i], queue[i..], weight);
    assert queue == queue[..i] + queue[i..] && queue[i..][1..] == queue[i + 1..];
  }

  lemma TotalOfShort(a: Task, b: Task, c: Task, weight: Task -> nat)
    ensures Total([a], weight) == weight(a)
    ensures Total([a, b], weight) == weight(a) + weight(b)
    ensures Total([a, b, c], weight) == weight(a) + weight(b) + weight(c)
  {
    assert [a][1..] == [] && [a, b][1..] == [b] && [a, b, c][1..] == [b, c] && [b][1..] == [] && [b, c][1..] == [c];
    assert [c][1..] == [] && Total([c], weight) == weight(c) && Total([b, c], weight) == weight(b) + weight(c);
  }

  /** Every delivery runs a queued task and is acknowledged. */
  ghost predicate AllAcknowledged(w: System, run: seq<Delivery>, st: Setting)
  {
    forall k :: 0 <= k < |run| ==> run[k].fate.Acknowledged? && run[k].index < |Run(w, run[..k], st).queue|
  }

  lemma AcknowledgedPrefix(w: System, run: seq<Delivery>, st: Setting)
    requires run != [] && AllAcknowledged(w, run, st)
    ensures var n := |run| - 1;
      AllAcknowledged(w, run[..n], st) && run[n].fate.Acknowledged? && run[n].index < |Run(w, run[..n], st).queue|
  {
    hide Run;
    var init := run[..|run| - 1];
    forall k | 0 <= k < |init| ensures init[k].fate.Acknowledged? && init[k].index < |Run(w, init[..k], st).queue| {
      assert init[..k] == run[..k] && init[k] == run[k];
    }
    var n := |run| - 1;
    assert run[n].fate.Acknowledged? && run[n].index < |Run(w, run[..n], st).queue|;
  }

  lemma DeliverTotal(w: System, d: Delivery, st: Setting, weight: Task -> nat)
    requires d.fate.Acknowledged? && d.index < |w.queue|
    ensures Total(Deliver(w, d, st).queue, weight) + weight(w.queue[d.index])
         == Total(w.queue, weight) + if GetsIn(w, d) then Total(EffectIn(w, d, st).news, weight) else 0
  {
    hide EffectIn, Without, Enters;
    TotalWithout(w.queue, d.index, weight);
    TotalConcat(Without(w.queue, d.index), EffectIn(w, d, st).news, weight);
  }

  function Weight(t: Task): nat
  {
    match t
    case Process => 8
    case Lookup(_, retries) => if retries < MAX_RETRIES then 5 - retries else 2
    case _ => 1
  }

  lemma EffectShrinks(w: System, d: Delivery, st: Setting)
    requires d.index < |w.queue|
    ensures Total(EffectIn(w, d, st).news, Weight) < Weight(w.queue[d.index])
  {
    hide NeedsWhoisCheck, DetailsOf, CountryOf, BreaksOff, VerdictOf;
    var t := w.queue[d.index];
    TotalOfShort(Lookup(false, 0), ClassifyIp, EnrichGeo, Weight);
    TotalOfShort(ClassifyIp, EnrichGeo, EnrichGeo, Weight);
    TotalOfShort(Lookup(t.Lookup? && t.force, if t.Lookup? then t.retries + 1 else 0), ClassifyIp, EnrichGeo, Weight);
  }

  /** When no worker dies the queue drains: one new address takes at most eight tasks, one lookup
      at most five. */
  lemma {:induction false} QueueDrains(w: System, run: seq<Delivery>, st: Setting)
    requires AllAcknowledged(w, run, st)
    ensures |run| + Total(Run(w, run, st).queue, Weight) <= Total(w.queue, Weight)
    ensures w.queue == [Process] ==> |run| <= 8
    ensures forall force :: w.queue == [Lookup(force, 0)] ==> |run| <= 5
  {
    hide AllAcknowledged, EffectIn, Deliver;
    if w.queue != [] {
      TotalOfShort(w.queue[0], w.queue[0], w.queue[0], Weight);
    }
    if run != [] {
      var init, d := run[..|run| - 1], run[|run| - 1];
      AcknowledgedPrefix(w, run, st);
      QueueDrains(w, init, st);
      DeliverTotal(Run(w, init, st), d, st, Weight);
      EffectShrinks(Run(w, init, st), d, st);
    }
  }

  // ---- Retries ---------------------------------------------------------------------

  /** How many deliveries of the run get past the freshness check. */
  ghost function LookupsIn(w: System, run: seq<Delivery>, st: Setting): nat
  {
    if run == [] then 0
    else
      var init := run[..|run| - 1];
      LookupsIn(w, init, st) + if LooksUp(Run(w, init, st), run[|run| - 1]) then 1 else 0
  }

  ghost predicate RetriesNow(w: System, d: Delivery)
  {
    LooksUp(w, d) && Retries(d.reply, w.queue[d.index].retries)
  }

  ghost function RetriesIn(w: System, run: seq<Delivery>, st: Setting): nat
  {
    if run == [] then 0
    else
      var init := run[..|run| - 1];
      RetriesIn(w, init, st) + if RetriesNow(Run(w, init, st), run[|run| - 1]) then 1 else 0
  }

  /** `30 * (2 ** retries)` */
  function Countdown(retries: nat): nat
  {
    FIRST_BACKOFF * Pow2(retries)
  }

  /** The countdowns of all retries of the run. */
  ghost function BackoffIn(w: System, run: seq<Delivery>, st: Setting): nat
  {
    if run == [] then 0
    else
      var init, d := run[..|run| - 1], run[|run| - 1];
      var mid := Run(w, init, st);
      BackoffIn(w, init, st) + if RetriesNow(mid, d) then Countdown(mid.queue[d.index].retries) else 0
  }

  /** How many lookups a queued task is good for. */
  function Budget(t: Task): nat
  {
    match t
    case Process => 4
    case Lookup(_, retries) => if retries < MAX_RETRIES then 4 - retries else 1
    case _ => 0
  }

  lemma LookupSpendsBudget(w: System, d: Delivery, st: Setting)
    requires d.index < |w.queue|
    ensures Total(EffectIn(w, d, st).news, Budget) + (if LooksUp(w, d) then 1 else 0) <= Budget(w.queue[d.index])
  {
    hide NeedsWhoisCheck, DetailsOf, CountryOf, BreaksOff, VerdictOf;
    var t := w.queue[d.index];
    TotalOfShort(Lookup(false, 0), ClassifyIp, EnrichGeo, Budget);
    TotalOfShort(ClassifyIp, EnrichGeo, EnrichGeo, Budget);
    TotalOfShort(Lookup(t.Lookup? && t.force, if t.Lookup? then t.retries + 1 else 0), ClassifyIp, EnrichGeo, Budget);
  }

  lemma {:induction false} LookupsSpendBudget(w: System, run: seq<Delivery>, st: Setting)
    requires AllAcknowledged(w, run, st)
    ensures LookupsIn(w, run, st) + Total(Run(w, run, st).queue, Budget) <= Total(w.queue, Budget)
  {
    hide AllAcknowledged, EffectIn, Deliver, LooksUp, Budget;
    if run != [] {
      var init, d := run[..|run| - 1], run[|run| - 1];
      AcknowledgedPrefix(w, run, st);
      LookupsSpendBudget(w, init, st);
      DeliverTotal(Run(w, init, st), d, st, Budget);
      LookupSpendsBudget(Run(w, init, st), d, st);
    }
  }

  /** The queue holds at most one lookup, and it has been retried `k` times. */
  ghost predicate OneLookup(queue: seq<Task>, force: bool, k: nat)
  {
    && (forall t :: t in queue ==> !t.Process? && (t.Lookup? ==> t == Lookup(force, k)))
    && multiset(queue)[Lookup(force, k)] <= 1 && k <= MAX_RETRIES
  }

  lemma DeliverKeepsOneLookup(w: System, d: Delivery, st: Setting, force: bool, k: nat)
    requires d.fate.Acknowledged? && d.index < |w.queue| && OneLookup(w.queue, force, k)
    ensures OneLookup(Deliver(w, d, st).queue, force, if RetriesNow(w, d) then k + 1 else k)
    ensures RetriesNow(w, d) ==> w.queue[d.index].retries == k
  {
    hide EffectIn, Retries, Enters;
    var rest, news := Without(w.queue, d.index), if GetsIn(w, d) then EffectIn(w, d, st).news else [];
    assert Deliver(w, d, st).queue == rest + news;
    if GetsIn(w, d) {
      assert !w.queue[d.index].Process? by { WithoutOne(w.queue, d.index, force, k); }
      NewsOfLookup(w, d, st);
    }
    WithoutOne(w.queue, d.index, force, k);
    hide Deliver, Without, OneLookup;
    if RetriesNow(w, d) {
      assert w.queue[d.index] == Lookup(force, k) by { OnlyLookup(w.queue, d.index, force, k); }
      OneRetry(rest, force, k);
    } else {
      NoRetry(rest, news, force, k);
    }
  }

  lemma OnlyLookup(queue: seq<Task>, i: nat, force: bool, k: nat)
    requires i < |queue| && OneLookup(queue, force, k) && queue[i].Lookup?
    ensures queue[i] == Lookup(force, k)
  {
  }

  lemma WithoutOne(queue: seq<Task>, i: nat, force: bool, k: nat)
    requires i < |queue| && OneLookup(queue, force, k)
    ensures !queue[i].Process? && OneLookup(Without(queue, i), force, k)
    ensures queue[i] == Lookup(force, k) ==> forall t :: t in Without(queue, i) ==> !t.Lookup?
  {
    var rest := Without(queue, i);
    hide Without;
    forall t | t in rest ensures t in queue {
      assert multiset(queue)[t] >= multiset(rest)[t] > 0;
    }
    assert queue[i] == Lookup(force, k) ==> multiset(rest)[Lookup(force, k)] == 0;
  }

  lemma OneRetry(rest: seq<Task>, force: bool, k: nat)
    requires OneLookup(rest, force, k) && k < MAX_RETRIES && forall t :: t in rest ==> !t.Lookup?
    ensures OneLookup(rest + [Lookup(force, k + 1)], force, k + 1)
  {
    var next := Lookup(force, k + 1);
    assert multiset(rest + [next]) == multiset(rest) + multiset([next]);
    assert next !in rest;
  }

  lemma NoRetry(rest: seq<Task>, news: seq<Task>, force: bool, k: nat)
    requires OneLookup(rest, force, k) && (news == [] || news == [ClassifyIp])
    ensures OneLookup(rest + news, force, k)
  {
    assert multiset(rest + news) == multiset(rest) + multiset(news);
  }

  lemma NewsOfLookup(w: System, d: Delivery, st: Setting)
    requires GetsIn(w, d) && !w.queue[d.index].Process?
    ensures var t, news := w.queue[d.index], EffectIn(w, d, st).news;
      if RetriesNow(w, d) then t.Lookup? && t.retries < MAX_RETRIES && news == [Lookup(t.force, t.retries + 1)]
      else news == [] || news == [ClassifyIp]
    ensures RetriesNow(w, d) ==> w.queue[d.index].Lookup?
  {
    hide NeedsWhoisCheck, DetailsOf, CountryOf, BreaksOff, VerdictOf;
  }

  lemma {:induction false} OneLookupStays(w: System, run: seq<Delivery>, st: Setting, force: bool)
    requires w.queue == [Lookup(force, 0)] && AllAcknowledged(w, run, st)
    ensures OneLookup(Run(w, run, st).queue, force, RetriesIn(w, run, st))
    ensures BackoffIn(w, run, st) == FIRST_BACKOFF * (Pow2(RetriesIn(w, run, st)) - 1)
  {
    hide AllAcknowledged, Deliver, OneLookup, RetriesNow;
    if run == [] {
      assert OneLookup(w.queue, force, 0) by { FirstLookup(force); }
    } else {
      var init, d := run[..|run| - 1], run[|run| - 1];
      AcknowledgedPrefix(w, run, st);
      OneLookupStays(w, init, st, force);
      DeliverKeepsOneLookup(Run(w, init, st), d, st, force, RetriesIn(w, init, st));
    }
  }

  lemma FirstLookup(force: bool)
    ensures OneLookup([Lookup(force, 0)], force, 0)
  {
  }

  /** One dispatched lookup, in any run in which no worker dies: whatever the replies, the binary
      is run at most four times, and k retries wait 30 * (2^k - 1) seconds, never more than 210. */
  lemma FourLookups(w: System, run: seq<Delivery>, st: Setting, force: bool)
    requires w.queue == [Lookup(force, 0)] && AllAcknowledged(w, run, st)
    ensures LookupsIn(w, run, st) <= 4
    ensures var k := RetriesIn(w, run, st);
      k <= 3 && BackoffIn(w, run, st) == 30 * (Pow2(k) - 1) <= 210
  {
    hide AllAcknowledged, Run, LookupsIn, BackoffIn, RetriesIn;
    LookupsSpendBudget(w, run, st);
    TotalOfShort(Lookup(force, 0), ClassifyIp, EnrichGeo, Budget);
    OneLookupStays(w, run, st, force);
    var k := RetriesIn(w, run, st);
    Pow2Monotone(k, 3);
    assert Pow2(3) == 8;
  }

  // ---- Lookups of one address --------------------------------------------------------

  /** The delivery is a lookup that saves its answer, at `d.done`. */
  ghost predicate Finishes(w: System, d: Delivery, st: Setting)
  {
    && LooksUp(w, d) && Saves(d.fate)
    && !(d.reply.Answer? && BreaksOff(d.reply.known, st)) && !Retries(d.reply, w.queue[d.index].retries)
  }

  /** The last lookup of the run that saved its answer. */
  ghost function LastFinished(w: System, run: seq<Delivery>, st: Setting): Option<Delivery>
  {
    if run == [] then None
    else
      var init, d := run[..|run| - 1], run[|run| - 1];
      if Finishes(Run(w, init, st), d, st) then Some(d) else LastFinished(w, init, st)
  }

  /** The row's WHOIS columns are what the last saved answer left. */
  ghost predicate SaysAnswer(e: Enriched, first: Enriched, last: Option<Delivery>, cacheTime: nat)
  {
    match last
    case None =>
      (e.status, e.error, e.checkedAt, e.nextCheckAt, e.details, e.ip.whoisCountry)
      == (first.status, first.error, first.checkedAt, first.nextCheckAt, first.details, first.ip.whoisCountry)
    case Some(d) =>
      && e.checkedAt == Some(d.done) && e.nextCheckAt == Some(d.done + cacheTime)
      && (d.reply.Answer? ==>
           e.status == Checked && e.error == "" && SaysKnown(e.ip.whoisCountry, e.details, d.reply.known))
      && (d.reply.Failed? ==> e.status == Error && e.error == d.reply.error)
  }

  /** The columns are the known values cut to their widths, and empty where there is none. */
  predicate SaysKnown(country: string, details: Details, known: map<string, string>)
  {
    && (if "country" in known then Stores(country, known["country"], 2) else country == "")
    && (if "organization" in known then Stores(details.organization, known["organization"], 255)
        else details.organization == "")
    && (if "netname" in known then Stores(details.network, known["netname"], 255)
        else if "inetnum" in known then Stores(details.network, known["inetnum"], 255)
        else details.network == "")
  }

  lemma DeliverSaysAnswer(w: System, first: Enriched, last: Option<Delivery>, d: Delivery, st: Setting)
    requires SaysAnswer(w.row, first, last, st.cacheTime)
    ensures SaysAnswer(Deliver(w, d, st).row, first, if Finishes(w, d, st) then Some(d) else last, st.cacheTime)
  {
    hide NeedsWhoisCheck, VerdictOf, Without, BreaksOff, QueuedOf, SaysKnown, CountryOf, DetailsOf;
    if d.index < |w.queue| && Finishes(w, d, st) && d.reply.Answer? {
      AnswerSaysKnown(w.row, w.queue[d.index], d, st);
    }
  }

  lemma AnswerSaysKnown(e: Enriched, t: Task, d: Delivery, st: Setting)
    requires t.Lookup? && d.reply.Answer? && !BreaksOff(d.reply.known, st)
    ensures var row := Answered(e, t.force, t.retries, d.done, d.reply, st).row;
      SaysKnown(row.ip.whoisCountry, row.details, d.reply.known)
  {
    hide BreaksOff;
  }

  /** After any run the WHOIS columns are those of the last lookup that saved its answer:
      lookups that were skipped, retried or broken off change none of them. */
  lemma {:induction false} RowSaysLastAnswer(w: System, run: seq<Delivery>, st: Setting)
    ensures SaysAnswer(Run(w, run, st).row, w.row, LastFinished(w, run, st), st.cacheTime)
  {
    hide Deliver, SaysAnswer, Finishes;
    if run == [] {
      assert SaysAnswer(w.row, w.row, None, st.cacheTime) by { NothingAnswered(w.row, st); }
    } else {
      var init := run[..|run| - 1];
      RowSaysLastAnswer(w, init, st);
      DeliverSaysAnswer(Run(w, init, st), w.row, LastFinished(w, init, st), run[|run| - 1], st);
    }
  }

  predicate Gives(known: map<string, string>, key: string)
  {
    key in known && known[key] != ""
  }

  /** The last lookup of the run that saved an answer with a value for the key. */
  ghost function LastWith(w: System, run: seq<Delivery>, st: Setting, key: string): (last: Option<Delivery>)
    ensures last.Some? ==> last.value.reply.Answer? && Gives(last.value.reply.known, key)
  {
    if run == [] then None
    else
      var init, d := run[..|run| - 1], run[|run| - 1];
      if Finishes(Run(w, init, st), d, st) && d.reply.Answer? && Gives(d.reply.known, key) then Some(d)
      else LastWith(w, init, st, key)
  }

  /** The AS number is read from the last saved answer that had an origin, the block from the last
      that had an `inetnum`; answers without one change neither. */
  lemma {:induction false} DetailsAreKept(w: System, run: seq<Delivery>, st: Setting)
    ensures var e, origin, inetnum :=
        Run(w, run, st).row, LastWith(w, run, st, "origin"), LastWith(w, run, st, "inetnum");
      && e.details.asn
           == (if origin.None? then w.row.details.asn else st.asnOf(origin.value.reply.known["origin"]))
      && e.details.cidr
           == (if inetnum.None? then w.row.details.cidr
               else
                 var r := st.cidrOf(inetnum.value.reply.known["inetnum"]);
                 if r.Cidr? then Some(r.block) else None)
  {
    hide Deliver, Finishes, Gives;
    if run != [] {
      var init, d := run[..|run| - 1], run[|run| - 1];
      DetailsAreKept(w, init, st);
      DeliverDetails(Run(w, init, st), d, st);
    }
  }

  lemma DeliverDetails(w: System, d: Delivery, st: Setting)
    ensures var before, after := w.row.details, Deliver(w, d, st).row.details;
      if Finishes(w, d, st) && d.reply.Answer? then
        && after.asn == (if Gives(d.reply.known, "origin") then st.asnOf(d.reply.known["origin"]) else before.asn)
        && after.cidr == (if Gives(d.reply.known, "inetnum") then BlockOf(st.cidrOf(d.reply.known["inetnum"]))
                          else before.cidr)
      else after == before
  {
    hide NeedsWhoisCheck, VerdictOf, Without, BreaksOff, QueuedOf, CountryOf, Cut, BlockOf, Locks.Entered,
        Locks.Left;
  }

  lemma NothingAnswered(e: Enriched, st: Setting)
    ensures SaysAnswer(e, e, None, st.cacheTime)
  {
  }

  /** The delivery gets an answer and stores the reply, before anything else it does. */
  ghost predicate StoresReply(w: System, d: Delivery)
  {
    LooksUp(w, d) && d.reply.Answer? && d.fate != DiedInside(0)
  }

  ghost function RepliesIn(w: System, run: seq<Delivery>, st: Setting): seq<WhoisRecord>
  {
    if run == [] then []
    else
      var init, d := run[..|run| - 1], run[|run| - 1];
      if StoresReply(Run(w, init, st), d) then RepliesIn(w, init, st) + [WhoisRecord(d.done, d.reply.raw)]
      else RepliesIn(w, init, st)
  }

  lemma DeliverStoresReply(w: System, d: Delivery, st: Setting)
    ensures Deliver(w, d, st).records
         == if StoresReply(w, d) then w.records + [WhoisRecord(d.done, d.reply.raw)] else w.records
  {
    hide NeedsWhoisCheck, VerdictOf, Without, BreaksOff, QueuedOf, CountryOf, DetailsOf;
    assert w.records + [] == w.records;
  }

  /** The stored replies are exactly the answers, in order: also those of lookups that were then
      broken off or whose workers died before they saved the row. */
  lemma {:induction false} EveryAnswerIsStored(w: System, run: seq<Delivery>, st: Setting)
    ensures Run(w, run, st).records == w.records + RepliesIn(w, run, st)
  {
    hide Deliver, StoresReply;
    if run == [] {
      assert w.records + [] == w.records;
    } else {
      var init, d := run[..|run| - 1], run[|run| - 1];
      EveryAnswerIsStored(w, init, st);
      DeliverStoresReply(Run(w, init, st), d, st);
      var replies, one := RepliesIn(w, init, st), [WhoisRecord(d.done, if d.reply.Answer? then d.reply.raw else "")];
      assert (w.records + replies) + one == w.records + (replies + one);
    }
  }

  ghost predicate InOrder(run: seq<Delivery>)
  {
    && (forall k :: 0 <= k < |run| ==> run[k].start <= run[k].done)
    && (forall j, k :: 0 <= j < k < |run| ==> run[j].done <= run[k].start)
  }

  ghost predicate FreshUntil(e: Enriched, time: int)
  {
    e.nextCheckAt.Some? && e.nextCheckAt.value >= time
  }

  lemma DeliverKeepsFresh(w: System, d: Delivery, st: Setting, time: int)
    requires FreshUntil(w.row, time) && time <= d.done + st.cacheTime
    ensures FreshUntil(Deliver(w, d, st).row, time)
  {
    hide NeedsWhoisCheck, VerdictOf, Without, DetailsOf, CountryOf, BreaksOff, QueuedOf;
  }

  lemma FinishSetsFresh(w: System, d: Delivery, st: Setting)
    requires Finishes(w, d, st)
    ensures FreshUntil(Deliver(w, d, st).row, d.done + st.cacheTime)
  {
    hide NeedsWhoisCheck, VerdictOf, Without, DetailsOf, CountryOf, BreaksOff, QueuedOf;
  }

  /** After a finished lookup the row stays fresh for at least the cache time. */
  lemma {:induction false} StaysFresh(w: System, run: seq<Delivery>, st: Setting, j: nat)
    requires InOrder(run) && j < |run| && Finishes(Run(w, run[..j], st), run[j], st)
    ensures FreshUntil(Run(w, run, st).row, run[j].done + st.cacheTime)
  {
    hide Finishes, Deliver, FreshUntil;
    var init, d := run[..|run| - 1], run[|run| - 1];
    if j < |init| {
      assert init[..j] == run[..j];
      StaysFresh(w, init, st, j);
      assert run[j].done <= d.start <= d.done;
      DeliverKeepsFresh(Run(w, init, st), d, st, run[j].done + st.cacheTime);
    } else {
      assert init == run[..j];
      FinishSetsFresh(Run(w, init, st), d, st);
    }
  }

  /** An unforced lookup that finishes comes at least the cache time after every lookup that
      finished before it, forced or not. */
  lemma FinishedLookupsAreSpaced(w: System, run: seq<Delivery>, st: Setting, j: nat, k: nat)
    requires InOrder(run) && j < k < |run|
    requires Finishes(Run(w, run[..j], st), run[j], st) && Finishes(Run(w, run[..k], st), run[k], st)
    requires var mid := Run(w, run[..k], st); !mid.queue[run[k].index].force
    ensures run[k].done >= run[k].start >= run[j].done + st.cacheTime
  {
    hide Run;
    assert run[..k][..j] == run[..j];
    StaysFresh(w, run[..k], st, j);
  }

  /** The addresses whose WHOIS check is due, as the pending query selects them. */
  function PendingQuery(rows: map<nat, Enriched>, now: int): set<nat>
  {
    set id | id in rows && (rows[id].nextCheckAt.None? || rows[id].nextCheckAt.value <= now)
  }

  /** The pending query is exactly the set of addresses for which an unforced lookup that starts
      now, with its lock free, does anything at all. */
  lemma PendingQueryIsNextLookups(rows: map<nat, Enriched>, now: int, locks: Locks.Entries, st: Setting, id: nat)
    requires id in rows && !Locks.Live(locks, LockOf(Lookup(false, 0)), now)
    ensures id in PendingQuery(rows, now) <==> exists done, reply :: Acts(rows[id], locks, now, done, reply, st)
  {
    if id in PendingQuery(rows, now) {
      var w := System(rows[id], [], [Lookup(false, 0)], locks);
      var d := Delivery(0, Acknowledged, now, now, Failed("", true));
      assert w.queue[..0] + w.queue[1..] == [] && EffectIn(w, d, st).news == [Lookup(false, 1)];
      assert Acts(rows[id], locks, now, now, Failed("", true), st);
    } else {
      forall done, reply ensures !Acts(rows[id], locks, now, done, reply, st) {
        var w := System(rows[id], [], [Lookup(false, 0)], locks);
        assert w.queue[..0] + w.queue[1..] == [];
      }
    }
  }

  /** The lookup changes the row, stores a reply or queues a task. */
  ghost predicate Acts(e: Enriched, locks: Locks.Entries, now: int, done: int, reply: Reply, st: Setting)
  {
    var z := Deliver(System(e, [], [Lookup(false, 0)], locks), Delivery(0, Acknowledged, now, done, reply), st);
    z.row != e || z.records != [] || z.queue != []
  }
}
