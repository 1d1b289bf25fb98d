/** Recording batches of sightings, one database statement at a time, by any number of
    workers that share the table of addresses. An address stands for its row's primary key:
    the column is unique and no statement here deletes rows. */
module Sightings {
  import opened Common

  type Address = string

  datatype IpRow = IpRow(firstSeen: int, lastSeen: int)

  type IpRows = map<Address, IpRow>

  // ---- One batch as one step -------------------------------------------------------

  /** The effect of one whole batch, given the latest sighting of each of its addresses. */
  function Recorded(table: IpRows, latest: map<Address, int>): IpRows
  {
    map a | a in table.Keys + latest.Keys ::
      if a !in table then IpRow(latest[a], latest[a])
      else if a in latest then table[a].(lastSeen := Max(table[a].lastSeen, latest[a]))
      else table[a]
  }

  /** The addresses of a batch that have no row yet. */
  function Missing(table: IpRows, latest: map<Address, int>): set<Address>
  {
    latest.Keys - table.Keys
  }

  // ---- Batches as interleaved statements -------------------------------------------

  /** The statement a worker executes next; Crashed after a KeyError. */
  datatype Phase = Fetching | Inserting | Refetching | Updating | Dispatching | Crashed

  /** A worker in the middle of a batch: `newly` are the addresses its first query missed,
      `existing` its last copy of the rows, `todo` the addresses its current loop has left. */
  datatype Worker = Worker(
    latest: map<Address, int>, phase: Phase, newly: set<Address>, existing: IpRows, todo: set<Address>)

  datatype System = System(table: IpRows, workers: seq<Worker>, queue: seq<Address>)

  /** Which worker moves, and which address its loop takes (when it is in one). */
  datatype Choice = Choice(worker: nat, address: Address)

  /** A worker that has a batch and has not begun. */
  predicate NotBegun(w: Worker)
  {
    w.phase.Fetching? && w.newly == {} && w.existing == map[] && w.todo == {}
  }

  predicate Done(w: Worker)
  {
    w.phase.Dispatching? && w.todo == {}
  }

  function Restrict(table: IpRows, keys: set<Address>): IpRows
  {
    map a | a in table && a in keys :: table[a]
  }

  /** INSERT ... ON CONFLICT DO NOTHING. */
  function Insert(table: IpRows, latest: map<Address, int>, newly: set<Address>): IpRows
  {
    map a | a in table.Keys + newly * latest.Keys :: if a in table then table[a] else IpRow(latest[a], latest[a])
  }

  /** UPDATE ... WHERE last_seen_at < seen_at. */
  function Bump(table: IpRows, a: Address, seenAt: int): IpRows
  {
    if a in table && table[a].lastSeen < seenAt then table[a := table[a].(lastSeen := seenAt)] else table
  }

  /** One statement of one worker: its new state, the new table, and what it queues. The update
      is conditional twice, in Python on the row the worker holds, in the database on the row there. */
  function WorkerStep(w: Worker, table: IpRows, a: Address): (Worker, IpRows, seq<Address>)
  {
    match w.phase
    case Fetching =>
      var newly := Missing(table, w.latest);
      if newly == {}
      then (w.(phase := Updating, existing := Restrict(table, w.latest.Keys), todo := w.latest.Keys), table, [])
      else (w.(phase := Inserting, newly := newly), table, [])
    case Inserting =>
      (w.(phase := Refetching), Insert(table, w.latest, w.newly), [])
    case Refetching =>
      (w.(phase := Updating, existing := Restrict(table, w.latest.Keys), todo := w.latest.Keys), table, [])
    case Updating =>
      if w.todo == {} then (w.(phase := Dispatching, todo := w.newly), table, [])
      else if a !in w.todo || a !in w.latest then (w, table, [])
      else if a !in w.existing then (w.(phase := Crashed), table, [])
      else
        var table' := if w.latest[a] > w.existing[a].lastSeen then Bump(table, a, w.latest[a]) else table;
        (w.(todo := w.todo - {a}), table', [])
    case Dispatching =>
      if a !in w.todo then (w, table, [])
      else (w.(todo := w.todo - {a}), table, if a in w.existing then [a] else [])
    case Crashed => (w, table, [])
  }

  function Step(s: System, c: Choice): System
  {
    if c.worker >= |s.workers| then s
    else
      var (w, table, queued) := WorkerStep(s.workers[c.worker], s.table, c.address);
      System(table, s.workers[c.worker := w], s.queue + queued)
  }

  function Run(s: System, run: seq<Choice>): System
  {
    if run == [] then s else Step(Run(s, run[..|run| - 1]), run[|run| - 1])
  }

  // ---- Invariants ------------------------------------------------------------------

  /** What every statement does to the table: rows stay, first sightings stay, last ones only grow. */
  ghost predicate Grew(t: IpRows, t': IpRows)
  {
    forall a :: a in t ==> a in t' && t'[a].firstSeen == t[a].firstSeen && t[a].lastSeen <= t'[a].lastSeen
  }

  /** What a worker in each phase may rely on. */
  ghost predicate WorkerOk(w: Worker, table: IpRows)
  {
    && !w.phase.Crashed?
    && w.newly <= w.latest.Keys && w.todo <= w.latest.Keys
    && (w.phase.Fetching? ==> w.newly == {})
    && (w.phase.Inserting? ==> w.latest.Keys - w.newly <= table.Keys)
    && (!w.phase.Fetching? && !w.phase.Inserting? ==> w.latest.Keys <= table.Keys)
    && (w.phase.Updating? || w.phase.Dispatching? ==> w.existing.Keys == w.latest.Keys)
    && (w.phase.Updating? ==>
          && (forall a :: a in w.latest ==> w.existing[a].lastSeen <= table[a].lastSeen)
          && (forall a :: a in w.latest && a !in w.todo ==> w.latest[a] <= table[a].lastSeen))
    && (w.phase.Dispatching? ==>
          && w.todo <= w.newly
          && forall a :: a in w.latest ==> w.latest[a] <= table[a].lastSeen)
  }

  lemma WorkerOkGrew(w: Worker, t: IpRows, t': IpRows)
    requires WorkerOk(w, t) && Grew(t, t')
    ensures WorkerOk(w, t')
  {
  }

  lemma StepGrew(w: Worker, t: IpRows, a: Address)
    ensures Grew(t, WorkerStep(w, t, a).1)
  {
  }

  lemma StepOk(w: Worker, t: IpRows, a: Address)
    requires WorkerOk(w, t)
    ensures WorkerOk(WorkerStep(w, t, a).0, WorkerStep(w, t, a).1)
    ensures WorkerStep(w, t, a).0.latest == w.latest
  {
    var w', t' := WorkerStep(w, t, a).0, WorkerStep(w, t, a).1;
    assert w.phase.Inserting? ==> w.newly * w.latest.Keys == w.newly;
    assert w.latest.Keys <= t.Keys + Missing(t, w.latest);
    assert w'.phase.Updating? && !w.phase.Updating? ==> w'.existing.Keys == w.latest.Keys;
  }

  /** `seenAt` is the last sighting of `a` before the run, or one a batch brings. */
  ghost predicate Seen(t0: IpRows, workers: seq<Worker>, a: Address, seenAt: int)
  {
    || (a in t0 && seenAt == t0[a].lastSeen)
    || exists i :: 0 <= i < |workers| && a in workers[i].latest && seenAt == workers[i].latest[a]
  }

  /** Some batch whose first query missed `a` has created its row, first seen at `seenAt`. */
  ghost predicate Created(workers: seq<Worker>, a: Address, seenAt: int)
  {
    exists i :: 0 <= i < |workers| && a in workers[i].newly && a in workers[i].latest && seenAt == workers[i].latest[a]
  }

  ghost predicate RowOk(t0: IpRows, workers: seq<Worker>, a: Address, row: IpRow)
  {
    && row.firstSeen <= row.lastSeen
    && Seen(t0, workers, a, row.lastSeen)
    && (a !in t0 ==> Created(workers, a, row.firstSeen))
  }

  ghost predicate Inv(t0: IpRows, s: System)
  {
    && Grew(t0, s.table)
    && (forall i :: 0 <= i < |s.workers| ==> WorkerOk(s.workers[i], s.table))
    && (forall a :: a in s.table ==> RowOk(t0, s.workers, a, s.table[a]))
  }

  /** The parts of the workers the row invariant looks at only grow. */
  ghost predicate WorkersGrew(ws: seq<Worker>, ws': seq<Worker>)
  {
    && |ws| == |ws'|
    && forall i :: 0 <= i < |ws| ==> ws[i].latest == ws'[i].latest && ws[i].newly <= ws'[i].newly
  }

  lemma RowOkGrew(t0: IpRows, ws: seq<Worker>, ws': seq<Worker>, a: Address, row: IpRow)
    requires RowOk(t0, ws, a, row) && WorkersGrew(ws, ws')
    ensures RowOk(t0, ws', a, row)
  {
    if !(a in t0 && row.lastSeen == t0[a].lastSeen) {
      var i :| 0 <= i < |ws| && a in ws[i].latest && row.lastSeen == ws[i].latest[a];
      assert a in ws'[i].latest;
    }
    if a !in t0 {
      var j :| 0 <= j < |ws| && a in ws[j].newly && a in ws[j].latest && row.firstSeen == ws[j].latest[a];
      assert a in ws'[j].newly;
    }
  }

  /** The rows one statement of worker `i` writes. */
  lemma StepRows(t0: IpRows, ws: seq<Worker>, t: IpRows, i: nat, c: Address, a: Address)
    requires i < |ws| && WorkerOk(ws[i], t)
    requires forall b :: b in t ==> RowOk(t0, ws, b, t[b])
    requires Grew(t0, t)
    requires a in WorkerStep(ws[i], t, c).1
    ensures RowOk(t0, ws, a, WorkerStep(ws[i], t, c).1[a])
  {
    var t' := WorkerStep(ws[i], t, c).1;
    if a !in t {
      assert a in ws[i].newly && a in ws[i].latest && t'[a] == IpRow(ws[i].latest[a], ws[i].latest[a]);
    } else if t'[a] != t[a] {
      assert a in ws[i].latest && t'[a].lastSeen == ws[i].latest[a];
    }
  }

  lemma StepInv(t0: IpRows, s: System, c: Choice)
    requires Inv(t0, s)
    ensures Inv(t0, Step(s, c))
  {
    if c.worker < |s.workers| {
      StepWorkersInv(s, c);
      StepRowsInv(t0, s, c);
      StepGrew(s.workers[c.worker], s.table, c.address);
    }
  }

  lemma StepWorkersInv(s: System, c: Choice)
    requires forall i :: 0 <= i < |s.workers| ==> WorkerOk(s.workers[i], s.table)
    ensures forall i :: 0 <= i < |s.workers| ==> WorkerOk(Step(s, c).workers[i], Step(s, c).table)
  {
    hide WorkerOk, WorkerStep, Grew;
    if c.worker < |s.workers| {
      var s', w := Step(s, c), s.workers[c.worker];
      StepGrew(w, s.table, c.address);
      StepOk(w, s.table, c.address);
      forall i | 0 <= i < |s'.workers| ensures WorkerOk(s'.workers[i], s'.table) {
        if i != c.worker {
          WorkerOkGrew(s.workers[i], s.table, s'.table);
        }
      }
    }
  }

  lemma StepRowsInv(t0: IpRows, s: System, c: Choice)
    requires Inv(t0, s) && c.worker < |s.workers|
    ensures forall a :: a in Step(s, c).table ==> RowOk(t0, Step(s, c).workers, a, Step(s, c).table[a])
  {
    hide WorkerOk, WorkerStep, Grew, RowOk;
    var s', w := Step(s, c), s.workers[c.worker];
    StepOk(w, s.table, c.address);
    NewlyKept(w, s.table, c.address);
    forall a | a in s'.table ensures RowOk(t0, s'.workers, a, s'.table[a]) {
      StepRows(t0, s.workers, s.table, c.worker, c.address, a);
      RowOkGrew(t0, s.workers, s'.workers, a, s'.table[a]);
    }
  }

  lemma NewlyKept(w: Worker, t: IpRows, a: Address)
    requires WorkerOk(w, t)
    ensures w.newly <= WorkerStep(w, t, a).0.newly
  {
  }

  ghost predicate Initial(s: System)
  {
    && (forall a :: a in s.table ==> s.table[a].firstSeen <= s.table[a].lastSeen)
    && (forall i :: 0 <= i < |s.workers| ==> NotBegun(s.workers[i]))
    && s.queue == []
  }

  lemma {:induction false} RunInv(s: System, run: seq<Choice>)
    requires Initial(s)
    ensures Inv(s.table, Run(s, run))
    ensures |Run(s, run).workers| == |s.workers|
    ensures forall i :: 0 <= i < |s.workers| ==> Run(s, run).workers[i].latest == s.workers[i].latest
  {
    if run == [] {
      InitialInv(s);
    } else {
      hide Inv, WorkerStep;
      var mid, c := Run(s, run[..|run| - 1]), run[|run| - 1];
      RunInv(s, run[..|run| - 1]);
      StepInv(s.table, mid, c);
      StepLatest(s.table, mid, c);
    }
  }

  lemma InitialInv(s: System)
    requires Initial(s)
    ensures Inv(s.table, s)
  {
  }

  lemma StepLatest(t0: IpRows, s: System, c: Choice)
    requires Inv(t0, s)
    ensures |Step(s, c).workers| == |s.workers|
    ensures forall i :: 0 <= i < |s.workers| ==> Step(s, c).workers[i].latest == s.workers[i].latest
  {
    hide WorkerStep;
    if c.worker < |s.workers| {
      StepOk(s.workers[c.worker], s.table, c.address);
    }
  }

  // ---- Every batch can finish -------------------------------------------------------

  /** A run in which every batch has finished. */
  ghost predicate Finished(s: System)
  {
    forall i :: 0 <= i < |s.workers| ==> Done(s.workers[i])
  }

  /** At most how many statements the worker has left. */
  function Work(w: Worker): nat
  {
    match w.phase
    case Fetching => 2 * |w.latest| + 4
    case Inserting => 2 * |w.latest| + 3
    case Refetching => 2 * |w.latest| + 2
    case Updating => |w.todo| + |w.latest| + 1
    case Dispatching => |w.todo|
    case Crashed => 0
  }

  /** The choice takes an address that the worker's loop has left, when it is in one. */
  predicate Effective(w: Worker, a: Address)
  {
    !Done(w) && (w.phase.Dispatching? || (w.phase.Updating? && w.todo != {}) ==> a in w.todo)
  }

  lemma StepWorks(w: Worker, t: IpRows, a: Address)
    requires WorkerOk(w, t) && Effective(w, a)
    ensures Work(WorkerStep(w, t, a).0) < Work(w)
  {
    hide Restrict, Insert, Bump;
    MissingAreFew(t, w.latest);
    Subset(w.newly, w.latest.Keys);
    assert |w.latest| == |w.latest.Keys|;
    hide Missing;
    if a in w.todo {
      assert |w.todo - {a}| == |w.todo| - 1;
    }
  }

  lemma MissingAreFew(t: IpRows, latest: map<Address, int>)
    ensures |Missing(t, latest)| <= |latest|
  {
    Subset(Missing(t, latest), latest.Keys);
  }

  lemma Subset(x: set<Address>, y: set<Address>)
    requires x <= y
    ensures |x| <= |y|
  {
    assert y == x + (y - x);
  }

  function TotalWork(ws: seq<Worker>): nat
  {
    if ws == [] then 0 else TotalWork(ws[..|ws| - 1]) + Work(ws[|ws| - 1])
  }

  lemma {:induction false} WorkUpdate(ws: seq<Worker>, i: nat, w: Worker)
    requires i < |ws|
    ensures TotalWork(ws[i := w]) + Work(ws[i]) == TotalWork(ws) + Work(w)
  {
    hide Work;
    var n := |ws| - 1;
    if i < n {
      assert ws[i := w][..n] == ws[..n][i := w];
      WorkUpdate(ws[..n], i, w);
    } else {
      assert ws[i := w][..n] == ws[..n];
    }
  }

  lemma SystemWorks(t0: IpRows, s: System, c: Choice)
    requires Inv(t0, s) && c.worker < |s.workers| && Effective(s.workers[c.worker], c.address)
    ensures TotalWork(Step(s, c).workers) < TotalWork(s.workers)
  {
    hide Work, WorkerStep, Effective, WorkerOk;
    var w := s.workers[c.worker];
    assert WorkerOk(w, s.table);
    StepWorks(w, s.table, c.address);
    WorkUpdate(s.workers, c.worker, WorkerStep(w, s.table, c.address).0);
  }

  /** Every choice of the run takes an address that is left. */
  ghost predicate AllEffective(s: System, run: seq<Choice>)
  {
    forall k :: 0 <= k < |run| ==>
      var mid := Run(s, run[..k]);
      run[k].worker < |mid.workers| && Effective(mid.workers[run[k].worker], run[k].address)
  }

  lemma {:induction false} WorkIsDone(s: System, run: seq<Choice>)
    requires Initial(s) && AllEffective(s, run)
    ensures |run| + TotalWork(Run(s, run).workers) <= TotalWork(s.workers)
  {
    hide Work, Step, Effective, TotalWork, Inv, Initial;
    if run != [] {
      var init, c := run[..|run| - 1], run[|run| - 1];
      assert forall k :: 0 <= k < |init| ==> init[..k] == run[..k] && init[k] == run[k];
      WorkIsDone(s, init);
      RunInv(s, init);
      SystemWorks(s.table, Run(s, init), c);
    }
  }

  lemma {:induction false} WorkOfBatches(ws: seq<Worker>, n: nat)
    requires forall w :: w in ws ==> w.phase.Fetching? && |w.latest| <= n
    ensures TotalWork(ws) <= |ws| * (2 * n + 4)
  {
    if ws != [] {
      var init := ws[..|ws| - 1];
      WorkOfBatches(init, n);
      assert ws[|ws| - 1] in ws;
      assert Work(ws[|ws| - 1]) <= 2 * n + 4;
      hide Work;
      OneMore(|init|, 2 * n + 4);
    }
  }

  lemma OneMore(k: nat, m: nat)
    ensures (k + 1) * m == k * m + m
  {
  }

  /** No interleaving goes on for ever: a batch of n addresses takes at most 2n + 4 statements. */
  lemma RunsAreShort(s: System, run: seq<Choice>, n: nat)
    requires Initial(s) && AllEffective(s, run)
    requires forall w :: w in s.workers ==> |w.latest| <= n
    ensures |run| <= |s.workers| * (2 * n + 4)
  {
    hide AllEffective;
    WorkIsDone(s, run);
    WorkOfBatches(s.workers, n);
  }

  /** And wherever an interleaving has got to, it can be continued until every batch is through. */
  lemma {:induction false} EveryBatchCanFinish(s: System, run: seq<Choice>) returns (more: seq<Choice>)
    requires Initial(s)
    ensures Finished(Run(s, run + more))
    decreases TotalWork(Run(s, run).workers)
  {
    hide Work, Step, Inv, Initial, WorkerOk;
    RunInv(s, run);
    var mid := Run(s, run);
    assert run + [] == run;
    more := [];
    if i :| 0 <= i < |mid.workers| && !Done(mid.workers[i]) {
      var w := mid.workers[i];
      var a := if w.todo != {} then AnyOf(w.todo) else "";
      var c := Choice(i, a);
      assert w.phase.Dispatching? ==> w.todo != {};
      SystemWorks(s.table, mid, c);
      assert (run + [c])[..|run|] == run;
      var rest := EveryBatchCanFinish(s, run + [c]);
      more := [c] + rest;
      assert run + more == run + [c] + rest;
    }
  }

  ghost function AnyOf(x: set<Address>): (a: Address)
    requires x != {}
    ensures a in x
  {
    var a :| a in x;
    a
  }

  // ---- The table after any interleaving --------------------------------------------

  /** At every moment of every interleaving: no row is lost or seen first anew, no last sighting
      goes back, no row is last seen before it was first seen, and no worker misses a row. */
  lemma Monotone(s: System, run: seq<Choice>, k: nat)
    requires Initial(s) && k <= |run|
    ensures Grew(Run(s, run[..k]).table, Run(s, run).table)
    ensures forall a :: a in Run(s, run).table ==> Run(s, run).table[a].firstSeen <= Run(s, run).table[a].lastSeen
    ensures forall w :: w in Run(s, run).workers ==> !w.phase.Crashed?
    decreases |run|
  {
    RunInv(s, run);
    if k < |run| {
      var init, c := run[..|run| - 1], run[|run| - 1];
      assert init[..k] == run[..k];
      Monotone(s, init, k);
      var mid := Run(s, init);
      if c.worker < |mid.workers| {
        StepGrew(mid.workers[c.worker], mid.table, c.address);
      }
    } else {
      assert run[..k] == run;
    }
  }

  /** When all batches are through, every address of the table was last seen at the latest of
      all its sightings: at least each of them, and one of them. */
  lemma LastSeenIsMaximum(s: System, run: seq<Choice>, a: Address)
    requires Initial(s) && Finished(Run(s, run))
    ensures a in Run(s, run).table <==> a in s.table || exists i :: 0 <= i < |s.workers| && a in s.workers[i].latest
    ensures a in Run(s, run).table ==>
      var last := Run(s, run).table[a].lastSeen;
      && Seen(s.table, s.workers, a, last)
      && (forall seenAt :: Seen(s.table, s.workers, a, seenAt) ==> seenAt <= last)
  {
    hide Run;
    RunInv(s, run);
    var end := Run(s, run);
    assert forall i :: 0 <= i < |s.workers| ==> WorkerOk(end.workers[i], end.table) && Done(end.workers[i]);
    if a in end.table {
      assert RowOk(s.table, end.workers, a, end.table[a]);
      assert forall seenAt :: Seen(s.table, s.workers, a, seenAt) <==> Seen(s.table, end.workers, a, seenAt);
    }
  }

  /** A batch that runs alone has the effect of one step. */
  lemma AloneIsRecorded(s: System, run: seq<Choice>)
    requires Initial(s) && |s.workers| == 1 && Finished(Run(s, run))
    ensures Run(s, run).table == Recorded(s.table, s.workers[0].latest)
  {
    var end, latest := Run(s, run), s.workers[0].latest;
    forall a ensures a in end.table <==> a in Recorded(s.table, latest)
             ensures a in end.table ==> end.table[a] == Recorded(s.table, latest)[a]
    {
      AloneIsRecordedAt(s, run, a);
    }
  }

  lemma AloneIsRecordedAt(s: System, run: seq<Choice>, a: Address)
    requires Initial(s) && |s.workers| == 1 && Finished(Run(s, run))
    ensures var end, latest := Run(s, run), s.workers[0].latest;
            && (a in end.table <==> a in s.table || a in latest)
            && (a in end.table ==> end.table[a] == Recorded(s.table, latest)[a])
  {
    hide Run, WorkerOk;
    RunInv(s, run);
    LastSeenIsMaximum(s, run, a);
    var end, latest := Run(s, run), s.workers[0].latest;
    if a in end.table {
      assert RowOk(s.table, end.workers, a, end.table[a]);
      assert a in latest ==> Seen(s.table, s.workers, a, latest[a]);
      assert a in s.table ==> Seen(s.table, s.workers, a, s.table[a].lastSeen);
    }
  }

  // ---- What gets queued ------------------------------------------------------------

  /** The worker has queued `a` (`sent`), or at least will. */
  predicate Queues(w: Worker, a: Address, sent: bool)
  {
    a in w.newly && (sent ==> w.phase.Dispatching? && a !in w.todo)
  }

  function Count(ws: seq<Worker>, a: Address, sent: bool): nat
  {
    if ws == [] then 0
    else Count(ws[..|ws| - 1], a, sent) + if Queues(ws[|ws| - 1], a, sent) then 1 else 0
  }

  lemma {:induction false} CountUpdate(ws: seq<Worker>, i: nat, w: Worker, a: Address, sent: bool)
    requires i < |ws|
    ensures Count(ws[i := w], a, sent) + (if Queues(ws[i], a, sent) then 1 else 0)
         == Count(ws, a, sent) + if Queues(w, a, sent) then 1 else 0
  {
    hide Queues;
    var init, init' := ws[..|ws| - 1], ws[i := w][..|ws| - 1];
    if i < |ws| - 1 {
      assert init' == init[i := w];
      CountUpdate(init, i, w, a, sent);
    } else {
      assert init' == init;
    }
  }

  lemma {:induction false} CountPositive(ws: seq<Worker>, i: nat, a: Address, sent: bool)
    requires i < |ws| && Queues(ws[i], a, sent)
    ensures Count(ws, a, sent) >= 1
  {
    hide Queues;
    if i < |ws| - 1 {
      CountPositive(ws[..|ws| - 1], i, a, sent);
    }
  }

  lemma {:induction false} CountDone(ws: seq<Worker>, a: Address)
    requires forall i :: 0 <= i < |ws| ==> Done(ws[i])
    ensures Count(ws, a, true) == Count(ws, a, false)
  {
    if ws != [] {
      CountDone(ws[..|ws| - 1], a);
    }
  }

  /** Step k of the run is the first query of a batch that holds `a`, and finds no row for it. */
  ghost predicate Misses(s: System, run: seq<Choice>, k: int, a: Address)
  {
    0 <= k < |run| && MissesNow(Run(s, run[..k]), run[k].worker, a)
  }

  ghost predicate MissesNow(mid: System, worker: nat, a: Address)
  {
    && worker < |mid.workers| && mid.workers[worker].phase.Fetching?
    && a in mid.workers[worker].latest && a !in mid.table
  }

  ghost function MissCount(s: System, run: seq<Choice>, a: Address, k: nat): nat
    requires k <= |run|
  {
    if k == 0 then 0 else MissCount(s, run, a, k - 1) + if Misses(s, run, k - 1, a) then 1 else 0
  }

  lemma StepQueues(w: Worker, t: IpRows, c: Address, a: Address)
    requires WorkerOk(w, t)
    ensures var (w', t', queued) := WorkerStep(w, t, c);
      && (Queues(w', a, false) <==> Queues(w, a, false) || (w.phase.Fetching? && a in w.latest && a !in t))
      && (w.phase.Fetching? ==> !Queues(w, a, false))
      && (Queues(w, a, true) ==> Queues(w', a, true))
      && multiset(queued)[a] == (if Queues(w', a, true) && !Queues(w, a, true) then 1 else 0)
  {
  }

  lemma {:induction false} QueueCounts(s: System, run: seq<Choice>, a: Address)
    requires Initial(s)
    ensures multiset(Run(s, run).queue)[a] == Count(Run(s, run).workers, a, true)
    ensures MissCount(s, run, a, |run|) == Count(Run(s, run).workers, a, false)
  {
    if run == [] {
      NothingCounted(s.workers, a);
    } else {
      var init, c := run[..|run| - 1], run[|run| - 1];
      var mid := Run(s, init);
      QueueCounts(s, init, a);
      MissCountPrefix(s, run, init, a, |init|);
      RunInv(s, init);
      QueueStep(mid, c, a, s.table);
    }
  }

  lemma QueueStep(mid: System, c: Choice, a: Address, t0: IpRows)
    requires Inv(t0, mid)
    requires multiset(mid.queue)[a] == Count(mid.workers, a, true)
    ensures multiset(Step(mid, c).queue)[a] == Count(Step(mid, c).workers, a, true)
    ensures Count(Step(mid, c).workers, a, false)
        == Count(mid.workers, a, false) + if MissesNow(mid, c.worker, a) then 1 else 0
  {
    hide WorkerStep, Queues, Count, WorkerOk;
    if c.worker < |mid.workers| {
      var w := mid.workers[c.worker];
      var (w', t', queued) := WorkerStep(w, mid.table, c.address);
      StepQueues(w, mid.table, c.address, a);
      CountUpdate(mid.workers, c.worker, w', a, true);
      CountUpdate(mid.workers, c.worker, w', a, false);
      assert multiset(mid.queue + queued) == multiset(mid.queue) + multiset(queued);
    }
  }

  lemma {:induction false} NothingCounted(ws: seq<Worker>, a: Address)
    requires forall i :: 0 <= i < |ws| ==> ws[i].newly == {}
    ensures Count(ws, a, true) == 0 && Count(ws, a, false) == 0
  {
    if ws != [] {
      NothingCounted(ws[..|ws| - 1], a);
    }
  }

  lemma {:induction false} MissCountPrefix(s: System, run: seq<Choice>, init: seq<Choice>, a: Address, k: nat)
    requires init <= run && k <= |init|
    ensures MissCount(s, run, a, k) == MissCount(s, init, a, k)
  {
    if k > 0 {
      MissCountPrefix(s, run, init, a, k - 1);
      assert run[..k - 1] == init[..k - 1];
    }
  }

  lemma {:induction false} MissCountPairs(s: System, run: seq<Choice>, a: Address, n: nat)
    requires n <= |run|
    ensures MissCount(s, run, a, n) == 0 <==> forall k :: 0 <= k < n ==> !Misses(s, run, k, a)
    ensures MissCount(s, run, a, n) <= 1 <==>
        forall j, k :: 0 <= j < k < n ==> !Misses(s, run, j, a) || !Misses(s, run, k, a)
  {
    hide Misses;
    if n > 0 {
      MissCountPairs(s, run, a, n - 1);
    }
  }

  /** Every address a run creates a row for is queued at least once by the time all batches are
      through; exactly as often as first queries missed it, so exactly once if and only if no
      two batches ran their first query for it before its row existed; and an address that
      had a row is never queued. */
  lemma DispatchedExactlyOnceIff(s: System, run: seq<Choice>, a: Address)
    requires Initial(s) && Finished(Run(s, run))
    ensures multiset(Run(s, run).queue)[a] == MissCount(s, run, a, |run|)
    ensures a in s.table ==> multiset(Run(s, run).queue)[a] == 0
    ensures a in Run(s, run).table && a !in s.table ==>
      && multiset(Run(s, run).queue)[a] >= 1
      && (multiset(Run(s, run).queue)[a] == 1 <==>
            forall j, k :: 0 <= j < k < |run| ==> !Misses(s, run, j, a) || !Misses(s, run, k, a))
  {
    hide Misses;
    var end := Run(s, run);
    QueueCounts(s, run, a);
    CountDone(end.workers, a);
    MissCountPairs(s, run, a, |run|);
    RunInv(s, run);
    if a in s.table {
      forall k | 0 <= k < |run| ensures !Misses(s, run, k, a) {
        HadRow(s, run, k, a);
      }
    } else if a in end.table {
      assert RowOk(s.table, end.workers, a, end.table[a]);
      var i :| 0 <= i < |end.workers| && a in end.workers[i].newly;
      CountPositive(end.workers, i, a, false);
    }
  }

  /** The worker's first query missed the address, and it has not queued it. */
  predicate Owes(w: Worker, a: Address)
  {
    Queues(w, a, false) && !Queues(w, a, true)
  }

  function CountOwing(ws: seq<Worker>, a: Address): nat
  {
    if ws == [] then 0 else CountOwing(ws[..|ws| - 1], a) + if Owes(ws[|ws| - 1], a) then 1 else 0
  }

  lemma {:induction false} CountSplit(ws: seq<Worker>, a: Address)
    ensures Count(ws, a, false) == Count(ws, a, true) + CountOwing(ws, a)
    ensures Count(ws, a, true) == 0 <==> forall i :: 0 <= i < |ws| ==> !Queues(ws[i], a, true)
  {
    hide Queues;
    assert ws != [] && Queues(ws[|ws| - 1], a, true) ==> Queues(ws[|ws| - 1], a, false) by { SentIsQueued(ws, a); }
    if ws != [] {
      var init := ws[..|ws| - 1];
      CountSplit(init, a);
      assert forall i :: 0 <= i < |init| ==> init[i] == ws[i];
    }
  }

  lemma SentIsQueued(ws: seq<Worker>, a: Address)
    ensures forall i :: 0 <= i < |ws| && Queues(ws[i], a, true) ==> Queues(ws[i], a, false)
  {
  }

  /** When workers may die anywhere, which is to take no further step: an address is queued as
      often as first queries missed it, less the workers that died before they queued it; and a
      created address is never queued exactly when all of them did. A later batch does not make up
      for it, because its query finds the row. */
  lemma QueuedDespiteDeaths(s: System, run: seq<Choice>, a: Address)
    requires Initial(s)
    ensures var end := Run(s, run);
      && multiset(end.queue)[a] + CountOwing(end.workers, a) == MissCount(s, run, a, |run|)
      && (multiset(end.queue)[a] == 0 <==>
           forall i :: 0 <= i < |end.workers| && a in end.workers[i].newly ==> Owes(end.workers[i], a))
      && (a in end.table && a !in s.table ==> exists i :: 0 <= i < |end.workers| && a in end.workers[i].newly)
  {
    hide Misses, MissCount, Run, Count, CountOwing;
    QueueCounts(s, run, a);
    CountSplit(Run(s, run).workers, a);
    CreatedByMissing(s, run, a);
  }

  lemma CreatedByMissing(s: System, run: seq<Choice>, a: Address)
    requires Initial(s)
    ensures var end := Run(s, run);
      a in end.table && a !in s.table ==> exists i :: 0 <= i < |end.workers| && a in end.workers[i].newly
  {
    var end := Run(s, run);
    RunInv(s, run);
    if a in end.table && a !in s.table {
      assert RowOk(s.table, end.workers, a, end.table[a]);
    }
  }

  lemma HadRow(s: System, run: seq<Choice>, k: nat, a: Address)
    requires Initial(s) && k < |run| && a in s.table
    ensures !Misses(s, run, k, a)
  {
    RunInv(s, run[..k]);
  }

  /** Two batches with the same new address that both query first: whatever happens next, the
      address is queued twice, against the "exactly once" of the method's documentation. */
  lemma QueriedTwiceIsQueuedTwice(s: System, rest: seq<Choice>, a: Address)
    requires Initial(s) && |s.workers| == 2 && a !in s.table
    requires a in s.workers[0].latest && a in s.workers[1].latest
    requires Finished(Run(s, [Choice(0, a), Choice(1, a)] + rest))
    ensures multiset(Run(s, [Choice(0, a), Choice(1, a)] + rest).queue)[a] >= 2
  {
    var run := [Choice(0, a), Choice(1, a)] + rest;
    assert run[..0] == [] && run[..1] == [Choice(0, a)] && run[..1][..0] == [];
    assert Misses(s, run, 0, a);
    assert Run(s, run[..1]) == Step(s, Choice(0, a));
    assert Misses(s, run, 1, a);
    LastSeenIsMaximum(s, run, a);
    DispatchedExactlyOnceIff(s, run, a);
  }

  /** If `worker` is about to begin, every other batch has either finished or not begun. */
  ghost predicate Quiet(mid: System, worker: nat)
  {
    worker < |mid.workers| && mid.workers[worker].phase.Fetching? ==>
      forall i :: 0 <= i < |mid.workers| && i != worker ==> mid.workers[i].phase.Fetching? || Done(mid.workers[i])
  }

  lemma {:induction false} NeverFetchesAgain(s: System, run: seq<Choice>, k: nat, i: nat)
    requires k <= |run| && i < |Run(s, run[..k]).workers| && !Run(s, run[..k]).workers[i].phase.Fetching?
    ensures i < |Run(s, run).workers| && !Run(s, run).workers[i].phase.Fetching?
    decreases |run|
  {
    if k < |run| {
      var init := run[..|run| - 1];
      assert init[..k] == run[..k];
      NeverFetchesAgain(s, init, k, i);
    } else {
      assert run[..k] == run;
    }
  }

  /** Batches that run one after another queue every address they create a row for exactly once. */
  lemma SerialBatchesDispatchOnce(s: System, run: seq<Choice>, a: Address)
    requires Initial(s) && Finished(Run(s, run))
    requires forall k :: 0 <= k < |run| ==> Quiet(Run(s, run[..k]), run[k].worker)
    requires a in Run(s, run).table && a !in s.table
    ensures multiset(Run(s, run).queue)[a] == 1
  {
    hide Run, Misses;
    DispatchedExactlyOnceIff(s, run, a);
    forall j, k | 0 <= j < k < |run| ensures !Misses(s, run, j, a) || !Misses(s, run, k, a) {
      if Misses(s, run, j, a) {
        MissedOnlyOnce(s, run, j, k, a);
      }
    }
  }

  lemma FetchedBefore(s: System, run: seq<Choice>, j: nat, k: nat, a: Address)
    requires Initial(s) && j < k <= |run| && Misses(s, run, j, a)
    ensures var mid, i := Run(s, run[..k]), run[j].worker;
            i < |mid.workers| && a in mid.workers[i].latest && !mid.workers[i].phase.Fetching?
  {
    var before, upto, i := run[..j], run[..k], run[j].worker;
    assert upto[..j + 1] == run[..j + 1] && run[..j + 1][..j] == before && run[..j + 1][j] == run[j];
    RunInv(s, before);
    RunInv(s, upto);
    assert Run(s, upto[..j + 1]) == Step(Run(s, before), run[j]);
    NeverFetchesAgain(s, upto, j + 1, i);
  }

  lemma MissedOnlyOnce(s: System, run: seq<Choice>, j: nat, k: nat, a: Address)
    requires Initial(s) && j < k < |run| && Misses(s, run, j, a)
    requires Quiet(Run(s, run[..k]), run[k].worker)
    ensures !Misses(s, run, k, a)
  {
    FetchedBefore(s, run, j, k, a);
    hide Run;
    RunInv(s, run[..k]);
    var mid, i := Run(s, run[..k]), run[j].worker;
    assert WorkerOk(mid.workers[i], mid.table);
  }

  // ---- The method ------------------------------------------------------------------

  datatype Sighting = Sighting(raw: string, seenAt: int)

  /** Address normalisation: None where Python raises ValueError. */
  type Normalizer = string -> Option<Address>

  predicate Valid(sightings: seq<Sighting>, norm: Normalizer)
  {
    forall i :: 0 <= i < |sightings| ==> norm(sightings[i].raw).Some?
  }

  function LatestOf(sightings: seq<Sighting>, norm: Normalizer): map<Address, int>
    requires Valid(sightings, norm)
  {
    if sightings == [] then map[]
    else
      var before, s := LatestOf(sightings[..|sightings| - 1], norm), sightings[|sightings| - 1];
      var a := norm(s.raw).value;
      if a !in before || s.seenAt > before[a] then before[a := s.seenAt] else before
  }

  /** The latest sighting of an address is one of its sightings, and none is later. */
  lemma {:induction false} LatestOfIsLatest(sightings: seq<Sighting>, norm: Normalizer, a: Address)
    requires Valid(sightings, norm)
    ensures a in LatestOf(sightings, norm) <==> exists i :: 0 <= i < |sightings| && norm(sightings[i].raw).value == a
    ensures a in LatestOf(sightings, norm) ==>
      && (exists i :: 0 <= i < |sightings| && norm(sightings[i].raw).value == a
           && sightings[i].seenAt == LatestOf(sightings, norm)[a])
      && (forall i :: 0 <= i < |sightings| && norm(sightings[i].raw).value == a ==>
           sightings[i].seenAt <= LatestOf(sightings, norm)[a])
  {
    if sightings != [] {
      var init, s := sightings[..|sightings| - 1], sightings[|sightings| - 1];
      LatestOfIsLatest(init, norm, a);
      assert forall i :: 0 <= i < |init| ==> init[i] == sightings[i];
      if a in LatestOf(init, norm) {
        var i :| 0 <= i < |init| && norm(init[i].raw).value == a && init[i].seenAt == LatestOf(init, norm)[a];
        assert norm(sightings[i].raw).value == a;
      }
    }
  }

  /** The table of addresses and the queue of addresses to process. */
  class IpTable {
    var rows: IpRows
    var queue: seq<Address>

    constructor ()
      ensures rows == map[] && queue == []
    {
      rows, queue := map[], [];
    }

    /** A batch that no other worker interrupts. None is the ValueError of an invalid address. */
    method RecordSightingsBulk(sightings: seq<Sighting>, norm: Normalizer) returns (result: Option<IpRows>)
      modifies this
      ensures result.Some? <==> Valid(sightings, norm)
      ensures result.None? ==> rows == old(rows) && queue == old(queue)
      ensures result.Some? ==>
        var latest := LatestOf(sightings, norm);
        && rows == Recorded(old(rows), latest)
        && result.value == Restrict(rows, latest.Keys)
        && old(queue) <= queue
        && multiset(queue[|old(queue)|..]) == multiset(Missing(old(rows), latest))
    {
      var ok, latest, order := LatestSightings(sightings, norm);
      if !ok {
        return None;
      }
      var existing, newly := Restrict(rows, latest.Keys), Missing(rows, latest);
      assert latest.Keys <= rows.Keys + newly;
      if newly != {} {
        rows := Insert(rows, latest, newly);
        existing := Restrict(rows, latest.Keys);
      }
      existing := UpdateLastSeen(latest, order, existing);
      Bumped(old(rows), latest, order);
      Dispatch(newly);
      return Some(existing);
    }

    /** The dictionary of latest sightings and its keys in insertion order. */
    static method LatestSightings(sightings: seq<Sighting>, norm: Normalizer)
      returns (ok: bool, latest: map<Address, int>, order: seq<Address>)
      ensures ok <==> Valid(sightings, norm)
      ensures ok ==> latest == LatestOf(sightings, norm) && forall a :: a in order <==> a in latest
    {
      latest, order := map[], [];
      for i := 0 to |sightings|
        invariant Valid(sightings[..i], norm) && latest == LatestOf(sightings[..i], norm)
        invariant forall a :: a in order <==> a in latest
      {
        assert sightings[..i + 1][..i] == sightings[..i];
        var address := norm(sightings[i].raw);
        if address.None? {
          return false, latest, order;
        }
        if address.value !in latest {
          order := order + [address.value];
        }
        if address.value !in latest || sightings[i].seenAt > latest[address.value] {
          latest := latest[address.value := sightings[i].seenAt];
        }
      }
      assert sightings[..|sightings|] == sightings;
      ok := true;
    }

    method UpdateLastSeen(latest: map<Address, int>, order: seq<Address>, fetched: IpRows) returns (existing: IpRows)
      requires latest.Keys <= rows.Keys && fetched == Restrict(rows, latest.Keys)
      requires forall a :: a in order ==> a in latest
      modifies this`rows
      ensures rows == BumpEach(old(rows), latest, order)
      ensures existing == Restrict(rows, latest.Keys)
    {
      existing := fetched;
      for i := 0 to |order|
        invariant rows == BumpEach(old(rows), latest, order[..i])
        invariant existing == Restrict(rows, latest.Keys) && latest.Keys <= rows.Keys
      {
        var a := order[i];
        assert order[..i + 1][..i] == order[..i];
        if latest[a] > existing[a].lastSeen {
          rows := Bump(rows, a, latest[a]);
          existing := existing[a := existing[a].(lastSeen := latest[a])];
        }
      }
      assert order[..|order|] == order;
    }

    method Dispatch(newly: set<Address>)
      modifies this`queue
      ensures old(queue) <= queue
      ensures multiset(queue[|old(queue)|..]) == multiset(newly)
    {
      var todo := newly;
      while todo != {}
        invariant todo <= newly && old(queue) <= queue
        invariant multiset(queue[|old(queue)|..]) + multiset(todo) == multiset(newly)
        decreases todo
      {
        var a :| a in todo;
        todo := todo - {a};
        assert (queue + [a])[|old(queue)|..] == queue[|old(queue)|..] + [a];
        queue := queue + [a];
      }
    }
  }

  /** The conditional updates of the batch, one address after another. */
  function BumpEach(table: IpRows, latest: map<Address, int>, order: seq<Address>): IpRows
    requires forall a :: a in order ==> a in latest
  {
    if order == [] then table
    else
      var a := order[|order| - 1];
      Bump(BumpEach(table, latest, order[..|order| - 1]), a, latest[a])
  }

  lemma {:induction false} BumpEachAt(table: IpRows, latest: map<Address, int>, order: seq<Address>, a: Address)
    requires forall b :: b in order ==> b in latest
    ensures a in BumpEach(table, latest, order) <==> a in table
    ensures a in table ==> (BumpEach(table, latest, order)[a] ==
      if a in order then table[a].(lastSeen := Max(table[a].lastSeen, latest[a])) else table[a])
  {
    if order != [] {
      BumpEachAt(table, latest, order[..|order| - 1], a);
    }
  }

  /** Insert-if-absent and then the conditional updates, in any order, are the whole effect. */
  lemma Bumped(table: IpRows, latest: map<Address, int>, order: seq<Address>)
    requires forall a :: a in order <==> a in latest
    ensures BumpEach(Insert(table, latest, Missing(table, latest)), latest, order) == Recorded(table, latest)
    ensures Missing(table, latest) == {} ==> BumpEach(table, latest, order) == Recorded(table, latest)
  {
    var inserted := Insert(table, latest, Missing(table, latest));
    forall a ensures a in BumpEach(inserted, latest, order) <==> a in Recorded(table, latest)
             ensures a in Recorded(table, latest) ==>
                 BumpEach(inserted, latest, order)[a] == Recorded(table, latest)[a] {
      BumpEachAt(inserted, latest, order, a);
    }
    if Missing(table, latest) == {} {
      assert inserted == table;
    }
  }
}
