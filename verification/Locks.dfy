/** `redis_lock`: add-if-absent with an expiry on the way in, an unconditional delete on the way
    out, by any number of workers on any keys. */
module Locks {
  type Key = string

  /** When each key expires; an expired key is as good as absent. */
  type Entries = map<Key, int>

  predicate Live(cache: Entries, key: Key, now: int)
  {
    key in cache && now < cache[key]
  }

  /** The cache after an attempt to enter: from then on, at any time, the key is taken if the
      attempt succeeded and its timeout still runs, or if it was taken anyway; other keys are as
      they were. */
  function Entered(cache: Entries, key: Key, timeout: nat, now: int): (r: Entries)
    ensures forall k, t :: t >= now ==>
      (Live(r, k, t) <==> Live(cache, k, t) || (k == key && !Live(cache, key, now) && t < now + timeout))
  {
    if Live(cache, key, now) then cache else cache[key := now + timeout]
  }

  /** The cache after leaving: the key is free at any time, whoever had taken it. */
  function Left(cache: Entries, key: Key): (r: Entries)
    ensures forall k, t :: Live(r, k, t) <==> Live(cache, k, t) && k != key
  {
    cache - {key}
  }

  class SharedCache {
    var entries: Entries

    /** SET NX EX */
    method Add(key: Key, timeout: nat, now: int) returns (added: bool)
      modifies this
      ensures added <==> !Live(old(entries), key, now)
      ensures entries == Entered(old(entries), key, timeout, now)
    {
      added := !Live(entries, key, now);
      if added {
        entries := entries[key := now + timeout];
      }
    }

    method Delete(key: Key)
      modifies this
      ensures entries == Left(old(entries), key)
    {
      entries := entries - {key};
    }

    /** Entering the context: false is LockHeldError. */
    method Enter(key: Key, timeout: nat, now: int) returns (entered: bool)
      modifies this
      ensures entered <==> !Live(old(entries), key, now)
      ensures entries == Entered(old(entries), key, timeout, now)
    {
      entered := Add(key, timeout, now);
    }

    /** Leaving it, normally or by an exception. */
    method Exit(key: Key)
      modifies this
      ensures entries == Left(old(entries), key)
    {
      Delete(key);
    }
  }

  // ---- Any number of workers -------------------------------------------------------

  /** A worker inside the lock, and when its own entry expires. */
  datatype Hold = Hold(key: Key, deadline: int)

  /** `owners` says who wrote an entry, which the entries themselves do not; `crashed` are the
      holds that were never released. */
  datatype System = System(cache: Entries, owners: map<Key, nat>, inside: map<nat, Hold>, crashed: set<Hold>,
      clock: int)

  datatype Step = Enter(worker: nat, key: Key, timeout: nat) | Exit(worker: nat) | Crash(worker: nat) | Tick(time: nat)

  function Next(s: System, step: Step): System
  {
    match step
    case Enter(w, key, timeout) =>
      if w in s.inside || Live(s.cache, key, s.clock) then s
      else s.(cache := Entered(s.cache, key, timeout, s.clock), owners := s.owners[key := w],
              inside := s.inside[w := Hold(key, s.clock + timeout)])
    case Exit(w) =>
      if w !in s.inside then s
      else s.(cache := Left(s.cache, s.inside[w].key), owners := s.owners - {s.inside[w].key}, inside := s.inside - {w})
    case Crash(w) =>
      if w !in s.inside then s else s.(inside := s.inside - {w}, crashed := s.crashed + {s.inside[w]})
    case Tick(time) => s.(clock := s.clock + time)
  }

  function Run(s: System, run: seq<Step>): System
  {
    if run == [] then s else Next(Run(s, run[..|run| - 1]), run[|run| - 1])
  }

  /** Nobody inside has reached its deadline. */
  ghost predicate OnTime(s: System)
  {
    forall w :: w in s.inside ==> s.clock < s.inside[w].deadline
  }

  /** Each holder leaves or crashes before its timeout. */
  ghost predicate Timely(s: System, run: seq<Step>)
  {
    forall k :: 0 <= k <= |run| ==> OnTime(Run(s, run[..k]))
  }

  ghost predicate Initial(s: System)
  {
    s.cache == map[] && s.owners == map[] && s.inside == map[] && s.crashed == {}
  }

  /** Whoever is inside owns the live entry of its key; every entry was written by somebody who
      is still inside or has crashed. */
  ghost predicate Inv(s: System)
  {
    && s.owners.Keys == s.cache.Keys
    && (forall w :: w in s.inside ==>
          && s.inside[w].key in s.cache && s.owners[s.inside[w].key] == w
          && s.cache[s.inside[w].key] == s.inside[w].deadline)
    && (forall key :: key in s.cache ==>
          || (s.owners[key] in s.inside && s.inside[s.owners[key]].key == key)
          || Hold(key, s.cache[key]) in s.crashed)
    && (forall h :: h in s.crashed && s.clock < h.deadline ==>
          && h.key in s.cache && s.cache[h.key] == h.deadline
          && forall w :: w in s.inside ==> s.inside[w].key != h.key)
  }

  lemma NextInv(s: System, step: Step)
    requires Inv(s) && OnTime(s)
    ensures Inv(Next(s, step))
  {
    match step {
      case Enter(w, key, timeout) => EnterInv(s, w, key, timeout);
      case Exit(w) => ExitInv(s, w);
      case _ =>
    }
  }

  lemma EnterInv(s: System, w: nat, key: Key, timeout: nat)
    requires Inv(s) && OnTime(s)
    ensures Inv(Next(s, Enter(w, key, timeout)))
  {
  }

  lemma ExitInv(s: System, w: nat)
    requires Inv(s)
    ensures Inv(Next(s, Exit(w)))
  {
  }

  lemma {:induction false} RunInv(s: System, run: seq<Step>)
    requires Initial(s) && Timely(s, run)
    ensures Inv(Run(s, run)) && OnTime(Run(s, run))
  {
    hide Next, OnTime, Inv;
    assert run[..|run|] == run;
    if run == [] {
      assert Inv(s) by { InitialInv(s); }
    } else {
      var init := run[..|run| - 1];
      forall k | 0 <= k <= |init| ensures OnTime(Run(s, init[..k])) {
        assert init[..k] == run[..k];
      }
      RunInv(s, init);
      NextInv(Run(s, init), run[|run| - 1]);
    }
  }

  lemma InitialInv(s: System)
    requires Initial(s)
    ensures Inv(s)
  {
  }

  /** No two workers are ever inside the same key, and leaving deletes only the worker's own
      entry. */
  lemma MutualExclusion(s: System, run: seq<Step>)
    requires Initial(s) && Timely(s, run)
    ensures var t := Run(s, run);
      && (forall v, w :: v in t.inside && w in t.inside && v != w ==> t.inside[v].key != t.inside[w].key)
      && (forall w :: w in t.inside ==> t.inside[w].key in t.owners && t.owners[t.inside[w].key] == w)
  {
    hide Run;
    RunInv(s, run);
  }

  /** A worker that is not inside gets in exactly when nobody is inside the key and no crashed
      holder's timeout is still running: a crash blocks a key until its timeout and no longer. */
  lemma EntersIff(s: System, run: seq<Step>, worker: nat, key: Key, timeout: nat)
    requires Initial(s) && Timely(s, run) && worker !in Run(s, run).inside
    ensures var t := Run(s, run);
      worker in Next(t, Enter(worker, key, timeout)).inside <==>
        && (forall w :: w in t.inside ==> t.inside[w].key != key)
        && (forall h :: h in t.crashed && h.key == key ==> h.deadline <= t.clock)
  {
    hide Run;
    RunInv(s, run);
    var t := Run(s, run);
    if Live(t.cache, key, t.clock) {
      var w, h := t.owners[key], Hold(key, t.cache[key]);
      assert (w in t.inside && t.inside[w].key == key) || h in t.crashed;
      assert h.key == key && h.deadline == t.cache[key];
    }
  }

  /** No two workers are inside one key. */
  ghost predicate Exclusive(t: System)
  {
    forall v, w :: v in t.inside && w in t.inside && v != w ==> t.inside[v].key != t.inside[w].key
  }

  /** Whoever tries to enter whatever key next, no two workers get inside one. */
  ghost predicate StaysExclusive(t: System)
  {
    forall w: nat, key, timeout: nat :: Exclusive(Next(t, Enter(w, key, timeout)))
  }

  /** Exclusion can be relied on exactly in the runs in which holders leave or crash before their
      timeout: a run is such a run if and only if at none of its points anybody's attempt to
      enter could put two workers inside one key. */
  lemma TimelyIffExclusive(s: System, run: seq<Step>)
    requires Initial(s)
    ensures Timely(s, run) <==> forall k :: 0 <= k <= |run| ==> StaysExclusive(Run(s, run[..k]))
  {
    hide Run, StaysExclusive, OnTime;
    if Timely(s, run) {
      forall k | 0 <= k <= |run| ensures StaysExclusive(Run(s, run[..k])) {
        TimelyPrefix(s, run, k);
        RunInv(s, run[..k]);
        InvStaysExclusive(Run(s, run[..k]));
      }
    } else {
      var k := FirstLate(s, run);
      LateBreaks(Run(s, run[..k]));
    }
  }

  lemma TimelyPrefix(s: System, run: seq<Step>, k: nat)
    requires Timely(s, run) && k <= |run|
    ensures Timely(s, run[..k])
  {
    hide Run, OnTime;
    forall j | 0 <= j <= k ensures OnTime(Run(s, run[..k][..j])) {
      assert run[..k][..j] == run[..j];
    }
  }

  lemma InvStaysExclusive(t: System)
    requires Inv(t) && OnTime(t)
    ensures StaysExclusive(t)
  {
    forall w: nat, key, timeout: nat ensures Exclusive(Next(t, Enter(w, key, timeout))) {
      EnterInv(t, w, key, timeout);
      hide Next;
    }
  }

  /** The first point of a run at which somebody inside has reached its deadline. */
  lemma {:induction false} FirstLate(s: System, run: seq<Step>) returns (k: nat)
    requires Initial(s) && !Timely(s, run)
    ensures k <= |run| && Inv(Run(s, run[..k])) && !OnTime(Run(s, run[..k]))
  {
    hide Next, OnTime, Inv;
    assert run[..|run|] == run;
    if run == [] {
      k := 0;
      InitialInv(s);
    } else {
      var init := run[..|run| - 1];
      assert forall j :: 0 <= j <= |init| ==> init[..j] == run[..j];
      if Timely(s, init) {
        k := |run|;
        RunInv(s, init);
        NextInv(Run(s, init), run[|run| - 1]);
      } else {
        k := FirstLate(s, init);
      }
    }
  }

  /** Beside a holder past its deadline anybody gets in. */
  lemma LateBreaks(t: System)
    requires Inv(t) && !OnTime(t)
    ensures !StaysExclusive(t)
  {
    var late :| late in t.inside && t.clock >= t.inside[late].deadline;
    var other := Outsider(t.inside.Keys);
    var z := Next(t, Enter(other, t.inside[late].key, 1));
    assert other in z.inside && late in z.inside && z.inside[other].key == z.inside[late].key;
    assert !Exclusive(z);
  }

  lemma {:induction false} Outsider(workers: set<nat>) returns (w: nat)
    ensures w !in workers && forall v :: v in workers ==> v < w
  {
    if workers == {} {
      w := 0;
    } else {
      var v :| v in workers;
      var u := Outsider(workers - {v});
      assert forall x :: x in workers ==> x == v || x in workers - {v};
      w := if v < u then u else v + 1;
    }
  }

  /** Two workers inside one key, the first of them within its own timeout. */
  ghost predicate Overlap(t: System)
  {
    && 1 in t.inside && 2 in t.inside && t.inside[1].key == t.inside[2].key
    && t.clock < t.inside[1].deadline
  }

  /** A holder that overstays, on any key with any timeout: a second worker enters, the first
      one's exit deletes the second one's entry, and a third enters while the second is inside and
      within its own timeout. */
  lemma OverstayingBreaksIt(s: System, key: Key, timeout: nat)
    requires Initial(s) && timeout >= 1
    ensures exists run :: Overlap(Run(s, run))
  {
    hide Next, Run, Overlap;
    var first, second, third := Enter(0, key, timeout), Enter(1, key, timeout), Enter(2, key, timeout);
    assert Run(s, []) == s by { NoRun(s); }
    RunNext(s, [], first);
    RunNext(s, [] + [first], Tick(timeout));
    RunNext(s, [] + [first] + [Tick(timeout)], second);
    RunNext(s, [] + [first] + [Tick(timeout)] + [second], Exit(0));
    RunNext(s, [] + [first] + [Tick(timeout)] + [second] + [Exit(0)], third);
    SecondEnters(s, key, timeout);
    ThirdEnters(Next(Next(Next(s, first), Tick(timeout)), second), key, timeout);
  }

  lemma NoRun(s: System)
    ensures Run(s, []) == s
  {
  }

  /** The first holder's timeout is over, and the second is inside beside it. */
  ghost predicate Late(t: System, key: Key)
  {
    && 0 in t.inside && 1 in t.inside && 2 !in t.inside && t.inside[0].key == t.inside[1].key == key
    && t.clock < t.inside[1].deadline
  }

  lemma SecondEnters(s: System, key: Key, timeout: nat)
    requires Initial(s) && timeout >= 1
    ensures Late(Next(Next(Next(s, Enter(0, key, timeout)), Tick(timeout)), Enter(1, key, timeout)), key)
  {
  }

  lemma ThirdEnters(t: System, key: Key, timeout: nat)
    requires Late(t, key)
    ensures Overlap(Next(Next(t, Exit(0)), Enter(2, key, timeout)))
  {
    var u := Next(t, Exit(0));
    assert !Live(u.cache, key, u.clock);
  }

  lemma RunNext(s: System, run: seq<Step>, step: Step)
    ensures Run(s, run + [step]) == Next(Run(s, run), step)
  {
    assert (run + [step])[..|run|] == run;
  }
}
