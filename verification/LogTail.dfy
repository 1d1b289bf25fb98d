/** The incremental reader as a function of its saved state and of what one poll finds on
    the server, and what any run of polls delivers. */
module LogTail {
  import opened Common
  import opened Splitting

  type Byte = b: int | 0 <= b < 256

  type Bytes = seq<Byte>

  const NEWLINE: Byte := 10

  /** What one poll finds: no file, or the inode and size that `stat` reports, the file's
      bytes at the moment of the range read, and how many bytes that read hands over at most. */
  datatype Remote = Absent | Present(inode: int, size: nat, content: Bytes, delivered: nat)

  /** The saved reader state: `inode` is None until the first poll is saved. */
  datatype Tail = Tail(inode: Option<int>, offset: nat)

  /** A complete line and the byte position it starts at. */
  datatype Line = Line(at: nat, text: Bytes)

  // ---- Lines of a byte range -------------------------------------------------------

  /** The nonempty ones of consecutive newline-terminated lines, the first starting at `at`. */
  function Place(parts: seq<Bytes>, at: nat): seq<Line>
  {
    if parts == [] then []
    else if parts[0] == [] then Place(parts[1..], at + 1)
    else [Line(at, parts[0])] + Place(parts[1..], at + |parts[0]| + 1)
  }

  function NonEmpty(parts: seq<Bytes>): (r: seq<Bytes>)
    ensures forall p :: p in r ==> p != []
  {
    if parts == [] then []
    else if parts[0] == [] then NonEmpty(parts[1..])
    else [parts[0]] + NonEmpty(parts[1..])
  }

  function Texts(lines: seq<Line>): (r: seq<Bytes>)
    ensures |r| == |lines|
  {
    seq(|lines|, i requires 0 <= i < |lines| => lines[i].text)
  }

  function Terminated(data: Bytes): seq<Bytes>
  {
    var parts := Split(data, NEWLINE);
    parts[..|parts| - 1]
  }

  function Leftover(data: Bytes): Bytes
  {
    var parts := Split(data, NEWLINE);
    parts[|parts| - 1]
  }

  /** The nonempty newline-terminated lines of `data`, whose first byte is at position `at`. */
  function Lines(data: Bytes, at: nat): seq<Line>
  {
    Place(Terminated(data), at)
  }

  /** Every line of `ls` followed by a newline. */
  function Write(ls: seq<Bytes>): Bytes
  {
    if ls == [] then [] else ls[0] + [0x0a] + Write(ls[1..])
  }

  predicate AtBoundary(data: Bytes)
  {
    data == [] || data[|data| - 1] == NEWLINE
  }

  lemma {:induction false} WriteIsJoin(ls: seq<Bytes>, rest: Bytes)
    ensures Write(ls) + rest == Join(ls + [rest], NEWLINE)
  {
    if ls == [] {
      assert [] + [rest] == [rest];
    } else {
      WriteIsJoin(ls[1..], rest);
      assert (ls + [rest])[1..] == ls[1..] + [rest];
      assert Write(ls) + rest == ls[0] + [NEWLINE] + (Write(ls[1..]) + rest);
    }
  }

  /** A file written as the lines `ls` and an unfinished `rest` has exactly these lines:
      what Lines means, without reference to how the reader splits. */
  lemma LinesOfWritten(ls: seq<Bytes>, rest: Bytes, at: nat)
    requires Free(ls, NEWLINE) && NEWLINE !in rest
    ensures Terminated(Write(ls) + rest) == ls && Leftover(Write(ls) + rest) == rest
    ensures Texts(Lines(Write(ls) + rest, at)) == NonEmpty(ls)
  {
    WriteIsJoin(ls, rest);
    assert Free(ls + [rest], NEWLINE);
    SplitJoin(ls + [rest], NEWLINE);
    assert (ls + [rest])[..|ls|] == ls;
    TextsOfPlace(ls, at);
  }

  lemma {:induction false} TextsOfPlace(parts: seq<Bytes>, at: nat)
    ensures Texts(Place(parts, at)) == NonEmpty(parts)
  {
    if parts != [] {
      TextsOfPlace(parts[1..], at + |parts[0]| + 1);
      var rest := Place(parts[1..], at + |parts[0]| + 1);
      assert Texts([Line(at, parts[0])] + rest) == [parts[0]] + Texts(rest);
    }
  }

  /** Cutting the data at its leftover: the terminated lines, written back, then the leftover. */
  lemma CutAtLeftover(data: Bytes)
    ensures |Leftover(data)| <= |data|
    ensures NEWLINE !in Leftover(data)
    ensures data == Write(Terminated(data)) + Leftover(data)
    ensures AtBoundary(data[..|data| - |Leftover(data)|])
    ensures Write(Terminated(data)) == data[..|data| - |Leftover(data)|]
    ensures Free(Terminated(data), NEWLINE)
  {
    hide Split, Write, Join;
    JoinSplit(data, NEWLINE);
    var parts := Split(data, NEWLINE);
    assert parts == Terminated(data) + [Leftover(data)];
    WriteIsJoin(Terminated(data), Leftover(data));
    WriteBoundary(Terminated(data));
    assert Leftover(data) in parts;
    assert data[..|data| - |Leftover(data)|] == Write(Terminated(data));
  }

  lemma {:induction false} WriteBoundary(ls: seq<Bytes>)
    ensures AtBoundary(Write(ls))
  {
    if ls != [] {
      WriteBoundary(ls[1..]);
    }
  }

  lemma {:induction false} PlaceConcat(a: seq<Bytes>, b: seq<Bytes>, at: nat)
    ensures Place(a + b, at) == Place(a, at) + Place(b, at + |Write(a)|)
  {
    if a == [] {
      assert a + b == b;
    } else {
      var next := at + |a[0]| + 1;
      PlaceConcat(a[1..], b, next);
      assert (a + b)[1..] == a[1..] + b;
      assert next + |Write(a[1..])| == at + |Write(a)|;
      if a[0] != [] {
        var head, rest := [Line(at, a[0])], Place(b, at + |Write(a)|);
        assert head + (Place(a[1..], next) + rest) == head + Place(a[1..], next) + rest;
      }
    }
  }

  /** Reading in two pieces cut at a line boundary is reading once. */
  lemma LinesConcat(a: Bytes, b: Bytes, at: nat)
    requires AtBoundary(a)
    ensures Lines(a + b, at) == Lines(a, at) + Lines(b, at + |a|)
  {
    TerminatedConcat(a, b);
    CutAtLeftover(a);
    hide Split, Write;
    PlaceConcat(Terminated(a), Terminated(b), at);
  }

  lemma TerminatedConcat(a: Bytes, b: Bytes)
    requires AtBoundary(a)
    ensures Leftover(a) == []
    ensures Terminated(a + b) == Terminated(a) + Terminated(b)
  {
    if a == [] {
      assert a + b == b;
      assert Split(a, NEWLINE) == [[]];
    } else {
      var a' := a[..|a| - 1];
      assert a == a' + [NEWLINE] + [];
      assert Split<Byte>([], NEWLINE) == [[]];
      assert a + b == a' + [NEWLINE] + b;
      SplitConcat(a', [], NEWLINE);
      SplitConcat(a', b, NEWLINE);
      hide Split;
      var x, y := Split(a', NEWLINE), Split(b, NEWLINE);
      assert (x + [[]])[..|x|] == x;
      assert (x + y)[..|x + y| - 1] == x + y[..|y| - 1];
    }
  }

  lemma LinesOfLeftover(data: Bytes, at: nat)
    requires NEWLINE !in data
    ensures Lines(data, at) == []
  {
    SplitFree(data, NEWLINE);
  }

  /** Lines start at strictly increasing positions inside their range, so no line is listed twice. */
  lemma {:induction false} PlacePositions(parts: seq<Bytes>, at: nat)
    ensures forall l :: l in Place(parts, at) ==> at <= l.at && l.at + |l.text| < at + |Write(parts)|
    ensures forall l :: multiset(Place(parts, at))[l] <= 1
  {
    if parts != [] {
      var next := at + |parts[0]| + 1;
      PlacePositions(parts[1..], next);
      var rest := Place(parts[1..], next);
      forall l ensures multiset(Place(parts, at))[l] <= 1 {
        if parts[0] != [] {
          assert multiset(Place(parts, at)) == multiset{Line(at, parts[0])} + multiset(rest);
          assert l == Line(at, parts[0]) ==> l !in rest;
        } else {
          assert Place(parts, at) == rest;
        }
      }
    }
  }

  lemma LinePositions(data: Bytes, at: nat)
    ensures forall l :: l in Lines(data, at) ==> at <= l.at && l.at + |l.text| < at + |data|
    ensures forall l :: multiset(Lines(data, at))[l] <= 1
  {
    CutAtLeftover(data);
    PlacePositions(Terminated(data), at);
  }

  // ---- One poll --------------------------------------------------------------------

  /** At most `delivered` of the bytes of `content` in [from, from + count). */
  function RangeRead(content: Bytes, from: nat, count: nat, delivered: nat): (data: Bytes)
    ensures |data| <= count && |data| <= delivered
    ensures from <= |content| ==> from + |data| <= |content| && data == content[from..from + |data|]
  {
    if from >= |content| then []
    else content[from..Min(Min(from + count, |content|), from + delivered)]
  }

  /** Where the poll reads from: the end of a file never polled before, the beginning of a
      file with a new inode, else the saved offset clamped to the size. */
  function StartOf(s: Tail, r: Remote): nat
    requires r.Present?
  {
    if s.inode.None? then r.size
    else if s.inode.value != r.inode then 0
    else Min(s.offset, r.size)
  }

  function DataOf(s: Tail, r: Remote): Bytes
    requires r.Present?
  {
    var start := StartOf(s, r);
    if r.size > start then RangeRead(r.content, start, r.size - start, r.delivered) else []
  }

  function Consumed(data: Bytes): int
  {
    |data| - |Leftover(data)|
  }

  function Emitted(s: Tail, r: Remote): seq<Line>
  {
    if r.Absent? then [] else Lines(DataOf(s, r), StartOf(s, r))
  }

  function Advance(s: Tail, r: Remote): Tail
  {
    if r.Absent? then s
    else
      CutAtLeftover(DataOf(s, r));
      Tail(Some(r.inode), StartOf(s, r) + Consumed(DataOf(s, r)))
  }

  // ---- Runs of polls ---------------------------------------------------------------

  /** How far a poll gets: its state is saved, or the worker dies before the events are
      committed, or after the events but before the new offset is. */
  datatype Outcome = Saved | DiedBeforeEvents | DiedBeforeSave

  datatype Attempt = Attempt(remote: Remote, outcome: Outcome)

  /** The saved state, every event row written so far, and how often a worker died between
      the two commits. */
  datatype World = World(tail: Tail, events: seq<Line>, deaths: nat)

  type Parser = Bytes -> bool

  /** The lines the parser accepts, in order. */
  function Parsed(lines: seq<Line>, parses: Parser): seq<Line>
  {
    if lines == [] then []
    else if parses(lines[0].text) then [lines[0]] + Parsed(lines[1..], parses)
    else Parsed(lines[1..], parses)
  }

  lemma {:induction false} ParsedConcat(a: seq<Line>, b: seq<Line>, parses: Parser)
    ensures Parsed(a + b, parses) == Parsed(a, parses) + Parsed(b, parses)
  {
    if a == [] {
      assert a + b == b;
    } else {
      ParsedConcat(a[1..], b, parses);
      var whole, x, y := a + b, Parsed(a[1..], parses), Parsed(b, parses);
      assert whole[0] == a[0] && whole[1..] == a[1..] + b;
      if parses(a[0].text) {
        assert Parsed(whole, parses) == [a[0]] + (x + y);
        assert [a[0]] + (x + y) == ([a[0]] + x) + y;
      } else {
        assert Parsed(whole, parses) == x + y;
      }
    }
  }

  lemma {:induction false} ParsedCounts(lines: seq<Line>, parses: Parser, l: Line)
    ensures multiset(Parsed(lines, parses))[l] == if parses(l.text) then multiset(lines)[l] else 0
  {
    if lines != [] {
      ParsedCounts(lines[1..], parses, l);
      assert lines == [lines[0]] + lines[1..];
    }
  }

  function After(w: World, a: Attempt, parses: Parser): World
  {
    match a.outcome
    case DiedBeforeEvents => w
    case DiedBeforeSave =>
      World(w.tail, w.events + Parsed(Emitted(w.tail, a.remote), parses), w.deaths + 1)
    case Saved =>
      World(Advance(w.tail, a.remote), w.events + Parsed(Emitted(w.tail, a.remote), parses), w.deaths)
  }

  function Run(w: World, run: seq<Attempt>, parses: Parser): World
  {
    if run == [] then w else After(Run(w, run[..|run| - 1], parses), run[|run| - 1], parses)
  }

  lemma {:induction false} RunConcat(w: World, a: seq<Attempt>, b: seq<Attempt>, parses: Parser)
    ensures Run(w, a + b, parses) == Run(Run(w, a, parses), b, parses)
  {
    hide After;
    if b == [] {
      assert a + b == a;
    } else {
      RunConcat(w, a, b[..|b| - 1], parses);
      assert (a + b)[..|a + b| - 1] == a + b[..|b| - 1];
    }
  }

  /** All polls of the run that find the file see one file that only grows: inode `inode`,
      contents that are prefixes of `file`, sizes that never shrink. */
  ghost predicate Grows(run: seq<Attempt>, inode: int, file: Bytes)
  {
    && (forall i :: 0 <= i < |run| && run[i].remote.Present? ==>
          run[i].remote.inode == inode && run[i].remote.size <= |file| && run[i].remote.content <= file)
    && (forall i, j :: 0 <= i < j < |run| && run[i].remote.Present? && run[j].remote.Present? ==>
          run[i].remote.size <= run[j].remote.size)
  }

  /** Where the reader, asked for `inode`, resumes when the file is at least that long. */
  function Resume(s: Tail, inode: int): nat
    requires s.inode.Some?
  {
    if s.inode.value == inode then s.offset else 0
  }

  /** The largest size a poll of the run has seen, and at least `base`. */
  function Reached(run: seq<Attempt>, base: nat): (m: nat)
    ensures m >= base
  {
    if run == [] then base
    else
      var m := Reached(run[..|run| - 1], base);
      var last := run[|run| - 1].remote;
      if last.Present? then Max(m, last.size) else m
  }

  lemma {:induction false} ReachedBound(run: seq<Attempt>, base: nat, bound: nat)
    requires base <= bound
    requires forall i :: 0 <= i < |run| && run[i].remote.Present? ==> run[i].remote.size <= bound
    ensures Reached(run, base) <= bound
  {
    if run != [] {
      ReachedBound(run[..|run| - 1], base, bound);
    }
  }

  /** The bytes a poll of a growing file gets are the file's bytes from the resume point on. */
  lemma PollReads(s: Tail, r: Remote, file: Bytes)
    requires s.inode.Some? && r.Present? && r.content <= file && r.size <= |file|
    requires Resume(s, r.inode) <= r.size
    ensures var from, data := Resume(s, r.inode), DataOf(s, r);
            && StartOf(s, r) == from
            && from + |data| <= r.size && data == file[from..from + |data|]
  {
    var from := Resume(s, r.inode);
    if r.size > from && from < |r.content| {
      var data := DataOf(s, r);
      assert data == r.content[from..from + |data|];
      assert forall i :: from <= i < from + |data| ==> r.content[i] == file[i];
    }
  }

  /** One poll of a growing file, not shorter than the resume point: it emits exactly the
      lines between there and the place it stops, and stops there or just past a newline. */
  lemma PollOnce(s: Tail, r: Remote, file: Bytes)
    requires s.inode.Some? && r.Present? && r.content <= file && r.size <= |file|
    requires Resume(s, r.inode) <= r.size
    ensures Advance(s, r).inode == Some(r.inode)
    ensures Resume(s, r.inode) <= Advance(s, r).offset <= r.size
    ensures var from, to := Resume(s, r.inode), Advance(s, r).offset;
            && Emitted(s, r) == Lines(file[from..to], from)
            && AtBoundary(file[from..to])
  {
    var from, data := Resume(s, r.inode), DataOf(s, r);
    PollReads(s, r, file);
    CutAtLeftover(data);
    CompleteLines(data, from);
    var to := from + Consumed(data);
    assert Advance(s, r) == Tail(Some(r.inode), to);
    assert file[from..to] == data[..Consumed(data)];
  }

  /** The lines of a piece of data all lie before its leftover. */
  lemma CompleteLines(data: Bytes, at: nat)
    ensures |Leftover(data)| <= |data|
    ensures Lines(data, at) == Lines(data[..Consumed(data)], at)
  {
    CutAtLeftover(data);
    var whole, rest := data[..Consumed(data)], Leftover(data);
    assert data == whole + rest;
    LinesConcat(whole, rest, at);
    LinesOfLeftover(rest, at + |whole|);
  }

  /** The lines of a piece of a file, cut at a boundary. */
  lemma LinesCut(file: Bytes, base: nat, from: nat, to: nat)
    requires base <= from <= to <= |file| && AtBoundary(file[base..from])
    ensures Lines(file[base..to], base) == Lines(file[base..from], base) + Lines(file[from..to], from)
    ensures AtBoundary(file[from..to]) ==> AtBoundary(file[base..to])
  {
    hide Lines;
    assert file[base..to] == file[base..from] + file[from..to];
    LinesConcat(file[base..from], file[from..to], base);
  }

  // ---- Exactness -------------------------------------------------------------------

  /** `events` are `before` and then exactly the parseable lines of the file between the
      boundaries `base` and `from`, every one once, in file order. */
  ghost predicate ReadTo(before: seq<Line>, events: seq<Line>, file: Bytes, base: nat, from: nat, parses: Parser)
  {
    && base <= from <= |file|
    && AtBoundary(file[base..from])
    && events == before + Parsed(Lines(file[base..from], base), parses)
  }

  lemma ReadOn(before: seq<Line>, events: seq<Line>, file: Bytes, base: nat, from: nat, to: nat, parses: Parser)
    requires ReadTo(before, events, file, base, from, parses)
    requires from <= to <= |file| && AtBoundary(file[from..to])
    ensures ReadTo(before, events + Parsed(Lines(file[from..to], from), parses), file, base, to, parses)
  {
    hide Parsed, Lines;
    var a, b := Lines(file[base..from], base), Lines(file[from..to], from);
    LinesCut(file, base, from, to);
    ParsedConcat(a, b, parses);
    assert before + Parsed(a, parses) + Parsed(b, parses) == before + (Parsed(a, parses) + Parsed(b, parses));
  }

  /** Polls that are all saved deliver, whatever each of them happened to read, exactly the
      lines between the point the first one resumes at and the saved offset: every one once,
      in file order, as one read of that range would. */
  lemma {:induction false} ExactTail(w: World, run: seq<Attempt>, inode: int, file: Bytes, parses: Parser)
    requires w.tail.inode.Some? && Grows(run, inode, file)
    requires forall a :: a in run ==> a.outcome.Saved?
    requires Resume(w.tail, inode) <= |file|
    requires forall a :: a in run && a.remote.Present? ==> Resume(w.tail, inode) <= a.remote.size
    ensures var end := Run(w, run, parses);
            && end.tail.inode.Some?
            && Resume(end.tail, inode) <= Reached(run, Resume(w.tail, inode))
            && ReadTo(w.events, end.events, file, Resume(w.tail, inode), Resume(end.tail, inode), parses)
  {
    var base := Resume(w.tail, inode);
    if run == [] {
      assert file[base..base] == [];
      assert Lines([], base) == [];
    } else {
      var init, a := run[..|run| - 1], run[|run| - 1];
      ExactTail(w, init, inode, file, parses);
      var mid := Run(w, init, parses);
      assert a in run;
      if a.remote.Present? {
        ReachedBound(init, base, a.remote.size);
        PollOnce(mid.tail, a.remote, file);
        ReadOn(w.events, mid.events, file, base, Resume(mid.tail, inode), Advance(mid.tail, a.remote).offset, parses);
      } else {
        assert Emitted(mid.tail, a.remote) == [];
      }
    }
  }

  /** A poll that gets every byte up to the reported size leaves no complete line unread: the
      lines up to the saved offset are those of one read of the whole range. */
  lemma CaughtUp(s: Tail, r: Remote, file: Bytes, base: nat)
    requires s.inode.Some? && r.Present? && r.content <= file && r.size <= |file|
    requires base <= Resume(s, r.inode) <= r.size && AtBoundary(file[base..Resume(s, r.inode)])
    requires r.size <= |r.content| && r.size - Resume(s, r.inode) <= r.delivered
    ensures Advance(s, r).offset <= r.size
    ensures base <= Advance(s, r).offset
    ensures Lines(file[base..Advance(s, r).offset], base) == Lines(file[base..r.size], base)
  {
    hide Lines, Split, DataOf;
    var from, data := Resume(s, r.inode), DataOf(s, r);
    PollReads(s, r, file);
    ReadsAll(s, r);
    CutAtLeftover(data);
    CompleteLines(data, from);
    var to := from + Consumed(data);
    assert file[from..to] == data[..Consumed(data)];
    LinesCut(file, base, from, to);
    LinesCut(file, base, from, r.size);
  }

  lemma ReadsAll(s: Tail, r: Remote)
    requires s.inode.Some? && r.Present? && Resume(s, r.inode) <= r.size <= |r.content|
    requires r.size - Resume(s, r.inode) <= r.delivered
    ensures |DataOf(s, r)| == r.size - Resume(s, r.inode)
  {
  }

  // ---- The first poll --------------------------------------------------------------

  /** Until a poll that finds the file is saved, a new source keeps its state and records nothing. */
  lemma {:induction false} NothingSaved(w: World, run: seq<Attempt>, parses: Parser)
    requires w.tail.inode.None?
    requires forall a :: a in run ==> a.remote.Absent? || !a.outcome.Saved?
    ensures Run(w, run, parses).tail == w.tail && Run(w, run, parses).events == w.events
  {
    if run != [] {
      NothingSaved(w, run[..|run| - 1], parses);
      StartsAtEnd(w.tail, run[|run| - 1].remote);
    }
  }

  lemma StartsAtEnd(s: Tail, r: Remote)
    requires s.inode.None?
    ensures Emitted(s, r) == []
    ensures r.Present? ==> Advance(s, r) == Tail(Some(r.inode), r.size)
  {
    assert r.Present? ==> DataOf(s, r) == [];
    assert Split<Byte>([], NEWLINE) == [[]];
  }

  /** A source never polled before: the first saved poll that finds the file only sets the
      baseline to its size; nothing the file held by then is recorded. A line in progress at that
      moment is later recorded as the fragment after the baseline. */
  lemma Baseline(w: World, before: seq<Attempt>, first: Attempt, run: seq<Attempt>, file: Bytes, parses: Parser)
      returns (w': World)
    requires w.tail.inode.None?
    requires forall a :: a in before ==> a.remote.Absent? || !a.outcome.Saved?
    requires first.remote.Present? && first.outcome.Saved?
    requires Grows([first] + run, first.remote.inode, file)
    ensures w'.tail == Tail(Some(first.remote.inode), first.remote.size) && w'.events == w.events
        && w.deaths <= w'.deaths
    ensures Run(w, before + [first] + run, parses) == Run(w', run, parses)
    ensures Grows(run, first.remote.inode, file) && first.remote.size <= |file|
    ensures forall a :: a in run && a.remote.Present? ==> first.remote.size <= a.remote.size
  {
    hide Lines, Parsed, Advance, Emitted;
    NothingSaved(w, before, parses);
    StartsAtEnd(Run(w, before, parses).tail, first.remote);
    ParsedNothing(parses);
    assert (before + [first])[..|before|] == before;
    w' := Run(w, before + [first], parses);
    DeathsGrow(w, before + [first], parses);
    RunConcat(w, before + [first], run, parses);
    GrowsOn(first, run, first.remote.inode, file);
  }

  /** From the baseline on the polls are exact. */
  lemma ExactFromBaseline(w: World, before: seq<Attempt>, first: Attempt, run: seq<Attempt>, file: Bytes,
      parses: Parser)
    requires w.tail.inode.None?
    requires forall a :: a in before ==> a.remote.Absent? || !a.outcome.Saved?
    requires first.remote.Present? && first.outcome.Saved?
    requires Grows([first] + run, first.remote.inode, file)
    requires forall a :: a in run ==> a.outcome.Saved?
    ensures var end := Run(w, before + [first] + run, parses);
            && end.tail.inode.Some?
            && ReadTo(w.events, end.events, file, first.remote.size, Resume(end.tail, first.remote.inode), parses)
  {
    hide Run, ReadTo, Grows;
    var w' := Baseline(w, before, first, run, file, parses);
    ExactTail(w', run, first.remote.inode, file, parses);
  }

  lemma GrowsOn(first: Attempt, run: seq<Attempt>, inode: int, file: Bytes)
    requires first.remote.Present? && Grows([first] + run, inode, file)
    ensures Grows(run, inode, file) && first.remote.size <= |file|
    ensures forall a :: a in run && a.remote.Present? ==> first.remote.size <= a.remote.size
  {
    var all := [first] + run;
    assert all[0] == first && forall i :: 0 <= i < |run| ==> all[i + 1] == run[i];
  }

  lemma ParsedNothing(parses: Parser)
    ensures Parsed([], parses) == []
  {
  }

  // ---- Rotation --------------------------------------------------------------------

  /** One log file between two rotations: its inode, its final content, and the polls that saw it. */
  datatype Generation = Generation(inode: int, file: Bytes, run: seq<Attempt>)

  ghost predicate Polled(gen: Generation)
  {
    && Grows(gen.run, gen.inode, gen.file)
    && (exists a :: a in gen.run && a.remote.Present?)
    && (forall a :: a in gen.run ==> a.outcome.Saved?)
  }

  function Before(previous: int, gens: seq<Generation>, k: nat): int
    requires k <= |gens|
  {
    if k == 0 then previous else gens[k - 1].inode
  }

  /** Consecutive generations have different inodes, and each is polled at least once. */
  ghost predicate Rotates(previous: int, gens: seq<Generation>)
  {
    forall k :: 0 <= k < |gens| ==> Polled(gens[k]) && gens[k].inode != Before(previous, gens, k)
  }

  /** After the polls of the first `k` generations. */
  function RunAll(w: World, gens: seq<Generation>, k: nat, parses: Parser): World
    requires k <= |gens|
  {
    if k == 0 then w else Run(RunAll(w, gens, k - 1, parses), gens[k - 1].run, parses)
  }

  /** What the reader gets of a generation: its parseable lines from its first byte to the offset it reached. */
  ghost predicate Delivered(events: seq<Line>, gen: Generation, from: nat, parses: Parser)
  {
    ReadTo([], events, gen.file, 0, from, parses)
  }

  lemma {:induction false} InodeAfter(w: World, previous: int, gens: seq<Generation>, k: nat, parses: Parser)
    requires w.tail.inode == Some(previous) && Rotates(previous, gens) && k <= |gens|
    ensures RunAll(w, gens, k, parses).tail.inode == Some(Before(previous, gens, k))
  {
    hide Run, Grows;
    if k > 0 {
      InodeAfter(w, previous, gens, k - 1, parses);
      var _, _ := ExactGeneration(RunAll(w, gens, k - 1, parses), gens[k - 1], parses);
    }
  }

  /** Over any number of rotations every generation after the one the saved state names is read
      from its first byte: between the end of generation k - 1 and the end of generation k the
      events grow by exactly the parseable lines of a prefix of file k, cut at a line boundary. */
  lemma ExactAcrossRotations(w: World, previous: int, gens: seq<Generation>, k: nat, parses: Parser)
    requires w.tail.inode == Some(previous) && Rotates(previous, gens) && k < |gens|
    ensures var from, to := RunAll(w, gens, k, parses), RunAll(w, gens, k + 1, parses);
            && from.events <= to.events
            && to.tail.inode == Some(gens[k].inode)
            && Delivered(to.events[|from.events|..], gens[k], to.tail.offset, parses)
  {
    hide Run, Grows, Delivered;
    InodeAfter(w, previous, gens, k, parses);
    var _, part := ExactGeneration(RunAll(w, gens, k, parses), gens[k], parses);
  }

  /** What a rotation loses: a generation is delivered in full exactly when none of its parseable
      complete lines starts at or after the offset its polls reached. */
  lemma DeliveredInFullIff(w: World, previous: int, gens: seq<Generation>, k: nat, parses: Parser)
    requires w.tail.inode == Some(previous) && Rotates(previous, gens) && k < |gens|
    ensures var from, to, all := RunAll(w, gens, k, parses), RunAll(w, gens, k + 1, parses), Lines(gens[k].file, 0);
            && from.events <= to.events
            && (to.events[|from.events|..] == Parsed(all, parses) <==>
                forall l :: l in all && parses(l.text) ==> l.at < to.tail.offset)
  {
    hide Lines, RunAll, Parsed, Rotates;
    ExactAcrossRotations(w, previous, gens, k, parses);
    var file, from := gens[k].file, RunAll(w, gens, k + 1, parses).tail.offset;
    assert file[0..from] == file[..from] && file[0..|file|] == file;
    LinesCut(file, 0, from, |file|);
    assert file[from..|file|] == file[from..];
    var head, tail := Lines(file[..from], 0), Lines(file[from..], from);
    LinePositions(file[..from], 0);
    LinePositions(file[from..], from);
    ParsedConcat(head, tail, parses);
    NoneParses(tail, parses);
  }

  lemma {:induction false} NoneParses(lines: seq<Line>, parses: Parser)
    ensures Parsed(lines, parses) == [] <==> forall l :: l in lines ==> !parses(l.text)
  {
    if lines != [] {
      NoneParses(lines[1..], parses);
    }
  }

  lemma ExactGeneration(w: World, gen: Generation, parses: Parser) returns (end: World, part: seq<Line>)
    requires w.tail.inode.Some? && w.tail.inode.value != gen.inode && Polled(gen)
    ensures end == Run(w, gen.run, parses) && end.events == w.events + part
    ensures end.tail.inode == Some(gen.inode) && Delivered(part, gen, end.tail.offset, parses)
  {
    hide Lines, Parsed, Run;
    end := Run(w, gen.run, parses);
    ExactTail(w, gen.run, gen.inode, gen.file, parses);
    assert forall a :: a in gen.run && a.remote.Present? ==> a.remote.inode == gen.inode;
    RunInode(w, gen.run, gen.inode, parses);
    part := end.events[|w.events|..];
    assert [] + part == part;
  }

  lemma {:induction false} RunInode(w: World, run: seq<Attempt>, inode: int, parses: Parser)
    requires forall a :: a in run ==> a.outcome.Saved? && (a.remote.Present? ==> a.remote.inode == inode)
    ensures Run(w, run, parses).tail.inode ==
      if exists a :: a in run && a.remote.Present? then Some(inode) else w.tail.inode
  {
    hide Lines, Parsed, Split;
    if run != [] {
      var init, last := run[..|run| - 1], run[|run| - 1];
      RunInode(w, init, inode, parses);
      assert last in run && forall a :: a in run <==> a in init || a == last;
    }
  }

  // ---- Crashes ---------------------------------------------------------------------

  /** Every parseable line between `base` and `from` is among the new events, nothing else but
      parseable lines of the file is, and copies beyond the first are paid for by `deaths`. */
  ghost predicate Covered(before: seq<Line>, events: seq<Line>, deaths: nat, file: Bytes, base: nat, from: nat,
      parses: Parser)
  {
    && base <= from <= |file|
    && AtBoundary(file[base..from])
    && before <= events
    && Copies(Parsed(Lines(file[base..from], base), parses), events[|before|..],
         Parsed(Lines(file[base..], base), parses), deaths)
  }

  /** `news` holds `saved`, and beyond that at most `deaths` copies of each line of `all`. */
  ghost predicate Copies(saved: seq<Line>, news: seq<Line>, all: seq<Line>, deaths: nat)
  {
    forall l :: multiset(saved)[l] <= multiset(news)[l] <= multiset(saved)[l] + if l in all then deaths else 0
  }

  lemma CopiesSaved(saved: seq<Line>, news: seq<Line>, later: seq<Line>, all: seq<Line>, deaths: nat)
    requires Copies(saved, news, all, deaths)
    ensures Copies(saved + later, news + later, all, deaths)
  {
    assert multiset(saved + later) == multiset(saved) + multiset(later);
    assert multiset(news + later) == multiset(news) + multiset(later);
  }

  lemma CopiesDied(saved: seq<Line>, news: seq<Line>, later: seq<Line>, all: seq<Line>, deaths: nat)
    requires Copies(saved, news, all, deaths)
    requires forall l :: multiset(later)[l] <= if l in all then 1 else 0
    ensures Copies(saved, news + later, all, deaths + 1)
  {
    assert multiset(news + later) == multiset(news) + multiset(later);
  }

  lemma CoverOn(before: seq<Line>, events: seq<Line>, deaths: nat, file: Bytes, base: nat, from: nat, to: nat,
      parses: Parser)
    requires Covered(before, events, deaths, file, base, from, parses)
    requires from <= to <= |file| && AtBoundary(file[from..to])
    ensures var events' := events + Parsed(Lines(file[from..to], from), parses);
            && Covered(before, events', deaths, file, base, to, parses)
            && Covered(before, events', deaths + 1, file, base, from, parses)
  {
    hide Parsed, Lines, Copies;
    var a, b := Lines(file[base..from], base), Lines(file[from..to], from);
    var all, later := Parsed(Lines(file[base..], base), parses), Parsed(b, parses);
    LinesCut(file, base, from, to);
    ParsedConcat(a, b, parses);
    assert (events + later)[|before|..] == events[|before|..] + later;
    CopiesSaved(Parsed(a, parses), events[|before|..], later, all, deaths);
    forall l ensures multiset(later)[l] <= if l in all then 1 else 0 {
      LaterOnce(file, base, from, to, parses, l);
    }
    CopiesDied(Parsed(a, parses), events[|before|..], later, all, deaths);
  }

  /** One poll records each line of the file at most once. */
  lemma LaterOnce(file: Bytes, base: nat, from: nat, to: nat, parses: Parser, l: Line)
    requires base <= from <= to <= |file| && AtBoundary(file[base..from]) && AtBoundary(file[from..to])
    ensures multiset(Parsed(Lines(file[from..to], from), parses))[l]
         <= if l in Parsed(Lines(file[base..], base), parses) then 1 else 0
  {
    hide Parsed, Lines;
    LinesCut(file, base, from, |file|);
    LinesCut(file, from, to, |file|);
    assert file[base..|file|] == file[base..];
    LinePositions(file[base..], base);
    ParsedCounts(Lines(file[from..to], from), parses, l);
    ParsedCounts(Lines(file[base..], base), parses, l);
  }

  /** Whatever the crashes between the two commits: no line below the saved offset is lost. */
  lemma {:induction false} CrashCover(w: World, run: seq<Attempt>, inode: int, file: Bytes, parses: Parser)
    requires w.tail.inode.Some? && Grows(run, inode, file)
    requires Resume(w.tail, inode) <= |file|
    requires forall a :: a in run && a.remote.Present? ==> Resume(w.tail, inode) <= a.remote.size
    ensures var end := Run(w, run, parses);
            && end.tail.inode.Some? && w.deaths <= end.deaths
            && Resume(end.tail, inode) <= Reached(run, Resume(w.tail, inode))
            && Covered(w.events, end.events, end.deaths - w.deaths, file, Resume(w.tail, inode),
                 Resume(end.tail, inode), parses)
  {
    hide Parsed, Lines, Covered, After;
    var base := Resume(w.tail, inode);
    if run == [] {
      CoveredNothing(w.events, file, base, parses);
    } else {
      var init, a := run[..|run| - 1], run[|run| - 1];
      CrashCover(w, init, inode, file, parses);
      assert a in run;
      if a.remote.Present? {
        ReachedBound(init, base, a.remote.size);
      }
      CrashStep(w, Run(w, init, parses), a, inode, file, parses);
    }
  }

  lemma CoveredNothing(events: seq<Line>, file: Bytes, base: nat, parses: Parser)
    requires base <= |file|
    ensures Covered(events, events, 0, file, base, base, parses)
  {
    assert file[base..base] == [];
    NoLines(base, parses);
    assert events[|events|..] == [];
  }

  lemma CrashStep(w: World, mid: World, a: Attempt, inode: int, file: Bytes, parses: Parser)
    requires w.tail.inode.Some? && mid.tail.inode.Some? && w.deaths <= mid.deaths
    requires Covered(w.events, mid.events, mid.deaths - w.deaths, file, Resume(w.tail, inode),
        Resume(mid.tail, inode), parses)
    requires a.remote.Present? ==>
               && a.remote.inode == inode && a.remote.content <= file
               && Resume(mid.tail, inode) <= a.remote.size <= |file|
    ensures var end := After(mid, a, parses);
            && end.tail.inode.Some? && mid.deaths <= end.deaths
            && Resume(end.tail, inode) <= (if a.remote.Present? then a.remote.size else Resume(mid.tail, inode))
            && Covered(w.events, end.events, end.deaths - w.deaths, file, Resume(w.tail, inode),
                 Resume(end.tail, inode), parses)
  {
    hide Parsed, Lines, Covered;
    if a.remote.Present? {
      PollOnce(mid.tail, a.remote, file);
      hide Emitted, Advance;
      BoundOfCovered(w.events, mid.events, mid.deaths - w.deaths, file, Resume(w.tail, inode),
          Resume(mid.tail, inode), parses);
      CoverOn(w.events, mid.events, mid.deaths - w.deaths, file, Resume(w.tail, inode), Resume(mid.tail, inode),
          Advance(mid.tail, a.remote).offset, parses);
    } else {
      ParsedNothing(parses);
      assert mid.events + [] == mid.events;
      CoveredMore(w.events, mid.events, mid.deaths - w.deaths, file, Resume(w.tail, inode), Resume(mid.tail, inode),
          parses);
    }
  }

  lemma BoundOfCovered(before: seq<Line>, events: seq<Line>, deaths: nat, file: Bytes, base: nat, from: nat,
      parses: Parser)
    requires Covered(before, events, deaths, file, base, from, parses)
    ensures base <= from <= |file|
  {
  }

  lemma CoveredMore(before: seq<Line>, events: seq<Line>, deaths: nat, file: Bytes, base: nat, from: nat,
      parses: Parser)
    requires Covered(before, events, deaths, file, base, from, parses)
    ensures Covered(before, events, deaths + 1, file, base, from, parses)
  {
    hide Parsed, Lines;
  }

  lemma NoLines(at: nat, parses: Parser)
    ensures Parsed(Lines([], at), parses) == []
  {
    assert Split<Byte>([], NEWLINE) == [[]];
  }

  /** Crash safety over whole runs. Every parseable complete line from the resume point to the
      saved offset has at least one new event; no line has more than one more than the number
      of deaths between the commits; and every new event is a parseable line of the file. */
  lemma CrashSafety(w: World, run: seq<Attempt>, inode: int, file: Bytes, parses: Parser, l: Line)
    requires w.tail.inode.Some? && Grows(run, inode, file)
    requires Resume(w.tail, inode) <= |file|
    requires forall a :: a in run && a.remote.Present? ==> Resume(w.tail, inode) <= a.remote.size
    ensures var base, end := Resume(w.tail, inode), Run(w, run, parses);
            && end.tail.inode.Some? && w.events <= end.events && w.deaths <= end.deaths
            && base <= Resume(end.tail, inode) <= |file|
            && var copies := multiset(end.events[|w.events|..])[l];
            && (l in Lines(file[base..Resume(end.tail, inode)], base) && parses(l.text) ==> copies >= 1)
            && copies <= end.deaths - w.deaths + 1
            && (copies >= 1 ==> l in Lines(file[base..], base) && parses(l.text))
  {
    hide Parsed, Lines, Run;
    CrashCover(w, run, inode, file, parses);
    var base, from := Resume(w.tail, inode), Resume(Run(w, run, parses).tail, inode);
    LinePositions(file[base..from], base);
    ParsedCounts(Lines(file[base..from], base), parses, l);
    ParsedCounts(Lines(file[base..], base), parses, l);
    LinesCut(file, base, from, |file|);
    assert file[base..|file|] == file[base..];
  }

  lemma {:induction false} DeathsGrow(w: World, run: seq<Attempt>, parses: Parser)
    ensures w.deaths <= Run(w, run, parses).deaths
  {
    if run != [] {
      DeathsGrow(w, run[..|run| - 1], parses);
    }
  }

  /** The same from a source never polled before: what counts is what lies at or after the
      baseline, the size that the first saved poll found. */
  lemma CrashSafetyFromBaseline(w: World, before: seq<Attempt>, first: Attempt, run: seq<Attempt>, file: Bytes,
      parses: Parser, l: Line)
    requires w.tail.inode.None?
    requires forall a :: a in before ==> a.remote.Absent? || !a.outcome.Saved?
    requires first.remote.Present? && first.outcome.Saved?
    requires Grows([first] + run, first.remote.inode, file)
    ensures var base, end := first.remote.size, Run(w, before + [first] + run, parses);
            && end.tail.inode.Some? && w.events <= end.events && w.deaths <= end.deaths
            && base <= Resume(end.tail, first.remote.inode) <= |file|
            && var copies := multiset(end.events[|w.events|..])[l];
            && (l in Lines(file[base..Resume(end.tail, first.remote.inode)], base) && parses(l.text) ==> copies >= 1)
            && copies <= end.deaths - w.deaths + 1
            && (copies >= 1 ==> l in Lines(file[base..], base) && parses(l.text))
  {
    hide Run, Grows, Lines;
    var w' := Baseline(w, before, first, run, file, parses);
    CrashSafety(w', run, first.remote.inode, file, parses, l);
  }

  // ---- Limits ----------------------------------------------------------------------

  /** Both polls start from the loaded state `s` and see one growing file. */
  ghost predicate BothFrom(s: Tail, r1: Remote, r2: Remote, file: Bytes)
  {
    && s.inode.Some? && r1.Present? && r2.Present? && r1.inode == r2.inode
    && r1.content <= file && r2.content <= file && r1.size <= |file| && r2.size <= |file|
    && Resume(s, r1.inode) <= r1.size && Resume(s, r1.inode) <= r2.size
  }

  /** Two tasks that loaded the row before either took the lock both start from the state they
      loaded. No line is recorded twice if and only if the shorter of the two ranges they read
      holds no nonempty terminated line. */
  lemma StaleRow(s: Tail, r1: Remote, r2: Remote, file: Bytes)
    requires BothFrom(s, r1, r2, file)
    ensures var short := if |DataOf(s, r1)| <= |DataOf(s, r2)| then DataOf(s, r1) else DataOf(s, r2);
      (forall l :: l !in Emitted(s, r1) || l !in Emitted(s, r2)) <==> NonEmpty(Terminated(short)) == []
  {
    hide Lines, Emitted, Advance, DataOf, NonEmpty, Terminated;
    if |DataOf(s, r1)| <= |DataOf(s, r2)| {
      ShorterIsPrefix(s, r1, r2, file);
    } else {
      ShorterIsPrefix(s, r2, r1, file);
    }
  }

  /** The lines of the shorter range are emitted by both polls. */
  lemma ShorterIsPrefix(s: Tail, r1: Remote, r2: Remote, file: Bytes)
    requires BothFrom(s, r1, r2, file) && |DataOf(s, r1)| <= |DataOf(s, r2)|
    ensures Emitted(s, r1) <= Emitted(s, r2)
    ensures Emitted(s, r1) == [] <==> NonEmpty(Terminated(DataOf(s, r1))) == []
    ensures Emitted(s, r1) != [] ==> Emitted(s, r1)[0] in Emitted(s, r2)
  {
    var from, data1, data2 := Resume(s, r1.inode), DataOf(s, r1), DataOf(s, r2);
    PollReads(s, r1, file);
    PollReads(s, r2, file);
    assert Emitted(s, r1) == Lines(data1, from) && Emitted(s, r2) == Lines(data2, from);
    hide DataOf, Emitted, Split, Write;
    TextsOfPlace(Terminated(data1), from);
    assert data1 == data2[..|data1|];
    CompletePrefix(data2, |data1|, from);
  }

  lemma CompletePrefix(data: Bytes, n: nat, at: nat)
    requires n <= |data|
    ensures Lines(data[..n], at) <= Lines(data, at)
  {
    hide Lines;
    var part := data[..n];
    CutAtLeftover(part);
    CompleteLines(part, at);
    var m := n - |Leftover(part)|;
    assert part[..m] == data[..m] && data == data[..m] + data[m..];
    LinesConcat(data[..m], data[m..], at);
  }

  /** What the second save does: the offset is its own poll's, also when that is behind the first
      one's, and the next poll records again exactly those lines of the first that start between
      the saved offset and the place it stops at. */
  lemma StaleSave(s: Tail, r1: Remote, r2: Remote, r3: Remote, file: Bytes, l: Line)
    requires BothFrom(s, r1, r2, file) && l in Emitted(s, r1)
    requires r3.Present? && r3.inode == r2.inode && r3.content <= file && r2.size <= r3.size <= |file|
    ensures var last := Advance(s, r2);
      l in Emitted(last, r3) <==> last.offset <= l.at < Advance(last, r3).offset
  {
    var from, last := Resume(s, r1.inode), Advance(s, r2);
    PollOnce(s, r1, file);
    PollOnce(s, r2, file);
    PollOnce(last, r3, file);
    hide Lines, Emitted, Advance, DataOf, AtBoundary;
    LinesBetween(file, from, Advance(s, r1).offset, last.offset, Advance(last, r3).offset, l);
  }

  /** For boundaries `b <= c`, a line of the range up to `a` is one of those between `b` and `c`
      exactly when it starts there. */
  lemma LinesBetween(file: Bytes, from: nat, a: nat, b: nat, c: nat, l: Line)
    requires from <= a <= |file| && from <= b <= c <= |file|
    requires AtBoundary(file[from..a]) && AtBoundary(file[from..b]) && AtBoundary(file[b..c])
    requires l in Lines(file[from..a], from)
    ensures l in Lines(file[b..c], b) <==> b <= l.at < c
  {
    hide Lines;
    LinePositions(file[b..c], b);
    if b <= l.at < c {
      if a <= c {
        LinesCut(file, from, a, c);
        assert l in Lines(file[from..c], from);
      } else {
        JoinedBoundary(file, from, b, c);
        LinesCut(file, from, c, a);
        LinePositions(file[c..a], c);
        assert l !in Lines(file[c..a], c);
        assert l in Lines(file[from..c], from);
      }
      LinesCut(file, from, b, c);
      LinePositions(file[from..b], from);
      assert l !in Lines(file[from..b], from);
    }
  }

  lemma JoinedBoundary(file: Bytes, from: nat, b: nat, c: nat)
    requires from <= b <= c <= |file| && AtBoundary(file[from..b]) && AtBoundary(file[b..c])
    ensures AtBoundary(file[from..c])
  {
    if b < c {
      assert file[from..c][c - from - 1] == file[b..c][c - b - 1];
    }
  }

  /** A file truncated and written again under the same inode, and then read to its end: the
      reader, which only clamps its offset to the size, emits the lines of the new content
      exactly when none of them starts before that place. */
  lemma RewrittenIff(s: Tail, r: Remote)
    requires s.inode.Some? && r.Present? && s.inode.value == r.inode
    requires r.size == |r.content| && r.size <= r.delivered
    ensures Emitted(s, r) == Lines(r.content, 0) <==>
        forall l :: l in Lines(r.content, 0) ==> l.at >= Min(s.offset, r.size)
  {
    hide Lines;
    var from := Min(s.offset, r.size);
    WholeTail(s, r);
    LinePositions(r.content[from..], from);
    if forall l :: l in Lines(r.content, 0) ==> l.at >= from {
      NoneBefore(r.content, from);
    }
  }

  lemma WholeTail(s: Tail, r: Remote)
    requires s.inode.Some? && r.Present? && s.inode.value == r.inode
    requires r.size == |r.content| && r.size <= r.delivered
    ensures var from := Min(s.offset, r.size);
      Emitted(s, r) == Lines(r.content[from..], from)
  {
    var from := Min(s.offset, r.size);
    assert DataOf(s, r) == r.content[from..];
  }

  lemma NoneBefore(content: Bytes, from: nat)
    requires from <= |content| && forall l :: l in Lines(content, 0) ==> l.at >= from
    ensures Lines(content[from..], from) == Lines(content, 0)
  {
    hide Lines;
    CutAtLeftover(content[..from]);
    var b := from - |Leftover(content[..from])|;
    assert content[..from][..b] == content[..b] && content == content[..b] + content[b..];
    LinesConcat(content[..b], content[b..], 0);
    LinePositions(content[..b], 0);
    HasMember(Lines(content[..b], 0));
    if b < from {
      assert content[b] == content[..from][b];
      FirstLineAt(content[b..], b);
      assert content[from..] == content[b..][from - b..];
      LinesOfLeftover(content[b..], b);
      LinesOfLeftover(content[from..], from);
    }
  }

  lemma HasMember(lines: seq<Line>)
    ensures lines == [] || exists l :: l in lines
  {
    if lines != [] {
      assert lines[0] in lines;
    }
  }

  lemma WriteHead(parts: seq<Bytes>)
    ensures parts != [] ==> Write(parts) != [] && Write(parts)[0] == if parts[0] == [] then NEWLINE else parts[0][0]
  {
  }

  lemma FirstLineAt(data: Bytes, at: nat)
    requires data != [] && data[0] != NEWLINE
    ensures NEWLINE in data ==> exists l :: l in Lines(data, at) && l.at == at
  {
    CutAtLeftover(data);
    var parts := Terminated(data);
    WriteHead(parts);
    assert Write([]) == [];
    if NEWLINE in data {
      assert Lines(data, at)[0] == Line(at, parts[0]);
    }
  }
}
