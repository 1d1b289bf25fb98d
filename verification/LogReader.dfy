/** The reader itself: one poll of one log source, from the range read over SSH to the rows
    it writes. LogTail says what runs of such polls deliver. */
module LogReader {
  import opened Common
  import opened Text
  import F = LogFormat
  import S = Sightings
  import T = LogTail

  /** Result of one range read. */
  datatype Chunk = Chunk(inode: int, size: nat, offset: nat, data: T.Bytes, rotated: bool)

  /** `SSHService.poll_log`: None when there is no file. */
  method PollLog(remote: T.Remote, knownInode: Option<int>, knownOffset: Option<nat>) returns (chunk: Option<Chunk>)
    ensures chunk.None? <==> remote.Absent?
    ensures remote.Present? ==>
      var s := T.Tail(knownInode, if knownOffset.Some? then knownOffset.value else 0);
      && chunk.value.inode == remote.inode && chunk.value.size == remote.size
      && chunk.value.offset == T.StartOf(s, remote) && chunk.value.data == T.DataOf(s, remote)
      && (chunk.value.rotated <==> knownInode.Some? && knownInode.value != remote.inode)
  {
    if remote.Absent? {
      return None;
    }
    var readOffset, rotated;
    if knownInode.None? {
      readOffset, rotated := remote.size, false;
    } else {
      rotated := remote.inode != knownInode.value;
      readOffset := if rotated then 0 else Min(if knownOffset.Some? then knownOffset.value else 0, remote.size);
    }
    var data := [];
    if remote.size > readOffset {
      data := T.RangeRead(remote.content, readOffset, remote.size - readOffset, remote.delivered);
    }
    return Some(Chunk(remote.inode, remote.size, readOffset, data, rotated));
  }

  // ---- Events ----------------------------------------------------------------------

  /** A log source's format, the lenient UTF-8 decoding, the value readers, and address
      normalisation. */
  datatype Format = Format(parts: seq<F.Part>, decode: T.Bytes -> string, readers: F.Readers, norm: S.Normalizer)

  /** The parser accepts no address that normalisation rejects: both are `ip_address`. */
  ghost predicate ValidFormat(f: Format)
  {
    forall s :: f.readers.isAddress(s) ==> f.norm(s).Some?
  }

  function Parse(f: Format, line: T.Bytes): F.Outcome
  {
    F.ParseLine(f.parts, f.decode(line), f.readers)
  }

  function Accepts(f: Format): T.Parser
  {
    line => Parse(f, line).Parsed?
  }

  lemma AcceptedHasAddress(f: Format, line: T.Bytes)
    requires ValidFormat(f) && Parse(f, line).Parsed?
    ensures f.norm(Parse(f, line).line.remoteAddr).Some?
  {
    hide F.Match, F.GroupsOf, F.SplitRequest, F.StripEol;
  }

  datatype Event = Event(
    address: S.Address, timestamp: int, host: string, verb: string, uri: string, status: int, bytes: int,
    requestTime: Option<real>, userAgent: string, referer: string, rawLine: string)

  /** The row for a parsed line; an address stands for its primary key. */
  function EventOf(p: F.ParsedLine, address: S.Address): Event
  {
    Event(address, p.timestamp, Cut(p.host, 255), Cut(p.verb, 16), Cut(p.uri, 2048), p.status, p.bytes,
          p.requestTime, Cut(p.userAgent, 512), Cut(p.referer, 2048), Cut(p.rawLine, 8192))
  }

  function AddressOf(f: Format, p: F.ParsedLine): S.Address
  {
    if f.norm(p.remoteAddr).Some? then f.norm(p.remoteAddr).value else ""
  }

  /** The parsed lines of a run of texts, in order. */
  function Accepted(f: Format, texts: seq<T.Bytes>): seq<F.ParsedLine>
  {
    if texts == [] then []
    else
      var init, last := Accepted(f, texts[..|texts| - 1]), Parse(f, texts[|texts| - 1]);
      if last.Parsed? then init + [last.line] else init
  }

  lemma {:induction false} AcceptedAddresses(f: Format, texts: seq<T.Bytes>)
    requires ValidFormat(f)
    ensures forall p :: p in Accepted(f, texts) ==> f.norm(p.remoteAddr).Some?
  {
    hide Parse;
    if texts != [] {
      AcceptedAddresses(f, texts[..|texts| - 1]);
      if Parse(f, texts[|texts| - 1]).Parsed? {
        AcceptedHasAddress(f, texts[|texts| - 1]);
      }
    }
  }

  function EventsOf(f: Format, parsed: seq<F.ParsedLine>): (rows: seq<Event>)
    ensures |rows| == |parsed|
  {
    seq(|parsed|, i requires 0 <= i < |parsed| => EventOf(parsed[i], AddressOf(f, parsed[i])))
  }

  function SightingsOf(parsed: seq<F.ParsedLine>): (r: seq<S.Sighting>)
    ensures |r| == |parsed|
  {
    seq(|parsed|, i requires 0 <= i < |parsed| => S.Sighting(parsed[i].remoteAddr, parsed[i].timestamp))
  }

  function ValueIn(f: Format, rec: F.Record, name: string): string
  {
    F.ValueIn(f.parts, rec, name, "")
  }

  /** From nginx to the table, for every format of one reading: a line rendered from a record
      with a readable address, time and status becomes an event that says what the record says,
      cut to the widths of the columns, with defaults for what the format lacks. */
  lemma RenderedEvent(f: Format, line: T.Bytes, rec: F.Record)
    requires F.Determinate(f.parts) && F.DistinctGroups(f.parts) && F.Renderable(f.parts, rec)
    requires F.EndsOpen(F.Render(f.parts, rec)) && F.ValidValues(f.parts, rec, f.readers)
    requires ValidFormat(f) && f.decode(line) == F.Render(f.parts, rec)
    ensures Parse(f, line).Parsed?
    ensures var p := Parse(f, line).line;
      var e := EventOf(p, AddressOf(f, p));
      && f.norm(ValueIn(f, rec, "remote_addr")) == Some(e.address)
      && f.readers.time(ValueIn(f, rec, "time_local")) == Some(e.timestamp)
      && f.readers.integer(ValueIn(f, rec, "status")) == Some(e.status)
      && Stores(e.verb, F.SplitRequest(ValueIn(f, rec, "request")).0, 16)
      && Stores(e.uri, F.SplitRequest(ValueIn(f, rec, "request")).1, 2048)
      && e.bytes == F.OrZero(f.readers.integer(F.ValueIn(f.parts, rec, "body_bytes_sent", "0")))
      && e.requestTime == F.RequestTimeOf(ValueIn(f, rec, "request_time"), f.readers)
      && Stores(e.referer, ValueIn(f, rec, "http_referer"), 2048)
           && Stores(e.userAgent, ValueIn(f, rec, "http_user_agent"), 512)
      && Stores(e.host, ValueIn(f, rec, "host"), 255) && Stores(e.rawLine, F.Render(f.parts, rec), 8192)
  {
    hide F.ValueIn, F.Determinate, F.Renderable, F.Render, F.ParseLine, F.SplitRequest, ValidFormat, F.DistinctGroups,
        F.ValidValues;
    F.FormatRoundTrip(f.parts, rec, "", f.readers);
    assert F.Render(f.parts, rec) + "" == F.Render(f.parts, rec);
    AcceptedHasAddress(f, line);
  }

  /** The events of a poll are its parseable lines, one for one and in order: what LogTail
      counts as written are these rows. */
  lemma {:induction false} EventsAreParsedLines(f: Format, lines: seq<T.Line>)
    ensures |Accepted(f, T.Texts(lines))| == |T.Parsed(lines, Accepts(f))|
    ensures forall i :: 0 <= i < |T.Parsed(lines, Accepts(f))| ==>
      Parse(f, T.Parsed(lines, Accepts(f))[i].text) == F.Parsed(Accepted(f, T.Texts(lines))[i])
  {
    hide Parse;
    if lines != [] {
      var init, last := lines[..|lines| - 1], lines[|lines| - 1];
      EventsAreParsedLines(f, init);
      assert lines == init + [last] && T.Texts(lines)[..|lines| - 1] == T.Texts(init);
      T.ParsedConcat(init, [last], Accepts(f));
      assert T.Parsed([last], Accepts(f)) == if Accepts(f)(last.text) then [last] else [];
    }
  }

  // ---- The reader ------------------------------------------------------------------

  class LogSource {
    var inode: Option<int>
    var byteOffset: nat
    var lastReadAt: Option<int>
    var lastEventAt: Option<int>
    var lastError: string

    function Tail(): T.Tail
      reads this
    {
      T.Tail(inode, byteOffset)
    }
  }

  class RequestEvents {
    var rows: seq<Event>
  }

  datatype Summary = Summary(eventsCreated: nat, parseErrors: nat, linesRead: nat, rotated: bool, fileMissing: bool)

  ghost predicate IsLatest(parsed: seq<F.ParsedLine>, at: int)
  {
    && (exists p :: p in parsed && p.timestamp == at)
    && (forall p :: p in parsed ==> p.timestamp <= at)
  }

  class NginxLogReader {
    const source: LogSource
    const ips: S.IpTable
    const events: RequestEvents
    const format: Format

    constructor (source: LogSource, ips: S.IpTable, events: RequestEvents, format: Format)
      ensures this.source == source && this.ips == ips && this.events == events && this.format == format
    {
      this.source, this.ips, this.events, this.format := source, ips, events, format;
    }

    /** Everything up to the commit of the events. A worker that dies after it leaves the
        source as it was. */
    method RecordChunk(chunk: Chunk)
        returns (parsed: seq<F.ParsedLine>, linesRead: nat, parseErrors: nat, consumed: nat)
      requires ValidFormat(format)
      modifies ips, events
      ensures consumed == T.Consumed(chunk.data)
      ensures var texts := T.Texts(T.Lines(chunk.data, chunk.offset));
        parsed == Accepted(format, texts) && linesRead == |texts| && |parsed| + parseErrors == linesRead
      ensures events.rows == old(events.rows) + EventsOf(format, parsed)
      ensures Recorded(old(ips.rows), ips.rows, parsed) && old(ips.queue) <= ips.queue
      ensures multiset(ips.queue[|old(ips.queue)|..]) == multiset(Unknown(old(ips.rows), parsed))
    {
      var rawLines := T.Terminated(chunk.data);
      consumed := ConsumedBytes(chunk);
      T.TextsOfPlace(rawLines, chunk.offset);
      var completeLines := T.NonEmpty(rawLines);
      parsed, parseErrors := ParseAll(completeLines);
      linesRead := |completeLines|;
      if parsed != [] {
        AcceptedAddresses(format, completeLines);
        MissingAreUnknown(ips.rows, parsed);
        var existing := ips.RecordSightingsBulk(SightingsOf(parsed), format.norm);
        events.rows := events.rows + EventsOf(format, parsed);
      }
    }

    method ParseAll(completeLines: seq<T.Bytes>) returns (parsed: seq<F.ParsedLine>, parseErrors: nat)
      ensures parsed == Accepted(format, completeLines) && |parsed| + parseErrors == |completeLines|
    {
      hide Parse;
      parsed, parseErrors := [], 0;
      for i := 0 to |completeLines|
        invariant parsed == Accepted(format, completeLines[..i]) && |parsed| + parseErrors == i
      {
        assert completeLines[..i + 1][..i] == completeLines[..i];
        var outcome := Parse(format, completeLines[i]);
        match outcome {
          case Failed(_) => parseErrors := parseErrors + 1;
          case Parsed(line) => parsed := parsed + [line];
        }
      }
      assert completeLines[..|completeLines|] == completeLines;
    }

    static method ConsumedBytes(chunk: Chunk) returns (consumed: nat)
      ensures consumed == T.Consumed(chunk.data)
    {
      T.CutAtLeftover(chunk.data);
      consumed := |chunk.data| - |T.Leftover(chunk.data)|;
    }

    /** The table of addresses after the sightings of the parsed lines. */
    ghost predicate Recorded(before: S.IpRows, after: S.IpRows, parsed: seq<F.ParsedLine>)
      reads this
    {
      && S.Valid(SightingsOf(parsed), format.norm)
      && after == S.Recorded(before, S.LatestOf(SightingsOf(parsed), format.norm))
    }

    /** The addresses of the parsed lines that have no row. */
    ghost function Unknown(rows: S.IpRows, parsed: seq<F.ParsedLine>): set<S.Address>
    {
      set p | p in parsed && format.norm(p.remoteAddr).Some? && format.norm(p.remoteAddr).value !in rows ::
        format.norm(p.remoteAddr).value
    }

    lemma MissingAreUnknown(rows: S.IpRows, parsed: seq<F.ParsedLine>)
      requires S.Valid(SightingsOf(parsed), format.norm)
      ensures S.Missing(rows, S.LatestOf(SightingsOf(parsed), format.norm)) == Unknown(rows, parsed)
    {
      hide S.LatestOf;
      var sightings := SightingsOf(parsed);
      forall a ensures a in S.LatestOf(sightings, format.norm) <==>
          exists p :: p in parsed && format.norm(p.remoteAddr) == Some(a) {
        S.LatestOfIsLatest(sightings, format.norm, a);
        if a in S.LatestOf(sightings, format.norm) {
          var i :| 0 <= i < |sightings| && format.norm(sightings[i].raw).value == a;
          assert parsed[i] in parsed && format.norm(parsed[i].remoteAddr) == Some(a);
        }
        if p :| p in parsed && format.norm(p.remoteAddr) == Some(a) {
          var i :| 0 <= i < |parsed| && parsed[i] == p;
          assert format.norm(sightings[i].raw).value == a;
        }
      }
    }

    /** The second commit of a poll: the new place, and what the last read was like. */
    method SaveState(chunk: Chunk, consumed: nat, parsed: seq<F.ParsedLine>, parseErrors: nat, now: int)
      modifies source
      ensures source.Tail() == T.Tail(Some(chunk.inode), chunk.offset + consumed)
      ensures source.lastReadAt == Some(now)
      ensures if parsed == [] then source.lastEventAt == old(source.lastEventAt)
              else source.lastEventAt.Some? && IsLatest(parsed, source.lastEventAt.value)
      ensures source.lastError == "" <==> parseErrors == 0
    {
      source.inode := Some(chunk.inode);
      source.byteOffset := chunk.offset + consumed;
      source.lastReadAt := Some(now);
      if parsed != [] {
        var latest := LatestEvent(parsed);
        source.lastEventAt := Some(latest);
      }
      source.lastError := if parseErrors > 0 then "line(s) failed to parse on last read" else "";
    }

    static method LatestEvent(parsed: seq<F.ParsedLine>) returns (at: int)
      requires parsed != []
      ensures IsLatest(parsed, at)
    {
      at := parsed[0].timestamp;
      for i := 1 to |parsed|
        invariant IsLatest(parsed[..i], at)
      {
        assert parsed[..i + 1] == parsed[..i] + [parsed[i]];
        if parsed[i].timestamp > at {
          at := parsed[i].timestamp;
          assert parsed[i] in parsed[..i + 1];
        }
      }
      assert parsed[..|parsed|] == parsed;
    }

    /** One whole poll, on the row as the caller loaded it: LogTail's step, with its events. */
    method Poll(remote: T.Remote, path: string, now: int) returns (summary: Summary)
      requires ValidFormat(format)
      modifies source, ips, events
      ensures source.Tail() == T.Advance(old(source.Tail()), remote) && source.lastReadAt == Some(now)
      ensures var parsed := Accepted(format, T.Texts(T.Emitted(old(source.Tail()), remote)));
        && events.rows == old(events.rows) + EventsOf(format, parsed)
        && Recorded(old(ips.rows), ips.rows, parsed) && old(ips.queue) <= ips.queue
        && multiset(ips.queue[|old(ips.queue)|..]) == multiset(Unknown(old(ips.rows), parsed))
        && summary.eventsCreated == |parsed|
        && (if parsed == [] then source.lastEventAt == old(source.lastEventAt)
            else source.lastEventAt.Some? && IsLatest(parsed, source.lastEventAt.value))
      ensures summary.linesRead == |T.Emitted(old(source.Tail()), remote)|
          == summary.eventsCreated + summary.parseErrors
      ensures summary.fileMissing <==> remote.Absent?
      ensures summary.rotated <==> remote.Present? && old(source.inode).Some? && old(source.inode).value != remote.inode
      ensures source.lastError == "" <==> remote.Present? && summary.parseErrors == 0
      ensures remote.Absent? ==> source.lastError == "Log file not found: " + path
    {
      hide T.Advance, T.Lines, T.DataOf, T.StartOf;
      var chunk := PollLog(remote, source.inode, if source.inode.Some? then Some(source.byteOffset) else None);
      if chunk.None? {
        source.lastError := "Log file not found: " + path;
        source.lastReadAt := Some(now);
        NothingRead(source.Tail(), remote);
        return Summary(0, 0, 0, false, true);
      }
      Reads(source.Tail(), remote);
      var parsed, linesRead, parseErrors, consumed := RecordChunk(chunk.value);
      SaveState(chunk.value, consumed, parsed, parseErrors, now);
      summary := Summary(|parsed|, parseErrors, linesRead, chunk.value.rotated, false);
    }
  }

  lemma NothingRead(s: T.Tail, remote: T.Remote)
    requires remote.Absent?
    ensures T.Advance(s, remote) == s && T.Emitted(s, remote) == [] && T.Texts([]) == []
  {
  }

  /** A file never polled before is read from its end, whatever offset the row holds. */
  lemma Reads(s: T.Tail, remote: T.Remote)
    requires remote.Present?
    ensures var offset := if s.inode.Some? then s.offset else 0;
      var from, data := T.StartOf(T.Tail(s.inode, offset), remote), T.DataOf(T.Tail(s.inode, offset), remote);
      && T.Emitted(s, remote) == T.Lines(data, from)
      && T.Advance(s, remote) == T.Tail(Some(remote.inode), from + T.Consumed(data))
  {
    T.CutAtLeftover(T.DataOf(s, remote));
  }

  /** Every event's address has a row, last seen no earlier than the event. */
  lemma EventsHaveRows(f: Format, parsed: seq<F.ParsedLine>, before: S.IpRows, i: nat)
    requires i < |parsed| && S.Valid(SightingsOf(parsed), f.norm)
    ensures var after, e := S.Recorded(before, S.LatestOf(SightingsOf(parsed), f.norm)), EventsOf(f, parsed)[i];
      e.address in after && e.timestamp <= after[e.address].lastSeen
  {
    var sightings, e := SightingsOf(parsed), EventsOf(f, parsed)[i];
    assert f.norm(sightings[i].raw).Some?;
    S.LatestOfIsLatest(sightings, f.norm, e.address);
    assert f.norm(sightings[i].raw).value == e.address && sightings[i].seenAt == e.timestamp;
  }
}
