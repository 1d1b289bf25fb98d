/** Compiling an nginx log_format into literals and variables, matching a line against them,
    and reading the groups. */
module LogFormat {
  import opened Common
  import opened Text

  datatype Part = Literal(text: string) | Variable(name: string)

  /** The text a `$variable` matches: characters of one class, at least `min` of them, or
      exactly `min`. */
  datatype CharClass = NonSpace | NonBracket | NonQuote | Digit

  datatype Pattern = Pattern(cls: CharClass, min: nat, exact: bool)

  predicate InClass(c: char, cls: CharClass)
  {
    match cls
    case NonSpace => !IsSpace(c)
    case NonBracket => c != ']'
    case NonQuote => c != '"'
    case Digit => '0' <= c <= '9'
  }

  function PatternOf(name: string): Option<Pattern>
  {
    if name in {"remote_addr", "remote_user", "body_bytes_sent", "request_time", "host"} then
      Some(Pattern(NonSpace, 1, false))
    else if name == "time_local" then Some(Pattern(NonBracket, 1, false))
    else if name in {"request", "http_referer", "http_user_agent"} then Some(Pattern(NonQuote, 0, false))
    else if name == "status" then Some(Pattern(Digit, 3, true))
    else None
  }

  /** Every variable but `$remote_user` is a named group. */
  predicate Captured(p: Part)
  {
    p.Variable? && p.name != "remote_user"
  }

  // ---- Tokenising ------------------------------------------------------------------

  /** `[a-z_]` */
  predicate IsNameChar(c: char)
  {
    'a' <= c <= 'z' || c == '_'
  }

  predicate IsName(s: string)
  {
    s != [] && forall i :: 0 <= i < |s| ==> IsNameChar(s[i])
  }

  function NameEnd(s: string, i: nat): (end: nat)
    requires i <= |s|
    ensures i <= end <= |s|
    ensures forall k :: i <= k < end ==> IsNameChar(s[k])
    ensures end < |s| ==> !IsNameChar(s[end])
    decreases |s| - i
  {
    if i < |s| && IsNameChar(s[i]) then NameEnd(s, i + 1) else i
  }

  predicate TokenAt(s: string, i: int)
  {
    0 <= i && i + 1 < |s| && s[i] == '$' && IsNameChar(s[i + 1])
  }

  /** Where the next `\$([a-z_]+)` starts, or the length. */
  function TokenFrom(s: string, i: nat): (start: nat)
    requires i <= |s|
    ensures i <= start <= |s|
    ensures start < |s| ==> TokenAt(s, start)
    ensures forall k :: i <= k < start ==> !TokenAt(s, k)
    decreases |s| - i
  {
    if i == |s| || TokenAt(s, i) then i else TokenFrom(s, i + 1)
  }

  /** The format string from `pos` on as literal, variable, literal, ..., literal. */
  function Tokenize(s: string, pos: nat): seq<Part>
    requires pos <= |s|
    decreases |s| - pos
  {
    var start := TokenFrom(s, pos);
    if start == |s| then [Literal(s[pos..])]
    else
      var end := NameEnd(s, start + 1);
      [Literal(s[pos..start]), Variable(s[start + 1..end])] + Tokenize(s, end)
  }

  function PartText(p: Part): string
  {
    match p
    case Literal(t) => t
    case Variable(n) => "$" + n
  }

  function SourceOf(parts: seq<Part>): string
  {
    if parts == [] then [] else PartText(parts[0]) + SourceOf(parts[1..])
  }

  lemma SourceOfPair(lit: string, name: string, rest: seq<Part>)
    ensures SourceOf([Literal(lit), Variable(name)] + rest) == lit + ("$" + name + SourceOf(rest))
  {
    var parts := [Literal(lit), Variable(name)] + rest;
    assert parts[1..] == [Variable(name)] + rest && parts[1..][1..] == rest;
    assert lit + (("$" + name) + SourceOf(rest)) == lit + ("$" + name + SourceOf(rest));
  }

  lemma CutToken(s: string, pos: nat, start: nat, end: nat)
    requires pos <= start < end <= |s| && s[start] == '$'
    ensures s[pos..] == s[pos..start] + ("$" + s[start + 1..end] + s[end..])
  {
  }

  lemma TokenizeStep(s: string, pos: nat, start: nat, end: nat)
    requires pos <= |s| && start == TokenFrom(s, pos)
    requires start < |s| && end == NameEnd(s, start + 1)
    ensures start < end && Tokenize(s, pos) == [Literal(s[pos..start]), Variable(s[start + 1..end])] + Tokenize(s, end)
  {
  }

  /** Tokenising loses none of the text. */
  lemma {:induction false} TokenizeKeepsText(s: string, pos: nat)
    requires pos <= |s|
    ensures SourceOf(Tokenize(s, pos)) == s[pos..]
    decreases |s| - pos
  {
    var start := TokenFrom(s, pos);
    if start == |s| {
      SourceOfLiteral(s[pos..]);
    } else {
      hide *;
      var end := NameEnd(s, start + 1);
      TokenizeStep(s, pos, start, end);
      TokenizeKeepsText(s, end);
      SourceOfPair(s[pos..start], s[start + 1..end], Tokenize(s, end));
      assert s[start] == '$' by { TokenDollar(s, pos); }
      CutToken(s, pos, start, end);
    }
  }

  lemma TokenDollar(s: string, pos: nat)
    requires pos <= |s| && TokenFrom(s, pos) < |s|
    ensures s[TokenFrom(s, pos)] == '$'
  {
  }

  lemma SourceOfLiteral(t: string)
    ensures SourceOf([Literal(t)]) == t
  {
    assert SourceOf([Literal(t)]) == t + SourceOf([]);
  }

  /** Literal, variable, literal, ..., literal, where no literal holds or completes a variable. */
  predicate Alternates(parts: seq<Part>)
  {
    && |parts| >= 1 && parts[0].Literal?
    && (forall i :: 0 <= i < |parts[0].text| ==> !TokenAt(parts[0].text, i))
    && (|parts| > 1 ==>
          && |parts| > 2 && parts[1].Variable? && IsName(parts[1].name)
          && parts[2].Literal? && (parts[2].text == [] || !IsNameChar(parts[2].text[0]))
          && Alternates(parts[2..]))
  }

  /** Tokenising finds the parts a format was written as. */
  lemma {:induction false} TokenizeWritten(parts: seq<Part>, s: string, pos: nat)
    requires Alternates(parts) && pos <= |s| && s[pos..] == SourceOf(parts)
    ensures Tokenize(s, pos) == parts
    decreases |parts|
  {
    hide *;
    Opened(parts);
    var lit := parts[0].text;
    if |parts| == 1 {
      SourceOfLiteral(lit);
      LiteralOnly(s, pos, lit);
      TokenizeLast(s, pos);
    } else {
      var name, rest := parts[1].name, parts[2..];
      var end := pos + |lit| + 1 + |name|;
      SourceOfPair(lit, name, rest);
      StartsClean(rest);
      LiteralThenToken(s, pos, lit, name, SourceOf(rest));
      TokenizeWritten(rest, s, end);
      TokenizeStep(s, pos, pos + |lit|, end);
      assert s[pos + |lit| + 1..end] == name;
    }
  }

  lemma Opened(parts: seq<Part>)
    requires Alternates(parts)
    ensures |parts| >= 1
    ensures parts[0].Literal? && forall i :: 0 <= i < |parts[0].text| ==> !TokenAt(parts[0].text, i)
    ensures |parts| == 1 ==> parts == [Literal(parts[0].text)]
    ensures |parts| > 1 ==>
      && |parts| > 2 && parts[1].Variable? && IsName(parts[1].name) && Alternates(parts[2..])
      && parts == [Literal(parts[0].text), Variable(parts[1].name)] + parts[2..]
      && parts[2..][0].Literal? && (parts[2..][0].text == [] || !IsNameChar(parts[2..][0].text[0]))
  {
  }

  lemma LiteralOnly(s: string, pos: nat, lit: string)
    requires pos <= |s| && s[pos..] == lit
    requires forall i :: 0 <= i < |lit| ==> !TokenAt(lit, i)
    ensures TokenFrom(s, pos) == |s|
  {
    hide TokenFrom;
    var start := TokenFrom(s, pos);
    assert forall k :: pos <= k < |s| ==> s[k] == lit[k - pos];
    assert TokenAt(s, start) ==> TokenAt(lit, start - pos);
  }

  lemma LiteralThenToken(s: string, pos: nat, lit: string, name: string, rest: string)
    requires pos <= |s| && s[pos..] == lit + ("$" + name + rest)
    requires forall i :: 0 <= i < |lit| ==> !TokenAt(lit, i)
    requires IsName(name) && (rest == [] || !IsNameChar(rest[0]))
    ensures TokenFrom(s, pos) == pos + |lit| < |s|
    ensures NameEnd(s, pos + |lit| + 1) == pos + |lit| + 1 + |name|
    ensures s[pos..pos + |lit|] == lit && s[pos + |lit| + 1..pos + |lit| + 1 + |name|] == name
    ensures s[pos + |lit| + 1 + |name|..] == rest
  {
    Placed(s, pos, lit, name, rest);
    FindsToken(s, pos, lit, name);
    FindsNameEnd(s, pos + |lit| + 1, name);
  }

  /** Where the characters of a written token are. */
  lemma Placed(s: string, pos: nat, lit: string, name: string, rest: string)
    requires pos <= |s| && s[pos..] == lit + ("$" + name + rest)
    ensures |s| == pos + |lit| + 1 + |name| + |rest|
    ensures s[pos + |lit|] == '$'
    ensures s[pos..pos + |lit|] == lit && s[pos + |lit| + 1..pos + |lit| + 1 + |name|] == name
    ensures s[pos + |lit| + 1 + |name|..] == rest
  {
    var tail, m, e := s[pos..], |lit|, |lit| + 1 + |name|;
    assert tail[..m] == lit && tail[m] == '$' && tail[m + 1..e] == name && tail[e..] == rest;
  }

  lemma FindsToken(s: string, pos: nat, lit: string, name: string)
    requires pos + |lit| + 1 + |name| <= |s| && IsName(name)
    requires forall i :: 0 <= i < |lit| ==> !TokenAt(lit, i)
    requires s[pos..pos + |lit|] == lit && s[pos + |lit|] == '$'
    requires s[pos + |lit| + 1..pos + |lit| + 1 + |name|] == name
    ensures TokenFrom(s, pos) == pos + |lit|
  {
    hide TokenFrom;
    var m, start := |lit|, TokenFrom(s, pos);
    assert forall k :: 0 <= k < m ==> s[pos + k] == lit[k];
    assert s[pos + m + 1] == name[0] && TokenAt(s, pos + m);
    assert start < pos + m && start + 1 < pos + m ==> TokenAt(lit, start - pos);
  }

  lemma FindsNameEnd(s: string, i: nat, name: string)
    requires IsName(name) && i + |name| <= |s| && s[i..i + |name|] == name
    requires i + |name| < |s| ==> !IsNameChar(s[i + |name|])
    ensures NameEnd(s, i) == i + |name|
  {
    hide NameEnd;
    assert forall k :: i <= k < i + |name| ==> s[k] == name[k - i];
  }

  lemma StartsClean(rest: seq<Part>)
    requires Alternates(rest) && (rest[0].text == [] || !IsNameChar(rest[0].text[0]))
    ensures SourceOf(rest) == [] || !IsNameChar(SourceOf(rest)[0])
  {
    assert SourceOf(rest) == rest[0].text + SourceOf(rest[1..]);
    if |rest| > 1 && rest[0].text == [] {
      assert rest[1..][0] == rest[1];
      assert SourceOf(rest)[0] == '$';
    }
  }

  // ---- Compiling -------------------------------------------------------------------

  /** The compiled format, the ValueError for a variable without a pattern, or the regular
      expression compiler's error for a group named twice. */
  datatype Compiled = Compiled(parts: seq<Part>) | Unsupported(name: string) | DuplicateGroup

  predicate Supported(p: Part)
  {
    p.Variable? ==> PatternOf(p.name).Some?
  }

  predicate DistinctGroups(parts: seq<Part>)
  {
    forall i, j :: 0 <= i < j < |parts| && Captured(parts[i]) && Captured(parts[j]) ==> parts[i].name != parts[j].name
  }

  ghost predicate FirstUnsupported(parts: seq<Part>, name: string)
  {
    && PatternOf(name).None?
    && exists k :: 0 <= k < |parts| && parts[k] == Variable(name) && forall i :: 0 <= i < k ==> Supported(parts[i])
  }

  method CompileFormat(format: string) returns (r: Compiled)
    ensures r.Compiled? ==> r.parts == Tokenize(format, 0)
    ensures r.Compiled? <==>
        (forall p :: p in Tokenize(format, 0) ==> Supported(p)) && DistinctGroups(Tokenize(format, 0))
    ensures r.Unsupported? ==> FirstUnsupported(Tokenize(format, 0), r.name)
    ensures r.DuplicateGroup? ==> forall p :: p in Tokenize(format, 0) ==> Supported(p)
  {
    hide Tokenize, TokenFrom, NameEnd, Supported, DistinctGroups, FirstUnsupported, PatternOf;
    var parts: seq<Part>, pos := [], 0;
    while TokenFrom(format, pos) < |format|
      invariant pos <= |format|
      invariant parts + Tokenize(format, pos) == Tokenize(format, 0)
      invariant forall p :: p in parts ==> Supported(p)
      decreases |format| - pos
    {
      var start := TokenFrom(format, pos);
      var end := NameEnd(format, start + 1);
      var token := format[start + 1..end];
      TokenizeStep(format, pos, start, end);
      CompileStep(parts, format[pos..start], token, Tokenize(format, end));
      if PatternOf(token).None? {
        return Unsupported(token);
      }
      parts := parts + [Literal(format[pos..start]), Variable(token)];
      pos := end;
    }
    TokenizeLast(format, pos);
    parts := parts + [Literal(format[pos..])];
    assert Supported(Literal(format[pos..])) by { CompileStep([], format[pos..], "", []); }
    r := if DistinctGroups(parts) then Compiled(parts) else DuplicateGroup;
  }

  lemma TokenizeLast(s: string, pos: nat)
    requires pos <= |s| && TokenFrom(s, pos) == |s|
    ensures Tokenize(s, pos) == [Literal(s[pos..])]
  {
  }

  lemma CompileStep(parts: seq<Part>, lit: string, token: string, rest: seq<Part>)
    requires forall p :: p in parts ==> Supported(p)
    ensures var all := parts + ([Literal(lit), Variable(token)] + rest);
      && all == (parts + [Literal(lit), Variable(token)]) + rest
      && Variable(token) in all && Supported(Literal(lit))
      && (PatternOf(token).None? ==> FirstUnsupported(all, token) && !Supported(Variable(token)))
      && (PatternOf(token).Some? ==> Supported(Variable(token)))
  {
    hide PatternOf;
    var all := parts + ([Literal(lit), Variable(token)] + rest);
    assert all[|parts|] == Literal(lit) && all[|parts| + 1] == Variable(token);
    assert forall i :: 0 <= i < |parts| ==> all[i] == parts[i];
  }

  // ---- Matching --------------------------------------------------------------------

  predicate Fits(seg: string, p: Pattern)
  {
    && (if p.exact then |seg| == p.min else |seg| >= p.min)
    && forall i :: 0 <= i < |seg| ==> InClass(seg[i], p.cls)
  }

  predicate Accepts(part: Part, seg: string)
  {
    match part
    case Literal(t) => seg == t
    case Variable(n) => PatternOf(n).Some? && Fits(seg, PatternOf(n).value)
  }

  function Concat(segs: seq<string>): string
  {
    if segs == [] then [] else segs[0] + Concat(segs[1..])
  }

  /** The line is these segments, one for each part. */
  predicate IsMatch(parts: seq<Part>, line: string, segs: seq<string>)
  {
    && |segs| == |parts| && Concat(segs) == line
    && forall i :: 0 <= i < |parts| ==> Accepts(parts[i], segs[i])
  }

  function RunLength(s: string, cls: CharClass): (n: nat)
    ensures n <= |s|
    ensures forall i :: 0 <= i < n ==> InClass(s[i], cls)
    ensures n < |s| ==> !InClass(s[n], cls)
  {
    if s != [] && InClass(s[0], cls) then 1 + RunLength(s[1..], cls) else 0
  }

  /** The backtracking match of `^...$`: a variable first takes as much as it can, then less. */
  function Match(parts: seq<Part>, line: string): Option<seq<string>>
    decreases |parts|, 1, 0
  {
    if parts == [] then (if line == [] then Some([]) else None)
    else
      match parts[0]
      case Literal(t) =>
        if t <= line then Prefixed(t, Match(parts[1..], line[|t|..])) else None
      case Variable(name) =>
        var p := PatternOf(name);
        if p.None? then None
        else
          var run := RunLength(line, p.value.cls);
          if run < p.value.min then None
          else if p.value.exact then Prefixed(line[..p.value.min], Match(parts[1..], line[p.value.min..]))
          else Backtrack(parts, line, p.value.min, run)
  }

  function Prefixed(seg: string, rest: Option<seq<string>>): Option<seq<string>>
  {
    if rest.Some? then Some([seg] + rest.value) else None
  }

  function Backtrack(parts: seq<Part>, line: string, min: nat, n: nat): Option<seq<string>>
    requires parts != [] && min <= n <= |line|
    decreases |parts|, 0, n
  {
    var here := Prefixed(line[..n], Match(parts[1..], line[n..]));
    if here.Some? || n == min then here else Backtrack(parts, line, min, n - 1)
  }

  lemma Cons(part: Part, parts: seq<Part>, line: string, n: nat, segs: seq<string>)
    requires n <= |line| && Accepts(part, line[..n]) && IsMatch(parts, line[n..], segs)
    ensures IsMatch([part] + parts, line, [line[..n]] + segs)
  {
    assert ([line[..n]] + segs)[1..] == segs;
    assert line == line[..n] + line[n..];
  }

  lemma Uncons(parts: seq<Part>, line: string, segs: seq<string>)
    requires parts != [] && IsMatch(parts, line, segs)
    ensures |segs[0]| <= |line| && line[..|segs[0]|] == segs[0]
    ensures Accepts(parts[0], segs[0])
    ensures IsMatch(parts[1..], line[|segs[0]|..], segs[1..])
  {
    assert line == segs[0] + Concat(segs[1..]);
  }

  /** What the backtracking finds is a match. */
  lemma {:induction false} MatchSound(parts: seq<Part>, line: string)
    ensures Match(parts, line).Some? ==> IsMatch(parts, line, Match(parts, line).value)
    decreases |parts|, 1, 0
  {
    if parts != [] && Match(parts, line).Some? {
      assert parts == [parts[0]] + parts[1..];
      match parts[0]
      case Literal(t) =>
        MatchSound(parts[1..], line[|t|..]);
        Cons(parts[0], parts[1..], line, |t|, Match(parts[1..], line[|t|..]).value);
      case Variable(name) =>
        var p := PatternOf(name).value;
        if p.exact {
          MatchSound(parts[1..], line[p.min..]);
          Cons(parts[0], parts[1..], line, p.min, Match(parts[1..], line[p.min..]).value);
        } else {
          BacktrackSound(parts, line, p.min, RunLength(line, p.cls));
        }
    }
  }

  lemma {:induction false} BacktrackSound(parts: seq<Part>, line: string, min: nat, n: nat)
    requires parts != [] && parts[0].Variable? && PatternOf(parts[0].name).Some?
    requires var p := PatternOf(parts[0].name).value; !p.exact && p.min == min <= n <= RunLength(line, p.cls)
    ensures Backtrack(parts, line, min, n).Some? ==> IsMatch(parts, line, Backtrack(parts, line, min, n).value)
    decreases |parts|, 0, n
  {
    MatchSound(parts[1..], line[n..]);
    if Match(parts[1..], line[n..]).Some? {
      assert parts == [parts[0]] + parts[1..];
      Cons(parts[0], parts[1..], line, n, Match(parts[1..], line[n..]).value);
    } else if n > min {
      BacktrackSound(parts, line, min, n - 1);
    }
  }

  /** It finds one whenever there is one. */
  lemma {:induction false} MatchComplete(parts: seq<Part>, line: string, segs: seq<string>)
    requires IsMatch(parts, line, segs)
    ensures Match(parts, line).Some?
    decreases |parts|, 1, 0
  {
    if parts != [] {
      Uncons(parts, line, segs);
      var n := |segs[0]|;
      match parts[0]
      case Literal(t) =>
        MatchComplete(parts[1..], line[n..], segs[1..]);
      case Variable(name) =>
        var p := PatternOf(name).value;
        var run := RunLength(line, p.cls);
        assert forall i :: 0 <= i < n ==> line[i] == segs[0][i];
        MatchComplete(parts[1..], line[n..], segs[1..]);
        if !p.exact {
          BacktrackComplete(parts, line, p.min, run, n);
        }
    }
  }

  lemma {:induction false} BacktrackComplete(parts: seq<Part>, line: string, min: nat, n: nat, k: nat)
    requires parts != [] && min <= k <= n <= |line| && Match(parts[1..], line[k..]).Some?
    ensures Backtrack(parts, line, min, n).Some?
    decreases n
  {
    if k < n {
      BacktrackComplete(parts, line, min, n - 1, k);
    }
  }

  // ---- Formats with one reading ----------------------------------------------------

  /** What follows begins with no character of `cls`: a literal that starts with another one,
      or the end of the line. */
  predicate Stops(rest: seq<Part>, cls: CharClass)
  {
    if rest == [] then true
    else match rest[0]
      case Literal(t) => if t == [] then Stops(rest[1..], cls) else !InClass(t[0], cls)
      case Variable(_) => false
  }

  /** Every variable of open length is followed by a stop. */
  predicate Determinate(parts: seq<Part>)
  {
    forall i :: 0 <= i < |parts| && parts[i].Variable? ==>
      PatternOf(parts[i].name).Some?
          && (PatternOf(parts[i].name).value.exact || Stops(parts[i + 1..], PatternOf(parts[i].name).value.cls))
  }

  lemma {:induction false} StopsLine(rest: seq<Part>, cls: CharClass, line: string, segs: seq<string>)
    requires Stops(rest, cls) && IsMatch(rest, line, segs)
    ensures line == [] || !InClass(line[0], cls)
  {
    if rest != [] {
      Uncons(rest, line, segs);
      if rest[0].text == [] {
        StopsLine(rest[1..], cls, line, segs[1..]);
      }
    }
  }

  lemma DeterminateTail(parts: seq<Part>)
    requires parts != [] && Determinate(parts)
    ensures Determinate(parts[1..])
  {
    var rest := parts[1..];
    forall i | 0 <= i < |rest| && rest[i].Variable?
      ensures PatternOf(rest[i].name).Some?
          && (PatternOf(rest[i].name).value.exact || Stops(rest[i + 1..], PatternOf(rest[i].name).value.cls))
    {
      assert parts[i + 1] == rest[i] && parts[i + 2..] == rest[i + 1..];
    }
  }

  /** In such a format a line has at most one reading. */
  lemma {:induction false} UniqueMatch(parts: seq<Part>, line: string, s1: seq<string>, s2: seq<string>)
    requires Determinate(parts) && IsMatch(parts, line, s1) && IsMatch(parts, line, s2)
    ensures s1 == s2
  {
    if parts != [] {
      Uncons(parts, line, s1);
      Uncons(parts, line, s2);
      FirstSegment(parts, line, s1, s2);
      FirstSegment(parts, line, s2, s1);
      DeterminateTail(parts);
      UniqueMatch(parts[1..], line[|s1[0]|..], s1[1..], s2[1..]);
      assert s1 == [s1[0]] + s1[1..] && s2 == [s2[0]] + s2[1..];
    }
  }

  lemma FirstSegment(parts: seq<Part>, line: string, s1: seq<string>, s2: seq<string>)
    requires parts != [] && Determinate(parts) && IsMatch(parts, line, s1) && IsMatch(parts, line, s2)
    ensures |s1[0]| >= |s2[0]|
  {
    Uncons(parts, line, s1);
    Uncons(parts, line, s2);
    var n := |s1[0]|;
    assert forall i :: 0 <= i < |s2[0]| ==> line[i] == s2[0][i];
    if parts[0].Variable? && !PatternOf(parts[0].name).value.exact {
      StopsLine(parts[1..], PatternOf(parts[0].name).value.cls, line[n..], s1[1..]);
    }
  }

  // ---- What the variables match ----------------------------------------------------

  /** The supported variables and the texts each of them matches. */
  lemma VariablePatterns(name: string, s: string)
    ensures name in {"remote_addr", "remote_user", "body_bytes_sent", "request_time", "host"} ==>
      PatternOf(name).Some?
      && (Fits(s, PatternOf(name).value) <==> s != [] && forall i :: 0 <= i < |s| ==> !IsSpace(s[i]))
    ensures name == "time_local" ==>
      PatternOf(name).Some?
      && (Fits(s, PatternOf(name).value) <==> s != [] && forall i :: 0 <= i < |s| ==> s[i] != ']')
    ensures name in {"request", "http_referer", "http_user_agent"} ==>
      PatternOf(name).Some? && (Fits(s, PatternOf(name).value) <==> forall i :: 0 <= i < |s| ==> s[i] != '"')
    ensures name == "status" ==>
      PatternOf(name).Some?
      && (Fits(s, PatternOf(name).value) <==> |s| == 3 && forall i :: 0 <= i < 3 ==> 48 <= s[i] as int <= 57)
    ensures PatternOf(name).Some? ==>
      name in {"remote_addr", "remote_user", "body_bytes_sent", "request_time", "host", "time_local", "request",
               "http_referer", "http_user_agent", "status"}
    ensures forall c :: IsNameChar(c) <==> 97 <= c as int <= 122 || c as int == 95
  {
    hide IsSpace;
  }

  // ---- Groups and rendering --------------------------------------------------------

  type Groups = map<string, string>

  /** `groupdict()`: the segment of each named group. */
  function GroupsOf(parts: seq<Part>, segs: seq<string>): Groups
    requires |parts| == |segs|
  {
    if parts == [] then map[]
    else
      var n := |parts| - 1;
      var g := GroupsOf(parts[..n], segs[..n]);
      if Captured(parts[n]) then g[parts[n].name := segs[n]] else g
  }

  lemma {:induction false} GroupsAt(parts: seq<Part>, segs: seq<string>, name: string)
    requires |parts| == |segs| && DistinctGroups(parts)
    ensures name in GroupsOf(parts, segs) <==>
        exists i :: 0 <= i < |parts| && Captured(parts[i]) && parts[i].name == name
    ensures forall i :: 0 <= i < |parts| && Captured(parts[i]) && parts[i].name == name ==>
        GroupsOf(parts, segs)[name] == segs[i]
  {
    if parts != [] {
      var n := |parts| - 1;
      var init := parts[..n];
      assert forall i :: 0 <= i < n ==> init[i] == parts[i];
      GroupsAt(init, segs[..n], name);
      if name in GroupsOf(init, segs[..n]) {
        var i :| 0 <= i < n && Captured(init[i]) && init[i].name == name;
        assert Captured(parts[i]) && parts[i].name == name;
      }
    }
  }

  /** The text of one log entry, variable by variable. */
  type Record = map<string, string>

  function SegmentOf(p: Part, rec: Record): string
  {
    match p
    case Literal(t) => t
    case Variable(n) => if n in rec then rec[n] else ""
  }

  function SegmentsOf(parts: seq<Part>, rec: Record): (segs: seq<string>)
    ensures |segs| == |parts|
  {
    seq(|parts|, i requires 0 <= i < |parts| => SegmentOf(parts[i], rec))
  }

  /** The line nginx writes for the record. */
  function Render(parts: seq<Part>, rec: Record): string
  {
    Concat(SegmentsOf(parts, rec))
  }

  predicate Renderable(parts: seq<Part>, rec: Record)
  {
    forall p :: p in parts && p.Variable? ==>
        p.name in rec && PatternOf(p.name).Some? && Fits(rec[p.name], PatternOf(p.name).value)
  }

  /** Every format that compiles has records to render. */
  lemma SomeRecordIsRenderable(parts: seq<Part>)
    requires forall p :: p in parts ==> Supported(p)
    ensures exists rec :: Renderable(parts, rec)
  {
    hide PatternOf, Fits;
    var rec: Record := map p | p in parts && p.Variable? :: p.name := "200";
    forall p | p in parts && p.Variable?
      ensures p.name in rec && PatternOf(p.name).Some? && Fits(rec[p.name], PatternOf(p.name).value)
    {
      assert Supported(p);
      SampleFits(p.name);
    }
    assert Renderable(parts, rec);
  }

  lemma SampleFits(name: string)
    requires PatternOf(name).Some?
    ensures Fits("200", PatternOf(name).value)
  {
    var pattern := PatternOf(name).value;
    hide PatternOf;
    assert pattern.cls.Digit? || pattern.min <= 1;
  }

  /** Matching a rendered record finds its own segments and no others. */
  lemma RenderedMatches(parts: seq<Part>, rec: Record)
    requires Determinate(parts) && Renderable(parts, rec)
    ensures Match(parts, Render(parts, rec)) == Some(SegmentsOf(parts, rec))
  {
    hide Match, Fits, PatternOf, Determinate;
    var line, segs := Render(parts, rec), SegmentsOf(parts, rec);
    assert IsMatch(parts, line, segs);
    MatchComplete(parts, line, segs);
    MatchSound(parts, line);
    UniqueMatch(parts, line, segs, Match(parts, line).value);
  }

  /** The groups of a rendered record are the record's values of the captured variables. */
  lemma RenderedGroups(parts: seq<Part>, rec: Record, name: string)
    requires DistinctGroups(parts)
    ensures var g := GroupsOf(parts, SegmentsOf(parts, rec));
      && (name in g <==> Variable(name) in parts && name != "remote_user")
      && (name in g && name in rec ==> g[name] == rec[name])
  {
    hide GroupsOf, DistinctGroups;
    GroupsAt(parts, SegmentsOf(parts, rec), name);
    if Variable(name) in parts && name != "remote_user" {
      var i :| 0 <= i < |parts| && parts[i] == Variable(name);
      assert Captured(parts[i]);
    }
  }

  // ---- Reading the groups ----------------------------------------------------------

  datatype ParsedLine = ParsedLine(
    remoteAddr: string, timestamp: int, verb: string, uri: string, status: int, bytes: int,
    requestTime: Option<real>, host: string, userAgent: string, referer: string, rawLine: string)

  datatype ParseError = NoMatch | BadAddress | BadTime | BadStatus

  datatype Outcome = Parsed(line: ParsedLine) | Failed(error: ParseError)

  /** `ip_address`, `strptime`, `int` and `float`: None where they raise ValueError. */
  datatype Readers = Readers(
    isAddress: string -> bool, time: string -> Option<int>, integer: string -> Option<int>,
        decimal: string -> Option<real>)

  /** `rstrip("\r\n")` */
  function StripEol(s: string): (r: string)
    ensures r == [] || (r[|r| - 1] != '\r' && r[|r| - 1] != '\n')
  {
    if s != [] && (s[|s| - 1] == '\r' || s[|s| - 1] == '\n') then StripEol(s[..|s| - 1]) else s
  }

  predicate EndsOpen(s: string)
  {
    s == [] || (s[|s| - 1] != '\r' && s[|s| - 1] != '\n')
  }

  predicate IsEol(s: string)
  {
    forall i :: 0 <= i < |s| ==> s[i] == '\r' || s[i] == '\n'
  }

  lemma {:induction false} StripEolOnly(s: string, eol: string)
    requires EndsOpen(s) && IsEol(eol)
    ensures StripEol(s + eol) == s
  {
    if eol == [] {
      assert s + eol == s;
    } else {
      assert (s + eol)[..|s + eol| - 1] == s + eol[..|eol| - 1];
      StripEolOnly(s, eol[..|eol| - 1]);
    }
  }

  function Get(g: Groups, name: string, default: string): string
  {
    if name in g then g[name] else default
  }

  function ReadGroups(g: Groups, line: string, rd: Readers): Outcome
  {
    var remoteAddr := Get(g, "remote_addr", "");
    if !rd.isAddress(remoteAddr) then Failed(BadAddress)
    else if "time_local" !in g || rd.time(g["time_local"]).None? then Failed(BadTime)
    else if "status" !in g || rd.integer(g["status"]).None? then Failed(BadStatus)
    else
      var bytes := rd.integer(Get(g, "body_bytes_sent", "0"));
      var time := Get(g, "request_time", "");
      var (verb, uri) := SplitRequest(Get(g, "request", ""));
      Parsed(ParsedLine(
        remoteAddr, rd.time(g["time_local"]).value, verb, uri, rd.integer(g["status"]).value,
        if bytes.Some? then bytes.value else 0,
        if time != "" && time != "-" then rd.decimal(time) else None,
        Get(g, "host", ""), Get(g, "http_user_agent", ""), Get(g, "http_referer", ""), line))
  }

  function ParseLine(parts: seq<Part>, raw: string, rd: Readers): Outcome
  {
    var line := StripEol(raw);
    var m := Match(parts, line);
    if m.None? then Failed(NoMatch)
    else
      MatchSound(parts, line);
      ReadGroups(GroupsOf(parts, m.value), line, rd)
  }

  /** Parsing a rendered record, with whatever line end, reads the record's own values: for every
      format of one reading with distinct groups and every record its variables can hold. */
  lemma ParseRendered(parts: seq<Part>, rec: Record, eol: string, rd: Readers)
    requires Determinate(parts) && DistinctGroups(parts) && Renderable(parts, rec)
    requires EndsOpen(Render(parts, rec)) && IsEol(eol)
    ensures ParseLine(parts, Render(parts, rec) + eol, rd)
        == ReadGroups(GroupsOf(parts, SegmentsOf(parts, rec)), Render(parts, rec), rd)
  {
    hide Match, ReadGroups, Determinate, Renderable, Render;
    StripEolOnly(Render(parts, rec), eol);
    RenderedMatches(parts, rec);
  }

  // ---- Request lines ---------------------------------------------------------------

  predicate IsVerb(s: string)
  {
    s != [] && forall i :: 0 <= i < |s| ==> 'A' <= s[i] <= 'Z'
  }

  predicate IsWord(s: string)
  {
    s != [] && forall i :: 0 <= i < |s| ==> !IsSpace(s[i])
  }

  /** `request` reads "verb uri protocol",
      the verb in capital letters A to Z; the `$` of the pattern lets one newline follow. */
  predicate IsRequest(request: string, verb: string, uri: string, protocol: string)
  {
    && verb != "" && (forall i :: 0 <= i < |verb| ==> 65 <= verb[i] as int <= 90)
    && uri != "" && (forall i :: 0 <= i < |uri| ==> !IsSpace(uri[i]))
    && protocol != "" && (forall i :: 0 <= i < |protocol| ==> !IsSpace(protocol[i]))
    && (request == verb + " " + uri + " " + protocol || request == verb + " " + uri + " " + protocol + "\n")
  }

  function SpaceAt(s: string): (i: nat)
    ensures i <= |s| && (i < |s| ==> s[i] == ' ')
    ensures forall k :: 0 <= k < i ==> s[k] != ' '
  {
    if s == [] || s[0] == ' ' then 0 else 1 + SpaceAt(s[1..])
  }

  /** The text before and after the first space. */
  function FirstWord(s: string): (r: Option<(string, string)>)
    ensures r.Some? ==> s == r.value.0 + " " + r.value.1
  {
    var i := SpaceAt(s);
    if i == |s| then None else Some((s[..i], s[i + 1..]))
  }

  /** The protocol, without the newline that may follow it. */
  function DropNewline(s: string): (r: string)
    ensures s == r || s == r + "\n"
  {
    if s != [] && s[|s| - 1] == '\n' then s[..|s| - 1] else s
  }

  function SplitRequest(request: string): (string, string)
  {
    var first := FirstWord(request);
    if first.None? then ("", request)
    else
      var second := FirstWord(first.value.1);
      if second.None? then ("", request)
      else if IsVerb(first.value.0) && IsWord(second.value.0) && IsWord(DropNewline(second.value.1))
      then (first.value.0, second.value.0)
      else ("", request)
  }

  lemma CutWord(word: string, rest: string)
    requires forall i :: 0 <= i < |word| ==> word[i] != ' '
    ensures FirstWord(word + " " + rest) == Some((word, rest))
  {
    hide SpaceAt;
    var s := word + " " + rest;
    assert forall i :: 0 <= i < |word| ==> s[i] == word[i];
    assert s[|word|] == ' ' && SpaceAt(s) == |word|;
    assert s[..|word|] == word && s[|word| + 1..] == rest;
  }

  /** A well-formed request line is split into its verb and URI ... */
  lemma SplitWellFormed(request: string, verb: string, uri: string, protocol: string)
    requires IsRequest(request, verb, uri, protocol)
    ensures SplitRequest(request) == (verb, uri)
  {
    hide FirstWord;
    var last := if request == verb + " " + uri + " " + protocol then protocol else protocol + "\n";
    assert request == verb + " " + (uri + " " + last);
    CutWord(verb, uri + " " + last);
    CutWord(uri, last);
    assert DropNewline(last) == protocol;
  }

  /** ... and only such a line is: any other comes back whole, with an empty verb. */
  lemma SplitMalformed(request: string)
    ensures SplitRequest(request).0 != "" ==>
      exists protocol :: IsRequest(request, SplitRequest(request).0, SplitRequest(request).1, protocol)
    ensures SplitRequest(request).0 == "" ==> SplitRequest(request).1 == request
  {
    hide FirstWord, DropNewline, IsSpace;
    if SplitRequest(request).0 != "" {
      var first := FirstWord(request).value;
      var second := FirstWord(first.1).value;
      var protocol := DropNewline(second.1);
      assert request == first.0 + " " + second.0 + " " + second.1;
      assert IsRequest(request, first.0, second.0, protocol) by {
        if second.1 != protocol {
          assert request == first.0 + " " + second.0 + " " + protocol + "\n";
        }
      }
    }
  }

  // ---- Presets ---------------------------------------------------------------------

  /** What both theorems about a format need. */
  ghost predicate Sound(parts: seq<Part>)
  {
    Alternates(parts) && Determinate(parts) && DistinctGroups(parts) && forall p :: p in parts ==> Supported(p)
  }

  /** Putting a literal and a variable before a sound format that stops the variable. */
  lemma Prepend(lit: string, name: string, rest: seq<Part>)
    requires '$' !in lit && IsName(name) && PatternOf(name).Some? && Sound(rest)
    requires rest[0].text != [] ==> !IsNameChar(rest[0].text[0])
    requires PatternOf(name).value.exact || Stops(rest, PatternOf(name).value.cls)
    requires name == "remote_user" || Variable(name) !in rest
    ensures Sound([Literal(lit), Variable(name)] + rest)
  {
    hide PatternOf, Stops, IsName;
    var parts := [Literal(lit), Variable(name)] + rest;
    assert parts[2..] == rest && parts[1..] == [Variable(name)] + rest;
    assert Alternates(parts);
    forall i | 0 <= i < |parts| && parts[i].Variable?
      ensures PatternOf(parts[i].name).Some?
          && (PatternOf(parts[i].name).value.exact || Stops(parts[i + 1..], PatternOf(parts[i].name).value.cls))
    {
      if i >= 2 {
        assert rest[i - 2] == parts[i] && rest[i - 1..] == parts[i + 1..];
      }
    }
    assert forall i :: 2 <= i < |parts| ==> parts[i] == rest[i - 2];
    assert forall i :: 0 <= i < |rest| ==> rest[i] in rest;
  }

  lemma SoundEnd(lit: string)
    requires '$' !in lit
    ensures Sound([Literal(lit)])
  {
  }

  const AFTER_AGENT: seq<Part> := [Literal("\"")]
  const AFTER_TIME: seq<Part> := [Literal("\" "), Variable("request_time"), Literal("")]

  /** The fields all presets share, up to the user agent. */
  function Entry(first: string, end: seq<Part>): seq<Part>
  {
    [Literal(first), Variable("remote_addr")] +
    ([Literal(" - "), Variable("remote_user")] +
     ([Literal(" ["), Variable("time_local")] +
      ([Literal("] \""), Variable("request")] + Response("\" ", end))))
  }

  function Response(first: string, end: seq<Part>): seq<Part>
  {
    [Literal(first), Variable("status")] +
    ([Literal(" "), Variable("body_bytes_sent")] +
     ([Literal(" \""), Variable("http_referer")] +
      ([Literal("\" \""), Variable("http_user_agent")] + end)))
  }

  const COMBINED: seq<Part> := Entry("", AFTER_AGENT)
  const COMBINED_HOST: seq<Part> := [Literal(""), Variable("host")] + Entry(" ", AFTER_AGENT)
  const COMBINED_TIMED: seq<Part> := Entry("", AFTER_TIME)

  /** The built-in formats, as parts; the format string of each is its SourceOf. */
  predicate IsPreset(parts: seq<Part>)
  {
    parts == COMBINED || parts == COMBINED_HOST || parts == COMBINED_TIMED
  }

  // The format strings of the presets, piece by piece as they are written.

  const CLIENT := "$remote_addr - $remote_user [$time_local] "
  const REQUEST := "\"$request\" $status $body_bytes_sent "
  const AGENT := "\"$http_referer\" \"$http_user_agent\""

  const COMBINED_FORMAT := CLIENT + REQUEST + AGENT
  const COMBINED_HOST_FORMAT := "$host " + CLIENT + REQUEST + AGENT
  const COMBINED_TIMED_FORMAT := CLIENT + REQUEST + AGENT + " $request_time"

  lemma ResponseSource(first: string, end: seq<Part>)
    ensures SourceOf(Response(first, end))
         == first + ("$status"
             + (" " + ("$body_bytes_sent"
                 + (" \"" + ("$http_referer" + ("\" \"" + ("$http_user_agent" + SourceOf(end))))))))
  {
    hide SourceOf;
    var four := [Literal("\" \""), Variable("http_user_agent")] + end;
    var three := [Literal(" \""), Variable("http_referer")] + four;
    var two := [Literal(" "), Variable("body_bytes_sent")] + three;
    SourceOfPair("\" \"", "http_user_agent", end);
    SourceOfPair(" \"", "http_referer", four);
    SourceOfPair(" ", "body_bytes_sent", three);
    SourceOfPair(first, "status", two);
    assert "$" + "http_user_agent" == "$http_user_agent" && "$" + "http_referer" == "$http_referer";
    assert "$" + "body_bytes_sent" == "$body_bytes_sent" && "$" + "status" == "$status";
  }

  lemma EntrySource(first: string, end: seq<Part>)
    ensures SourceOf(Entry(first, end))
         == first + ("$remote_addr"
             + (" - " + ("$remote_user"
                 + (" [" + ("$time_local" + ("] \"" + ("$request" + SourceOf(Response("\" ", end)))))))))
  {
    hide SourceOf, Response;
    var four := [Literal("] \""), Variable("request")] + Response("\" ", end);
    var three := [Literal(" ["), Variable("time_local")] + four;
    var two := [Literal(" - "), Variable("remote_user")] + three;
    SourceOfPair("] \"", "request", Response("\" ", end));
    SourceOfPair(" [", "time_local", four);
    SourceOfPair(" - ", "remote_user", three);
    SourceOfPair(first, "remote_addr", two);
    assert "$" + "request" == "$request" && "$" + "time_local" == "$time_local";
    assert "$" + "remote_user" == "$remote_user" && "$" + "remote_addr" == "$remote_addr";
  }

  lemma ClientText()
    ensures CLIENT == "$remote_addr" + (" - " + ("$remote_user" + (" [" + ("$time_local" + "] "))))
    ensures "] \"" == "] " + "\""
  {
  }

  lemma RequestText()
    ensures REQUEST == "\"" + ("$request" + ("\" " + ("$status" + (" " + ("$body_bytes_sent" + " ")))))
    ensures " \"" == " " + "\""
  {
  }

  lemma AgentText()
    ensures AGENT == "\"" + ("$http_referer" + ("\" \"" + ("$http_user_agent" + "\"")))
    ensures "\" $request_time" == "\"" + " $request_time"
  {
  }

  lemma Regroup(a: string, b: string, x: string)
    ensures a + (b + x) == (a + b) + x
  {
  }

  lemma Regroup4(a: string, b: string, c: string, d: string, x: string)
    ensures a + (b + (c + (d + x))) == (a + (b + (c + d))) + x
  {
    Regroup(c, d, x);
    Regroup(b, c + d, x);
    Regroup(a, b + (c + d), x);
  }

  lemma Regroup6(a: string, b: string, c: string, d: string, e: string, f: string, x: string)
    ensures a + (b + (c + (d + (e + (f + x))))) == (a + (b + (c + (d + (e + f))))) + x
  {
    Regroup4(c, d, e, f, x);
    Regroup(b, c + (d + (e + f)), x);
    Regroup(a, b + (c + (d + (e + f))), x);
  }

  /** What a preset's fields up to the user agent spell, followed by the text of its end. */
  function Spelled(end: string): string
  {
    "\"" + ("$http_referer" + ("\" \"" + ("$http_user_agent" + end)))
  }

  lemma EntryText(first: string, end: seq<Part>)
    ensures SourceOf(Entry(first, end)) == first + (CLIENT + (REQUEST + Spelled(SourceOf(end))))
  {
    hide SourceOf, Response, Entry, CLIENT, REQUEST;
    EntrySource(first, end);
    ResponseSource("\" ", end);
    ClientText();
    RequestText();
    var z := Spelled(SourceOf(end));
    var tail := "$http_referer" + ("\" \"" + ("$http_user_agent" + SourceOf(end)));
    Regroup(" ", "\"", tail);
    Regroup6("$request", "\" ", "$status", " ", "$body_bytes_sent", " ", z);
    Regroup("\"", "$request" + ("\" " + ("$status" + (" " + ("$body_bytes_sent" + " ")))), z);
    var r := "$request" + SourceOf(Response("\" ", end));
    Regroup("] ", "\"", r);
    Regroup6("$remote_addr", " - ", "$remote_user", " [", "$time_local", "] ", "\"" + r);
  }

  lemma EndSources()
    ensures SourceOf(AFTER_AGENT) == "\"" && SourceOf(AFTER_TIME) == "\" $request_time"
  {
    assert AFTER_TIME == [Literal("\" "), Variable("request_time")] + [Literal("")];
    SourceOfPair("\" ", "request_time", [Literal("")]);
    LiteralSource("");
    LiteralSource("\"");
    hide SourceOf;
    assert "\" " + ("$" + "request_time" + "") == "\" $request_time";
  }

  lemma LiteralSource(text: string)
    ensures SourceOf([Literal(text)]) == text
  {
    assert [Literal(text)][1..] == [] && text + [] == text;
  }

  lemma SpelledEnds()
    ensures Spelled("\"") == AGENT && Spelled("\" $request_time") == AGENT + " $request_time"
  {
    hide AGENT;
    AgentText();
    Regroup("$http_user_agent", "\"", " $request_time");
    Regroup4("\"", "$http_referer", "\" \"", "$http_user_agent" + "\"", " $request_time");
  }

  lemma Grouped(a: string, b: string, c: string, d: string)
    ensures a + (b + c) == a + b + c && a + (b + (c + d)) == a + b + c + d
  {
  }

  /** The parts of each preset are its format string: together with PresetsCompile, the strings
      tokenise into these parts. */
  lemma PresetSources()
    ensures SourceOf(COMBINED) == COMBINED_FORMAT
    ensures SourceOf(COMBINED_HOST) == COMBINED_HOST_FORMAT
    ensures SourceOf(COMBINED_TIMED) == COMBINED_TIMED_FORMAT
  {
    hide SourceOf, Response, Entry, Spelled, CLIENT, REQUEST, AGENT;
    EndSources();
    SpelledEnds();
    EntryText("", AFTER_AGENT);
    EntryText("", AFTER_TIME);
    EntryText(" ", AFTER_AGENT);
    Grouped(CLIENT, REQUEST, AGENT, " $request_time");
    HostSource(Entry(" ", AFTER_AGENT), CLIENT + (REQUEST + AGENT));
    Grouped("$host ", CLIENT, REQUEST, AGENT);
    assert forall x: string :: "" + x == x;
  }

  lemma HostSource(entry: seq<Part>, x: string)
    requires SourceOf(entry) == " " + x
    ensures SourceOf([Literal(""), Variable("host")] + entry) == "$host " + x
  {
    hide SourceOf;
    SourceOfPair("", "host", entry);
    assert "$" + "host" + " " == "$host ";
    Regroup("$" + "host", " ", x);
  }

  /** The order of the variables in the presets. */
  function Rank(name: string): nat
  {
    if name == "host" then 0 else if name == "remote_addr" then 1 else if name == "remote_user" then 2
    else if name == "time_local" then 3 else if name == "request" then 4 else if name == "status" then 5
    else if name == "body_bytes_sent" then 6 else if name == "http_referer" then 7
    else if name == "http_user_agent" then 8 else if name == "request_time" then 9 else 10
  }

  lemma FormatVariables()
    ensures PatternOf("remote_addr") == PatternOf("remote_user") == PatternOf("body_bytes_sent") == PatternOf("host")
         == PatternOf("request_time") == Some(Pattern(NonSpace, 1, false))
    ensures PatternOf("time_local") == Some(Pattern(NonBracket, 1, false))
    ensures PatternOf("request") == PatternOf("http_referer") == PatternOf("http_user_agent")
        == Some(Pattern(NonQuote, 0, false))
    ensures PatternOf("status") == Some(Pattern(Digit, 3, true))
    ensures IsName("remote_addr") && IsName("remote_user") && IsName("time_local") && IsName("request")
        && IsName("status")
    ensures IsName("body_bytes_sent") && IsName("http_referer") && IsName("http_user_agent") && IsName("request_time")
        && IsName("host")
  {
  }

  lemma Ranks()
    ensures Rank("host") == 0 && Rank("remote_addr") == 1 && Rank("remote_user") == 2 && Rank("time_local") == 3
    ensures Rank("request") == 4 && Rank("status") == 5 && Rank("body_bytes_sent") == 6 && Rank("http_referer") == 7
    ensures Rank("http_user_agent") == 8 && Rank("request_time") == 9
  {
    assert "remote_addr"[7] != "remote_user"[7] && "body_bytes_sent"[0] != "http_user_agent"[0]
        && "http_referer"[0] != "request_time"[0];
  }

  /** All variables come after the given rank. */
  predicate After(parts: seq<Part>, rank: int)
  {
    forall p :: p in parts && p.Variable? ==> Rank(p.name) > rank
  }

  /** One more field in front, where the next literal starts with a character the field cannot hold. */
  lemma Field(lit: string, name: string, rest: seq<Part>)
    requires '$' !in lit && IsName(name) && PatternOf(name).Some? && Sound(rest) && After(rest, Rank(name))
    requires rest[0].text != [] && !IsNameChar(rest[0].text[0])
    requires PatternOf(name).value.exact || !InClass(rest[0].text[0], PatternOf(name).value.cls)
    ensures var parts := [Literal(lit), Variable(name)] + rest;
      Sound(parts) && After(parts, Rank(name) - 1) && parts[0] == Literal(lit)
  {
    hide PatternOf, Rank;
    Prepend(lit, name, rest);
  }

  lemma ResponseIsSound(end: seq<Part>)
    requires Sound(end) && end[0].text != [] && end[0].text[0] == '"' && After(end, 8)
    ensures Sound(Response("\" ", end)) && Response("\" ", end)[0] == Literal("\" ") && After(Response("\" ", end), 4)
  {
    FormatVariables();
    Ranks();
    hide PatternOf, Sound, After, Rank, IsName;
    Field("\" \"", "http_user_agent", end);
    var r3 := [Literal("\" \""), Variable("http_user_agent")] + end;
    Field(" \"", "http_referer", r3);
    var r2 := [Literal(" \""), Variable("http_referer")] + r3;
    Field(" ", "body_bytes_sent", r2);
    var r1 := [Literal(" "), Variable("body_bytes_sent")] + r2;
    Field("\" ", "status", r1);
  }

  lemma EntryIsSound(first: string, end: seq<Part>)
    requires Sound(end) && end[0].text != [] && end[0].text[0] == '"' && After(end, 8)
    requires '$' !in first
    ensures Sound(Entry(first, end)) && Entry(first, end)[0] == Literal(first) && After(Entry(first, end), 0)
  {
    FormatVariables();
    Ranks();
    ResponseIsSound(end);
    hide PatternOf, Sound, Response, After, Rank, IsName;
    var r4 := Response("\" ", end);
    Field("] \"", "request", r4);
    var r3 := [Literal("] \""), Variable("request")] + r4;
    Field(" [", "time_local", r3);
    var r2 := [Literal(" ["), Variable("time_local")] + r3;
    Field(" - ", "remote_user", r2);
    var r1 := [Literal(" - "), Variable("remote_user")] + r2;
    Field(first, "remote_addr", r1);
  }

  lemma EndsAreSound()
    ensures Sound(AFTER_AGENT) && After(AFTER_AGENT, 8)
    ensures Sound(AFTER_TIME) && After(AFTER_TIME, 8)
  {
    Ranks();
    FormatVariables();
    SoundEnd("\"");
    SoundEnd("");
    hide PatternOf, Rank;
    Prepend("\" ", "request_time", [Literal("")]);
    assert AFTER_TIME == [Literal("\" "), Variable("request_time")] + [Literal("")];
  }

  lemma PresetsAreSound(parts: seq<Part>)
    requires IsPreset(parts)
    ensures Sound(parts)
  {
    EndsAreSound();
    FormatVariables();
    Ranks();
    hide PatternOf, Entry, Sound, Rank;
    EntryIsSound("", AFTER_AGENT);
    EntryIsSound("", AFTER_TIME);
    EntryIsSound(" ", AFTER_AGENT);
    Field("", "host", Entry(" ", AFTER_AGENT));
  }

  /** All three presets tokenise into the parts they are written as and compile. */
  lemma PresetsCompile(parts: seq<Part>)
    requires IsPreset(parts)
    ensures Tokenize(SourceOf(parts), 0) == parts
    ensures DistinctGroups(parts) && Determinate(parts) && forall p :: p in parts ==> Supported(p)
  {
    PresetsAreSound(parts);
    hide *;
    SoundParts(parts);
    assert SourceOf(parts)[0..] == SourceOf(parts);
    TokenizeWritten(parts, SourceOf(parts), 0);
  }

  /** The three format strings themselves tokenise into the presets' parts. */
  lemma PresetFormatsCompile()
    ensures Tokenize(COMBINED_FORMAT, 0) == COMBINED
    ensures Tokenize(COMBINED_HOST_FORMAT, 0) == COMBINED_HOST
    ensures Tokenize(COMBINED_TIMED_FORMAT, 0) == COMBINED_TIMED
  {
    hide Tokenize, SourceOf, Entry, CLIENT, REQUEST, AGENT;
    PresetSources();
    PresetsCompile(COMBINED);
    PresetsCompile(COMBINED_HOST);
    PresetsCompile(COMBINED_TIMED);
  }

  lemma SoundParts(parts: seq<Part>)
    requires Sound(parts)
    ensures Alternates(parts) && Determinate(parts) && DistinctGroups(parts) && forall p :: p in parts ==> Supported(p)
  {
  }

  lemma {:induction false} ConcatConcat(a: seq<string>, b: seq<string>)
    ensures Concat(a + b) == Concat(a) + Concat(b)
  {
    if a == [] {
      assert a + b == b;
    } else {
      ConcatConcat(a[1..], b);
      assert (a + b)[1..] == a[1..] + b;
      assert a[0] + (Concat(a[1..]) + Concat(b)) == a[0] + Concat(a[1..]) + Concat(b);
    }
  }

  lemma RenderConcat(a: seq<Part>, b: seq<Part>, rec: Record)
    ensures Render(a + b, rec) == Render(a, rec) + Render(b, rec)
  {
    hide SegmentOf, Concat;
    assert SegmentsOf(a + b, rec) == SegmentsOf(a, rec) + SegmentsOf(b, rec);
    ConcatConcat(SegmentsOf(a, rec), SegmentsOf(b, rec));
  }

  lemma RenderLast(lit: string, rec: Record)
    ensures Render([Literal(lit)], rec) == lit
  {
    assert SegmentsOf([Literal(lit)], rec) == [lit];
    assert Concat([lit]) == lit + Concat([]);
  }

  lemma RenderedTime(rec: Record)
    requires Renderable(AFTER_TIME, rec)
    ensures Render(AFTER_TIME, rec) == "\" " + rec["request_time"]
  {
    assert Variable("request_time") in AFTER_TIME;
    var segs := SegmentsOf(AFTER_TIME, rec);
    assert segs == ["\" ", rec["request_time"], ""];
    ConcatConcat(["\" ", rec["request_time"]], [""]);
    assert segs == ["\" ", rec["request_time"]] + [""];
    assert Concat([""]) == "" + Concat([]);
    assert ["\" ", rec["request_time"]][1..] == [rec["request_time"]];
    assert Concat([rec["request_time"]]) == rec["request_time"] + Concat([]);
  }

  lemma EntryEnds(first: string, end: seq<Part>)
    ensures Entry(first, end) == Entry(first, []) + end
  {
    assert Response("\" ", end) == Response("\" ", []) + end;
    hide Response;
  }

  /** A rendered preset record never ends in a carriage return or newline of its own. */
  lemma PresetEndsOpen(parts: seq<Part>, rec: Record)
    requires IsPreset(parts) && Renderable(parts, rec)
    ensures EndsOpen(Render(parts, rec))
  {
    if parts == COMBINED_TIMED {
      EntryEnds("", AFTER_TIME);
      TimedEndsOpen(Entry("", []), rec);
    } else if parts == COMBINED {
      EntryEnds("", AFTER_AGENT);
      QuotedEndsOpen(Entry("", []), rec);
    } else {
      EntryEnds(" ", AFTER_AGENT);
      var host, entry := [Literal(""), Variable("host")], Entry(" ", []);
      assert host + (entry + AFTER_AGENT) == (host + entry) + AFTER_AGENT;
      QuotedEndsOpen(host + entry, rec);
    }
  }

  lemma QuotedEndsOpen(init: seq<Part>, rec: Record)
    ensures EndsOpen(Render(init + AFTER_AGENT, rec))
  {
    hide Render;
    RenderConcat(init, AFTER_AGENT, rec);
    RenderLast("\"", rec);
  }

  lemma TimedEndsOpen(init: seq<Part>, rec: Record)
    requires Renderable(init + AFTER_TIME, rec)
    ensures EndsOpen(Render(init + AFTER_TIME, rec))
  {
    hide Render, PatternOf;
    FormatVariables();
    RenderConcat(init, AFTER_TIME, rec);
    assert Renderable(AFTER_TIME, rec) by {
      assert forall p :: p in AFTER_TIME ==> p in init + AFTER_TIME;
    }
    assert AFTER_TIME[1] == Variable("request_time");
    RenderedTime(rec);
    var time := rec["request_time"];
    assert Fits(time, Pattern(NonSpace, 1, false)) && InClass(time[|time| - 1], NonSpace);
  }

  const REPORTED: seq<string> := ["remote_addr", "time_local", "request", "status", "http_referer", "http_user_agent",
      "body_bytes_sent"]

  lemma EntryHolds(first: string, end: seq<Part>, name: string)
    requires name in REPORTED
    ensures Variable(name) in Entry(first, end)
  {
    var parts := Entry(first, end);
    assert parts[1] == Variable("remote_addr") && parts[5] == Variable("time_local") && parts[7] == Variable("request");
    assert parts[8..] == Response("\" ", end);
    assert parts[9] == Variable("status") && parts[13] == Variable("http_referer")
        && parts[15] == Variable("http_user_agent");
    assert parts[11] == Variable("body_bytes_sent");
  }

  lemma PresetHolds(parts: seq<Part>, name: string)
    requires IsPreset(parts) && name in REPORTED
    ensures Variable(name) in parts
  {
    hide Entry;
    EntryHolds("", AFTER_AGENT, name);
    EntryHolds("", AFTER_TIME, name);
    EntryHolds(" ", AFTER_AGENT, name);
  }

  // ---- What a parsed line says -------------------------------------------------------

  /** The record's value of a variable, or the default for one that the format lacks. */
  function ValueIn(parts: seq<Part>, rec: Record, name: string, default: string): string
  {
    if Variable(name) in parts && name in rec then rec[name] else default
  }

  /** The parsed line says what the record says; what the format lacks has its default. */
  predicate SaysRecord(l: ParsedLine, parts: seq<Part>, rec: Record, rd: Readers)
  {
    && l.remoteAddr == ValueIn(parts, rec, "remote_addr", "")
    && rd.time(ValueIn(parts, rec, "time_local", "")) == Some(l.timestamp)
    && (l.verb, l.uri) == SplitRequest(ValueIn(parts, rec, "request", ""))
    && rd.integer(ValueIn(parts, rec, "status", "")) == Some(l.status)
    && l.bytes == OrZero(rd.integer(ValueIn(parts, rec, "body_bytes_sent", "0")))
    && l.referer == ValueIn(parts, rec, "http_referer", "")
    && l.userAgent == ValueIn(parts, rec, "http_user_agent", "")
    && l.host == ValueIn(parts, rec, "host", "")
    && l.requestTime == RequestTimeOf(ValueIn(parts, rec, "request_time", ""), rd)
  }

  function OrZero(n: Option<int>): int
  {
    if n.Some? then n.value else 0
  }

  function RequestTimeOf(time: string, rd: Readers): Option<real>
  {
    if time in {"", "-"} then None else rd.decimal(time)
  }

  predicate ValidAddress(parts: seq<Part>, rec: Record, rd: Readers)
  {
    rd.isAddress(ValueIn(parts, rec, "remote_addr", ""))
  }

  predicate ValidTime(parts: seq<Part>, rec: Record, rd: Readers)
  {
    Variable("time_local") in parts && rd.time(ValueIn(parts, rec, "time_local", "")).Some?
  }

  predicate ValidStatus(parts: seq<Part>, rec: Record, rd: Readers)
  {
    Variable("status") in parts && rd.integer(ValueIn(parts, rec, "status", "")).Some?
  }

  /** Address, time and status are there and can be read. */
  predicate ValidValues(parts: seq<Part>, rec: Record, rd: Readers)
  {
    ValidAddress(parts, rec, rd) && ValidTime(parts, rec, rd) && ValidStatus(parts, rec, rd)
  }

  /** The groups hold the variable exactly when the format has it, with the record's value. */
  predicate Reports(g: Groups, parts: seq<Part>, rec: Record, name: string)
  {
    && (name in g <==> Variable(name) in parts)
    && (name in g ==> name in rec && g[name] == rec[name])
  }

  lemma ReportsGroup(parts: seq<Part>, rec: Record, name: string)
    requires DistinctGroups(parts) && Renderable(parts, rec) && name != "remote_user"
    ensures Reports(GroupsOf(parts, SegmentsOf(parts, rec)), parts, rec, name)
  {
    hide GroupsOf, SegmentsOf, DistinctGroups, Fits, PatternOf;
    RenderedGroups(parts, rec, name);
  }

  const READ: seq<string> := REPORTED + ["host", "request_time"]

  lemma ReadNames(name: string)
    requires name in READ
    ensures name != "remote_user"
  {
    assert "remote_addr"[7] != "remote_user"[7];
  }

  lemma ReadAt(g: Groups, parts: seq<Part>, rec: Record)
    requires forall name :: name in READ ==> Reports(g, parts, rec, name)
    ensures Reports(g, parts, rec, "remote_addr") && Reports(g, parts, rec, "time_local")
    ensures Reports(g, parts, rec, "request") && Reports(g, parts, rec, "status")
    ensures Reports(g, parts, rec, "http_referer") && Reports(g, parts, rec, "http_user_agent")
    ensures Reports(g, parts, rec, "body_bytes_sent") && Reports(g, parts, rec, "host")
    ensures Reports(g, parts, rec, "request_time")
  {
    hide Reports;
    assert READ[0] == "remote_addr" && READ[1] == "time_local" && READ[2] == "request" && READ[3] == "status";
    assert READ[4] == "http_referer" && READ[5] == "http_user_agent" && READ[6] == "body_bytes_sent";
    assert READ[7] == "host" && READ[8] == "request_time";
  }

  lemma GroupsSay(g: Groups, parts: seq<Part>, rec: Record, line: string, rd: Readers)
    requires forall name :: name in READ ==> Reports(g, parts, rec, name)
    ensures var outcome := ReadGroups(g, line, rd);
      && (ValidValues(parts, rec, rd) ==>
            outcome.Parsed? && SaysRecord(outcome.line, parts, rec, rd) && outcome.line.rawLine == line)
      && (!ValidAddress(parts, rec, rd) ==> outcome == Failed(BadAddress))
      && (ValidAddress(parts, rec, rd) && !ValidTime(parts, rec, rd) ==> outcome == Failed(BadTime))
      && (ValidAddress(parts, rec, rd) && ValidTime(parts, rec, rd) && !ValidStatus(parts, rec, rd) ==>
            outcome == Failed(BadStatus))
  {
    ReadAt(g, parts, rec);
    hide SplitRequest;
  }

  /** Round trip: for every format of one reading with distinct groups, a record that its
      variables can hold is parsed exactly when its address, time and status are there and can be
      read, and else fails for the first that is not. The parsed line says what the record says,
      with defaults for what the format lacks and its rendered line as the raw line, whatever
      line end follows. */
  lemma FormatRoundTrip(parts: seq<Part>, rec: Record, eol: string, rd: Readers)
    requires Determinate(parts) && DistinctGroups(parts) && Renderable(parts, rec)
    requires EndsOpen(Render(parts, rec)) && IsEol(eol)
    ensures var outcome := ParseLine(parts, Render(parts, rec) + eol, rd);
      && (ValidValues(parts, rec, rd) ==>
            outcome.Parsed? && SaysRecord(outcome.line, parts, rec, rd) && outcome.line.rawLine == Render(parts, rec))
      && (!ValidAddress(parts, rec, rd) ==> outcome == Failed(BadAddress))
      && (ValidAddress(parts, rec, rd) && !ValidTime(parts, rec, rd) ==> outcome == Failed(BadTime))
      && (ValidAddress(parts, rec, rd) && ValidTime(parts, rec, rd) && !ValidStatus(parts, rec, rd) ==>
            outcome == Failed(BadStatus))
  {
    hide *;
    var g := GroupsOf(parts, SegmentsOf(parts, rec));
    forall name | name in READ ensures Reports(g, parts, rec, name) {
      ReadNames(name);
      ReportsGroup(parts, rec, name);
    }
    GroupsSay(g, parts, rec, Render(parts, rec), rd);
    ParseRendered(parts, rec, eol, rd);
  }

  /** The presets are such formats, and each has the seven variables they share, so their values
      are the record's own. */
  lemma PresetRoundTrip(parts: seq<Part>, rec: Record, eol: string, rd: Readers)
    requires IsPreset(parts) && Renderable(parts, rec) && IsEol(eol)
    ensures forall name :: name in REPORTED ==>
      Variable(name) in parts && name in rec && ValueIn(parts, rec, name, "") == rec[name]
    ensures var outcome := ParseLine(parts, Render(parts, rec) + eol, rd);
      && (outcome.Parsed? <==> ValidValues(parts, rec, rd))
      && (outcome.Parsed? ==>
            SaysRecord(outcome.line, parts, rec, rd) && outcome.line.rawLine == Render(parts, rec))
  {
    PresetsAreSound(parts);
    SoundParts(parts);
    PresetEndsOpen(parts, rec);
    hide *;
    forall name | name in REPORTED
      ensures Variable(name) in parts && name in rec && ValueIn(parts, rec, name, "") == rec[name]
    {
      PresetHolds(parts, name);
      RenderableHolds(parts, rec, name);
    }
    FormatRoundTrip(parts, rec, eol, rd);
    assert ValidValues(parts, rec, rd) <==>
        ValidAddress(parts, rec, rd) && ValidTime(parts, rec, rd) && ValidStatus(parts, rec, rd) by {
      ValidValuesIs(parts, rec, rd);
    }
  }

  lemma ValidValuesIs(parts: seq<Part>, rec: Record, rd: Readers)
    ensures ValidValues(parts, rec, rd) <==>
      ValidAddress(parts, rec, rd) && ValidTime(parts, rec, rd) && ValidStatus(parts, rec, rd)
  {
  }

  lemma RenderableHolds(parts: seq<Part>, rec: Record, name: string)
    requires Renderable(parts, rec) && Variable(name) in parts
    ensures name in rec && ValueIn(parts, rec, name, "") == rec[name]
  {
  }
}
