/** The parts of Python's `str` the text parsers use: white space, `strip`, `splitlines`. */
module Text {

  /** `str.isspace` for one character, which is also what `\s` matches and `\S` does not. */
  predicate IsSpace(c: char)
  {
    var n := c as int;
    || 0x09 <= n <= 0x0d || 0x1c <= n <= 0x20 || n == 0x85 || n == 0xa0 || n == 0x1680
    || 0x2000 <= n <= 0x200a || n == 0x2028 || n == 0x2029 || n == 0x202f || n == 0x205f || n == 0x3000
  }

  /** The characters `str.splitlines` breaks at. */
  predicate IsBreak(c: char)
  {
    var n := c as int;
    0x0a <= n <= 0x0d || 0x1c <= n <= 0x1e || n == 0x85 || n == 0x2028 || n == 0x2029
  }

  function LStrip(s: string): (r: string)
    ensures r == [] || !IsSpace(r[0])
  {
    if s != [] && IsSpace(s[0]) then LStrip(s[1..]) else s
  }

  function RStrip(s: string): (r: string)
    ensures r == [] || !IsSpace(r[|r| - 1])
    ensures r <= s
  {
    if s != [] && IsSpace(s[|s| - 1]) then RStrip(s[..|s| - 1]) else s
  }

  function Strip(s: string): string
  {
    RStrip(LStrip(s))
  }

  /** Nothing to strip at either end. */
  predicate Trimmed(s: string)
  {
    s == [] || (!IsSpace(s[0]) && !IsSpace(s[|s| - 1]))
  }

  lemma StripTrims(s: string)
    ensures Trimmed(Strip(s))
    ensures Trimmed(s) ==> Strip(s) == s
  {
    var l := LStrip(s);
    if RStrip(l) != [] {
      assert RStrip(l)[0] == l[0];
    }
  }

  predicate Blank(s: string)
  {
    forall c :: c in s ==> IsSpace(c)
  }

  lemma {:induction false} LStripPads(lead: string, s: string)
    requires Blank(lead) && (s == [] || !IsSpace(s[0]))
    ensures LStrip(lead + s) == s
  {
    if lead == [] {
      assert lead + s == s;
    } else {
      assert (lead + s)[1..] == lead[1..] + s;
      LStripPads(lead[1..], s);
    }
  }

  lemma {:induction false} RStripPads(s: string, trail: string)
    requires Blank(trail) && (s == [] || !IsSpace(s[|s| - 1]))
    ensures RStrip(s + trail) == s
  {
    if trail == [] {
      assert s + trail == s;
    } else {
      var init := trail[..|trail| - 1];
      assert (s + trail)[..|s + trail| - 1] == s + init;
      RStripPads(s, init);
    }
  }

  /** Stripping takes off exactly the white space around a trimmed text. */
  lemma StripPads(lead: string, s: string, trail: string)
    requires Blank(lead) && Blank(trail) && Trimmed(s)
    ensures Strip(lead + s + trail) == s
  {
    hide LStrip, RStrip, IsSpace;
    if s == [] {
      assert lead + s + trail == lead + trail + [];
      LStripPads(lead + trail, []);
      RStripPads([], []);
    } else {
      assert lead + s + trail == lead + (s + trail);
      LStripPads(lead, s + trail);
      RStripPads(s, trail);
    }
  }

  /** And whatever is stripped is a trimmed text with white space around it. */
  lemma StripCuts(t: string) returns (lead: string, trail: string)
    ensures Blank(lead) && Blank(trail) && t == lead + Strip(t) + trail && Trimmed(Strip(t))
  {
    StripTrims(t);
    hide Strip;
    lead := LStripCuts(t);
    trail := RStripCuts(LStrip(t));
    assert Strip(t) == RStrip(LStrip(t)) by { StripIs(t); }
    assert lead + (Strip(t) + trail) == lead + Strip(t) + trail;
  }

  lemma StripIs(t: string)
    ensures Strip(t) == RStrip(LStrip(t))
  {
  }

  lemma {:induction false} LStripCuts(t: string) returns (lead: string)
    ensures Blank(lead) && t == lead + LStrip(t)
  {
    hide IsSpace;
    if t != [] && IsSpace(t[0]) {
      var rest := LStripCuts(t[1..]);
      lead := [t[0]] + rest;
    } else {
      lead := [];
    }
  }

  lemma {:induction false} RStripCuts(t: string) returns (trail: string)
    ensures Blank(trail) && t == RStrip(t) + trail
  {
    hide IsSpace;
    if t != [] && IsSpace(t[|t| - 1]) {
      var rest := RStripCuts(t[..|t| - 1]);
      trail := rest + [t[|t| - 1]];
    } else {
      trail := [];
    }
  }

  /** Which characters these are, one by one. */
  lemma SpacesAndBreaks(c: char)
    ensures IsSpace(c) <==> c as int in {
      9, 10, 11, 12, 13, 28, 29, 30, 31, 32, 0x85, 0xa0, 0x1680, 0x2000, 0x2001, 0x2002, 0x2003, 0x2004, 0x2005,
      0x2006, 0x2007, 0x2008, 0x2009, 0x200a, 0x2028, 0x2029, 0x202f, 0x205f, 0x3000}
    ensures IsBreak(c) <==> c as int in {10, 11, 12, 13, 28, 29, 30, 0x85, 0x2028, 0x2029}
  {
  }

  lemma {:induction false} LStripChars(s: string)
    ensures forall c :: c in LStrip(s) ==> c in s
  {
    if s != [] && IsSpace(s[0]) {
      LStripChars(s[1..]);
    }
  }

  lemma StripChars(s: string)
    ensures forall c :: c in Strip(s) ==> c in s
  {
    LStripChars(s);
    assert forall c :: c in RStrip(LStrip(s)) ==> c in LStrip(s);
  }

  /** `s[:n]` */
  function Cut(s: string, n: nat): string
  {
    if |s| <= n then s else s[..n]
  }

  /** The column holds the text itself or, if it is too short for it, what fits. */
  predicate Stores(column: string, text: string, width: nat)
  {
    column <= text && |column| == if |text| <= width then |text| else width
  }

  // ---- Lines -----------------------------------------------------------------------

  /** The position of the first line break, or the length. */
  function BreakAt(s: string): (i: nat)
    ensures i <= |s| && (i < |s| ==> IsBreak(s[i]))
    ensures forall k :: 0 <= k < i ==> !IsBreak(s[k])
  {
    if s == [] || IsBreak(s[0]) then 0 else 1 + BreakAt(s[1..])
  }

  /** How many characters the break at `i` takes: carriage return and line feed are one break. */
  function BreakWidth(s: string, i: nat): (w: nat)
    requires i < |s|
    ensures 1 <= w <= 2 && i + w <= |s|
  {
    if s[i] == '\r' && i + 1 < |s| && s[i + 1] == '\n' then 2 else 1
  }

  function SplitLines(s: string): seq<string>
    decreases |s|
  {
    if s == [] then []
    else
      var i := BreakAt(s);
      if i == |s| then [s] else [s[..i]] + SplitLines(s[i + BreakWidth(s, i)..])
  }

  lemma {:induction false} LinesHaveNoBreaks(s: string)
    ensures forall l :: l in SplitLines(s) ==> forall c :: c in l ==> !IsBreak(c)
    decreases |s|
  {
    if s != [] {
      var i := BreakAt(s);
      if i < |s| {
        LinesHaveNoBreaks(s[i + BreakWidth(s, i)..]);
      }
    }
  }

  lemma BreakAtFree(a: string, b: string)
    requires forall c :: c in a ==> !IsBreak(c)
    requires b == [] || IsBreak(b[0])
    ensures BreakAt(a + b) == |a|
  {
    var s := a + b;
    assert forall k :: 0 <= k < |a| ==> s[k] == a[k];
    assert b != [] ==> s[|a|] == b[0];
  }

  /** A line and its newline, then more text: the line comes first. */
  lemma SplitFirstLine(line: string, rest: string)
    requires forall c :: c in line ==> !IsBreak(c)
    ensures SplitLines(line + "\n" + rest) == [line] + SplitLines(rest)
  {
    var s := line + "\n" + rest;
    assert s == line + ("\n" + rest);
    BreakAtFree(line, "\n" + rest);
    assert s[|line|] == '\n';
    assert s[..|line|] == line && s[|line| + 1..] == rest;
  }
}
