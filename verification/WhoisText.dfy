/** Reading a WHOIS response into a dictionary of value lists, and printing it back. */
module WhoisText {
  import opened Common
  import opened Text

  datatype Field = Field(key: string, value: string)

  type Fields = map<string, seq<string>>

  predicate IsLower(c: char) { 'a' <= c <= 'z' }

  predicate IsUpper(c: char) { 'A' <= c <= 'Z' }

  predicate IsDigit(c: char) { '0' <= c <= '9' }

  /** `[A-Za-z0-9 _-]` */
  predicate IsKeyChar(c: char)
  {
    IsLower(c) || IsUpper(c) || IsDigit(c) || c == ' ' || c == '_' || c == '-'
  }

  // ---- Keys ------------------------------------------------------------------------

  /** `lower()` on ASCII, then the two `replace` calls. */
  function NormalizeChar(c: char): char
  {
    if IsUpper(c) then (c as int + 32) as char
    else if c == ' ' || c == '-' then '_'
    else c
  }

  function NormalizeChars(s: string): (r: string)
    ensures |r| == |s|
    ensures forall i :: 0 <= i < |s| ==> r[i] == NormalizeChar(s[i])
  {
    if s == [] then [] else [NormalizeChar(s[0])] + NormalizeChars(s[1..])
  }

  function NormalizeKey(key: string): string
  {
    NormalizeChars(Strip(key))
  }

  lemma NormalizeKeyIdempotent(key: string)
    ensures NormalizeKey(NormalizeKey(key)) == NormalizeKey(key)
  {
    StripTrims(key);
    hide Strip, NormalizeChars;
    var k := NormalizeKey(key);
    assert Trimmed(k);
    StripTrims(k);
    NormalizedChars(Strip(key));
  }

  lemma NormalizedChars(s: string)
    ensures NormalizeChars(NormalizeChars(s)) == NormalizeChars(s)
  {
    hide NormalizeChars;
  }

  /** What a dictionary key looks like. */
  predicate CleanKey(k: string)
  {
    k != [] && IsLower(k[0]) && forall i :: 0 <= i < |k| ==> IsLower(k[i]) || IsDigit(k[i]) || k[i] == '_'
  }

  predicate OneLine(s: string)
  {
    forall c :: c in s ==> !IsBreak(c)
  }

  /** What a dictionary value looks like: it fits on a line and has nothing to strip. */
  predicate CleanValue(v: string)
  {
    v != [] && Trimmed(v) && OneLine(v)
  }

  // ---- One line --------------------------------------------------------------------

  function ColonAt(s: string): (i: nat)
    ensures i <= |s| && (i < |s| ==> s[i] == ':')
    ensures forall k :: 0 <= k < i ==> s[k] != ':'
  {
    if s == [] || s[0] == ':' then 0 else 1 + ColonAt(s[1..])
  }

  predicate IsKeyText(s: string)
  {
    s != [] && (IsLower(s[0]) || IsUpper(s[0])) && forall i :: 0 <= i < |s| ==> IsKeyChar(s[i])
  }

  /** The groups of `^([A-Za-z][A-Za-z0-9 _-]*):\s?(.*)$` on a line without line breaks. */
  function MatchKeyValue(line: string): Option<Field>
  {
    var i := ColonAt(line);
    if i == |line| || !IsKeyText(line[..i]) then None
    else
      var rest := line[i + 1..];
      Some(Field(line[..i], if rest != [] && IsSpace(rest[0]) then rest[1..] else rest))
  }

  function FieldOf(rawLine: string): Option<Field>
  {
    var line := Strip(rawLine);
    if line == [] || line[0] == '%' || line[0] == '#' then None
    else
      var m := MatchKeyValue(line);
      if m.None? then None
      else
        var key, value := NormalizeKey(m.value.key), Strip(m.value.value);
        if key == [] || value == [] then None else Some(Field(key, value))
  }

  lemma KeyTextIsClean(key: string)
    requires IsKeyText(key)
    ensures CleanKey(NormalizeKey(key))
  {
    assert LStrip(key) == key;
    hide LStrip, NormalizeChars;
    var r := RStrip(key);
    assert r <= key;
    StripKeepsFirst(key);
    assert forall i :: 0 <= i < |r| ==> IsKeyChar(r[i]);
  }

  lemma {:induction false} StripKeepsFirst(s: string)
    requires s != [] && !IsSpace(s[0])
    ensures RStrip(s) != [] && RStrip(s)[0] == s[0]
  {
    if |s| > 1 && IsSpace(s[|s| - 1]) {
      StripKeepsFirst(s[..|s| - 1]);
    }
  }

  /** A key in the text: a letter, then letters, digits, blanks, underscores and hyphens, and no
      blank at the end. */
  ghost predicate KeyName(name: string)
  {
    && name != [] && name[|name| - 1] != ' ' && ('a' <= name[0] <= 'z' || 'A' <= name[0] <= 'Z')
    && forall c :: c in name ==> 'a' <= c <= 'z' || 'A' <= c <= 'Z' || '0' <= c <= '9' || c in {' ', '_', '-'}
  }

  /** The same letters in lower case, with underscores for blanks and hyphens. */
  ghost predicate NormalForm(name: string, key: string)
  {
    && |key| == |name|
    && forall i :: 0 <= i < |name| ==>
         if 'A' <= name[i] <= 'Z' then key[i] as int - 'a' as int == name[i] as int - 'A' as int
         else key[i] == if name[i] in {' ', '-'} then '_' else name[i]
  }

  /** The line: a key, a colon and a value, with any white space around the value and the line,
      and blanks before the colon. */
  ghost predicate Says(rawLine: string, lead: string, name: string, gap: string, pad: string, v: string,
      trail: string)
  {
    && rawLine == lead + (name + gap + ":" + pad + v) + trail
    && Blank(lead) && KeyName(name) && (forall c :: c in gap ==> c == ' ')
    && Blank(pad) && v != [] && Trimmed(v) && Blank(trail)
  }

  lemma KeyTextIff(s: string)
    ensures IsKeyText(s) <==>
      && s != [] && ('a' <= s[0] <= 'z' || 'A' <= s[0] <= 'Z')
      && forall c :: c in s ==> 'a' <= c <= 'z' || 'A' <= c <= 'Z' || '0' <= c <= '9' || c in {' ', '_', '-'}
  {
    assert forall i :: 0 <= i < |s| ==> s[i] in s;
    if IsKeyText(s) {
      forall c | c in s ensures IsKeyChar(c) {
        var i :| 0 <= i < |s| && s[i] == c;
      }
    }
  }

  lemma KeySpaces(s: string)
    requires IsKeyText(s)
    ensures forall c :: c in s ==> (IsSpace(c) <==> c == ' ')
    ensures ':' !in s
  {
    forall c | c in s ensures (IsSpace(c) <==> c == ' ') && c != ':' {
      var i :| 0 <= i < |s| && s[i] == c;
    }
  }

  lemma NormalizedName(name: string, gap: string)
    requires KeyName(name) && forall c :: c in gap ==> c == ' '
    ensures NormalForm(name, NormalizeKey(name + gap)) && IsKeyText(name + gap)
  {
    KeyTextIff(name);
    KeySpaces(name);
    KeyTextIff(name + gap);
    hide Strip, NormalizeChars, IsKeyText;
    assert name[|name| - 1] in name && name[0] in name;
    assert [] + name + gap == name + gap;
    StripPads([], name, gap);
    NormalFormOf(name);
  }

  lemma NormalFormOf(name: string)
    requires forall c :: c in name ==> IsKeyChar(c)
    ensures NormalForm(name, NormalizeChars(name))
  {
    hide NormalizeChars;
    assert forall i :: 0 <= i < |name| ==> name[i] in name;
  }

  lemma LineMatches(key: string, rest: string)
    requires IsKeyText(key)
    ensures MatchKeyValue(key + ":" + rest)
         == Some(Field(key, if rest != [] && IsSpace(rest[0]) then rest[1..] else rest))
  {
    KeySpaces(key);
    hide IsKeyText, ColonAt, IsSpace;
    var line := key + ":" + rest;
    assert forall i :: 0 <= i < |key| ==> line[i] == key[i];
    assert line[|key|] == ':' && ColonAt(line) == |key|;
    assert line[..|key|] == key && line[|key| + 1..] == rest;
  }

  lemma PaddedValue(pad: string, v: string)
    requires Blank(pad) && v != [] && Trimmed(v)
    ensures var rest := pad + v; Strip(if rest != [] && IsSpace(rest[0]) then rest[1..] else rest) == v
  {
    hide Strip, IsSpace;
    assert pad + v + [] == pad + v;
    StripPads(pad, v, []);
    if pad != [] {
      assert pad[0] in pad;
      assert (pad + v)[1..] == pad[1..] + v + [];
      StripPads(pad[1..], v, []);
    }
  }

  lemma FieldFrom(rawLine: string, line: string, m: Field)
    requires Strip(rawLine) == line && line != [] && line[0] != '%' && line[0] != '#'
    requires MatchKeyValue(line) == Some(m) && NormalizeKey(m.key) != [] && Strip(m.value) != []
    ensures FieldOf(rawLine) == Some(Field(NormalizeKey(m.key), Strip(m.value)))
  {
    hide Strip, MatchKeyValue, NormalizeKey;
  }

  lemma LineEnds(name: string, rest: string, v: string)
    requires KeyName(name) && v != [] && Trimmed(v)
    ensures var line := name + rest + v; Trimmed(line) && line != [] && line[0] != '%' && line[0] != '#'
  {
    KeyTextIff(name);
    KeySpaces(name);
    hide IsSpace, IsKeyText;
    var line := name + rest + v;
    assert line[0] == name[0] && name[0] in name && line[|line| - 1] == v[|v| - 1];
  }

  lemma LineContributes(rawLine: string, lead: string, name: string, gap: string, pad: string, v: string,
      trail: string)
    requires Says(rawLine, lead, name, gap, pad, v, trail)
    ensures FieldOf(rawLine).Some?
    ensures NormalForm(name, FieldOf(rawLine).value.key) && FieldOf(rawLine).value.value == v
  {
    hide Strip, NormalizeKey, MatchKeyValue, IsKeyText, FieldOf, KeyName, NormalForm, IsSpace, Blank;
    var line, rest := name + gap + ":" + pad + v, pad + v;
    NormalizedName(name, gap);
    LineMatches(name + gap, rest);
    PaddedValue(pad, v);
    assert name + gap + ":" + rest == line && name + (gap + ":" + pad) + v == line;
    LineEnds(name, gap + ":" + pad, v);
    StripPads(lead, line, trail);
    assert NormalizeKey(name + gap) != [] by { NormalNotEmpty(name, NormalizeKey(name + gap)); }
    FieldFrom(rawLine, line, Field(name + gap, if rest != [] && IsSpace(rest[0]) then rest[1..] else rest));
  }

  lemma NormalNotEmpty(name: string, key: string)
    requires KeyName(name) && NormalForm(name, key)
    ensures key != []
  {
  }

  lemma ContributingLineSays(rawLine: string)
      returns (lead: string, name: string, gap: string, pad: string, v: string, trail: string)
    requires FieldOf(rawLine).Some?
    ensures Says(rawLine, lead, name, gap, pad, v, trail)
  {
    var line := Strip(rawLine);
    lead, trail := StripCuts(rawLine);
    var i, rest := MatchParts(line);
    hide *;
    name, gap := KeyParts(line[..i]);
    pad, v := ValueParts(rest, MatchKeyValue(line).value.value);
    Pieces(line, line[..i], rest, name, gap, pad, v);
    SaysThis(rawLine, lead, name, gap, pad, v, trail, line);
  }

  lemma MatchParts(line: string) returns (i: nat, rest: string)
    requires Trimmed(line) && MatchKeyValue(line).Some?
    ensures i < |line| && IsKeyText(line[..i]) && line == line[..i] + ":" + rest
    ensures rest == [] || !IsSpace(rest[|rest| - 1])
    ensures MatchKeyValue(line).value.value == if rest != [] && IsSpace(rest[0]) then rest[1..] else rest
  {
    hide ColonAt, IsKeyText, IsSpace;
    i := ColonAt(line);
    rest := line[i + 1..];
    assert line[i] == ':' && line == line[..i] + [line[i]] + line[i + 1..];
    assert rest != [] ==> rest[|rest| - 1] == line[|line| - 1];
  }

  lemma Pieces(line: string, key: string, rest: string, name: string, gap: string, pad: string, v: string)
    requires line == key + ":" + rest && key == name + gap && rest == pad + v
    ensures line == name + gap + ":" + pad + v
  {
  }

  lemma SaysThis(rawLine: string, lead: string, name: string, gap: string, pad: string, v: string, trail: string,
      line: string)
    requires rawLine == lead + line + trail && line == name + gap + ":" + pad + v
    requires Blank(lead) && KeyName(name) && (forall c :: c in gap ==> c == ' ')
    requires Blank(pad) && v != [] && Trimmed(v) && Blank(trail)
    ensures Says(rawLine, lead, name, gap, pad, v, trail)
  {
  }

  lemma KeyParts(key: string) returns (name: string, gap: string)
    requires IsKeyText(key)
    ensures KeyName(name) && (forall c :: c in gap ==> c == ' ') && key == name + gap
  {
    KeySpaces(key);
    KeyTextIff(key);
    name := RStrip(key);
    StripKeepsFirst(key) by { assert key[0] in key; }
    gap := RStripCuts(key);
    hide IsKeyText, RStrip, IsSpace;
    assert name[|name| - 1] in name;
  }

  /** The value after the colon, which the pattern takes without its first white space. */
  lemma ValueParts(rest: string, value: string) returns (pad: string, v: string)
    requires value == if rest != [] && IsSpace(rest[0]) then rest[1..] else rest
    requires Strip(value) != [] && (rest == [] || !IsSpace(rest[|rest| - 1]))
    ensures Blank(pad) && v == Strip(value) && Trimmed(v) && rest == pad + v
  {
    var lead, trail := StripCuts(value);
    hide Strip, IsSpace;
    v := Strip(value);
    assert trail == [];
    assert lead + v + [] == lead + v;
    pad := if rest != [] && IsSpace(rest[0]) then [rest[0]] + lead else lead;
  }

  /** What a line contributes, for every line: its key in normal form and its value, however they
      are aligned, when it has both; blank lines, comments and lines without a key or a value
      contribute nothing. */
  lemma FieldOfIff(rawLine: string, f: Field)
    ensures FieldOf(rawLine) == Some(f) <==>
      exists lead, name, gap, pad, trail ::
        Says(rawLine, lead, name, gap, pad, f.value, trail) && NormalForm(name, f.key)
  {
    hide FieldOf, Says, NormalForm;
    if FieldOf(rawLine) == Some(f) {
      var lead, name, gap, pad, v, trail := ContributingLineSays(rawLine);
      LineContributes(rawLine, lead, name, gap, pad, v, trail);
    }
    if lead, name, gap, pad, trail :|
        Says(rawLine, lead, name, gap, pad, f.value, trail) && NormalForm(name, f.key) {
      LineContributes(rawLine, lead, name, gap, pad, f.value, trail);
      OneNormalForm(name, f.key, FieldOf(rawLine).value.key);
    }
  }

  lemma OneNormalForm(name: string, k: string, l: string)
    requires NormalForm(name, k) && NormalForm(name, l)
    ensures k == l
  {
    assert forall i :: 0 <= i < |name| ==> k[i] == l[i];
  }

  /** What one line contributes can stand in the dictionary. */
  lemma FieldIsClean(rawLine: string)
    requires OneLine(rawLine)
    ensures FieldOf(rawLine).Some? ==> CleanKey(FieldOf(rawLine).value.key) && CleanValue(FieldOf(rawLine).value.value)
  {
    hide Strip, NormalizeKey, ColonAt, IsKeyText, CleanKey;
    if FieldOf(rawLine).Some? {
      var line := Strip(rawLine);
      StripChars(rawLine);
      assert OneLine(line);
      var m := MatchKeyValue(line).value;
      KeyTextIsClean(m.key);
      StripTrims(m.value);
      StripChars(m.value);
      assert forall c :: c in m.value ==> c in line;
    }
  }

  lemma PrintedField(k: string, v: string)
    requires CleanKey(k) && CleanValue(v)
    ensures FieldOf(k + ": " + v) == Some(Field(k, v))
    ensures OneLine(k + ": " + v)
  {
    var line := k + ": " + v;
    assert KeyName(k) && NormalForm(k, k) by { CleanKeyIsName(k); }
    assert line == [] + (k + [] + ":" + " " + v) + [];
    assert Says(line, [], k, [], " ", v, []);
    LineContributes(line, [], k, [], " ", v, []);
    OneNormalForm(k, k, FieldOf(line).value.key);
    forall c | c in line ensures !IsBreak(c) {
      assert c in k || c in ": " || c in v;
    }
  }

  lemma CleanKeyIsName(k: string)
    requires CleanKey(k)
    ensures KeyName(k) && NormalForm(k, k)
  {
    forall c | c in k ensures IsLower(c) || IsDigit(c) || c == '_' {
      var i :| 0 <= i < |k| && k[i] == c;
    }
    assert forall i :: 0 <= i < |k| ==> k[i] in k;
  }

  // ---- The whole response ----------------------------------------------------------

  function FieldsOf(lines: seq<string>): seq<Field>
  {
    if lines == [] then []
    else
      var f := FieldOf(lines[0]);
      if f.Some? then [f.value] + FieldsOf(lines[1..]) else FieldsOf(lines[1..])
  }

  /** The values given for `key`, in order. */
  function ValuesOf(fields: seq<Field>, key: string): seq<string>
  {
    if fields == [] then []
    else if fields[0].key == key then [fields[0].value] + ValuesOf(fields[1..], key)
    else ValuesOf(fields[1..], key)
  }

  lemma {:induction false} ValuesOfConcat(a: seq<Field>, b: seq<Field>, key: string)
    ensures ValuesOf(a + b, key) == ValuesOf(a, key) + ValuesOf(b, key)
  {
    if a == [] {
      assert a + b == b;
    } else {
      ValuesOfConcat(a[1..], b, key);
      assert (a + b)[1..] == a[1..] + b;
    }
  }

  lemma {:induction false} FieldsOfConcat(a: seq<string>, b: seq<string>)
    ensures FieldsOf(a + b) == FieldsOf(a) + FieldsOf(b)
  {
    hide FieldOf;
    if a == [] {
      assert a + b == b;
    } else {
      FieldsOfConcat(a[1..], b);
      assert (a + b)[1..] == a[1..] + b;
    }
  }

  /** The dictionary holds, for each key, exactly the in-order list of its values. */
  ghost predicate Holds(m: Fields, fields: seq<Field>)
  {
    forall k :: (k in m <==> ValuesOf(fields, k) != []) && (k in m ==> m[k] == ValuesOf(fields, k))
  }

  lemma HoldsOneMore(m: Fields, fields: seq<Field>, f: Field)
    requires Holds(m, fields)
    ensures Holds(m[f.key := (if f.key in m then m[f.key] else []) + [f.value]], fields + [f])
  {
    forall k ensures ValuesOf(fields + [f], k) == ValuesOf(fields, k) + if k == f.key then [f.value] else [] {
      ValuesOfConcat(fields, [f], k);
      assert ValuesOf([f], k) == if k == f.key then [f.value] else [];
    }
    hide ValuesOf;
  }

  lemma FieldsOneMore(lines: seq<string>, i: nat)
    requires i < |lines|
    ensures FieldsOf(lines[..i + 1])
        == FieldsOf(lines[..i]) + if FieldOf(lines[i]).Some? then [FieldOf(lines[i]).value] else []
  {
    hide FieldOf;
    assert lines[..i + 1] == lines[..i] + [lines[i]];
    FieldsOfConcat(lines[..i], [lines[i]]);
  }

  lemma NothingHeld()
    ensures Holds(map[], FieldsOf([]))
  {
  }

  /** Each key's list is the in-order sequence of its nonempty values in the input. */
  method ParseGeneric(raw: string) returns (fields: Fields)
    ensures Holds(fields, FieldsOf(SplitLines(raw)))
  {
    hide Holds, FieldOf, FieldsOf, SplitLines;
    fields := map[];
    NothingHeld();
    var lines := SplitLines(raw);
    for i := 0 to |lines|
      invariant Holds(fields, FieldsOf(lines[..i]))
    {
      FieldsOneMore(lines, i);
      var f := FieldOf(lines[i]);
      if f.Some? {
        HoldsOneMore(fields, FieldsOf(lines[..i]), f.value);
        var before := if f.value.key in fields then fields[f.value.key] else [];
        fields := fields[f.value.key := before + [f.value.value]];
      } else {
        assert FieldsOf(lines[..i]) + [] == FieldsOf(lines[..i]);
      }
    }
    assert lines[..|lines|] == lines;
  }

  // ---- Round trip ------------------------------------------------------------------

  function PrintValues(key: string, values: seq<string>): string
  {
    if values == [] then [] else key + ": " + values[0] + "\n" + PrintValues(key, values[1..])
  }

  /** The dictionary as "key: value" lines, keys in the given order. */
  function Print(order: seq<string>, m: Fields): string
    requires forall k :: k in order ==> k in m
  {
    if order == [] then [] else PrintValues(order[0], m[order[0]]) + Print(order[1..], m)
  }

  function Pairs(key: string, values: seq<string>): seq<Field>
  {
    if values == [] then [] else [Field(key, values[0])] + Pairs(key, values[1..])
  }

  lemma {:induction false} PrintedValues(key: string, values: seq<string>, rest: string)
    requires CleanKey(key) && forall v :: v in values ==> CleanValue(v)
    ensures FieldsOf(SplitLines(PrintValues(key, values) + rest)) == Pairs(key, values) + FieldsOf(SplitLines(rest))
  {
    hide FieldOf, FieldsOf, SplitLines, CleanKey, CleanValue;
    if values == [] {
      assert PrintValues(key, values) + rest == rest;
    } else {
      assert values[0] in values;
      var more := PrintValues(key, values[1..]) + rest;
      PrintedValues(key, values[1..], rest);
      PrintedFirst(key, values[0], more);
      FirstOfValues(key, values, rest, FieldsOf(SplitLines(rest)));
      hide PrintValues, Pairs;
    }
  }

  lemma FirstOfValues(key: string, values: seq<string>, rest: string, fields: seq<Field>)
    requires values != []
    ensures PrintValues(key, values) + rest
         == key + ": " + values[0] + "\n" + (PrintValues(key, values[1..]) + rest)
    ensures Pairs(key, values) + fields == [Field(key, values[0])] + (Pairs(key, values[1..]) + fields)
  {
    Associate(key + ": " + values[0] + "\n", PrintValues(key, values[1..]), rest);
    Associate([Field(key, values[0])], Pairs(key, values[1..]), fields);
  }

  lemma Associate<T>(a: seq<T>, b: seq<T>, c: seq<T>)
    ensures (a + b) + c == a + (b + c)
  {
  }

  lemma PrintedFirst(key: string, value: string, more: string)
    requires CleanKey(key) && CleanValue(value)
    ensures FieldsOf(SplitLines(key + ": " + value + "\n" + more)) == [Field(key, value)] + FieldsOf(SplitLines(more))
  {
    hide FieldOf, SplitLines, CleanKey, CleanValue;
    var line := key + ": " + value;
    PrintedField(key, value);
    SplitFirstLine(line, more);
    FieldsOfConcat([line], SplitLines(more));
    assert FieldsOf([line]) == [Field(key, value)] + FieldsOf([]);
  }

  lemma {:induction false} ValuesOfPairs(key: string, values: seq<string>, k: string)
    ensures ValuesOf(Pairs(key, values), k) == if k == key then values else []
  {
    if values != [] {
      ValuesOfPairs(key, values[1..], k);
    }
  }

  predicate Distinct(s: seq<string>)
  {
    forall i, j :: 0 <= i < j < |s| ==> s[i] != s[j]
  }

  ghost predicate Clean(m: Fields)
  {
    forall k :: k in m ==> CleanKey(k) && m[k] != [] && forall v :: v in m[k] ==> CleanValue(v)
  }

  lemma {:induction false} PrintedDictionary(order: seq<string>, m: Fields, k: string)
    requires Clean(m) && Distinct(order) && forall x :: x in order ==> x in m
    ensures ValuesOf(FieldsOf(SplitLines(Print(order, m))), k) == if k in order then m[k] else []
  {
    hide FieldOf, SplitLines, CleanKey, CleanValue;
    if order == [] {
      assert SplitLines(Print(order, m)) == [] by { NoLines(); }
    } else {
      var key, rest := order[0], Print(order[1..], m);
      assert key in order;
      PrintedDictionary(order[1..], m, k);
      PrintedValues(key, m[key], rest);
      ValuesOfConcat(Pairs(key, m[key]), FieldsOf(SplitLines(rest)), k);
      ValuesOfPairs(key, m[key], k);
      assert k == key ==> k !in order[1..];
      assert k in order <==> k == key || k in order[1..];
    }
  }

  lemma NoLines()
    ensures SplitLines("") == []
  {
  }

  lemma {:induction false} FieldsAreClean(lines: seq<string>, k: string)
    requires forall l :: l in lines ==> OneLine(l)
    ensures ValuesOf(FieldsOf(lines), k) != [] ==> CleanKey(k)
    ensures forall v :: v in ValuesOf(FieldsOf(lines), k) ==> CleanValue(v)
  {
    hide FieldOf, CleanKey, CleanValue;
    if lines != [] {
      assert lines[0] in lines && forall l :: l in lines[1..] ==> l in lines;
      FieldIsClean(lines[0]);
      FieldsAreClean(lines[1..], k);
    }
  }

  /** Printing what was parsed, keys in any order, and parsing again gives the same dictionary. */
  lemma RoundTrip(raw: string, m: Fields, order: seq<string>, m': Fields)
    requires Holds(m, FieldsOf(SplitLines(raw)))
    requires Distinct(order) && forall k :: k in order <==> k in m
    requires Holds(m', FieldsOf(SplitLines(Print(order, m))))
    ensures m' == m
  {
    hide FieldOf, SplitLines, FieldsOf;
    LinesHaveNoBreaks(raw);
    forall k | k in m ensures CleanKey(k) && m[k] != [] && forall v :: v in m[k] ==> CleanValue(v) {
      FieldsAreClean(SplitLines(raw), k);
    }
    forall k ensures k in m' <==> k in m
             ensures k in m ==> m'[k] == m[k] {
      PrintedDictionary(order, m, k);
    }
  }

  // ---- Known fields ----------------------------------------------------------------

  /** Canonical field names and the keys registries use for them, most telling first. */
  const FIELD_ALIASES: seq<(string, seq<string>)> := [
    ("inetnum", ["inetnum", "netrange", "cidr", "inet6num"]),
    ("netname", ["netname"]),
    ("country", ["country"]),
    ("organization", ["orgname", "org_name", "organization", "owner", "org"]),
    ("descr", ["descr"]),
    ("origin", ["origin"]),
    ("route", ["route", "route6"]),
    ("mnt_by", ["mnt_by"]),
    ("abuse_email", ["abuse_mailbox", "orgabuseemail", "abuse_email"])]

  /** The first value of the first alias that has values. */
  function FirstValue(parsed: Fields, aliases: seq<string>): Option<string>
  {
    if aliases == [] then None
    else if aliases[0] in parsed && parsed[aliases[0]] != [] then Some(parsed[aliases[0]][0])
    else FirstValue(parsed, aliases[1..])
  }

  ghost predicate Extracted(result: map<string, string>, parsed: Fields, table: seq<(string, seq<string>)>)
  {
    && (forall c :: c in result ==> exists i :: 0 <= i < |table| && table[i].0 == c)
    && (forall i :: 0 <= i < |table| ==>
          (table[i].0 in result <==> FirstValue(parsed, table[i].1).Some?)
          && (table[i].0 in result ==> result[table[i].0] == FirstValue(parsed, table[i].1).value))
  }

  predicate DistinctNames(table: seq<(string, seq<string>)>)
  {
    forall i, j :: 0 <= i < j < |table| ==> table[i].0 != table[j].0
  }

  lemma AliasesAreDistinct()
    ensures DistinctNames(FIELD_ALIASES)
  {
  }

  /** A canonical field is present exactly when some alias has a value, and is then that value. */
  method ExtractKnownFields(parsed: Fields, table: seq<(string, seq<string>)> := FIELD_ALIASES)
      returns (result: map<string, string>)
    requires DistinctNames(table)
    ensures Extracted(result, parsed, table)
  {
    result := map[];
    for i := 0 to |table|
      invariant Extracted(result, parsed, table[..i])
    {
      var first := PickAlias(parsed, table[i].1);
      ghost var before := result;
      if first.Some? {
        result := result[table[i].0 := first.value];
      }
      ExtractedOneMore(before, result, parsed, table, i);
    }
    assert table[..|table|] == table;
  }

  method PickAlias(parsed: Fields, aliases: seq<string>) returns (first: Option<string>)
    ensures first == FirstValue(parsed, aliases)
  {
    for j := 0 to |aliases|
      invariant FirstValue(parsed, aliases) == FirstValue(parsed, aliases[j..])
    {
      assert aliases[j..][0] == aliases[j] && aliases[j..][1..] == aliases[j + 1..];
      if aliases[j] in parsed && parsed[aliases[j]] != [] {
        return Some(parsed[aliases[j]][0]);
      }
    }
    first := None;
  }

  lemma ExtractedOneMore(before: map<string, string>, after: map<string, string>, parsed: Fields,
      table: seq<(string, seq<string>)>, i: nat)
    requires DistinctNames(table) && i < |table| && Extracted(before, parsed, table[..i])
    requires var first := FirstValue(parsed, table[i].1);
             after == if first.Some? then before[table[i].0 := first.value] else before
    ensures Extracted(after, parsed, table[..i + 1])
  {
    hide FirstValue;
    var done, more := table[..i], table[..i + 1];
    assert forall j :: 0 <= j < i ==> done[j] == more[j] == table[j];
    assert more[i] == table[i];
    assert table[i].0 !in before;
    forall c | c in after ensures exists j :: 0 <= j < |more| && more[j].0 == c {
      if c == table[i].0 {
        assert more[i].0 == c;
      } else {
        var j :| 0 <= j < |done| && done[j].0 == c;
        assert more[j].0 == c;
      }
    }
  }

  predicate HasValues(parsed: Fields, key: string)
  {
    key in parsed && parsed[key] != []
  }

  /** Key number `j` is the first that has values. */
  ghost predicate FirstWithValues(parsed: Fields, keys: seq<string>, j: nat)
  {
    j < |keys| && HasValues(parsed, keys[j]) && forall i :: 0 <= i < j ==> !HasValues(parsed, keys[i])
  }

  /** The field is the first value of the first of the keys that has any, and absent if none has. */
  ghost predicate Prefers(result: map<string, string>, parsed: Fields, field: string, keys: seq<string>)
  {
    && (field in result ==> exists j :: 0 <= j < |keys| && HasValues(parsed, keys[j]))
    && forall j: nat :: FirstWithValues(parsed, keys, j) ==> field in result && result[field] == parsed[keys[j]][0]
  }

  lemma {:induction false} FirstValueIs(parsed: Fields, keys: seq<string>)
    ensures FirstValue(parsed, keys).Some? ==> exists j :: 0 <= j < |keys| && HasValues(parsed, keys[j])
    ensures forall j: nat :: FirstWithValues(parsed, keys, j) ==> FirstValue(parsed, keys) == Some(parsed[keys[j]][0])
  {
    if keys != [] && !HasValues(parsed, keys[0]) {
      var rest := keys[1..];
      FirstValueIs(parsed, rest);
      assert forall i :: 0 <= i < |rest| ==> rest[i] == keys[i + 1];
      if j :| 0 <= j < |rest| && HasValues(parsed, rest[j]) {
        assert HasValues(parsed, keys[j + 1]);
      }
      forall j: nat | FirstWithValues(parsed, keys, j) ensures FirstValue(parsed, keys) == Some(parsed[keys[j]][0]) {
        assert FirstWithValues(parsed, rest, j - 1) by {
          assert forall i :: 0 <= i < j - 1 ==> rest[i] == keys[i + 1] && !HasValues(parsed, keys[i + 1]);
        }
      }
    }
  }

  /** Which keys of the registries give which field, in which order of preference. */
  lemma KnownFields(result: map<string, string>, parsed: Fields)
    requires Extracted(result, parsed, FIELD_ALIASES)
    ensures Prefers(result, parsed, "country", ["country"])
    ensures Prefers(result, parsed, "inetnum", ["inetnum", "netrange", "cidr", "inet6num"])
    ensures Prefers(result, parsed, "organization", ["orgname", "org_name", "organization", "owner", "org"])
    ensures Prefers(result, parsed, "route", ["route", "route6"])
    ensures Prefers(result, parsed, "abuse_email", ["abuse_mailbox", "orgabuseemail", "abuse_email"])
    ensures forall field :: field in {"netname", "descr", "origin", "mnt_by"} ==>
      Prefers(result, parsed, field, [field])
    ensures forall field :: field in result ==>
      field in {"inetnum", "netname", "country", "organization", "descr", "origin", "route", "mnt_by", "abuse_email"}
  {
    hide FirstValue, HasValues, Prefers, Extracted, FirstWithValues;
    forall i | 0 <= i < |FIELD_ALIASES|
      ensures Prefers(result, parsed, FIELD_ALIASES[i].0, FIELD_ALIASES[i].1)
    {
      FieldPrefers(result, parsed, FIELD_ALIASES, i);
    }
    assert |FIELD_ALIASES| == 9;
    assert FIELD_ALIASES[0].0 == "inetnum" && FIELD_ALIASES[1].0 == "netname" && FIELD_ALIASES[2].0 == "country";
    assert FIELD_ALIASES[3].0 == "organization" && FIELD_ALIASES[4].0 == "descr" && FIELD_ALIASES[5].0 == "origin";
    assert FIELD_ALIASES[6].0 == "route" && FIELD_ALIASES[7].0 == "mnt_by" && FIELD_ALIASES[8].0 == "abuse_email";
    NoOtherFields(result, parsed);
  }

  lemma NoOtherFields(result: map<string, string>, parsed: Fields)
    requires Extracted(result, parsed, FIELD_ALIASES)
    ensures forall field :: field in result ==>
      field in {"inetnum", "netname", "country", "organization", "descr", "origin", "route", "mnt_by", "abuse_email"}
  {
    hide FirstValue;
  }

  lemma FieldPrefers(result: map<string, string>, parsed: Fields, table: seq<(string, seq<string>)>, i: nat)
    requires Extracted(result, parsed, table) && i < |table|
    ensures Prefers(result, parsed, table[i].0, table[i].1)
  {
    hide FirstValue, HasValues;
    FirstValueIs(parsed, table[i].1);
  }
}
