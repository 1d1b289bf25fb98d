/** Splitting a sequence at every occurrence of a separator, as Python's
    `split(sep)` does for one-element separators: n separators give n + 1 parts. */
module Splitting {

  function Split<T(==)>(s: seq<T>, sep: T): (parts: seq<seq<T>>)
    ensures |parts| >= 1
  {
    if s == [] then [[]]
    else
      var rest := Split(s[1..], sep);
      if s[0] == sep then [[]] + rest else [[s[0]] + rest[0]] + rest[1..]
  }

  function Join<T>(parts: seq<seq<T>>, sep: T): seq<T>
    requires |parts| >= 1
  {
    if |parts| == 1 then parts[0] else parts[0] + [sep] + Join(parts[1..], sep)
  }

  ghost predicate Free<T>(parts: seq<seq<T>>, sep: T)
  {
    forall p :: p in parts ==> sep !in p
  }

  /** Splitting loses nothing, and no part keeps a separator. */
  lemma {:induction false} JoinSplit<T>(s: seq<T>, sep: T)
    ensures Free(Split(s, sep), sep)
    ensures Join(Split(s, sep), sep) == s
  {
    if s != [] {
      JoinSplit(s[1..], sep);
      var rest := Split(s[1..], sep);
      assert rest[0] in rest;
      if s[0] == sep {
        assert Split(s, sep) == [[]] + rest;
        JoinEmptyFirst(rest, sep);
        assert [sep] + s[1..] == s;
      } else {
        assert [s[0]] + s[1..] == s;
        if |rest| > 1 {
          assert rest == [rest[0]] + rest[1..];
          JoinLongerFirst(s[0], rest[0], rest[1..], sep);
        } else {
          assert Split(s, sep) == [[s[0]] + rest[0]];
        }
      }
    }
  }

  lemma JoinMore<T>(first: seq<T>, rest: seq<seq<T>>, sep: T)
    requires |rest| >= 1
    ensures Join([first] + rest, sep) == first + [sep] + Join(rest, sep)
  {
    assert ([first] + rest)[1..] == rest;
  }

  lemma JoinEmptyFirst<T>(parts: seq<seq<T>>, sep: T)
    requires |parts| >= 1
    ensures Join([[]] + parts, sep) == [sep] + Join(parts, sep)
  {
    JoinMore([], parts, sep);
    hide Join;
    assert [] + [sep] == [sep];
  }

  lemma JoinLongerFirst<T>(x: T, first: seq<T>, rest: seq<seq<T>>, sep: T)
    requires |rest| >= 1
    ensures Join([[x] + first] + rest, sep) == [x] + Join([first] + rest, sep)
  {
    hide Join;
    JoinMore(first, rest, sep);
    JoinMore([x] + first, rest, sep);
    assert ([x] + first) + [sep] + Join(rest, sep) == [x] + (first + [sep] + Join(rest, sep));
  }

  lemma {:induction false} SplitFree<T>(s: seq<T>, sep: T)
    requires sep !in s
    ensures Split(s, sep) == [s]
  {
    if s != [] {
      SplitFree(s[1..], sep);
      assert [s[0]] + s[1..] == s;
    }
  }

  lemma {:induction false} SplitConcat<T>(a: seq<T>, b: seq<T>, sep: T)
    ensures Split(a + [sep] + b, sep) == Split(a, sep) + Split(b, sep)
  {
    var whole := a + [sep] + b;
    if a == [] {
      assert whole[1..] == b;
    } else {
      var x, y := Split(a[1..], sep), Split(b, sep);
      assert whole[1..] == a[1..] + [sep] + b;
      SplitConcat(a[1..], b, sep);
      assert Split(whole[1..], sep) == x + y;
      if a[0] == sep {
        assert [[]] + (x + y) == ([[]] + x) + y;
      } else {
        assert [[a[0]] + x[0]] + (x + y)[1..] == ([[a[0]] + x[0]] + x[1..]) + y;
      }
    }
  }

  /** The split is the only way to cut `s` into separator-free parts. */
  lemma {:induction false} SplitJoin<T>(parts: seq<seq<T>>, sep: T)
    requires |parts| >= 1 && Free(parts, sep)
    ensures Split(Join(parts, sep), sep) == parts
  {
    assert parts[0] in parts;
    SplitFree(parts[0], sep);
    if |parts| > 1 {
      SplitJoin(parts[1..], sep);
      SplitConcat(parts[0], Join(parts[1..], sep), sep);
      assert parts == [parts[0]] + parts[1..];
    } else {
      assert parts == [parts[0]];
    }
  }
}
