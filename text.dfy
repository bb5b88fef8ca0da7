/**
 Text utilities shared by the fragment writers: a file as a sequence of
 newline-terminated lines, and joining a list of items with a separator.
 */
module Text {

  /** The contents of a file whose lines are `lines`, each followed by a newline. */
  function Unlines(lines: seq<string>): (text: string)
    ensures |text| >= |lines|
    ensures lines != [] ==> text[|text| - 1] == '\n'
  {
    if lines == [] then [] else lines[0] + "\n" + Unlines(lines[1..])
  }

  lemma {:induction false} UnlinesAppend(a: seq<string>, b: seq<string>)
    ensures Unlines(a + b) == Unlines(a) + Unlines(b)
  {
    if a == [] {
      assert a + b == b;
    } else {
      assert (a + b)[1..] == a[1..] + b;
      UnlinesAppend(a[1..], b);
    }
  }

  lemma UnlinesSnoc(lines: seq<string>, line: string)
    ensures Unlines(lines + [line]) == Unlines(lines) + line + "\n"
  {
    UnlinesAppend(lines, [line]);
    assert [line][1..] == [];
  }

  /** No line holds a newline of its own. */
  predicate SingleLines(lines: seq<string>)
  {
    forall i :: 0 <= i < |lines| ==> '\n' !in lines[i]
  }

  lemma {:induction false} SingleLinesAppend(a: seq<string>, b: seq<string>)
    requires SingleLines(a) && SingleLines(b)
    ensures SingleLines(a + b)
  {
    forall i | 0 <= i < |a + b| ensures '\n' !in (a + b)[i] {
      if i >= |a| {
        assert (a + b)[i] == b[i - |a|];
      }
    }
  }

  /** Splits `s` at its first newline: the line before it and the rest after it. */
  function BreakLine(s: string): (r: (string, string))
    ensures '\n' !in r.0
    ensures '\n' in s ==> s == r.0 + "\n" + r.1
    ensures '\n' !in s ==> r.0 == s && r.1 == []
  {
    if s == [] then ([], [])
    else if s[0] == '\n' then ([], s[1..])
    else
      var (line, rest) := BreakLine(s[1..]);
      assert s == [s[0]] + s[1..];
      ([s[0]] + line, rest)
  }

  /** The lines of a text, each without its terminating newline. */
  function SplitLines(s: string): (lines: seq<string>)
    ensures SingleLines(lines)
    decreases |s|
  {
    if s == [] then []
    else
      var (line, rest) := BreakLine(s);
      assert |rest| < |s|;
      [line] + SplitLines(rest)
  }

  lemma {:induction false} BreakLineOf(line: string, rest: string)
    requires '\n' !in line
    ensures BreakLine(line + "\n" + rest) == (line, rest)
  {
    var s := line + "\n" + rest;
    if line == [] {
      assert s == "\n" + rest;
    } else {
      assert s[1..] == line[1..] + "\n" + rest;
      BreakLineOf(line[1..], rest);
      assert [line[0]] + line[1..] == line;
    }
  }

  /** Splitting a text produced by Unlines gives the lines back, when no line holds a newline. */
  lemma {:induction false} SplitUnlines(lines: seq<string>)
    requires SingleLines(lines)
    ensures SplitLines(Unlines(lines)) == lines
  {
    if lines != [] {
      BreakLineOf(lines[0], Unlines(lines[1..]));
      SplitUnlines(lines[1..]);
    }
  }

  /** Items separated by `sep`, with no separator before the first item or after the last. */
  function Join(items: seq<string>, sep: string): (r: string)
  {
    if |items| == 0 then []
    else if |items| == 1 then items[0]
    else items[0] + sep + Join(items[1..], sep)
  }

  /** Each item followed by `sep`: what a loop appending `item + sep` produces. */
  function Terminated(items: seq<string>, sep: string): (r: string)
  {
    if items == [] then [] else Terminated(items[..|items| - 1], sep) + items[|items| - 1] + sep
  }

  lemma {:induction false} TerminatedCons(x: string, items: seq<string>, sep: string)
    ensures Terminated([x] + items, sep) == x + sep + Terminated(items, sep)
    decreases |items|
  {
    if items != [] {
      var n := |items|;
      assert ([x] + items)[..n] == [x] + items[..n - 1];
      TerminatedCons(x, items[..n - 1], sep);
    }
  }

  /** A joined list is every item but the last followed by the separator, then the last item. */
  lemma {:induction false} JoinAsTerminated(items: seq<string>, sep: string)
    requires items != []
    ensures Join(items, sep) == Terminated(items[..|items| - 1], sep) + items[|items| - 1]
  {
    if |items| > 1 {
      var rest := items[1..];
      JoinAsTerminated(rest, sep);
      assert items[..|items| - 1] == [items[0]] + rest[..|rest| - 1];
      TerminatedCons(items[0], rest[..|rest| - 1], sep);
    }
  }

  /** Joining two non-empty lists puts exactly one separator between them. */
  lemma {:induction false} JoinAppend(a: seq<string>, b: seq<string>, sep: string)
    requires a != [] && b != []
    ensures Join(a + b, sep) == Join(a, sep) + sep + Join(b, sep)
  {
    if |a| == 1 {
      assert (a + b)[1..] == b;
    } else {
      assert (a + b)[1..] == a[1..] + b;
      JoinAppend(a[1..], b, sep);
    }
  }

  /** The joined text starts with the first item and ends with the last one. */
  lemma {:induction false} JoinEnds(items: seq<string>, sep: string)
    requires items != []
    ensures items[0] <= Join(items, sep)
    ensures var j := Join(items, sep); var last := items[|items| - 1];
      |last| <= |j| && j[|j| - |last|..] == last
  {
    JoinAsTerminated(items, sep);
    if |items| > 1 {
      JoinEnds(items[1..], sep);
    }
  }

  /** How many of `lines` begin with `prefix`. */
  function CountPrefixed(lines: seq<string>, prefix: string): (n: nat)
    ensures n <= |lines|
  {
    if lines == [] then 0
    else (if prefix <= lines[0] then 1 else 0) + CountPrefixed(lines[1..], prefix)
  }

  lemma {:induction false} CountPrefixedNone(lines: seq<string>, prefix: string)
    requires forall i :: 0 <= i < |lines| ==> !(prefix <= lines[i])
    ensures CountPrefixed(lines, prefix) == 0
  {
    if lines != [] {
      assert !(prefix <= lines[0]);
      CountPrefixedNone(lines[1..], prefix);
    }
  }

  lemma {:induction false} CountPrefixedAppend(a: seq<string>, b: seq<string>, prefix: string)
    ensures CountPrefixed(a + b, prefix) == CountPrefixed(a, prefix) + CountPrefixed(b, prefix)
  {
    if a == [] {
      assert a + b == b;
    } else {
      assert (a + b)[1..] == a[1..] + b;
      CountPrefixedAppend(a[1..], b, prefix);
    }
  }
}
