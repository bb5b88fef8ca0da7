/**
 Escaping of the paper title for the Markdown pipeline. The primary title
 has every `_` turned into `\_`; the plain (footnote) title has `_` turned
 into `\_` and then `#` into `\#`.
 */
module TitleEscape {

  /** `s.gsub(c, rep)` for a one-character pattern: every `c` replaced by `rep`. */
  function Gsub(s: string, c: char, rep: string): (r: string)
  {
    if s == [] then [] else (if s[0] == c then rep else [s[0]]) + Gsub(s[1..], c, rep)
  }

  /** The primary title: `paper.title.gsub!('_', '\_')`. */
  function EscapeTitle(title: string): (r: string)
    ensures r == Escape(title, {'_'})
  {
    GsubUnderscoreIsEscape(title);
    Gsub(title, '_', "\\_")
  }

  /** The plain/footnote title: `paper.plain_title.gsub('_', '\_').gsub('#', '\#')`. */
  function EscapePlainTitle(plainTitle: string): (r: string)
    ensures r == Escape(plainTitle, {'_', '#'})
  {
    GsubUnderscoreIsEscape(plainTitle);
    GsubHashAfterEscape(plainTitle);
    Gsub(Gsub(plainTitle, '_', "\\_"), '#', "\\#")
  }

  /** Every character of `special` preceded by a backslash, in a single pass. */
  function Escape(s: string, special: set<char>): (r: string)
    ensures |r| == |s| + Occurrences(s, special)
  {
    if s == [] then []
    else (if s[0] in special then ['\\', s[0]] else [s[0]]) + Escape(s[1..], special)
  }

  /** How many characters of `s` are in `cs`. */
  function Occurrences(s: string, cs: set<char>): (n: nat)
    ensures n <= |s|
  {
    if s == [] then 0 else (if s[0] in cs then 1 else 0) + Occurrences(s[1..], cs)
  }

  /** Reads an escaped text back: `\c` for `c` in `special` becomes `c`, left to right. */
  function Unescape(s: string, special: set<char>): (r: string)
  {
    if |s| >= 2 && s[0] == '\\' && s[1] in special then [s[1]] + Unescape(s[2..], special)
    else if s == [] then []
    else [s[0]] + Unescape(s[1..], special)
  }

  lemma {:induction false} GsubUnderscoreIsEscape(s: string)
    ensures Gsub(s, '_', "\\_") == Escape(s, {'_'})
  {
    if s != [] {
      GsubUnderscoreIsEscape(s[1..]);
    }
  }

  lemma {:induction false} GsubHashAfterEscape(s: string)
    ensures Gsub(Escape(s, {'_'}), '#', "\\#") == Escape(s, {'_', '#'})
  {
    if s != [] {
      var e := Escape(s, {'_'});
      var head := if s[0] == '_' then ['\\', s[0]] else [s[0]];
      assert e == head + Escape(s[1..], {'_'});
      GsubAppend(head, Escape(s[1..], {'_'}), '#', "\\#");
      GsubHashAfterEscape(s[1..]);
      if s[0] == '_' {
        assert head[1..] == ['_'];
        assert ['_'][1..] == [];
        assert Gsub(head, '#', "\\#") == ['\\', '_'];
      } else {
        assert head[1..] == [];
      }
    }
  }

  lemma {:induction false} GsubAppend(a: string, b: string, c: char, rep: string)
    ensures Gsub(a + b, c, rep) == Gsub(a, c, rep) + Gsub(b, c, rep)
  {
    if a == [] {
      assert a + b == b;
    } else {
      assert (a + b)[1..] == a[1..] + b;
      GsubAppend(a[1..], b, c, rep);
    }
  }

  /** Every character of `special` in `r` is immediately preceded by a backslash. */
  predicate Marked(r: string, special: set<char>)
  {
    forall i :: 0 <= i < |r| && r[i] in special ==> i > 0 && r[i - 1] == '\\'
  }

  /** After escaping, every special character is immediately preceded by a backslash. */
  lemma {:induction false} EscapeMarksEverySpecial(s: string, special: set<char>)
    requires '\\' !in special
    ensures Marked(Escape(s, special), special)
  {
    if s != [] {
      EscapeMarksEverySpecial(s[1..], special);
      var head := if s[0] in special then ['\\', s[0]] else [s[0]];
      var r := Escape(s, special);
      var tail := Escape(s[1..], special);
      assert r == head + tail;
      forall i | 0 <= i < |r| && r[i] in special ensures i > 0 && r[i - 1] == '\\' {
        if i < |head| {
          assert r[i] == head[i];
          if i == 0 {
            assert false;
          } else {
            assert s[0] in special && r[i - 1] == head[0] == '\\';
          }
        } else {
          assert r[i] == tail[i - |head|];
          assert tail[i - |head|] in special;
          if i - |head| > 0 {
            assert r[i - 1] == tail[i - |head| - 1];
          } else {
            assert false;
          }
        }
      }
    }
  }

  /** Escaping keeps the number of every character other than the backslash. */
  lemma {:induction false} EscapeKeepsCharacters(s: string, special: set<char>, c: char)
    requires c != '\\'
    ensures Occurrences(Escape(s, special), {c}) == Occurrences(s, {c})
  {
    if s != [] {
      var head := if s[0] in special then ['\\', s[0]] else [s[0]];
      OccurrencesAppend(head, Escape(s[1..], special), {c});
      EscapeKeepsCharacters(s[1..], special, c);
      if s[0] in special {
        assert head[1..] == [s[0]];
        assert [s[0]][1..] == [];
      } else {
        assert head[1..] == [];
      }
    }
  }

  lemma {:induction false} OccurrencesAppend(a: string, b: string, cs: set<char>)
    ensures Occurrences(a + b, cs) == Occurrences(a, cs) + Occurrences(b, cs)
  {
    if a == [] {
      assert a + b == b;
    } else {
      assert (a + b)[1..] == a[1..] + b;
      OccurrencesAppend(a[1..], b, cs);
    }
  }

  lemma EscapeStartsOutsideSpecial(s: string, special: set<char>)
    requires '\\' !in special && s != []
    ensures Escape(s, special)[0] !in special
  {
  }

  /** Escaping can be undone: reading the escaped text back gives the original. */
  lemma {:induction false} UnescapeEscape(s: string, special: set<char>)
    requires '\\' !in special
    ensures Unescape(Escape(s, special), special) == s
  {
    if s != [] {
      var tail := Escape(s[1..], special);
      UnescapeEscape(s[1..], special);
      if s[0] in special {
        assert Escape(s, special) == ['\\', s[0]] + tail;
        assert (['\\', s[0]] + tail)[2..] == tail;
      } else {
        var r := [s[0]] + tail;
        assert Escape(s, special) == r;
        assert r[1..] == tail;
        if s[0] == '\\' && |r| >= 2 {
          EscapeStartsOutsideSpecial(s[1..], special);
        }
      }
    }
  }

  /** The primary title is read back by unescaping underscores; the plain title by unescaping both. */
  lemma TitlesRoundTrip(title: string, plainTitle: string)
    ensures Unescape(EscapeTitle(title), {'_'}) == title
    ensures Unescape(EscapePlainTitle(plainTitle), {'_', '#'}) == plainTitle
  {
    UnescapeEscape(title, {'_'});
    UnescapeEscape(plainTitle, {'_', '#'});
  }

  /**
   The asymmetry between the two titles: both mark every underscore, only the
   plain title marks every hash, and the primary title keeps each hash as it was.
   */
  lemma TitleEscapingAsymmetry(title: string)
    ensures Marked(EscapeTitle(title), {'_'})
    ensures Occurrences(EscapeTitle(title), {'#'}) == Occurrences(title, {'#'})
    ensures |EscapeTitle(title)| == |title| + Occurrences(title, {'_'})
    ensures Marked(EscapePlainTitle(title), {'_', '#'})
  {
    EscapeMarksEverySpecial(title, {'_'});
    EscapeKeepsCharacters(title, {'_'}, '#');
    EscapeMarksEverySpecial(title, {'_', '#'});
  }

  lemma {:induction false} EscapeAppend(a: string, b: string, special: set<char>)
    ensures Escape(a + b, special) == Escape(a, special) + Escape(b, special)
  {
    if a == [] {
      assert a + b == b;
    } else {
      assert (a + b)[1..] == a[1..] + b;
      EscapeAppend(a[1..], b, special);
    }
  }

  lemma EscapeFiveParts(a: string, b: string, c: string, d: string, e: string, special: set<char>)
    ensures Escape(a + b + c + d + e, special)
         == Escape(a, special) + Escape(b, special) + Escape(c, special) + Escape(d, special) + Escape(e, special)
  {
    EscapeAppend(a + b + c + d, e, special);
    EscapeAppend(a + b + c, d, special);
    EscapeAppend(a + b, c, special);
    EscapeAppend(a, b, special);
  }

  /** Text without special characters is left as it is. */
  lemma {:induction false} EscapeNoSpecial(s: string, special: set<char>)
    requires forall i :: 0 <= i < |s| ==> s[i] !in special
    ensures Escape(s, special) == s
  {
    if s != [] {
      EscapeNoSpecial(s[1..], special);
    }
  }

  /** A single special character gains a backslash. */
  lemma EscapeOneSpecial(c: char, special: set<char>)
    requires c in special
    ensures Escape([c], special) == ['\\', c]
  {
    assert [c][1..] == [];
  }

  /** `a_b#e`, with no underscore or hash in the three pieces, escapes as the example shows. */
  lemma EscapeTitleShape(a: string, b: string, e: string)
    requires forall i :: 0 <= i < |a| ==> a[i] != '_' && a[i] != '#'
    requires forall i :: 0 <= i < |b| ==> b[i] != '_' && b[i] != '#'
    requires forall i :: 0 <= i < |e| ==> e[i] != '_' && e[i] != '#'
    ensures EscapeTitle(a + "_" + b + "#" + e) == a + "\\_" + b + "#" + e
    ensures EscapePlainTitle(a + "_" + b + "#" + e) == a + "\\_" + b + "\\#" + e
  {
    EscapeFiveParts(a, "_", b, "#", e, {'_'});
    EscapeNoSpecial(a, {'_'});
    EscapeNoSpecial(b, {'_'});
    EscapeNoSpecial(e, {'_'});
    EscapeNoSpecial("#", {'_'});
    EscapeOneSpecial('_', {'_'});
    EscapeFiveParts(a, "_", b, "#", e, {'_', '#'});
    EscapeNoSpecial(a, {'_', '#'});
    EscapeNoSpecial(b, {'_', '#'});
    EscapeNoSpecial(e, {'_', '#'});
    EscapeOneSpecial('_', {'_', '#'});
    EscapeOneSpecial('#', {'_', '#'});
  }

  /** `Foo_Bar#1` gives `Foo\_Bar#1` as the primary title and `Foo\_Bar\#1` as the plain title. */
  lemma TitleExample()
    ensures EscapeTitle("Foo_Bar#1") == "Foo\\_Bar#1"
    ensures EscapePlainTitle("Foo_Bar#1") == "Foo\\_Bar\\#1"
  {
    assert "Foo_Bar#1" == "Foo" + "_" + "Bar" + "#" + "1";
    EscapeTitleShape("Foo", "Bar", "1");
    assert "Foo" + "\\_" + "Bar" + "#" + "1" == "Foo\\_Bar#1";
    assert "Foo" + "\\_" + "Bar" + "\\#" + "1" == "Foo\\_Bar\\#1";
  }
}
