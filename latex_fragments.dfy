/**
 The three LaTeX fragments the LaTeX pipeline writes next to `paper.tex`:
 `header.tex` (title, authors, affiliations, keywords), `journal_dat.tex`
 (journal name, volume, issue, year) and `bib.tex` (bibliography style and
 file). Each fragment is specified by its list of lines; the writer methods
 append to a string the way the source appends to the open file.
 */
module LatexFragments {
  import opened Text
  import opened Metadata

  const MarkerStars: string := "**************"

  /** The first line of every generated fragment. */
  const Marker: string := "% " + MarkerStars + "GENERATED FILE, DO NOT EDIT" + MarkerStars

  /** Keywords are separated by a comma and a space. */
  const KeywordSeparator: string := ", "

  /** The bibliography style every paper is set in. */
  const BibliographyStyle: string := "juliacon"

  function TitleLine(title: string): (line: string)
  {
    "\\title{" + title + "}"
  }

  function AuthorLine(a: Author): (line: string)
  {
    "\\author[" + a.affiliation + "]{" + a.name + "}"
  }

  function AffiliationLine(f: Affiliation): (line: string)
  {
    "\\affil[" + f.index + "]{" + f.name + "}"
  }

  function KeywordsLine(keywords: seq<string>): (line: string)
  {
    "\\keywords{" + Join(keywords, KeywordSeparator) + "}"
  }

  function AuthorLines(authors: seq<Author>): (lines: seq<string>)
  {
    seq(|authors|, i requires 0 <= i < |authors| => AuthorLine(authors[i]))
  }

  function AffiliationLines(affiliations: seq<Affiliation>): (lines: seq<string>)
  {
    seq(|affiliations|, i requires 0 <= i < |affiliations| => AffiliationLine(affiliations[i]))
  }

  /** The lines before the author lines: marker, blank, title, blank. */
  function HeaderPreamble(title: string): (lines: seq<string>)
  {
    [Marker, "", TitleLine(title), ""]
  }

  /**
   `header.tex`: marker, blank line, title, blank line, one author line per
   author, one affiliation line per affiliation, blank line, the keywords, blank line.
   */
  function HeaderLines(title: string, authors: seq<Author>, affiliations: seq<Affiliation>,
                       keywords: seq<string>): (lines: seq<string>)
  {
    HeaderPreamble(title) + AuthorLines(authors) + AffiliationLines(affiliations)
      + ["", KeywordsLine(keywords), ""]
  }

  /** `journal_dat.tex`: marker, blank line, then the four definitions in this order. */
  function JournalDatLines(journalName: string, volume: string, issue: string, year: string)
    : (lines: seq<string>)
  {
    [Marker, "",
     "\\def\\@journalName{" + journalName + "}",
     "\\def\\@volume{" + volume + "}",
     "\\def\\@issue{" + issue + "}",
     "\\def\\@year{" + year + "}"]
  }

  /** `bib.tex`: marker, blank line, the style, the bibliography file. */
  function BibLines(bibliography: string): (lines: seq<string>)
  {
    [Marker, "", "\\bibliographystyle{" + BibliographyStyle + "}", "\\bibliography{" + bibliography + "}"]
  }

  lemma MarkerPrefix(rest: seq<string>)
    ensures Unlines([Marker, ""] + rest) == Marker + "\n\n" + Unlines(rest)
  {
    assert ([Marker, ""] + rest)[1..] == [""] + rest;
    assert ([""] + rest)[1..] == rest;
  }

  lemma HeaderPreambleText(title: string)
    ensures Unlines(HeaderPreamble(title)) == Marker + "\n\n" + "\\title{" + title + "}\n\n"
  {
    var t := TitleLine(title);
    assert HeaderPreamble(title) == [Marker, ""] + [t, ""];
    MarkerPrefix([t, ""]);
    assert [t, ""][1..] == [""];
    assert [""][1..] == [];
  }

  lemma AuthorLinesSnoc(authors: seq<Author>, i: nat)
    requires i < |authors|
    ensures AuthorLines(authors[..i + 1]) == AuthorLines(authors[..i]) + [AuthorLine(authors[i])]
  {
  }

  lemma AffiliationLinesSnoc(affiliations: seq<Affiliation>, i: nat)
    requires i < |affiliations|
    ensures AffiliationLines(affiliations[..i + 1])
         == AffiliationLines(affiliations[..i]) + [AffiliationLine(affiliations[i])]
  {
  }

  lemma KeywordsText(lines: seq<string>, keywords: seq<string>)
    ensures Unlines(lines + ["", KeywordsLine(keywords), ""])
         == Unlines(lines) + "\n\\keywords{" + Join(keywords, KeywordSeparator) + "}\n\n"
  {
    var j := Join(keywords, KeywordSeparator);
    var k := KeywordsLine(keywords);
    UnlinesAppend(lines, ["", k, ""]);
    assert ["", k, ""][1..] == [k, ""];
    assert [k, ""][1..] == [""];
    assert [""][1..] == [];
    calc {
      Unlines(["", k, ""]);
      "" + "\n" + Unlines([k, ""]);
      "" + "\n" + (k + "\n" + Unlines([""]));
      "" + "\n" + (k + "\n" + ("" + "\n" + Unlines([])));
      "\n" + "\\keywords{" + j + "}" + "\n" + "\n";
      { assert "\n" + "\\keywords{" == "\n\\keywords{"; assert "}" + "\n" + "\n" == "}\n\n"; }
      "\n\\keywords{" + j + "}\n\n";
    }
  }

  /** Writes `header.tex`, appending line by line as the source does. */
  method WriteHeader(title: string, authors: seq<Author>, affiliations: seq<Affiliation>,
                     keywords: seq<string>) returns (text: string)
    ensures text == Unlines(HeaderLines(title, authors, affiliations, keywords))
  {
    text := Marker + "\n\n";
    text := text + "\\title{" + title + "}\n\n";
    ghost var lines := HeaderPreamble(title);
    HeaderPreambleText(title);

    assert lines + AuthorLines(authors[..0]) == lines;
    for i := 0 to |authors|
      invariant text == Unlines(lines + AuthorLines(authors[..i]))
    {
      var line := "\\author[" + authors[i].affiliation + "]{" + authors[i].name + "}";
      text := text + line + "\n";
      AuthorLinesSnoc(authors, i);
      assert lines + AuthorLines(authors[..i + 1]) == (lines + AuthorLines(authors[..i])) + [line];
      UnlinesSnoc(lines + AuthorLines(authors[..i]), line);
    }
    assert authors[..|authors|] == authors;
    lines := lines + AuthorLines(authors);

    assert lines + AffiliationLines(affiliations[..0]) == lines;
    for i := 0 to |affiliations|
      invariant text == Unlines(lines + AffiliationLines(affiliations[..i]))
    {
      var line := "\\affil[" + affiliations[i].index + "]{" + affiliations[i].name + "}";
      text := text + line + "\n";
      AffiliationLinesSnoc(affiliations, i);
      assert lines + AffiliationLines(affiliations[..i + 1])
          == (lines + AffiliationLines(affiliations[..i])) + [line];
      UnlinesSnoc(lines + AffiliationLines(affiliations[..i]), line);
    }
    assert affiliations[..|affiliations|] == affiliations;
    lines := lines + AffiliationLines(affiliations);

    text := text + "\n\\keywords{";
    ghost var keywordsOpen := text;
    var i := 0;
    while i < |keywords| - 1
      invariant 0 <= i && (i == 0 || i < |keywords|)
      invariant text == keywordsOpen + Terminated(keywords[..i], KeywordSeparator)
    {
      text := text + keywords[i] + ", ";
      assert keywords[..i + 1][..i] == keywords[..i];
      i := i + 1;
    }
    // `.last` of an empty list is nil, which the file receives as nothing.
    var last := if |keywords| > 0 then keywords[|keywords| - 1] else "";
    ghost var joined := Terminated(keywords[..i], KeywordSeparator) + last;
    assert joined == Join(keywords, KeywordSeparator) by {
      if |keywords| > 0 {
        JoinAsTerminated(keywords, KeywordSeparator);
      }
    }
    text := text + last;
    assert text == keywordsOpen + joined;
    text := text + "}\n\n";
    KeywordsText(lines, keywords);
  }

  /** Writes `journal_dat.tex`. */
  method WriteJournalDat(journalName: string, volume: string, issue: string, year: string)
    returns (text: string)
    ensures text == Unlines(JournalDatLines(journalName, volume, issue, year))
  {
    text := Marker + "\n\n";
    ghost var lines: seq<string> := [Marker, ""];
    assert text == Unlines(lines) by { MarkerPrefix([]); }
    var line := "\\def\\@journalName{" + journalName + "}";
    text := text + line + "\n";
    UnlinesSnoc(lines, line);
    lines := lines + [line];
    line := "\\def\\@volume{" + volume + "}";
    text := text + line + "\n";
    UnlinesSnoc(lines, line);
    lines := lines + [line];
    line := "\\def\\@issue{" + issue + "}";
    text := text + line + "\n";
    UnlinesSnoc(lines, line);
    lines := lines + [line];
    line := "\\def\\@year{" + year + "}";
    text := text + line + "\n";
    UnlinesSnoc(lines, line);
    lines := lines + [line];
    assert lines == JournalDatLines(journalName, volume, issue, year);
  }

  /** Writes `bib.tex`. */
  method WriteBib(bibliography: string) returns (text: string)
    ensures text == Unlines(BibLines(bibliography))
  {
    text := Marker + "\n\n";
    ghost var lines: seq<string> := [Marker, ""];
    assert text == Unlines(lines) by { MarkerPrefix([]); }
    var line := "\\bibliographystyle{" + BibliographyStyle + "}";
    text := text + line + "\n";
    UnlinesSnoc(lines, line);
    lines := lines + [line];
    line := "\\bibliography{" + bibliography + "}";
    text := text + line + "\n";
    UnlinesSnoc(lines, line);
    lines := lines + [line];
    assert lines == BibLines(bibliography);
  }

  /** Every fragment's text begins with the marker line and a blank line. */
  lemma FragmentsStartWithMarker(title: string, authors: seq<Author>, affiliations: seq<Affiliation>,
                                 keywords: seq<string>, journalName: string, volume: string,
                                 issue: string, year: string, bibliography: string)
    ensures Marker + "\n\n" <= Unlines(HeaderLines(title, authors, affiliations, keywords))
    ensures Marker + "\n\n" <= Unlines(JournalDatLines(journalName, volume, issue, year))
    ensures Marker + "\n\n" <= Unlines(BibLines(bibliography))
  {
    var h := HeaderLines(title, authors, affiliations, keywords);
    MarkerPrefix(h[2..]);
    assert h == [Marker, ""] + h[2..];
    var j := JournalDatLines(journalName, volume, issue, year);
    MarkerPrefix(j[2..]);
    assert j == [Marker, ""] + j[2..];
    var b := BibLines(bibliography);
    MarkerPrefix(b[2..]);
    assert b == [Marker, ""] + b[2..];
  }

  lemma {:induction false} CountAuthorLines(authors: seq<Author>)
    ensures CountPrefixed(AuthorLines(authors), "\\author[") == |authors|
    ensures CountPrefixed(AuthorLines(authors), "\\affil[") == 0
  {
    if authors != [] {
      var lines := AuthorLines(authors);
      assert lines[1..] == AuthorLines(authors[1..]);
      assert lines[0][..8] == "\\author[";
      assert lines[0][2] != "\\affil["[2];
      CountAuthorLines(authors[1..]);
    }
  }

  lemma {:induction false} CountAffiliationLines(affiliations: seq<Affiliation>)
    ensures CountPrefixed(AffiliationLines(affiliations), "\\affil[") == |affiliations|
    ensures CountPrefixed(AffiliationLines(affiliations), "\\author[") == 0
  {
    if affiliations != [] {
      var lines := AffiliationLines(affiliations);
      assert lines[1..] == AffiliationLines(affiliations[1..]);
      assert lines[0][..7] == "\\affil[";
      assert lines[0][2] != "\\author["[2];
      CountAffiliationLines(affiliations[1..]);
    }
  }

  /** No field of the header holds a line break. */
  predicate SingleLineFields(title: string, authors: seq<Author>, affiliations: seq<Affiliation>,
                             keywords: seq<string>)
  {
    && '\n' !in title
    && (forall a :: a in authors ==> '\n' !in a.name && '\n' !in a.affiliation)
    && (forall f :: f in affiliations ==> '\n' !in f.index && '\n' !in f.name)
    && (forall k :: k in keywords ==> '\n' !in k)
  }

  lemma {:induction false} JoinSingleLine(items: seq<string>, sep: string)
    requires '\n' !in sep
    requires forall k :: k in items ==> '\n' !in k
    ensures '\n' !in Join(items, sep)
  {
    if |items| > 1 {
      JoinSingleLine(items[1..], sep);
    }
  }

  lemma NoBreak(a: string, b: string, c: string, d: string, e: string)
    requires '\n' !in a && '\n' !in b && '\n' !in c && '\n' !in d && '\n' !in e
    ensures '\n' !in a + b + c + d + e
  {
  }

  lemma HeaderLinesSingle(title: string, authors: seq<Author>, affiliations: seq<Affiliation>,
                          keywords: seq<string>)
    requires SingleLineFields(title, authors, affiliations, keywords)
    ensures SingleLines(HeaderLines(title, authors, affiliations, keywords))
  {
    var pre := HeaderPreamble(title);
    NoBreak("\\title{", title, "}", "", "");
    assert SingleLines(pre);
    var al := AuthorLines(authors);
    forall i | 0 <= i < |al| ensures '\n' !in al[i] {
      assert authors[i] in authors;
      NoBreak("\\author[", authors[i].affiliation, "]{", authors[i].name, "}");
    }
    var fl := AffiliationLines(affiliations);
    forall i | 0 <= i < |fl| ensures '\n' !in fl[i] {
      assert affiliations[i] in affiliations;
      NoBreak("\\affil[", affiliations[i].index, "]{", affiliations[i].name, "}");
    }
    JoinSingleLine(keywords, KeywordSeparator);
    NoBreak("\\keywords{", Join(keywords, KeywordSeparator), "}", "", "");
    var post := ["", KeywordsLine(keywords), ""];
    assert SingleLines(post);
    SingleLinesAppend(pre, al);
    SingleLinesAppend(pre + al, fl);
    SingleLinesAppend(pre + al + fl, post);
  }

  lemma NotPrefixAt(prefix: string, line: string, i: nat)
    requires i < |prefix| && i < |line| && prefix[i] != line[i]
    ensures !(prefix <= line)
  {
  }

  /** Neither the preamble nor the keyword block holds an author or affiliation line. */
  lemma FixedLinesCount(title: string, keywords: seq<string>)
    ensures CountPrefixed(HeaderPreamble(title), "\\author[") == 0
    ensures CountPrefixed(HeaderPreamble(title), "\\affil[") == 0
    ensures CountPrefixed(["", KeywordsLine(keywords), ""], "\\author[") == 0
    ensures CountPrefixed(["", KeywordsLine(keywords), ""], "\\affil[") == 0
  {
    var pre := HeaderPreamble(title);
    var post := ["", KeywordsLine(keywords), ""];
    assert pre[2][1] == 't' && pre[2][0] == '\\';
    assert post[1][1] == 'k';
    forall p | p == "\\author[" || p == "\\affil["
      ensures CountPrefixed(pre, p) == 0 && CountPrefixed(post, p) == 0
    {
      NotPrefixAt(p, pre[0], 0);
      NotPrefixAt(p, pre[2], 1);
      NotPrefixAt(p, post[1], 1);
      CountPrefixedNone(pre, p);
      CountPrefixedNone(post, p);
    }
  }

  /** Exactly one author line per author and one affiliation line per affiliation. */
  lemma HeaderCounts(title: string, authors: seq<Author>, affiliations: seq<Affiliation>,
                     keywords: seq<string>)
    ensures CountPrefixed(HeaderLines(title, authors, affiliations, keywords), "\\author[") == |authors|
    ensures CountPrefixed(HeaderLines(title, authors, affiliations, keywords), "\\affil[") == |affiliations|
  {
    var pre := HeaderPreamble(title);
    var al := AuthorLines(authors);
    var fl := AffiliationLines(affiliations);
    var post := ["", KeywordsLine(keywords), ""];
    CountAuthorLines(authors);
    CountAffiliationLines(affiliations);
    FixedLinesCount(title, keywords);
    forall p | p == "\\author[" || p == "\\affil["
      ensures CountPrefixed(pre + al + fl + post, p)
           == CountPrefixed(pre, p) + CountPrefixed(al, p) + CountPrefixed(fl, p) + CountPrefixed(post, p)
    {
      CountPrefixedAppend(pre, al, p);
      CountPrefixedAppend(pre + al, fl, p);
      CountPrefixedAppend(pre + al + fl, post, p);
    }
  }

  /**
   The lines of the written `header.tex`: the title third, then exactly one
   `\author[..]{..}` line per author and one `\affil[..]{..}` line per
   affiliation, in metadata order, authors first, then the keywords line.
   */
  lemma HeaderLayout(title: string, authors: seq<Author>, affiliations: seq<Affiliation>,
                     keywords: seq<string>)
    requires SingleLineFields(title, authors, affiliations, keywords)
    ensures var lines := SplitLines(Unlines(HeaderLines(title, authors, affiliations, keywords)));
      && |lines| == |authors| + |affiliations| + 7
      && lines[2] == TitleLine(title)
      && (forall i :: 0 <= i < |authors| ==> lines[4 + i] == AuthorLine(authors[i]))
      && (forall i :: 0 <= i < |affiliations| ==> lines[4 + |authors| + i] == AffiliationLine(affiliations[i]))
      && lines[5 + |authors| + |affiliations|] == KeywordsLine(keywords)
      && CountPrefixed(lines, "\\author[") == |authors|
      && CountPrefixed(lines, "\\affil[") == |affiliations|
  {
    var lines := HeaderLines(title, authors, affiliations, keywords);
    HeaderLinesSingle(title, authors, affiliations, keywords);
    SplitUnlines(lines);
    HeaderCounts(title, authors, affiliations, keywords);
    var n := |authors|;
    assert lines[4..4 + n] == AuthorLines(authors);
    assert lines[4 + n..4 + n + |affiliations|] == AffiliationLines(affiliations);
  }

  /** The lines of the written `journal_dat.tex` define the name, volume, issue and year, in that order. */
  lemma JournalDatLayout(journalName: string, volume: string, issue: string, year: string)
    requires '\n' !in journalName && '\n' !in volume && '\n' !in issue && '\n' !in year
    ensures SplitLines(Unlines(JournalDatLines(journalName, volume, issue, year)))
         == [Marker, "",
             "\\def\\@journalName{" + journalName + "}",
             "\\def\\@volume{" + volume + "}",
             "\\def\\@issue{" + issue + "}",
             "\\def\\@year{" + year + "}"]
  {
    var lines := JournalDatLines(journalName, volume, issue, year);
    NoBreak("\\def\\@journalName{", journalName, "}", "", "");
    NoBreak("\\def\\@volume{", volume, "}", "", "");
    NoBreak("\\def\\@issue{", issue, "}", "", "");
    NoBreak("\\def\\@year{", year, "}", "", "");
    assert '\n' !in Marker;
    assert SingleLines(lines) by {
      forall i | 0 <= i < 6 ensures '\n' !in lines[i] {
      }
    }
    SplitUnlines(lines);
  }

  /** Both single-keyword and multi-keyword lists join with no stray separator. */
  lemma KeywordsExamples()
    ensures KeywordsLine(["a", "b", "c"]) == "\\keywords{a, b, c}"
    ensures KeywordsLine(["k"]) == "\\keywords{k}"
    ensures KeywordsLine([]) == "\\keywords{}"
  {
    assert ["a", "b", "c"][1..] == ["b", "c"];
    assert ["b", "c"][1..] == ["c"];
  }
}
