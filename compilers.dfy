/**
 The `Compilers` mixin: choosing the pipeline from the paper's source format
 and what each pipeline produces. Shell commands (git, rm, latexmk, pandoc,
 mv) are outside the model; whether the expected output file exists after
 them is an input, and the file contents the pipelines write are returned
 as strings.
 */
module Compilers {
  import opened Wrappers
  import opened Text
  import opened Metadata
  import opened LatexFragments
  import opened TitleEscape
  import opened Citations
  import opened Publication

  /** Which pipeline a dispatcher calls and with which arguments, or that it does nothing. */
  datatype Route<A> = ToLatex(args: A) | ToMarkdown(args: A) | NoAction

  /**
   The branch both dispatchers share: LaTeX is tested first, so a paper with
   both sources goes the LaTeX way; a paper with neither gets no action.
   */
  function Dispatch<A>(latexSource: bool, markdownSource: bool, args: A): (r: Route<A>)
    ensures r.ToLatex? <==> latexSource
    ensures r.ToMarkdown? <==> !latexSource && markdownSource
    ensures r.NoAction? <==> !latexSource && !markdownSource
    ensures !r.NoAction? ==> r.args == args
  {
    if latexSource then ToLatex(args)
    else if markdownSource then ToMarkdown(args)
    else NoAction
  }

  /** `generate_pdf`: routes by source format and passes its arguments on unchanged. */
  function GeneratePdf(latexSource: bool, markdownSource: bool, args: PdfArgs): (r: Route<PdfArgs>)
    ensures r.ToLatex? <==> latexSource
    ensures r.ToMarkdown? <==> !latexSource && markdownSource
    ensures r.NoAction? <==> !latexSource && !markdownSource
    ensures !r.NoAction? ==> r.args == args
  {
    Dispatch(latexSource, markdownSource, args)
  }

  /**
   `generate_crossref` as written: the call passes `paper_issue=nil, ...`, an
   assignment inside the argument list, so every argument forwarded is nil
   whatever the caller gave.
   */
  function GenerateCrossref(latexSource: bool, markdownSource: bool, args: CrossrefArgs): (r: Route<CrossrefArgs>)
    ensures r.ToLatex? <==> latexSource
    ensures r.ToMarkdown? <==> !latexSource && markdownSource
    ensures r.NoAction? <==> !latexSource && !markdownSource
    ensures !r.NoAction? ==> r.args == NoCrossrefArgs
  {
    Dispatch(latexSource, markdownSource, NoCrossrefArgs)
  }

  /**
   `generate_crossref` corrected to forward its arguments, as `generate_pdf`
   does: it takes the same route as the code as written, and differs only in
   the arguments it passes on.
   */
  function GenerateCrossrefForwarding(latexSource: bool, markdownSource: bool, args: CrossrefArgs)
    : (r: Route<CrossrefArgs>)
    ensures var asWritten := GenerateCrossref(latexSource, markdownSource, args);
      r.ToLatex? == asWritten.ToLatex? && r.ToMarkdown? == asWritten.ToMarkdown?
      && r.NoAction? == asWritten.NoAction?
    ensures !r.NoAction? ==> r.args == args
  {
    Dispatch(latexSource, markdownSource, args)
  }

  /** The paper as the pipelines see it. */
  datatype Paper = Paper(directory: string, filenameDoi: string, title: string, plainTitle: string,
                         body: string)

  /** The outcome of a pipeline: the path of the file it made, or the message it aborted with. */
  datatype Artifact = Produced(path: string) | Aborted(message: string)

  const PdfFailure: string := "Looks like we failed to compile the PDF"
  const CrossrefFailure: string := "Looks like we failed to compile the Crossref XML"

  function PdfPath(paper: Paper): (path: string)
  {
    paper.directory + "/" + paper.filenameDoi + ".pdf"
  }

  function CrossrefPath(paper: Paper): (path: string)
  {
    paper.directory + "/" + paper.filenameDoi + ".crossref.xml"
  }

  /** The expected file's path when it exists, otherwise an abort with `failure`. */
  function Locate(found: bool, path: string, failure: string): (a: Artifact)
    ensures a.Produced? <==> found
    ensures a.Produced? ==> a.path == path
    ensures a.Aborted? ==> a.message == failure
  {
    if found then Produced(path) else Aborted(failure)
  }

  /** The three fragments the LaTeX pipeline writes and the PDF it ends with. */
  datatype LatexBuild = LatexBuild(header: string, journalDat: string, bib: string, pdf: Artifact)

  /** The message raised for a missing metadata key. */
  function MissingKeyMessage(key: string): (message: string)
  {
    "Key " + key + " not present in metadata"
  }

  /**
   `pdf_from_latex`. Fails with the first missing key in the order title,
   authors, affiliations, keywords, bibliography; otherwise writes the header,
   the journal data from the environment and the bibliography fragment.
   `compiled` says whether `paper.pdf` exists after latexmk. The issue, volume
   and year arguments are accepted and not used: nothing below depends on `args`.
   */
  method PdfFromLatex(paper: Paper, args: PdfArgs, m: Metadata, env: LatexEnv, compiled: bool)
    returns (r: Result<LatexBuild, string>)
    ensures r.Failure? <==> !Complete(m)
    ensures r.Failure? ==> (exists i :: 0 <= i < |RequiredKeys|
                              && r.error == MissingKeyMessage(RequiredKeys[i])
                              && RequiredKeys[i] !in Keys(m)
                              && forall j :: 0 <= j < i ==> RequiredKeys[j] in Keys(m))
    ensures r.Success? ==> (Complete(m)
      && r.value.header == Unlines(HeaderLines(m.title.value, m.authors.value, m.affiliations.value,
                                               m.keywords.value))
      && r.value.journalDat == Unlines(JournalDatLines(LatexJournalData(env).journalName,
                                                       LatexJournalData(env).volume,
                                                       LatexJournalData(env).issue,
                                                       LatexJournalData(env).year))
      && r.value.bib == Unlines(BibLines(m.bibliography.value))
      && r.value.pdf == Locate(compiled, PdfPath(paper), PdfFailure))
  {
    CompleteIffKeys(m);
    var check := CheckRequiredKeys(m);
    if check.Fail? {
      return Failure(MissingKeyMessage(check.error));
    }
    var d := LatexJournalData(env);
    var header := WriteHeader(m.title.value, m.authors.value, m.affiliations.value, m.keywords.value);
    var journalDat := WriteJournalDat(d.journalName, d.volume, d.issue, d.year);
    var bib := WriteBib(m.bibliography.value);
    r := Success(LatexBuild(header, journalDat, bib, Locate(compiled, PdfPath(paper), PdfFailure)));
  }

  /** With no environment variable set, `journal_dat.tex` defines an empty journal name, volume 1, issue 1, year 2019. */
  lemma LatexJournalDatDefaults()
    ensures var d := LatexJournalData(LatexEnv(None, None, None, None));
      JournalDatLines(d.journalName, d.volume, d.issue, d.year)
      == [Marker, "", "\\def\\@journalName{}", "\\def\\@volume{1}", "\\def\\@issue{1}", "\\def\\@year{2019}"]
  {
    assert "\\def\\@journalName{" + "" + "}" == "\\def\\@journalName{}";
    assert "\\def\\@volume{" + "1" + "}" == "\\def\\@volume{1}";
    assert "\\def\\@issue{" + "1" + "}" == "\\def\\@issue{1}";
    assert "\\def\\@year{" + "2019" + "}" == "\\def\\@year{2019}";
  }

  /** What the Markdown PDF pipeline hands to pandoc that the model describes, and the PDF it ends with. */
  datatype MarkdownBuild = MarkdownBuild(paperTitle: string, footnoteTitle: string, journalName: string,
                                         publication: PdfPublication, pdf: Artifact)

  /**
   `pdf_from_markdown`: the title with its underscores escaped, the plain
   title with underscores and hashes escaped, and the publication values with
   their fallbacks. `compiled` says whether the PDF exists after pandoc.
   */
  function PdfFromMarkdown(paper: Paper, args: PdfArgs, current: Current, clock: PdfClock,
                           journalName: Option<string>, compiled: bool): (b: MarkdownBuild)
    ensures b.paperTitle == Escape(paper.title, {'_'})
    ensures b.footnoteTitle == Escape(paper.plainTitle, {'_', '#'})
    ensures Unescape(b.paperTitle, {'_'}) == paper.title
    ensures Unescape(b.footnoteTitle, {'_', '#'}) == paper.plainTitle
    ensures b.journalName == Interpolate(journalName)
    ensures b.publication == MarkdownPdfPublication(args, current, clock)
    ensures b.pdf.Produced? <==> compiled
    ensures b.pdf.Produced? ==> b.pdf.path == PdfPath(paper)
    ensures b.pdf.Aborted? ==> b.pdf.message == PdfFailure
  {
    TitlesRoundTrip(paper.title, paper.plainTitle);
    MarkdownBuild(EscapeTitle(paper.title), EscapePlainTitle(paper.plainTitle), Interpolate(journalName),
                  MarkdownPdfPublication(args, current, clock), Locate(compiled, PdfPath(paper), PdfFailure))
  }

  /** What the Crossref pipeline hands on that the model describes, and the XML file it ends with. */
  datatype CrossrefBuild = CrossrefBuild(citationKeys: seq<string>, publication: CrossrefPublication,
                                         xml: Artifact)

  /** The error Ruby raises when `JOURNAL_ALIAS` is unset and its value, nil, is upcased. */
  const UpcaseOnNil: string := "undefined method `upcase' for nil:NilClass"

  /**
   `crossref_from_markdown`: the citation keys scanned from the paper body,
   the publication values with their fallbacks, and the XML file's path.
   Without a journal alias (`JOURNAL_ALIAS`) the pandoc command line cannot be
   built, because it upcases the alias, so the pipeline raises before pandoc
   runs. `compiled` says whether the XML exists after pandoc.
   */
  function CrossrefFromMarkdown(paper: Paper, args: CrossrefArgs, current: Current, clock: CrossrefClock,
                                journalAlias: Option<string>, compiled: bool)
    : (r: Result<CrossrefBuild, string>)
    ensures r.Failure? <==> journalAlias.None?
    ensures r.Failure? ==> r.error == UpcaseOnNil
    ensures r.Success? ==> (r.value.citationKeys == MatchesAtEveryStart(paper.body)
      && (forall k :: k in r.value.citationKeys ==> IsCitationKey(k))
      && |r.value.citationKeys| <= CountAt(paper.body)
      && r.value.publication == CrossrefPublicationOf(args, current, clock)
      && (r.value.xml.Produced? <==> compiled)
      && (r.value.xml.Produced? ==> r.value.xml.path == CrossrefPath(paper))
      && (r.value.xml.Aborted? ==> r.value.xml.message == CrossrefFailure))
  {
    ScanFindsEveryStart(paper.body);
    ScanAtMostOnePerAt(paper.body);
    if journalAlias.None? then Failure(UpcaseOnNil)
    else
      Success(CrossrefBuild(Scan(paper.body), CrossrefPublicationOf(args, current, clock),
                            Locate(compiled, CrossrefPath(paper), CrossrefFailure)))
  }

  /**
   Through `generate_crossref` as written, a Markdown paper's Crossref XML
   always carries the clock's date and the current issue and volume, whatever
   the caller asked for.
   */
  lemma CrossrefDispatchIgnoresArguments(paper: Paper, args: CrossrefArgs, current: Current,
                                         clock: CrossrefClock, journalAlias: string, compiled: bool)
    ensures var route := GenerateCrossref(false, true, args);
      route.ToMarkdown?
      && CrossrefFromMarkdown(paper, route.args, current, clock, Some(journalAlias), compiled).value.publication
         == CrossrefPublication(clock.day, clock.month, clock.year,
                                Interpolate(current.issue), Interpolate(current.volume))
  {
    CrossrefWithoutArguments(current, clock);
  }

  /** A caller asking for issue 3 of a Markdown paper gets the current issue instead, which is not 3. */
  lemma CrossrefIssueDropped(paper: Paper, current: Current, clock: CrossrefClock, journalAlias: string,
                             compiled: bool)
    requires current.issue != Some("3")
    ensures var route := GenerateCrossref(false, true, CrossrefArgs(Some("3"), None, None, None, None));
      var issue := CrossrefFromMarkdown(paper, route.args, current, clock, Some(journalAlias), compiled)
                   .value.publication.issue;
      issue == Interpolate(current.issue) && issue != "3"
  {
    CrossrefDispatchIgnoresArguments(paper, CrossrefArgs(Some("3"), None, None, None, None), current, clock,
                                     journalAlias, compiled);
  }

  /** Through the forwarding dispatcher, every value the caller gives reaches the Crossref XML. */
  lemma CrossrefForwardingKeepsArguments(paper: Paper, args: CrossrefArgs, current: Current,
                                         clock: CrossrefClock, journalAlias: string, compiled: bool)
    ensures var route := GenerateCrossrefForwarding(false, true, args);
      var p := CrossrefFromMarkdown(paper, route.args, current, clock, Some(journalAlias), compiled)
               .value.publication;
      route.ToMarkdown?
      && (args.issue.Some? ==> p.issue == args.issue.value)
      && (args.volume.Some? ==> p.volume == args.volume.value)
      && (args.year.Some? ==> p.year == args.year.value)
      && (args.month.Some? ==> p.month == args.month.value)
      && (args.day.Some? ==> p.day == args.day.value)
  {
  }

  /** Through `generate_pdf`, a Markdown paper's PDF uses the issue, volume and year the caller gives. */
  lemma PdfDispatchKeepsArguments(paper: Paper, args: PdfArgs, current: Current, clock: PdfClock,
                                  journalName: Option<string>, compiled: bool)
    ensures var route := GeneratePdf(false, true, args);
      var p := PdfFromMarkdown(paper, route.args, current, clock, journalName, compiled).publication;
      route.ToMarkdown?
      && (args.issue.Some? ==> p.issue == args.issue.value)
      && (args.volume.Some? ==> p.volume == args.volume.value)
      && (args.year.Some? ==> p.year == args.year.value)
  {
  }
}
