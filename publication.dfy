/**
 Where the issue, volume, year and date of a publication come from. The
 LaTeX pipeline reads them from environment variables with fixed defaults;
 the Markdown pipelines take them from the caller and fall back (Ruby's
 `||=`) to the journal's current issue and volume and to today's date.
 Environment variables, the clock and the current issue/volume are inputs.
 */
module Publication {
  import opened Wrappers

  /** Ruby's `x ||= fallback` on a value that is either nil or a string. */
  function OrElse(x: Option<string>, fallback: Option<string>): (r: Option<string>)
    ensures x.Some? ==> r == x
    ensures x.None? ==> r == fallback
  {
    if x.Some? then x else fallback
  }

  /** String interpolation `"#{x}"`: nil interpolates as the empty string. */
  function Interpolate(x: Option<string>): (s: string)
  {
    if x.Some? then x.value else ""
  }

  /** The environment variables `JLCON_ISSUE`, `JLCON_VOLUME`, `JLCON_YEAR`, `JOURNAL_NAME`. */
  datatype LatexEnv = LatexEnv(issue: Option<string>, volume: Option<string>, year: Option<string>,
                               journalName: Option<string>)

  /** What `journal_dat.tex` defines. */
  datatype JournalData = JournalData(journalName: string, volume: string, issue: string, year: string)

  /** The defaults when the environment is silent: issue 1, volume 1, year 2019. */
  const DefaultIssue: string := "1"
  const DefaultVolume: string := "1"
  const DefaultYear: string := "2019"

  /** A variable's value when set (`ENV[v] === nil ? default : ENV[v]`), else the default. */
  function EnvOr(v: Option<string>, default: string): (s: string)
  {
    if v.None? then default else v.value
  }

  /**
   The journal data of the LaTeX pipeline: each value is its variable when set
   and its default otherwise. It depends on the environment only, so the
   issue/volume/year arguments of the pipeline never reach it.
   */
  function LatexJournalData(env: LatexEnv): (d: JournalData)
    ensures env.issue.Some? ==> d.issue == env.issue.value
    ensures env.issue.None? ==> d.issue == "1"
    ensures env.volume.Some? ==> d.volume == env.volume.value
    ensures env.volume.None? ==> d.volume == "1"
    ensures env.year.Some? ==> d.year == env.year.value
    ensures env.year.None? ==> d.year == "2019"
    ensures env.journalName.Some? ==> d.journalName == env.journalName.value
    ensures env.journalName.None? ==> d.journalName == ""
  {
    JournalData(Interpolate(env.journalName), EnvOr(env.volume, DefaultVolume),
                EnvOr(env.issue, DefaultIssue), EnvOr(env.year, DefaultYear))
  }

  /** The fallback is used only when there is no value, and a second `||=` changes nothing. */
  lemma OrElseProperties(x: Option<string>, fallback: Option<string>)
    ensures OrElse(OrElse(x, fallback), fallback) == OrElse(x, fallback)
    ensures OrElse(x, fallback).None? <==> x.None? && fallback.None?
    ensures OrElse(x, fallback) == x || OrElse(x, fallback) == fallback
  {
  }

  /**
   What the Markdown PDF pipeline reads from the clock. Each field is its own
   `Time.now.strftime` call: `%Y` for the year fallback, and `%d %B %Y` once for
   the submitted and once for the published date. Separate readings need not
   agree: across midnight the two dates can differ.
   */
  datatype PdfClock = PdfClock(year: string, submitted: string, published: string)

  /**
   What the Crossref pipeline reads from the clock: separate `%d`, `%m` and `%Y`
   calls, which across a month's end need not name one day.
   */
  datatype CrossrefClock = CrossrefClock(day: string, month: string, year: string)

  /** The journal's `@current_issue` and `@current_volume`, either of which may be unset. */
  datatype Current = Current(issue: Option<string>, volume: Option<string>)

  /** The optional arguments of `generate_pdf` and the PDF pipelines. */
  datatype PdfArgs = PdfArgs(customBranch: Option<string>, issue: Option<string>, volume: Option<string>,
                             year: Option<string>)

  /** The optional arguments of `generate_crossref` and the Crossref pipelines. */
  datatype CrossrefArgs = CrossrefArgs(issue: Option<string>, volume: Option<string>, year: Option<string>,
                                       month: Option<string>, day: Option<string>)

  /** Every argument left out, as a call without arguments passes them. */
  const NoCrossrefArgs: CrossrefArgs := CrossrefArgs(None, None, None, None, None)

  /** The publication values the Markdown PDF passes to pandoc, as the strings interpolated. */
  datatype PdfPublication = PdfPublication(issue: string, volume: string, year: string,
                                           submitted: string, published: string)

  /** The publication values the Crossref XML is built with, as the strings interpolated. */
  datatype CrossrefPublication = CrossrefPublication(day: string, month: string, year: string,
                                                     issue: string, volume: string)

  /**
   Markdown PDF: a value the caller gives is used as given; a missing year
   comes from the clock, a missing issue or volume from the current one; the
   submitted and published dates are the clock's.
   */
  function MarkdownPdfPublication(args: PdfArgs, current: Current, clock: PdfClock): (p: PdfPublication)
    ensures args.issue.Some? ==> p.issue == args.issue.value
    ensures args.issue.None? ==> p.issue == Interpolate(current.issue)
    ensures args.volume.Some? ==> p.volume == args.volume.value
    ensures args.volume.None? ==> p.volume == Interpolate(current.volume)
    ensures args.year.Some? ==> p.year == args.year.value
    ensures args.year.None? ==> p.year == clock.year
    ensures p.submitted == clock.submitted && p.published == clock.published
  {
    PdfPublication(Interpolate(OrElse(args.issue, current.issue)),
                   Interpolate(OrElse(args.volume, current.volume)),
                   Interpolate(OrElse(args.year, Some(clock.year))),
                   clock.submitted, clock.published)
  }

  /**
   Crossref XML: a value the caller gives is used as given; a missing day,
   month or year comes from the clock, a missing issue or volume from the
   current one.
   */
  function CrossrefPublicationOf(args: CrossrefArgs, current: Current, clock: CrossrefClock)
    : (p: CrossrefPublication)
    ensures args.day.Some? ==> p.day == args.day.value
    ensures args.day.None? ==> p.day == clock.day
    ensures args.month.Some? ==> p.month == args.month.value
    ensures args.month.None? ==> p.month == clock.month
    ensures args.year.Some? ==> p.year == args.year.value
    ensures args.year.None? ==> p.year == clock.year
    ensures args.issue.Some? ==> p.issue == args.issue.value
    ensures args.issue.None? ==> p.issue == Interpolate(current.issue)
    ensures args.volume.Some? ==> p.volume == args.volume.value
    ensures args.volume.None? ==> p.volume == Interpolate(current.volume)
  {
    CrossrefPublication(Interpolate(OrElse(args.day, Some(clock.day))),
                        Interpolate(OrElse(args.month, Some(clock.month))),
                        Interpolate(OrElse(args.year, Some(clock.year))),
                        Interpolate(OrElse(args.issue, current.issue)),
                        Interpolate(OrElse(args.volume, current.volume)))
  }

  /** Without arguments, the Crossref values are exactly the clock's readings and the current issue and volume. */
  lemma CrossrefWithoutArguments(current: Current, clock: CrossrefClock)
    ensures CrossrefPublicationOf(NoCrossrefArgs, current, clock)
         == CrossrefPublication(clock.day, clock.month, clock.year,
                                Interpolate(current.issue), Interpolate(current.volume))
  {
  }
}
