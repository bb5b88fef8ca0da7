# Whedon's paper compilers, modelled in Dafny

Whedon turns a submitted paper into a PDF and into Crossref XML. The
`Compilers` mixin (`lib/whedon/compilers.rb`) picks a pipeline from the
paper's source format. LaTeX papers go through `pdf_from_latex`; Markdown
papers go through `pdf_from_markdown` and `crossref_from_markdown`. Most of
that file is shell plumbing. Inside it sits a layer of validation and string
building, and that layer is what this project models and proves things about:

- **Required-key check** (`metadata.dfy`). `paper.yml` must hold `title`,
  `authors`, `affiliations`, `keywords` and `bibliography`. The first missing
  key, in that order, is reported.
- **LaTeX fragments** (`latex_fragments.dfy`). These are `header.tex`,
  `journal_dat.tex` and `bib.tex`, each specified by its list of lines. Each
  writer method appends to a string the way the source appends to the open
  file. That includes the keyword loop over all but the last keyword followed
  by `.last`.
- **Publication values** (`publication.dfy`):
  - The LaTeX pipeline reads environment variables, with defaults 1, 1 and 2019.
  - The Markdown pipelines use the caller's values. Missing ones fall back
    (Ruby's `||=`) to the current issue and volume and to today's date.
- **Title escaping** (`title_escape.dfy`). The primary title gets `_` turned
  into `\_`. The plain title gets `_` and then `#` escaped. Each title is
  proved equal to a one-pass escape, and that escape has an inverse.
- **Citation scan** (`citations.dfy`). This is `scan(/@[\w|-]+/)` over the
  paper body. It is proved equal to an independent definition that takes the
  longest match at every position where a key can start.
- **Dispatch and pipelines** (`compilers.dfy`):
  - `generate_pdf` and `generate_crossref` route the paper.
  - The three pipelines are modelled end to end. Each returns what it writes
    and the path it reports, or the message it aborts with, or the error it
    raises (a missing metadata key; for Crossref, an unset `JOURNAL_ALIAS`).
    The paper body is taken as text, so the encoding error reading it can
    raise is not among them (see "Left out").

Shared pieces live in their own files:
- `text.dfy` holds lines and joining: `Unlines`/`SplitLines` with the read-back
  of a fragment's lines, `Join` with a separator, and line counting.
- `wrappers.dfy` holds `Option`, `Result` and `Outcome`.

## Model

| member | source | states |
|---|---|---|
| Metadata.CheckRequiredKeys | lib/whedon/compilers.rb:30-32 | Passes exactly when all five keys are present; on failure names a missing key all of whose predecessors in the fixed order are present (the first missing one) |
| Metadata.CompleteIffKeys | lib/whedon/compilers.rb:30-32 | Having every required key is the same as every field of the record being present |
| LatexFragments.WriteHeader | lib/whedon/compilers.rb:44-59 | The text appended to `header.tex`, including the index loop over all but the last keyword and `.last`, equals the header's line list joined with newlines |
| LatexFragments.WriteJournalDat | lib/whedon/compilers.rb:61-67 | The text appended to `journal_dat.tex` equals the marker, a blank line and the four definitions, joined with newlines |
| LatexFragments.WriteBib | lib/whedon/compilers.rb:69-73 | The text appended to `bib.tex` equals the marker, a blank line, the `juliacon` style and the bibliography line, joined with newlines |
| LatexFragments.FragmentsStartWithMarker | lib/whedon/compilers.rb:45 | Each of the three fragments begins with the generated-file marker line followed by a blank line |
| LatexFragments.HeaderCounts | lib/whedon/compilers.rb:47-52 | The header has exactly one `\author[` line per author and one `\affil[` line per affiliation |
| LatexFragments.HeaderLayout | lib/whedon/compilers.rb:45-58 | Read back line by line, the header has the title line third, then the author lines in metadata order, then the affiliation lines in order, then the keywords line, with seven lines more than there are authors and affiliations |
| LatexFragments.JournalDatLayout | lib/whedon/compilers.rb:62-66 | Read back line by line, `journal_dat.tex` defines journal name, volume, issue and year in that order |
| LatexFragments.CountAuthorLines | lib/whedon/compilers.rb:47-49 | The author loop writes one `\author[` line per author and no `\affil[` line |
| LatexFragments.CountAffiliationLines | lib/whedon/compilers.rb:50-52 | The affiliation loop writes one `\affil[` line per affiliation and no `\author[` line |
| LatexFragments.HeaderLinesSingle | lib/whedon/compilers.rb:44-59 | When no field holds a newline, no header line holds one, so the line structure of the file is the line list |
| LatexFragments.KeywordsExamples | lib/whedon/compilers.rb:53-58 | Keywords `a, b, c` give `\keywords{a, b, c}`, a single keyword gives `\keywords{k}`, none gives `\keywords{}` |
| Text.JoinAsTerminated | lib/whedon/compilers.rb:54-57 | Writing each keyword but the last followed by `", "` and then the last keyword is joining the list with `", "` |
| Text.JoinEnds | lib/whedon/compilers.rb:53-58 | The joined keywords start with the first keyword and end with the last one, so there is no leading or trailing separator |
| Text.JoinAppend | lib/whedon/compilers.rb:54-57 | Joining two non-empty keyword lists puts exactly one separator between them |
| Text.SplitUnlines | lib/whedon/compilers.rb:44-73 | Splitting a fragment's text into lines gives back the line list, when no line holds a newline |
| Publication.LatexJournalData | lib/whedon/compilers.rb:35-38 | Issue, volume and year are the environment value when set and 1, 1, 2019 otherwise; the journal name is the variable or empty |
| Compilers.LatexJournalDatDefaults | lib/whedon/compilers.rb:35-38 | With no variable set, `journal_dat.tex` defines an empty journal name, volume 1, issue 1 and year 2019 |
| Publication.OrElse | lib/whedon/compilers.rb:94-95 | Ruby's or-assignment keeps a given value and takes the fallback for nil |
| Publication.OrElseProperties | lib/whedon/compilers.rb:93-95 | The or-assignment's result is nil only when both sides are, it is one of its two sides, and applying it a second time changes nothing |
| Publication.MarkdownPdfPublication | lib/whedon/compilers.rb:93-100 | Markdown PDF: a given issue, volume or year is used as given; missing ones come from the current issue, the current volume and the clock's year reading; submitted and published are their own clock readings |
| Publication.CrossrefPublicationOf | lib/whedon/compilers.rb:152-156 | Crossref: a given day, month, year, issue or volume is used as given; missing ones come from the clock's day, month and year readings and the current issue and volume |
| Publication.CrossrefWithoutArguments | lib/whedon/compilers.rb:152-156 | Without arguments the Crossref values are exactly the clock's readings and the current issue and volume |
| TitleEscape.EscapeTitle | lib/whedon/compilers.rb:91 | Replacing every `_` by `\_` is the one-pass escape of the set `{_}` |
| TitleEscape.EscapePlainTitle | lib/whedon/compilers.rb:92 | The two chained replacements on the plain title are the one-pass escape of `{_, #}` |
| TitleEscape.TitlesRoundTrip | lib/whedon/compilers.rb:91-92 | Unescaping each escaped title gives the original title back |
| TitleEscape.TitleEscapingAsymmetry | lib/whedon/compilers.rb:91-92 | Both titles have every `_` preceded by a backslash; only the plain title does so for `#`, while the primary title keeps its `#` count; the primary title grows by one character per underscore |
| TitleEscape.EscapeMarksEverySpecial | lib/whedon/compilers.rb:91-92 | After escaping, every special character is preceded by a backslash |
| TitleEscape.UnescapeEscape | lib/whedon/compilers.rb:91-92 | Escaping is undone by unescaping, for any set of special characters without the backslash |
| TitleEscape.EscapeKeepsCharacters | lib/whedon/compilers.rb:91-92 | Escaping keeps the count of every character other than the backslash |
| TitleEscape.EscapeTitleShape | lib/whedon/compilers.rb:91-92 | A title `a_b#e` whose pieces hold no `_` or `#` becomes `a\_b#e` as the primary title and `a\_b\#e` as the plain title |
| TitleEscape.TitleExample | lib/whedon/compilers.rb:91-92 | `Foo_Bar#1` gives `Foo\_Bar#1` as the primary title and `Foo\_Bar\#1` as the plain title |
| Citations.KeyAt | lib/whedon/compilers.rb:146 | A match at a key start is a well-formed key that is a prefix of the text and cannot be extended, so it is the longest match there |
| Citations.Scan | lib/whedon/compilers.rb:146 | Every key found is `@` followed by one or more letters, digits, underscores, bars or hyphens |
| Citations.ScanFindsEveryStart | lib/whedon/compilers.rb:146 | The left-to-right scan that resumes after each match equals the longest match at every position where a key can start, so matches never overlap and none is missed |
| Citations.ScanWithoutAt | lib/whedon/compilers.rb:146 | A body without `@` has no keys |
| Citations.ScanAtMostOnePerAt | lib/whedon/compilers.rb:146 | There are at most as many keys as `@` signs |
| Citations.ScanAppend | lib/whedon/compilers.rb:146 | Scanning a concatenation is scanning the pieces, when the first piece ends outside the pattern |
| Citations.ScanKeyThen | lib/whedon/compilers.rb:146 | A key closed by a character outside the pattern is found whole, and the scan continues after it |
| Citations.ScanExample | lib/whedon/compilers.rb:146 | `see @foo and @bar-baz.` yields `@foo` and `@bar-baz`, in order |
| Compilers.Dispatch | lib/whedon/compilers.rb:7-11 | The branch both dispatchers share: LaTeX exactly when the paper has LaTeX source, Markdown exactly when it has Markdown source and no LaTeX, nothing otherwise, with the given arguments |
| Compilers.GeneratePdf | lib/whedon/compilers.rb:6-12 | Routes to LaTeX exactly when the paper has LaTeX source, to Markdown exactly when it has Markdown source and no LaTeX, to nothing otherwise; the arguments are passed on unchanged |
| Compilers.GenerateCrossref | lib/whedon/compilers.rb:14-20 | Same routing as `generate_pdf`, but the arguments passed on are always all nil |
| Compilers.GenerateCrossrefForwarding | lib/whedon/compilers.rb:14-20 | Takes the same route as `generate_crossref` as written, but passes the caller's arguments on unchanged |
| Compilers.PdfFromLatex | lib/whedon/compilers.rb:22-83 | Fails with `Key k not present in metadata` for the first missing key k exactly when a key is missing; otherwise returns the three fragments and the renamed PDF's path, or the PDF abort message; the result does not depend on the issue/volume/year arguments |
| Compilers.PdfFromMarkdown | lib/whedon/compilers.rb:85-137 | The title handed to pandoc is the `{_}` escape of the title and the footnote title the `{_, #}` escape of the plain title, both reversible; publication values with their fallbacks; the PDF path or the abort message |
| Compilers.CrossrefFromMarkdown | lib/whedon/compilers.rb:139-188 | Raises exactly when `JOURNAL_ALIAS` is unset, since its nil value is upcased; otherwise the citation keys are the longest matches at every key start, well formed and no more than the `@` signs, the publication values carry their fallbacks, and the outcome is the XML path or the abort message |
| Compilers.Locate | lib/whedon/compilers.rb:77-82 | The outcome is the output path exactly when the file exists, and otherwise the abort message |
| Compilers.CrossrefDispatchIgnoresArguments | lib/whedon/compilers.rb:14-20 | Through `generate_crossref`, a Markdown paper's Crossref values are always the clock's readings and the current issue and volume |
| Compilers.CrossrefIssueDropped | lib/whedon/compilers.rb:18 | A caller asking for issue 3 gets the current issue instead, and the issue written is not 3 |
| Compilers.CrossrefForwardingKeepsArguments | lib/whedon/compilers.rb:14-20 | Through the forwarding dispatcher, every value the caller gives reaches the Crossref values |
| Compilers.PdfDispatchKeepsArguments | lib/whedon/compilers.rb:6-12 | Through `generate_pdf`, a Markdown paper's PDF uses the issue, volume and year the caller gives |

## Left out

- Shell commands are not modelled. These are `git checkout` of a custom branch, `rm` of LaTeX by-products, `latexmk`, `pandoc` and `mv`. They are external processes. Whether the expected output file exists afterwards is a boolean input.
- The pandoc `-V` command lines are not modelled. The model keeps only the values it can describe: titles, journal name, publication values and citation keys.
- File writes are not modelled as files. Each fragment is the string the writer appends.
- `puts` and the log lines are not modelled. The reported path is the `Produced` outcome.
- Loading `paper.yml` is not modelled; metadata is a record with one optional field per required key.
- YAML values of the wrong type are not modelled, since the record's fields are typed.
- A YAML key present with a null value counts as absent in the record, while the source counts it as present.
- Environment variables, `Time.now`, `@current_issue` and `@current_volume` are inputs (`LatexEnv`, `PdfClock`, `CrossrefClock`, `Current`).
- Each `Time.now.strftime` call is its own clock reading (`PdfClock`, `CrossrefClock`). The model does not relate the readings to each other or to a real date. So it does not claim that submitted and published are the same day, or that a Crossref day, month and year name one date: at a month's end the source can pair day 31 with the next month.
- The Crossref `timestamp` (the clock read once more) and the other `-V` values built only from `ENV` and `paper.*` are not modelled. The one way their assembly changes behaviour, an unset `JOURNAL_ALIAS` raising on `upcase`, is modelled in `CrossrefFromMarkdown`.
- `Bibtex#generate_citations`, `generate_doi_batch_id`, `crossref_from_latex`, `repository_address`, `archive_doi` and the `paper.*` accessors are not defined in `compilers.rb` and are not part of this model. A LaTeX route ends at `Route.ToLatex`.
- `gsub!` returning nil when nothing changed is not modelled. Its result (`paper_title`) is never used; the model keeps the escaped title the method passes on.
- The in-place change of `paper.title` by `gsub!` is not modelled as a change of state; the model passes the escaped title on as a value.
- Compilers.PdfFromLatex: the custom branch decides which `paper.yml` and `paper.tex` `git checkout` puts in the directory. The model takes the resulting metadata `m` and the `compiled` flag as inputs, so `args.customBranch` does not appear in the contract.
- Compilers.CrossrefFromMarkdown: the paper body is modelled as text (`seq<char>`), not as bytes read from a file. When the file's bytes are not valid in Ruby's default external encoding (Latin-1 accented names under UTF-8, or any non-ASCII byte under a C locale), `scan` raises `ArgumentError` before pandoc runs. The model does not represent this error and always returns the keys.

## Findings

| source | as written | input that shows it | evidently intended | confidence | as-written member | corrected member |
|---|---|---|---|---|---|---|
| lib/whedon/compilers.rb:16-18 | `generate_crossref` calls the pipeline with `paper_issue=nil, paper_volume=nil, ...`, assignments that pass nil for every argument | `generate_crossref("3")` on a Markdown paper: the XML carries the current issue, not 3 | pass the caller's issue, volume, year, month and day on, as `generate_pdf` does | high that the arguments are dropped, medium that this was unintended; not executed | Compilers.CrossrefIssueDropped | Compilers.CrossrefForwardingKeepsArguments |
