# features-reminder: changelog scoring, modelled in Dafny

`process_stats.rb` is a batch script that reads the RPM `.changes` files of a
package collection and stores their changelog entries in a `changes` table. It
scores each entry from a per-package weight and a few keywords. It then sums
the scores per author and per package, and mails (or prints) each
sufficiently active author a digest listing their most active packages.

This project models the three stages of that pipeline and proves what each
stage promises:

- **Splitter** (`splitter.dfy`, with `strings.dfy`). `process_file` is a
  line-by-line state machine over the accumulators `email`, `date` and `text`.
  It is modelled twice. The first model is the scan itself (`Emitted`). The
  second is an independent reading of the file as terminator-closed blocks
  (`Blocks`, `BlockEntry`). A lemma proves the two agree. The scan yields
  candidate entries; the store decides which of them it keeps. The package
  name derived from the path (rewritten line by line, as a regex `.` does not
  match a line break), the header pattern, the address rewrite and the
  67-hyphen terminator are modelled concretely.
- **Store** (`store.dfy`). The `changes` and `pkgs` tables are the fields of
  a class. The importer (`ProcessFile`, `Import`) and the scoring passes
  (`ResetPoints`, the hack-mode bulk updates, `ScoreUnscored` with its
  `last_pkg` cache) are methods over those fields. Each method is proved
  against a function of the old table. Duplicate detection, what a second
  import adds, and the run as a whole are lemmas about those functions.
- **Scoring** (`scoring.dfy`). The per-entry formula, the hack-mode
  outcomes, and the idempotence of the normal pass.
- **Report** (`report.dfy`). Grouped sums, the descending rankings, the
  listing of at most nine packages with its `others` flag, and the mail and
  print digests.

`sorting.dfy` models `ORDER BY` as an insertion sort. `optional.dfy` and
`changes.dfy` hold the shared datatypes.

Three details of the code shape the model:

- A terminator is any line that contains a run of 67 hyphens
  (`process_stats.rb:110`).
- A block without a header line is stored with an empty date, which the
  `datetime` column holds as NULL. The duplicate lookup compares the date
  with `''`, which never matches NULL (`process_stats.rb:105, 113-114`). So
  every import outside hack mode stores the entries of such blocks again,
  while dated entries are stored once.
- In mail mode only the lead-in, the package list and the ellipsis depend
  on `i > 2`. The greeting is always sent (`process_stats.rb:211-225`).

## Model

| member | source | states |
|---|---|---|
| `Strings.ReplaceFirst` | process_stats.rb:121 | `sub` with a literal pattern replaces only the leftmost occurrence; without one the string is unchanged |
| `Strings.StripEmptyIff` | process_stats.rb:111-112 | a block's text strips to empty exactly when it is all whitespace, so only such blocks are skipped |
| `Strings.StripIdempotent` | process_stats.rb:111-114 | stripping the already stripped text again before storing changes nothing |
| `Strings.StripIsInfix` | process_stats.rb:111 | the stored text is a contiguous piece of the block with only whitespace cut at both ends |
| `Strings.LexLeTotal` | process_stats.rb:170 | the package-name order used by `order(:pkg)` is total |
| `Strings.LexLeTransitive` | process_stats.rb:170 | the package-name order is transitive |
| `Sorting.SortSorted` | process_stats.rb:170 | ordering by a total, transitive comparison yields a sorted sequence |
| `Sorting.SortSameElements` | process_stats.rb:170 | ordering keeps exactly the rows it was given |
| `Splitter.PkgNameOfChangesFile` | process_stats.rb:107 | for the path `<base>/<f>/<f>.changes` the importer builds, with no line break in `base` or `f`, `gsub(/.*\/(.*).changes/,'\1')` yields the directory entry `f` |
| `Splitter.PkgNameLines` | process_stats.rb:107 | no match spans a line break: the first line of the path is rewritten on its own and the rest after its line break independently |
| `Splitter.GsubOneMatchPerLine` | process_stats.rb:107 | once a line's match is replaced, the rest of that line holds no further match, so `gsub` rewrites each line at most once |
| `Splitter.MatchHeaderSpec` | process_stats.rb:120 | a line is a header iff it opens like a day name and a year 2000-2299 is followed by ` - ` and an address with `@`; the date capture ends at the last such year (greedy `.*`) |
| `Splitter.CanonicalDomain` | process_stats.rb:121 | addresses whose local part holds neither alias, at `suse.cz`, `suse.de` or `suse.com`, are rewritten to `suse.com` |
| `Splitter.StoredDate` | process_stats.rb:104-126 | a block with text yields a candidate entry; its date is empty (with an empty email) when it has no header, else its first header's parsed date, or 1970-01-01 00:00 UTC when that date does not parse |
| `Splitter.EntriesHas` | process_stats.rb:110-116 | every terminator-closed block whose stripped text is non-empty yields its candidate entry |
| `Splitter.FeedBlock` | process_stats.rb:120-128 | the accumulator updates over one block take author and date from its first header line and append every other line, later header-like lines included, to the text |
| `Splitter.HeaderTakenOnce` | process_stats.rb:120-128 | after a header the email is non-empty, so a second header-like line in the block is body text and keeps the first author |
| `Splitter.Close` | process_stats.rb:110-119 | a terminator yields at most one candidate entry, exactly when the stripped text is non-empty, with the block's author and date, unscored |
| `Splitter.Emitted` | process_stats.rb:108-131 | the scan yields no more candidate entries than the file has terminators, each in the file's package, unscored, with stripped non-empty text |
| `Splitter.CandidatesAreBlockEntries` | process_stats.rb:108-131 | the scan's candidate entries are those of the terminator-closed blocks: author and date from the block's first header line, text from all its other lines |
| `Splitter.TrailingBlockDropped` | process_stats.rb:108-131 | lines after the last terminator never yield a candidate entry |
| `Splitter.TerminatorLength` | process_stats.rb:110 | any line containing 67 hyphens in a row is a terminator, and 66 hyphens are not |
| `Store.Count` | process_stats.rb:105-114 | the count of rows with an (email, date, pkg) key is 0 exactly when no row has that key or the key has the empty date, which the lookup never matches |
| `Store.AdmitHack` | process_stats.rb:113-114 | in hack mode every candidate is stored, duplicates included |
| `Store.AdmitAppends` | process_stats.rb:113-114 | storing only appends candidates: the old rows stay in place |
| `Store.AdmitKeys` | process_stats.rb:113-114 | outside hack mode a key is stored afterwards iff it was stored before or a candidate has it |
| `Store.AdmitPresent` | process_stats.rb:113-114 | outside hack mode, of candidates whose keys are all stored, exactly those without a date are stored again, in order |
| `Store.AdmitUnique` | process_stats.rb:113-114 | outside hack mode no two stored rows ever share a dated (email, date, pkg) |
| `Store.HackImport` | process_stats.rb:136-147 | in hack mode the table ends up holding exactly every candidate of every changelog, whatever it held before |
| `Store.ImportTwice` | process_stats.rb:136-147 | outside hack mode importing the same changelogs again stores only the entries of blocks without a header again |
| `Store.ImportKeepsUnique` | process_stats.rb:136-147 | outside hack mode importing keeps the stored rows in place and keeps dated keys unique |
| `Store.VisitOrderSpec` | process_stats.rb:170 | the normal pass visits each row without points exactly once, by ascending package name |
| `Store.ImportedRescored` | process_stats.rb:141-146 | once every candidate key is stored, a re-import after scoring stores only the entries of blocks without a header, whatever the scores |
| `Store.RunTwice` | process_stats.rb:136-190 | without reset or hack mode, a second run over the same changelogs leaves the first run's table and adds, scored, another copy of each entry of a block without a header |
| `Store.Store.OfferBlock` | process_stats.rb:110-117 | a terminator strips the block's text and, when it is non-empty, inserts its candidate unless hack mode is off and the key is already known; the table becomes the old table with `Close`'s candidate admitted |
| `Store.Store.TakeLine` | process_stats.rb:110-129 | one line of the scan: a terminator offers the block's candidate from `Close` to the duplicate-checked insert and resets the accumulators; any other line updates them as `Absorb` says |
| `Store.Store.ProcessFile` | process_stats.rb:103-132 | the table afterwards is the old table with the file's entries offered in order, skipping known keys unless hack mode |
| `Store.Store.Clear` | process_stats.rb:138-140 | hack mode empties the table before importing |
| `Store.Store.Import` | process_stats.rb:136-147 | the table afterwards is the import function of the old table over the changelogs in order |
| `Store.Store.ResetPoints` | process_stats.rb:150-153 | every row's points become 0, nothing else changes |
| `Store.Store.SetPointsWhereText` | process_stats.rb:162-167 | every row whose text contains the pattern gets the given points, the others are unchanged |
| `Store.Store.SetPointsWhereUnscored` | process_stats.rb:168 | every row at 0 points gets the given points |
| `Store.Store.HackPass` | process_stats.rb:161-169 | after the seven bulk updates every row holds its hack-mode score and nothing else changed |
| `Store.Store.SaveScored` | process_stats.rb:182-189 | the saved score is the base times the feature factor when the text mentions a feature, else times the update factor when it mentions an update or version, else the base |
| `Store.VisitStep` | process_stats.rb:170-181 | visited by package name, the row at each step has no points and was not visited before, and the cached or freshly looked-up weight is its package's base |
| `Store.Store.ScoreVisit` | process_stats.rb:171-189 | one step of the normal pass scores the next row of the visiting order and keeps the `last_pkg` cache in step with the rows still to come |
| `Store.Store.ScoreUnscored` | process_stats.rb:157-190 | with the `last_pkg` cache and the by-package order, every row at 0 points gets the formula score from its package's weight; scored rows are untouched |
| `Store.Store.ReportAuthor` | process_stats.rb:198-249 | for one author above the author bound, the digest built from the listed packages, or none when nothing is listed |
| `Store.Store.Report` | process_stats.rb:196-252 | the digests produced are those of the authors by descending sum that pass the author bound and list at least one package |
| `Store.Store.Run` | process_stats.rb:136-252 | a run imports, resets, applies hack mode and scores as its switches say, then reports on the resulting table |
| `Scoring.ScoreAsAssigned` | process_stats.rb:182-188 | the score is the last of the three assignments that fires: base, then the update product, then the feature product |
| `Scoring.RescoredAppend` | process_stats.rb:170-190 | the normal pass scores each row on its own, so it distributes over the rows imported later |
| `Scoring.BaseAgreesWithLookup` | process_stats.rb:157-179 | the `last_pkg` cache gives the package's own weight for every package name but "", whose entries keep the default |
| `Scoring.RescoreIdempotent` | process_stats.rb:170-190 | a second normal pass without reset changes no score |
| `Scoring.ResetThenRescore` | process_stats.rb:150-190 | after a reset every row gets the formula score, whatever it held before |
| `Scoring.HackStatementsScore` | process_stats.rb:161-168 | the seven bulk updates give each row its hack-mode score and change no other column |
| `Scoring.HackOutcome` | process_stats.rb:161-168 | hack mode: feature text gets feature_points*default_points, else update or version text gets update_points*default_points, else the old points; a 0 left becomes default_points |
| `Scoring.HackThenRescore` | process_stats.rb:161-170 | with non-zero default points nothing is left at 0 after hack mode, so the normal pass changes nothing |
| `Scoring.RescoredNonZero` | process_stats.rb:170-188 | with non-zero factors and weights the normal pass leaves no row at 0 |
| `Report.PackagesOf` | process_stats.rb:201 | the packages grouped for an author are exactly those of the author's rows |
| `Report.AuthorSumOfPackages` | process_stats.rb:196-201 | an author's `points_sum` is the total of the `points_sum` of each of the author's packages |
| `Report.RankSpec` | process_stats.rb:196-201 | a grouped ranking has one entry per group, with its sum, by non-increasing sum |
| `Report.AuthorRankingSpec` | process_stats.rb:196 | the author ranking lists each author of the table once, with the author's point sum, by non-increasing sum |
| `Report.PackageRankingSpec` | process_stats.rb:201 | an author's package ranking lists each of the author's packages once, with its sum, by non-increasing sum |
| `Report.Listed` | process_stats.rb:201-208 | at most nine packages are listed, since `i` is incremented before the `i<10` test |
| `Report.ListedIsTop` | process_stats.rb:201-208 | the listed packages are the longest prefix of the ranking, of at most nine, whose sums exceed the package bound |
| `Report.OthersIff` | process_stats.rb:201-208 | `others` is set iff some ranked package is not listed |
| `Report.ListedNonEmptyIff` | process_stats.rb:203-209 | an author has a non-empty listing iff their top package's sum exceeds the package bound |
| `Report.ListPackages` | process_stats.rb:198-208 | the loop's text lists `Listed`, its `others` flag is `Others`, its counter ends at the number of packages |
| `Report.MailBodyShows` | process_stats.rb:210-238 | a mail names the listed packages, and ends the list with `   ...` when `others`, only when more than two packages were counted |
| `Report.PrintBodyShows` | process_stats.rb:243-248 | the printed form always names the listed packages, with `   ...` exactly when `others` |
| `Report.AuthorDigestShows` | process_stats.rb:209-249 | an author's digest exists iff the top package passes the package bound; it goes to the author, is a mail exactly in mail mode, and names the listed packages (in a mail only when more than two were counted), with `   ...` exactly when some were not listed |
| `Report.DigestsOfRecipient` | process_stats.rb:196-250 | a digest goes to an author iff a ranked entry for them passes the author bound and their listing is non-empty |
| `Report.Reported` | process_stats.rb:196-250 | an author gets a digest iff their point sum exceeds the author bound and their best package's sum exceeds the package bound |

## Left out

- Command-line option parsing (process_stats.rb:24-55) is not modelled. A run takes an `Options` value.
- Store.Store.Report: the thresholds `ethreshold*default_points` and `pthreshold*default_points` are Integers by default (process_stats.rb:17-18). They become Floats when given with `-e` or `-p` (process_stats.rb:45-50). The model takes integer bounds: an integer sum exceeds a real bound exactly when it exceeds the bound's floor.
- ActiveRecord connection, schema and index creation (process_stats.rb:57-100) are not modelled. The tables are the two fields of `Store.Store`.
- Store.Store.HackPass: SQLite's `LIKE` ignores ASCII case, so `text like '%update%'` also matches `UPDATE`. The model matches the listed casings (`update`, `Update`, `Version`, `version`, `feature`, `Feature`) exactly.
- Store.Store.ScoreUnscored and Store.Store.Report: `ORDER BY` leaves ties in any order. The model fixes one order, an insertion sort. The scores do not depend on it. Which of several equal-sum packages is listed, and the order of equal-sum authors, do depend on it.
- Directory listing, its sorting, the `File.directory?` test and file opening (process_stats.rb:141-145, 108) are not modelled. `Import` takes the changelogs as (path, lines) pairs in listing order. This loses two behaviours. `File.directory? f` tests the bare entry name against the working directory, not against the base directory (process_stats.rb:142). So an entry is skipped exactly when the working directory holds a directory of that name. Any other entry without a readable `<f>/<f>.changes`, a plain file of the base directory included, makes `File.open` raise (process_stats.rb:108, 144) and aborts the whole run before reset, scoring and report.
- The UTF-8 re-encoding of each line (process_stats.rb:109) is not modelled. Lines are taken after it.
- `DateTime.parse` is the parameter `parse` (a date text to seconds, or nothing). Only its failure path, the fallback to the epoch, is modelled.
- Splitter.PkgNameOfChangesFile: paths are taken without line breaks in the base directory or the entry name. `PkgNameLines` covers a base holding line breaks (its earlier lines are rewritten on their own); an entry name holding one, for which the regex does not reach the file name, is not covered by a lemma.
- Splitter.CanonicalDomain: `sub` rewrites the leftmost occurrence, so when the local part holds `suse.cz` or `suse.de` that occurrence is rewritten and the domain is not. The lemma covers only local parts without either alias.
- Splitter.MatchHeaderSpec: each line is one line of the file, so the regex anchors are taken to span the text up to the first line break.
- Strings.StripEmptyIff: `strip` treats NUL as whitespace at both ends, as current Ruby documents. Older Ruby releases kept a leading NUL.
- The `sendmail` call and all `puts` output (process_stats.rb:137-143, 151, 160, 180, 193-195, 239-248) are not modelled. The report returns the digests instead.
- The literal English of the mail and the printed text (process_stats.rb:211-237, 244) is not modelled. It appears as the `Greeting`, `Namely`, `Appeal` and `AskAbout` lines.
- SQLite's 64-bit integer sums and `points` column are unbounded integers in the model. Overflow is not modelled.
