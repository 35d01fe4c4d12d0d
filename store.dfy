/**
 * The database side of the batch script: the `changes` table and the `pkgs`
 * weights, the importer that stores a file's entries (process_stats.rb:103-148),
 * the passes that score them (process_stats.rb:150-190), the summary that
 * reads them (process_stats.rb:196-249) and the whole run. The table is a
 * field the methods reassign; each method is proved against a function of
 * the old table, and the properties of those functions are lemmas here and
 * in Scoring.
 */
module Store {
  import opened Optional
  import opened Strings
  import opened Sorting
  import opened Changes
  import opened Splitter
  import opened Scoring
  import opened Report

  // ---------------------------------------------------------------------------
  // Duplicate detection
  // ---------------------------------------------------------------------------

  /** Some row of `rows` has key `key`. */
  predicate Covered(rows: seq<Change>, key: Key) {
    exists i :: 0 <= i < |rows| && KeyOf(rows[i]) == key
  }

  /**
   * `Change.where(:email => .., :date => .., :pkg => ..).count`. A block
   * without a header is stored with the empty date, which the datetime
   * column holds as NULL; the lookup compares the date with `''`, which
   * never matches NULL, so a key without a date is never found.
   */
  function Count(rows: seq<Change>, key: Key): (n: nat)
    ensures n == 0 <==> key.date.Unset? || !Covered(rows, key)
    ensures n <= |rows|
  {
    if rows == [] then 0
    else
      var last := rows[|rows| - 1];
      var m := Count(rows[..|rows| - 1], key);
      assert forall i :: 0 <= i < |rows| - 1 ==> rows[..|rows| - 1][i] == rows[i];
      m + (if KeyOf(last) == key && key.date.At? then 1 else 0)
  }

  /** No two rows share a key with a date (rows of blocks without a header may repeat). */
  predicate UniqueDatedKeys(rows: seq<Change>) {
    forall i, j :: 0 <= i < j < |rows| && rows[i].date.At? ==> KeyOf(rows[i]) != KeyOf(rows[j])
  }

  /** The candidates from blocks without a header, in order: the lookup never finds them. */
  function Undated(cs: seq<Change>): (r: seq<Change>)
    ensures forall c :: c in r <==> c in cs && c.date.Unset?
  {
    if cs == [] then []
    else
      var n := |cs| - 1;
      assert cs == cs[..n] + [cs[n]];
      Undated(cs[..n]) + (if cs[n].date.Unset? then [cs[n]] else [])
  }

  /** One candidate offered to the table: stored in hack mode, or when no row has its key yet. */
  function AdmitOne(rows: seq<Change>, c: Change, hack: bool): seq<Change> {
    if hack || Count(rows, KeyOf(c)) == 0 then rows + [c] else rows
  }

  /** The candidates offered one after the other, in order. */
  function Admit(rows: seq<Change>, cs: seq<Change>, hack: bool): seq<Change>
    decreases |cs|
  {
    if cs == [] then rows
    else AdmitOne(Admit(rows, cs[..|cs| - 1], hack), cs[|cs| - 1], hack)
  }

  /** Offering a single candidate is one lookup-guarded insert. */
  lemma AdmitSingle(rows: seq<Change>, c: Change, hack: bool)
    ensures Admit(rows, [c], hack) == AdmitOne(rows, c, hack)
  {
    assert [c][..0] == [];
  }

  /** In hack mode every candidate is stored, duplicates included. */
  lemma {:induction false} AdmitHack(rows: seq<Change>, cs: seq<Change>)
    ensures Admit(rows, cs, true) == rows + cs
  {
    if cs != [] {
      var n := |cs| - 1;
      AdmitHack(rows, cs[..n]);
      assert cs == cs[..n] + [cs[n]];
    }
  }

  /** Storing only appends: the old rows stay in place, and each new row is one of the candidates. */
  lemma {:induction false} AdmitAppends(rows: seq<Change>, cs: seq<Change>, hack: bool)
    ensures |rows| <= |Admit(rows, cs, hack)| <= |rows| + |cs|
    ensures Admit(rows, cs, hack)[..|rows|] == rows
    ensures forall i :: |rows| <= i < |Admit(rows, cs, hack)| ==> Admit(rows, cs, hack)[i] in cs
  {
    if cs != [] {
      var n := |cs| - 1;
      AdmitAppends(rows, cs[..n], hack);
      var before := Admit(rows, cs[..n], hack);
      var after := Admit(rows, cs, hack);
      forall i | |rows| <= i < |after| ensures after[i] in cs {
        if i < |before| {
          assert after[i] == before[i];
          assert before[i] in cs[..n];
        } else {
          assert after[i] == cs[n];
        }
      }
    }
  }

  /** Outside hack mode, a key is in the table afterwards exactly when it was before or some candidate has it. */
  lemma {:induction false} AdmitKeys(rows: seq<Change>, cs: seq<Change>, key: Key)
    ensures Covered(Admit(rows, cs, false), key) <==>
            (Covered(rows, key) || exists c :: c in cs && KeyOf(c) == key)
  {
    if cs != [] {
      var n := |cs| - 1;
      AdmitKeys(rows, cs[..n], key);
      var before := Admit(rows, cs[..n], false);
      var after := Admit(rows, cs, false);
      assert cs == cs[..n] + [cs[n]];
      if Covered(before, key) {
        var i :| 0 <= i < |before| && KeyOf(before[i]) == key;
        assert after[i] == before[i];
      }
      if Covered(after, key) && !Covered(before, key) {
        var i :| 0 <= i < |after| && KeyOf(after[i]) == key;
        assert after != before;
        assert after[i] == cs[n];
      }
      if KeyOf(cs[n]) == key && !Covered(before, key) {
        assert after[|after| - 1] == cs[n];
      }
    }
  }

  /**
   * Outside hack mode, offering candidates whose keys are all present
   * stores only those without a date, since the lookup cannot find them.
   */
  lemma {:induction false} AdmitPresent(rows: seq<Change>, cs: seq<Change>)
    requires forall c :: c in cs ==> Covered(rows, KeyOf(c))
    ensures Admit(rows, cs, false) == rows + Undated(cs)
  {
    if cs != [] {
      var n := |cs| - 1;
      AdmitPresent(rows, cs[..n]);
      var before := Admit(rows, cs[..n], false);
      var c := cs[n];
      assert c in cs;
      if c.date.At? {
        var i :| 0 <= i < |rows| && KeyOf(rows[i]) == KeyOf(c);
        assert before[i] == rows[i];
      } else {
        Associative(rows, Undated(cs[..n]), [c]);
      }
    }
  }

  /** Outside hack mode, the table never gets two rows with the same dated key. */
  lemma {:induction false} AdmitUnique(rows: seq<Change>, cs: seq<Change>)
    requires UniqueDatedKeys(rows)
    ensures UniqueDatedKeys(Admit(rows, cs, false))
  {
    if cs != [] {
      var n := |cs| - 1;
      AdmitUnique(rows, cs[..n]);
      var before := Admit(rows, cs[..n], false);
      var after := Admit(rows, cs, false);
      if after != before {
        forall i, j | 0 <= i < j < |after| && after[i].date.At? ensures KeyOf(after[i]) != KeyOf(after[j]) {
          if j == |before| {
            assert after[i] == before[i];
            assert Count(before, KeyOf(cs[n])) == 0;
          } else {
            assert after[i] == before[i] && after[j] == before[j];
          }
        }
      }
    }
  }

  // ---------------------------------------------------------------------------
  // Import of a directory of changelogs
  // ---------------------------------------------------------------------------

  /** A changelog as the importer opens it: its path and its lines, each with its line break. */
  datatype File = File(path: string, lines: seq<string>)

  /** The candidate entries of one changelog, in the package its path names. */
  function FileCandidates(f: File, parse: string -> Option<int>): seq<Change> {
    Candidates(f.lines, PkgName(f.path), parse)
  }

  /** The candidates of all changelogs, file after file. */
  function AllCandidates(files: seq<File>, parse: string -> Option<int>): seq<Change>
    decreases |files|
  {
    if files == [] then [] else AllCandidates(files[..|files| - 1], parse) + FileCandidates(files[|files| - 1], parse)
  }

  /** The table after offering every changelog's candidates, file after file. */
  function ImportAll(rows: seq<Change>, files: seq<File>, hack: bool, parse: string -> Option<int>): seq<Change>
    decreases |files|
  {
    if files == [] then rows
    else Admit(ImportAll(rows, files[..|files| - 1], hack, parse), FileCandidates(files[|files| - 1], parse), hack)
  }

  /** Importing one more changelog. */
  lemma ImportAllSnoc(rows: seq<Change>, files: seq<File>, n: nat, hack: bool, parse: string -> Option<int>)
    requires n < |files|
    ensures ImportAll(rows, files[..n + 1], hack, parse)
         == Admit(ImportAll(rows, files[..n], hack, parse), Candidates(files[n].lines, PkgName(files[n].path), parse), hack)
  {
    assert files[..n + 1][..n] == files[..n];
  }

  /** The import step: hack mode first empties the table. */
  function Imported(rows: seq<Change>, files: seq<File>, hack: bool, parse: string -> Option<int>): seq<Change> {
    ImportAll(if hack then [] else rows, files, hack, parse)
  }

  /** Offering all candidates at once is offering them file by file. */
  lemma {:induction false} ImportAllAdmit(rows: seq<Change>, files: seq<File>, hack: bool, parse: string -> Option<int>)
    ensures ImportAll(rows, files, hack, parse) == Admit(rows, AllCandidates(files, parse), hack)
  {
    if files != [] {
      var n := |files| - 1;
      ImportAllAdmit(rows, files[..n], hack, parse);
      AdmitConcat(rows, AllCandidates(files[..n], parse), FileCandidates(files[n], parse), hack);
    }
  }

  lemma {:induction false} AdmitConcat(rows: seq<Change>, a: seq<Change>, b: seq<Change>, hack: bool)
    ensures Admit(rows, a + b, hack) == Admit(Admit(rows, a, hack), b, hack)
    decreases |b|
  {
    if b == [] {
      assert a + b == a;
    } else {
      var n := |b| - 1;
      assert (a + b)[..|a + b| - 1] == a + b[..n];
      AdmitConcat(rows, a, b[..n], hack);
    }
  }

  /** In hack mode the table ends up holding every candidate of every changelog, whatever it held before. */
  lemma HackImport(rows: seq<Change>, files: seq<File>, parse: string -> Option<int>)
    ensures Imported(rows, files, true, parse) == AllCandidates(files, parse)
  {
    ImportAllAdmit([], files, true, parse);
    AdmitHack([], AllCandidates(files, parse));
  }

  /**
   * Outside hack mode, importing the same changelogs twice stores, the
   * second time, only the entries of blocks without a header again: every
   * dated candidate's key is already present.
   */
  lemma ImportTwice(rows: seq<Change>, files: seq<File>, parse: string -> Option<int>)
    ensures Imported(Imported(rows, files, false, parse), files, false, parse)
         == Imported(rows, files, false, parse) + Undated(AllCandidates(files, parse))
  {
    var cs := AllCandidates(files, parse);
    var once := Admit(rows, cs, false);
    ImportAllAdmit(rows, files, false, parse);
    ImportAllAdmit(once, files, false, parse);
    forall c | c in cs ensures Covered(once, KeyOf(c)) {
      AdmitKeys(rows, cs, KeyOf(c));
    }
    AdmitPresent(once, cs);
  }

  /** Outside hack mode, importing keeps every row already stored, in place, and never stores a dated key twice. */
  lemma ImportKeepsUnique(rows: seq<Change>, files: seq<File>, parse: string -> Option<int>)
    requires UniqueDatedKeys(rows)
    ensures UniqueDatedKeys(Imported(rows, files, false, parse))
    ensures |rows| <= |Imported(rows, files, false, parse)|
    ensures Imported(rows, files, false, parse)[..|rows|] == rows
  {
    ImportAllAdmit(rows, files, false, parse);
    AdmitUnique(rows, AllCandidates(files, parse));
    AdmitAppends(rows, AllCandidates(files, parse), false);
  }

  /** One line of the scan: a terminator emits the block and starts afresh, any other line is absorbed. */
  lemma EmittedStep(acc: Acc, lines: seq<string>, i: nat, pkg: string, parse: string -> Option<int>)
    requires i < |lines|
    ensures Emitted(acc, lines[i..], pkg, parse) ==
      if IsTerminator(lines[i]) then Close(acc, pkg) + Emitted(Fresh, lines[i + 1..], pkg, parse)
      else Emitted(Absorb(acc, lines[i], parse), lines[i + 1..], pkg, parse)
  {
    assert lines[i..][1..] == lines[i + 1..];
  }

  // ---------------------------------------------------------------------------
  // The visiting order of the normal scoring pass: `where("points=0").order(:pkg)`
  // ---------------------------------------------------------------------------

  /** The indices of the rows without points, ascending. */
  function Unscored(rows: seq<Change>): (r: seq<nat>)
    ensures forall k :: k in r <==> 0 <= k < |rows| && rows[k].points == 0
    ensures forall i :: 0 <= i < |r| ==> r[i] < |rows|
    ensures forall i, j :: 0 <= i < j < |r| ==> r[i] < r[j]
  {
    if rows == [] then []
    else
      var n := |rows| - 1;
      var front := Unscored(rows[..n]);
      assert forall k :: 0 <= k < n ==> rows[..n][k] == rows[k];
      front + (if rows[n].points == 0 then [n] else [])
  }

  /** The package of row `i` (rows past the end never occur in a visiting order). */
  function PkgAt(rows: seq<Change>, i: nat): string {
    if i < |rows| then rows[i].pkg else ""
  }

  /** Row indices compared by package name. */
  function ByPkg(rows: seq<Change>): (nat, nat) -> bool {
    (i: nat, j: nat) => LexLe(PkgAt(rows, i), PkgAt(rows, j))
  }

  /** The rows without points, ordered by package name. */
  function VisitOrder(rows: seq<Change>): seq<nat> {
    Sort(Unscored(rows), ByPkg(rows))
  }

  /** The visiting order lists each row without points exactly once, by ascending package name. */
  lemma VisitOrderSpec(rows: seq<Change>)
    ensures NoDuplicates(VisitOrder(rows))
    ensures forall k :: k in VisitOrder(rows) <==> 0 <= k < |rows| && rows[k].points == 0
    ensures forall i :: 0 <= i < |VisitOrder(rows)| ==> VisitOrder(rows)[i] < |rows|
    ensures forall i, j :: 0 <= i < j < |VisitOrder(rows)| ==>
      LexLe(PkgAt(rows, VisitOrder(rows)[i]), PkgAt(rows, VisitOrder(rows)[j]))
  {
    var le := ByPkg(rows);
    var zs := Unscored(rows);
    var order := VisitOrder(rows);
    forall a: nat, b: nat ensures le(a, b) || le(b, a) {
      LexLeTotal(PkgAt(rows, a), PkgAt(rows, b));
    }
    forall a: nat, b: nat, c: nat | le(a, b) && le(b, c) ensures le(a, c) {
      LexLeTransitive(PkgAt(rows, a), PkgAt(rows, b), PkgAt(rows, c));
    }
    SortSorted(zs, le);
    PermutationNoDuplicates(zs, order);
    forall k ensures k in order <==> k in zs {
      SortSameElements(zs, le, k);
    }
    forall i | 0 <= i < |order| ensures order[i] < |rows| {
      assert order[i] in order;
    }
  }

  /** The table part-way through the normal pass: the rows in `visited` scored, the others as they were. */
  function Partial(rows: seq<Change>, visited: seq<nat>, weights: map<string, int>, cfg: Config): (r: seq<Change>)
    ensures |r| == |rows|
  {
    seq(|rows|, k requires 0 <= k < |rows| => if k in visited then ScoreRow(rows[k], weights, cfg) else rows[k])
  }

  lemma PartialStep(rows: seq<Change>, visited: seq<nat>, k: nat, weights: map<string, int>, cfg: Config)
    requires k < |rows|
    ensures Partial(rows, visited + [k], weights, cfg) == Partial(rows, visited, weights, cfg)[k := ScoreRow(rows[k], weights, cfg)]
  {
  }

  /** Visiting every row without points scores the whole table. */
  lemma PartialDone(rows: seq<Change>, weights: map<string, int>, cfg: Config)
    ensures Partial(rows, VisitOrder(rows), weights, cfg) == Rescored(rows, weights, cfg)
  {
    VisitOrderSpec(rows);
  }

  // ---------------------------------------------------------------------------
  // The whole run
  // ---------------------------------------------------------------------------

  /** The switches and numbers of a run: import, reset, hack mode, mail or print, the points and the bounds. */
  datatype Options = Options(convert: bool, reset: bool, hack: bool, mail: bool, cfg: Config, bounds: Thresholds)

  /** The table after the import, reset, hack and scoring steps, each when its switch is on. */
  function Scored(rows: seq<Change>, weights: map<string, int>, o: Options, files: seq<File>, parse: string -> Option<int>): seq<Change> {
    var imported := if o.convert then Imported(rows, files, o.hack, parse) else rows;
    var reset := if o.reset then Zeroed(imported) else imported;
    var hacked := if o.hack then HackStatements(reset, o.cfg) else reset;
    Rescored(hacked, weights, o.cfg)
  }

  /**
   * Running twice over the same changelogs, without reset or hack mode,
   * ends in the table of one run plus, scored, another copy of every entry
   * of a block without a header: the dated entries are found and skipped,
   * and the scoring pass finds nothing unscored among the old rows.
   */
  lemma RunTwice(rows: seq<Change>, weights: map<string, int>, o: Options, files: seq<File>, parse: string -> Option<int>)
    requires !o.reset && !o.hack
    ensures Scored(Scored(rows, weights, o, files, parse), weights, o, files, parse)
         == Scored(rows, weights, o, files, parse)
            + (if o.convert then Rescored(Undated(AllCandidates(files, parse)), weights, o.cfg) else [])
  {
    var imported := if o.convert then Imported(rows, files, false, parse) else rows;
    var once := Rescored(imported, weights, o.cfg);
    RescoreIdempotent(imported, weights, o.cfg);
    if o.convert {
      var cs := AllCandidates(files, parse);
      ImportAllAdmit(rows, files, false, parse);
      forall c | c in cs ensures Covered(imported, KeyOf(c)) {
        AdmitKeys(rows, cs, KeyOf(c));
      }
      ImportedRescored(imported, files, weights, o.cfg, parse);
      RescoredAppend(once, Undated(cs), weights, o.cfg);
    }
  }

  /**
   * Outside hack mode, importing into a table that already holds every
   * candidate's key, after scoring, stores only the entries of blocks
   * without a header again, whatever the scores.
   */
  lemma ImportedRescored(rows: seq<Change>, files: seq<File>, weights: map<string, int>, cfg: Config, parse: string -> Option<int>)
    requires forall c :: c in AllCandidates(files, parse) ==> Covered(rows, KeyOf(c))
    ensures Imported(Rescored(rows, weights, cfg), files, false, parse)
         == Rescored(rows, weights, cfg) + Undated(AllCandidates(files, parse))
  {
    var cs := AllCandidates(files, parse);
    var scored := Rescored(rows, weights, cfg);
    ImportAllAdmit(scored, files, false, parse);
    forall c | c in cs ensures Covered(scored, KeyOf(c)) {
      var i :| 0 <= i < |rows| && KeyOf(rows[i]) == KeyOf(c);
      assert KeyOf(scored[i]) == KeyOf(rows[i]);
    }
    AdmitPresent(scored, cs);
  }

  /** The summary over one more ranked author. */
  lemma DigestsOfSnoc(rows: seq<Change>, authors: seq<(string, int)>, n: nat, t: Thresholds, mail: bool)
    requires n < |authors|
    ensures DigestsOf(rows, authors[..n + 1], t, mail) == DigestsOf(rows, authors[..n], t, mail)
      + (if authors[n].1 > t.authorBound then ToSeq(AuthorDigest(rows, authors[n].0, t, mail)) else [])
  {
    assert authors[..n + 1][..n] == authors[..n];
  }

  /** The `last_pkg` cache: visited in package order, the cached or freshly looked-up weight is the row's base. */
  lemma CachedBase(lastPkg: string, pkg: string, points: int, weights: map<string, int>, cfg: Config)
    requires LexLe(lastPkg, pkg)
    requires points == Base(weights, lastPkg, cfg)
    ensures (if pkg != lastPkg then Lookup(weights, pkg, cfg.defaultPoints) else points) == Base(weights, pkg, cfg)
  {
    if pkg == "" {
      LexLeEmpty(lastPkg);
    }
  }

  lemma PrefixSnoc<T>(s: seq<T>, n: nat)
    requires n < |s|
    ensures s[..n + 1] == s[..n] + [s[n]]
  {
  }

  /**
   * One step of the normal pass: the `n`-th row of the visiting order has no
   * points and was not visited before, the cached or freshly looked-up weight
   * is its base, and the next row's package is no smaller than its own.
   */
  lemma VisitStep(rows: seq<Change>, order: seq<nat>, n: nat, lastPkg: string, points: int,
                  weights: map<string, int>, cfg: Config)
    requires order == VisitOrder(rows) && n < |order|
    requires LexLe(lastPkg, PkgAt(rows, order[n]))
    requires points == Base(weights, lastPkg, cfg)
    ensures order[n] < |rows| && rows[order[n]].points == 0 && order[n] !in order[..n]
    ensures (if rows[order[n]].pkg != lastPkg then Lookup(weights, rows[order[n]].pkg, cfg.defaultPoints) else points)
            == Base(weights, rows[order[n]].pkg, cfg)
    ensures n + 1 < |order| ==> LexLe(rows[order[n]].pkg, PkgAt(rows, order[n + 1]))
  {
    VisitOrderSpec(rows);
    assert order[n] in order;
    assert order[n] !in order[..n];
    CachedBase(lastPkg, rows[order[n]].pkg, points, weights, cfg);
  }

  // ---------------------------------------------------------------------------
  // The store
  // ---------------------------------------------------------------------------

  /** The `changes` table and the `pkgs` table (package name to weight). */
  class Store {
    var changes: seq<Change>
    var weights: map<string, int>

    constructor (weights: map<string, int>)
      ensures changes == [] && this.weights == weights
    {
      changes := [];
      this.weights := weights;
    }

    /** `Change.delete_all`. */
    method Clear()
      modifies this
      ensures changes == [] && weights == old(weights)
    {
      changes := [];
    }

    /**
     * A terminator closes the block: its stripped text, stripped once more,
     * is stored unless it is empty, or its key is known and `hack` is off.
     */
    method OfferBlock(email: string, date: When, text: string, pkg: string, hack: bool)
      modifies this
      ensures weights == old(weights)
      ensures changes == Admit(old(changes), Close(Acc(email, date, text), pkg), hack)
    {
      var t := Strip(text);
      if t != "" {
        StripIdempotent(text);
        var c := Change(email, date, pkg, Strip(t), 0);
        assert Close(Acc(email, date, text), pkg) == [c];
        if hack || Count(changes, Key(email, date, pkg)) == 0 {
          changes := changes + [c];
        }
        AdmitSingle(old(changes), c, hack);
      }
    }

    /**
     * The body of `process_file`'s loop for one line: a terminator stores the
     * block (unless its key is known and `hack` is off) and resets the
     * accumulators; a header line fills email and date; any other line joins
     * the text.
     */
    method TakeLine(email: string, date: When, text: string, line: string, pkg: string, hack: bool, parse: string -> Option<int>)
      returns (email': string, date': When, text': string)
      modifies this
      ensures weights == old(weights)
      ensures IsTerminator(line) ==>
        Acc(email', date', text') == Fresh && changes == Admit(old(changes), Close(Acc(email, date, text), pkg), hack)
      ensures !IsTerminator(line) ==>
        Acc(email', date', text') == Absorb(Acc(email, date, text), line, parse) && changes == old(changes)
    {
      email', date', text' := email, date, text;
      if IsTerminator(line) {
        OfferBlock(email, date, text, pkg, hack);
        email', date', text' := "", Unset, "";
      } else if email' == "" && date' == Unset && MatchHeader(line).Some? {
        var (datePart, address) := MatchHeader(line).value;
        email' := CanonicalAddress(address);
        date' := DateOf(datePart, parse);
      } else {
        text' := text' + line;
      }
    }

    /** `process_file`: scans one changelog and stores its entries, skipping known keys unless `hack`. */
    method ProcessFile(path: string, lines: seq<string>, hack: bool, parse: string -> Option<int>)
      modifies this
      ensures weights == old(weights)
      ensures changes == Admit(old(changes), Candidates(lines, PkgName(path), parse), hack)
    {
      var email, date, text := "", Unset, "";
      var pkg := PkgName(path);
      ghost var emitted: seq<Change> := [];
      var i := 0;
      while i < |lines|
        invariant 0 <= i <= |lines|
        invariant weights == old(weights)
        invariant changes == Admit(old(changes), emitted, hack)
        invariant emitted + Emitted(Acc(email, date, text), lines[i..], pkg, parse) == Candidates(lines, pkg, parse)
      {
        ghost var acc := Acc(email, date, text);
        EmittedStep(acc, lines, i, pkg, parse);
        email, date, text := TakeLine(email, date, text, lines[i], pkg, hack, parse);
        if IsTerminator(lines[i]) {
          AdmitConcat(old(changes), emitted, Close(acc, pkg), hack);
          Associative(emitted, Close(acc, pkg), Emitted(Fresh, lines[i + 1..], pkg, parse));
          emitted := emitted + Close(acc, pkg);
        }
        i := i + 1;
      }
      assert emitted == Candidates(lines, pkg, parse);
    }

    /** The import step over the changelogs in directory order (hack mode empties the table first). */
    method Import(files: seq<File>, hack: bool, parse: string -> Option<int>)
      modifies this
      ensures weights == old(weights)
      ensures changes == Imported(old(changes), files, hack, parse)
    {
      if hack {
        Clear();
      }
      ghost var start := changes;
      var n := 0;
      while n < |files|
        invariant 0 <= n <= |files|
        invariant weights == old(weights)
        invariant changes == ImportAll(start, files[..n], hack, parse)
      {
        ImportAllSnoc(start, files, n, hack, parse);
        ProcessFile(files[n].path, files[n].lines, hack, parse);
        n := n + 1;
      }
      assert files[..n] == files;
    }

    /** The reset step: every row back to 0 points. */
    method ResetPoints()
      modifies this
      ensures weights == old(weights)
      ensures changes == Zeroed(old(changes))
    {
      changes := Zeroed(changes);
    }

    /** One bulk update of hack mode: every row whose text contains `pat` gets `v` points. */
    method SetPointsWhereText(pat: string, v: int)
      modifies this
      ensures weights == old(weights)
      ensures changes == SetWhereText(old(changes), pat, v)
    {
      changes := SetWhereText(changes, pat, v);
    }

    /** The last bulk update of hack mode: every row still at 0 gets `v` points. */
    method SetPointsWhereUnscored(v: int)
      modifies this
      ensures weights == old(weights)
      ensures changes == SetWhereUnscored(old(changes), v)
    {
      changes := SetWhereUnscored(changes, v);
    }

    /** Hack mode's seven bulk updates: each row ends with its HackScore, its other columns unchanged. */
    method HackPass(cfg: Config)
      modifies this
      ensures weights == old(weights)
      ensures |changes| == |old(changes)|
      ensures forall k :: 0 <= k < |changes| ==> changes[k] == old(changes)[k].(points := HackScore(old(changes)[k], cfg))
      ensures changes == HackStatements(old(changes), cfg)
    {
      var u := cfg.updatePoints * cfg.defaultPoints;
      var f := cfg.featurePoints * cfg.defaultPoints;
      SetPointsWhereText("update", u);
      SetPointsWhereText("Update", u);
      SetPointsWhereText("Version", u);
      SetPointsWhereText("version", u);
      SetPointsWhereText("feature", f);
      SetPointsWhereText("Feature", f);
      SetPointsWhereUnscored(cfg.defaultPoints);
      HackStatementsScore(old(changes), cfg);
    }

    /** `change.points = ..; change.save` for row `k`: the base, scaled by the factor its text calls for. */
    method SaveScored(k: nat, base: int, cfg: Config)
      requires k < |changes|
      modifies this
      ensures weights == old(weights)
      ensures changes == old(changes)[k := old(changes)[k].(points := Score(old(changes)[k].text, base, cfg))]
    {
      var change := changes[k];
      change := change.(points := base);
      if MentionsUpdate(change.text) {
        change := change.(points := base * cfg.updatePoints);
      }
      if MentionsFeature(change.text) {
        change := change.(points := base * cfg.featurePoints);
      }
      changes := changes[k := change];
    }

    /**
     * The body of the normal pass for the `n`-th row of the visiting order:
     * look the weight up when the package differs from `last_pkg`, then save
     * the row's score.
     */
    method ScoreVisit(ghost rows: seq<Change>, order: seq<nat>, n: nat, lastPkg: string, points: int, cfg: Config)
      returns (lastPkg': string, points': int)
      requires order == VisitOrder(rows) && n < |order|
      requires changes == Partial(rows, order[..n], weights, cfg)
      requires LexLe(lastPkg, PkgAt(rows, order[n]))
      requires points == Base(weights, lastPkg, cfg)
      modifies this
      ensures weights == old(weights)
      ensures changes == Partial(rows, order[..n + 1], weights, cfg)
      ensures n + 1 < |order| ==> LexLe(lastPkg', PkgAt(rows, order[n + 1]))
      ensures points' == Base(weights, lastPkg', cfg)
    {
      var k := order[n];
      VisitStep(rows, order, n, lastPkg, points, weights, cfg);
      var change := changes[k];
      lastPkg', points' := lastPkg, points;
      if change.pkg != lastPkg {
        points' := Lookup(weights, change.pkg, cfg.defaultPoints);
        lastPkg' := change.pkg;
      }
      PartialStep(rows, order[..n], k, weights, cfg);
      SaveScored(k, points', cfg);
      PrefixSnoc(order, n);
    }

    /**
     * The normal pass: the rows without points, visited by package name, get
     * the package's weight (looked up when the package changes, the default
     * when it has none) scaled by the update or feature factor.
     */
    method ScoreUnscored(cfg: Config)
      modifies this
      ensures weights == old(weights)
      ensures changes == Rescored(old(changes), weights, cfg)
    {
      ghost var rows := changes;
      var order := VisitOrder(changes);
      var points := cfg.defaultPoints;
      var lastPkg := "";
      var n := 0;
      while n < |order|
        invariant 0 <= n <= |order|
        invariant weights == old(weights)
        invariant changes == Partial(rows, order[..n], weights, cfg)
        invariant n < |order| ==> LexLe(lastPkg, PkgAt(rows, order[n]))
        invariant points == Base(weights, lastPkg, cfg)
      {
        lastPkg, points := ScoreVisit(rows, order, n, lastPkg, points, cfg);
        n := n + 1;
      }
      assert order[..n] == order;
      PartialDone(rows, weights, cfg);
    }

    /**
     * The summary's body for one author above the author threshold: the
     * packages above the package threshold, and the digest built from them
     * unless there are none.
     */
    method ReportAuthor(email: string, bounds: Thresholds, mail: bool) returns (digest: Option<Digest>)
      ensures digest == AuthorDigest(changes, email, bounds, mail)
    {
      var listed, others, count := ListPackages(PackageRanking(changes, email), bounds.packageBound);
      if listed == [] {
        digest := None;
      } else if mail {
        digest := Some(Mail(email, MailBody(listed, others, count)));
      } else {
        digest := Some(Printed(email, PrintBody(email, listed, others)));
      }
    }

    /** The summary: for each author by descending sum, the digest to mail or print. Reads the table only. */
    method Report(bounds: Thresholds, mail: bool) returns (digests: seq<Digest>)
      ensures digests == Digests(changes, bounds, mail)
    {
      var authors := AuthorRanking(changes);
      digests := [];
      var n := 0;
      while n < |authors|
        invariant n <= |authors|
        invariant digests == DigestsOf(changes, authors[..n], bounds, mail)
      {
        var (email, sum) := authors[n];
        DigestsOfSnoc(changes, authors, n, bounds, mail);
        if sum > bounds.authorBound {
          var digest := ReportAuthor(email, bounds, mail);
          digests := digests + ToSeq(digest);
        }
        n := n + 1;
      }
      assert authors[..n] == authors;
    }

    /** One run of the script: each step its switch enables, in the script's order, then the summary. */
    method Run(o: Options, files: seq<File>, parse: string -> Option<int>) returns (digests: seq<Digest>)
      modifies this
      ensures weights == old(weights)
      ensures changes == Scored(old(changes), weights, o, files, parse)
      ensures digests == Digests(changes, o.bounds, o.mail)
    {
      if o.convert {
        Import(files, o.hack, parse);
      }
      if o.reset {
        ResetPoints();
      }
      if o.hack {
        HackPass(o.cfg);
      }
      ScoreUnscored(o.cfg);
      digests := Report(o.bounds, o.mail);
    }
  }
}
