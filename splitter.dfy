/**
 * The changelog splitter (process_stats.rb:103-132): the pure pieces of
 * `process_file` and the line-by-line state machine it runs, as functions.
 * The store writes it interleaves with the scan are in module Store; this
 * module says which candidate entries the scan produces, and proves that
 * they are exactly the terminator-closed blocks of the file with non-empty
 * text, each read as "first header line, everything else is body".
 */
module Splitter {
  import opened Optional
  import opened Strings
  import opened Changes

  // ---------------------------------------------------------------------------
  // Package name from the file path: file.gsub(/.*\/(.*).changes/, '\1')
  // Without the /m flag no `.` matches a line break, so every match lies
  // within one line of the path; `gsub` rewrites each line's match.
  // ---------------------------------------------------------------------------

  /** "changes" follows the single (wildcard) character at `j`. */
  predicate SuffixAt(p: string, j: int) {
    0 <= j && j + 8 <= |p| && p[j + 1..j + 8] == "changes"
  }

  /** The regex can match with its `\/` at `i` and its wildcard `.` at `j`; the captured name is p[i+1..j]. */
  predicate PathSplit(p: string, i: int, j: int) {
    0 <= i < |p| && p[i] == '/' && i + 1 <= j && SuffixAt(p, j)
  }

  /** The last wildcard position in [lo, hi]: the greedy `(.*)` backtracks from the right. */
  function LastSuffix(p: string, lo: nat, hi: int): (r: Option<nat>)
    decreases hi - lo + 1
    ensures r.Some? ==> lo <= r.value <= hi && SuffixAt(p, r.value)
    ensures r.Some? ==> forall j :: r.value < j <= hi ==> !SuffixAt(p, j)
    ensures r.None? ==> forall j :: lo <= j <= hi ==> !SuffixAt(p, j)
  {
    if hi < lo then None
    else if SuffixAt(p, hi) then Some(hi)
    else LastSuffix(p, lo, hi - 1)
  }

  /**
   * The split the regex engine settles on within one line `p`: the greedy
   * leading `.*` takes the last slash that still lets the rest match, then
   * `(.*)` the last wildcard.
   */
  function LastSplit(p: string, hi: int): (r: Option<(nat, nat)>)
    requires hi < |p|
    decreases hi + 1
    ensures r.Some? ==> PathSplit(p, r.value.0, r.value.1) && r.value.0 <= hi
    ensures r.Some? ==> forall j :: r.value.1 < j ==> !PathSplit(p, r.value.0, j)
    ensures r.Some? ==> forall i, j :: r.value.0 < i <= hi ==> !PathSplit(p, i, j)
    ensures r.None? ==> forall i, j :: 0 <= i <= hi ==> !PathSplit(p, i, j)
  {
    if hi < 0 then None
    else if p[hi] == '/' && LastSuffix(p, hi + 1, |p| - 8).Some? then
      Some((hi, LastSuffix(p, hi + 1, |p| - 8).value))
    else LastSplit(p, hi - 1)
  }

  /**
   * One line of the path as `gsub` leaves it: the match, when there is one,
   * is replaced by its capture (`GsubOneMatchPerLine`: nothing after it can
   * match again).
   */
  function RewriteLine(line: string): string {
    var m := LastSplit(line, |line| - 1);
    if m.Some? then line[m.value.0 + 1..m.value.1] + line[m.value.1 + 8..] else line
  }

  /** The package name `process_file` derives from its path: each line rewritten, the line breaks kept. */
  function PkgName(path: string): string
    decreases |path|
  {
    var line := FirstLine(path);
    if |line| == |path| then RewriteLine(line)
    else RewriteLine(line) + "\n" + PkgName(path[|line| + 1..])
  }

  /** After the match `gsub` resumes at its end; the rest of the line holds no further match. */
  lemma GsubOneMatchPerLine(line: string)
    requires LastSplit(line, |line| - 1).Some?
    ensures var j := LastSplit(line, |line| - 1).value.1;
      var rest := line[j + 8..]; LastSplit(rest, |rest| - 1).None?
  {
    var r := LastSplit(line, |line| - 1);
    var i, j := r.value.0, r.value.1;
    var rest := line[j + 8..];
    if LastSplit(rest, |rest| - 1).Some? {
      var i2, j2 := LastSplit(rest, |rest| - 1).value.0, LastSplit(rest, |rest| - 1).value.1;
      assert rest[j2 + 1..j2 + 8] == line[j + 8 + j2 + 1..j + 8 + j2 + 8];
      assert PathSplit(line, j + 8 + i2, j + 8 + j2);
      assert false;
    }
  }

  /** The lines of the path are rewritten independently: no match spans a line break. */
  lemma PkgNameLines(a: string, b: string)
    requires '\n' !in a
    ensures PkgName(a + "\n" + b) == RewriteLine(a) + "\n" + PkgName(b)
  {
    assert a + "\n" + b == a + ("\n" + b);
    FirstLineUpTo(a, "\n" + b);
    assert (a + "\n" + b)[|a| + 1..] == b;
  }

  /** A path without line breaks is one line. */
  lemma PkgNameOneLine(p: string)
    requires '\n' !in p
    ensures PkgName(p) == RewriteLine(p)
  {
    FirstLineUpTo(p, "");
    assert p + "" == p;
  }

  /** The line of `a + rest` the anchors see is `a` when `a` has no line break and `rest` starts with one or is empty. */
  lemma {:induction false} FirstLineUpTo(a: string, rest: string)
    requires '\n' !in a
    requires rest == [] || rest[0] == '\n'
    ensures FirstLine(a + rest) == a
    decreases |a|
  {
    if a != [] {
      assert (a + rest)[1..] == a[1..] + rest;
      FirstLineUpTo(a[1..], rest);
    } else {
      assert a + rest == rest;
    }
  }

  /**
   * The importer opens `<base>/<f>/<f>.changes`; the derived package name is
   * the directory entry `f`. A base holding line breaks is covered by
   * `PkgNameLines`: its earlier lines are rewritten on their own.
   */
  lemma PkgNameOfChangesFile(base: string, f: string)
    requires '/' !in f && '\n' !in f && '\n' !in base
    ensures PkgName(base + "/" + f + "/" + f + ".changes") == f
  {
    var p := base + "/" + f + "/" + f + ".changes";
    ChangesPathOneLine(base, f);
    PkgNameOneLine(p);
    ChangesPathSplit(base, f);
    assert p[|p|..] == "";
  }

  lemma ChangesPathOneLine(base: string, f: string)
    requires '\n' !in f && '\n' !in base
    ensures '\n' !in base + "/" + f + "/" + f + ".changes"
  {
    var p := base + "/" + f + "/" + f + ".changes";
    var i0 := |base| + 1 + |f|;
    var j0 := |p| - 8;
    forall k | 0 <= k < |p| ensures p[k] != '\n' {
      if k < |base| { assert p[k] == base[k]; }
      else if k == |base| || k == i0 { }
      else if k < i0 { assert p[k] == f[k - |base| - 1]; }
      else if k < j0 { assert p[k] == f[k - i0 - 1]; }
      else { assert p[k] == ".changes"[k - j0]; }
    }
  }

  /** In `<base>/<f>/<f>.changes` the regex splits at the slash before the file name and captures `f`. */
  lemma ChangesPathSplit(base: string, f: string)
    requires '/' !in f
    ensures var p := base + "/" + f + "/" + f + ".changes";
      LastSplit(p, |p| - 1) == Some((|base| + 1 + |f|, |p| - 8)) && p[|base| + 2 + |f|..|p| - 8] == f
  {
    var p := base + "/" + f + "/" + f + ".changes";
    var i0 := |base| + 1 + |f|;
    var j0 := |p| - 8;
    assert p[i0] == '/';
    assert p[j0 + 1..j0 + 8] == "changes";
    assert PathSplit(p, i0, j0);
    forall i | i0 < i < |p| ensures p[i] != '/' {
      if i < j0 {
        assert p[i] == f[i - i0 - 1];
      } else {
        assert p[i] == ".changes"[i - j0];
      }
    }
    var r := LastSplit(p, |p| - 1);
    assert r.Some?;
    assert r.value == (i0, j0);
    assert p[i0 + 1..j0] == f;
  }

  // ---------------------------------------------------------------------------
  // Header line: /^([A-Z][a-z][a-z].*2[0-2][0-9][0-9]) - (.*@.*)$/
  // ---------------------------------------------------------------------------

  predicate IsUpper(c: char) { 'A' <= c <= 'Z' }
  predicate IsLower(c: char) { 'a' <= c <= 'z' }
  predicate IsDigit(c: char) { '0' <= c <= '9' }

  /** The part of a line the anchors `^` ... `$` can span: up to its first line break. */
  function FirstLine(line: string): (c: string)
    ensures |c| <= |line| && '\n' !in c && c == line[..|c|]
    ensures |c| < |line| ==> line[|c|] == '\n'
  {
    if line == [] || line[0] == '\n' then "" else [line[0]] + FirstLine(line[1..])
  }

  /** The date group can end at `k`: a year 2000-2299 ends there, " - " and an address holding '@' follow. */
  predicate DateEndsAt(c: string, k: int) {
    7 <= k && k + 3 <= |c| && c[k - 4] == '2' && '0' <= c[k - 3] <= '2' && IsDigit(c[k - 2]) && IsDigit(c[k - 1])
    && c[k..k + 3] == " - " && '@' in c[k + 3..]
  }

  /** The line opens like a weekday name: an upper-case letter, then two lower-case ones. */
  predicate OpensLikeDay(c: string) {
    |c| >= 3 && IsUpper(c[0]) && IsLower(c[1]) && IsLower(c[2])
  }

  /** The last position in [7, hi] where the date group can end (the greedy `.*` backtracks from the right). */
  function LastDateEnd(c: string, hi: int): (r: Option<nat>)
    decreases hi
    ensures r.Some? ==> r.value <= hi && DateEndsAt(c, r.value)
    ensures r.Some? ==> forall k :: r.value < k <= hi ==> !DateEndsAt(c, k)
    ensures r.None? ==> forall k :: k <= hi ==> !DateEndsAt(c, k)
  {
    if hi < 7 then None
    else if DateEndsAt(c, hi) then Some(hi)
    else LastDateEnd(c, hi - 1)
  }

  /** The two captures of the header regex, (date text, address), when the line matches. */
  function MatchHeader(line: string): (m: Option<(string, string)>)
    ensures m.Some? ==> '@' in m.value.1
  {
    var c := FirstLine(line);
    if !OpensLikeDay(c) then None
    else
      match LastDateEnd(c, |c|)
      case None => None
      case Some(k) => Some((c[..k], c[k + 3..]))
  }

  /**
   * A line is a header exactly when its first physical line opens like a day
   * name and has some place where the date group can end; the captures split
   * it at the last such place, around the " - ".
   */
  lemma MatchHeaderSpec(line: string)
    ensures MatchHeader(line).Some? <==> OpensLikeDay(FirstLine(line)) && exists k :: DateEndsAt(FirstLine(line), k)
    ensures MatchHeader(line).Some? ==>
      exists k :: DateEndsAt(FirstLine(line), k)
        && (forall k' :: k < k' ==> !DateEndsAt(FirstLine(line), k'))
        && MatchHeader(line).value == (FirstLine(line)[..k], FirstLine(line)[k + 3..])
  {
    var c := FirstLine(line);
    var r := LastDateEnd(c, |c|);
    assert forall k :: DateEndsAt(c, k) ==> k <= |c|;
    if OpensLikeDay(c) && r.Some? {
      var k := r.value;
      assert MatchHeader(line) == Some((c[..k], c[k + 3..]));
      assert forall k' :: k < k' ==> !DateEndsAt(c, k');
    }
  }

  // ---------------------------------------------------------------------------
  // Address normalisation: m[2].sub('suse.cz','suse.com').sub('suse.de','suse.com')
  // ---------------------------------------------------------------------------

  /** The stored author: the first "suse.cz", then the first "suse.de", rewritten to "suse.com". */
  function CanonicalAddress(address: string): (r: string)
    ensures |r| >= |address|
  {
    ReplaceFirst(ReplaceFirst(address, "suse.cz", "suse.com"), "suse.de", "suse.com")
  }

  /** A pattern without '@' that does not occur in `u` cannot start before the domain of `u + "@" + rest`. */
  lemma NoOccurrenceBeforeDomain(u: string, rest: string, pat: string)
    requires '@' !in pat && !Contains(u, pat)
    ensures forall k :: 0 <= k <= |u| ==> !OccursAt(u + "@" + rest, pat, k)
  {
    var s := u + "@" + rest;
    forall k | 0 <= k <= |u| ensures !OccursAt(s, pat, k) {
      if k + |pat| <= |u| {
        assert s[k..k + |pat|] == u[k..k + |pat|];
        assert !OccursAt(u, pat, k);
      } else if k + |pat| <= |s| {
        assert s[k..k + |pat|][|u| - k] == '@';
      }
    }
  }

  /** An address already at the canonical domain holds neither alias. */
  lemma NoAliasAtCanonical(u: string)
    requires !Contains(u, "suse.cz") && !Contains(u, "suse.de")
    ensures !Contains(u + "@suse.com", "suse.cz") && !Contains(u + "@suse.com", "suse.de")
  {
    var t := u + "@suse.com";
    assert t == u + "@" + "suse.com";
    NoOccurrenceBeforeDomain(u, "suse.com", "suse.cz");
    NoOccurrenceBeforeDomain(u, "suse.com", "suse.de");
    forall k | |u| < k <= |t| - 7
      ensures !OccursAt(t, "suse.cz", k) && !OccursAt(t, "suse.de", k)
    {
      if k == |u| + 1 {
        assert t[k..k + 7][5] == 'c' != "suse.de"[5];
        assert t[k..k + 7][6] == 'o' != "suse.cz"[6];
      } else {
        assert t[k..k + 7][0] == 'u' != "suse.cz"[0];
      }
    }
  }

  /** Addresses at the two alias domains, and at the canonical one, end at the canonical domain when their local part holds neither alias. */
  lemma CanonicalDomain(u: string, domain: string)
    requires domain == "suse.cz" || domain == "suse.de" || domain == "suse.com"
    requires !Contains(u, "suse.cz") && !Contains(u, "suse.de")
    ensures CanonicalAddress(u + "@" + domain) == u + "@suse.com"
  {
    var s := u + "@" + domain;
    var t := u + "@suse.com";
    assert t == u + "@" + "suse.com";
    NoAliasAtCanonical(u);
    if domain == "suse.cz" {
      NoOccurrenceBeforeDomain(u, domain, "suse.cz");
      assert s[|u| + 1..] == "suse.cz";
      assert FirstOccurrence(s, "suse.cz", |u| + 1);
      assert ReplaceFirst(s, "suse.cz", "suse.com") == t;
    } else if domain == "suse.de" {
      NoOccurrenceBeforeDomain(u, domain, "suse.cz");
      NoOccurrenceBeforeDomain(u, domain, "suse.de");
      assert s[|u| + 1..] == "suse.de";
      assert !Contains(s, "suse.cz") by {
        forall k | |u| < k <= |s| - 7 ensures !OccursAt(s, "suse.cz", k) {
          assert s[k..k + 7][5] == 'd' != "suse.cz"[5];
        }
      }
      assert FirstOccurrence(s, "suse.de", |u| + 1);
    } else {
      assert s == t;
    }
  }

  // ---------------------------------------------------------------------------
  // The state machine of process_file
  // ---------------------------------------------------------------------------

  /** `n` copies of `c`. */
  function Repeat(c: char, n: nat): (r: string)
    ensures |r| == n && forall k :: 0 <= k < n ==> r[k] == c
  {
    if n == 0 then "" else [c] + Repeat(c, n - 1)
  }

  /** The terminator regex at process_stats.rb:110: a run of 67 hyphens. */
  const TerminatorRun: string := Repeat('-', 67)


  /** The regex is unanchored: a line is a terminator when it contains the run anywhere. */
  predicate IsTerminator(line: string) {
    Contains(line, TerminatorRun)
  }

  /** The accumulators `email`, `date` and `text` between two terminators. */
  datatype Acc = Acc(email: string, date: When, text: string)

  /** All three accumulators reset, as at the start of the file and after every terminator. */
  const Fresh: Acc := Acc("", Unset, "")

  /** `DateTime.parse`, with the rescue that falls back to the epoch. */
  function DateOf(datePart: string, parse: string -> Option<int>): (w: When)
    ensures w.At?
  {
    match parse(datePart)
    case Some(t) => At(t)
    case None => At(Epoch)
  }

  /** The header branch is taken only while no header has been seen since the last terminator. */
  predicate TakesHeader(acc: Acc, line: string) {
    acc.email == "" && acc.date == Unset && MatchHeader(line).Some?
  }

  /** The effect of a line that is not a terminator: a header fills email and date, any other line joins the text. */
  function Absorb(acc: Acc, line: string, parse: string -> Option<int>): Acc {
    if TakesHeader(acc, line) then
      var (datePart, address) := MatchHeader(line).value;
      Acc(CanonicalAddress(address), DateOf(datePart, parse), acc.text)
    else
      acc.(text := acc.text + line)
  }

  /**
   * Once a header is taken the email is non-empty, so later header-like lines
   * of the same block join the text, and the test on the date (which now
   * holds a timestamp, not a string) is never reached.
   */
  lemma HeaderTakenOnce(acc: Acc, line: string, next: string, parse: string -> Option<int>)
    requires TakesHeader(acc, line)
    ensures Absorb(acc, line, parse).email != ""
    ensures !TakesHeader(Absorb(acc, line, parse), next)
    ensures Absorb(Absorb(acc, line, parse), next, parse).email == Absorb(acc, line, parse).email
  {
    var address := MatchHeader(line).value.1;
    assert '@' in address;
  }

  /** An entry as the splitter produces it: in its package, unscored, with stripped non-empty text. */
  predicate WellFormed(c: Change, pkg: string) {
    c.pkg == pkg && c.points == 0 && c.text != "" && Strip(c.text) == c.text
  }

  /** What a terminator emits: the block, if its stripped text is not empty. */
  function Close(acc: Acc, pkg: string): (r: seq<Change>)
    ensures |r| <= 1
    ensures r != [] <==> Strip(acc.text) != ""
    ensures forall c :: c in r ==> WellFormed(c, pkg) && c.email == acc.email && c.date == acc.date
  {
    var t := Strip(acc.text);
    StripIdempotent(acc.text);
    if t == "" then [] else [Change(acc.email, acc.date, pkg, t, 0)]
  }

  function TerminatorCount(lines: seq<string>): nat {
    if lines == [] then 0 else (if IsTerminator(lines[0]) then 1 else 0) + TerminatorCount(lines[1..])
  }

  /** The candidate entries the scan emits from state `acc` over `lines`, in file order. */
  function Emitted(acc: Acc, lines: seq<string>, pkg: string, parse: string -> Option<int>): (r: seq<Change>)
    decreases |lines|
    ensures |r| <= TerminatorCount(lines)
    ensures forall c :: c in r ==> WellFormed(c, pkg)
  {
    if lines == [] then []
    else if IsTerminator(lines[0]) then Close(acc, pkg) + Emitted(Fresh, lines[1..], pkg, parse)
    else Emitted(Absorb(acc, lines[0], parse), lines[1..], pkg, parse)
  }

  /** The candidate entries of a whole file. */
  function Candidates(lines: seq<string>, pkg: string, parse: string -> Option<int>): seq<Change> {
    Emitted(Fresh, lines, pkg, parse)
  }

  /** The state after absorbing `lines` (used on stretches without a terminator). */
  function Feed(acc: Acc, lines: seq<string>, parse: string -> Option<int>): Acc
    decreases |lines|
  {
    if lines == [] then acc else Feed(Absorb(acc, lines[0], parse), lines[1..], parse)
  }

  // ---------------------------------------------------------------------------
  // Reference reading of a file: terminator-closed blocks
  // ---------------------------------------------------------------------------

  /** The index of the first element that satisfies `p`. */
  function FirstWhere<T>(s: seq<T>, p: T -> bool): (r: Option<nat>)
    ensures r.Some? ==> r.value < |s| && p(s[r.value])
    ensures r.Some? ==> forall k :: 0 <= k < r.value ==> !p(s[k])
    ensures r.None? ==> forall k :: 0 <= k < |s| ==> !p(s[k])
  {
    if s == [] then None
    else if p(s[0]) then Some(0)
    else match FirstWhere(s[1..], p)
      case None =>
        assert forall k :: 1 <= k < |s| ==> s[k] == s[1..][k - 1];
        None
      case Some(h) =>
        assert forall k :: 1 <= k <= h ==> s[k] == s[1..][k - 1];
        Some(h + 1)
  }

  /** The index of the first terminator line. */
  function FirstTerminator(lines: seq<string>): (r: Option<nat>)
    ensures r.Some? ==> r.value < |lines| && IsTerminator(lines[r.value])
    ensures r.Some? ==> forall k :: 0 <= k < r.value ==> !IsTerminator(lines[k])
    ensures r.None? ==> forall k :: 0 <= k < |lines| ==> !IsTerminator(lines[k])
  {
    FirstWhere(lines, IsTerminator)
  }

  /** The blocks closed by a terminator, in file order, without their terminators; what follows the last terminator is not a block. */
  function Blocks(lines: seq<string>): (r: seq<seq<string>>)
    decreases |lines|
    ensures |r| == TerminatorCount(lines)
    ensures forall b, k :: b in r && 0 <= k < |b| ==> !IsTerminator(b[k])
  {
    match FirstTerminator(lines)
    case None =>
      NoTerminatorCount(lines);
      []
    case Some(t) =>
      TerminatorCountSplit(lines, t);
      [lines[..t]] + Blocks(lines[t + 1..])
  }

  lemma {:induction false} NoTerminatorCount(lines: seq<string>)
    requires forall k :: 0 <= k < |lines| ==> !IsTerminator(lines[k])
    ensures TerminatorCount(lines) == 0
  {
    if lines != [] {
      NoTerminatorCount(lines[1..]);
    }
  }

  lemma {:induction false} TerminatorCountSplit(lines: seq<string>, t: nat)
    requires t < |lines| && IsTerminator(lines[t])
    requires forall k :: 0 <= k < t ==> !IsTerminator(lines[k])
    ensures TerminatorCount(lines) == 1 + TerminatorCount(lines[t + 1..])
  {
    if t > 0 {
      TerminatorCountSplit(lines[1..], t - 1);
      assert lines[1..][t..] == lines[t + 1..];
    }
  }

  /** The line matches the header pattern. */
  predicate IsHeader(line: string) {
    MatchHeader(line).Some?
  }

  /** The index of the first line of a block that matches the header pattern. */
  function HeaderIndex(block: seq<string>): (r: Option<nat>)
    ensures r.Some? ==> r.value < |block| && MatchHeader(block[r.value]).Some?
    ensures r.Some? ==> forall k :: 0 <= k < r.value ==> MatchHeader(block[k]).None?
    ensures r.None? ==> forall k :: 0 <= k < |block| ==> MatchHeader(block[k]).None?
  {
    FirstWhere(block, IsHeader)
  }

  /** A block's author and date: from its first header line, or empty when it has none. */
  function HeaderFields(block: seq<string>, parse: string -> Option<int>): (string, When) {
    match HeaderIndex(block)
    case None => ("", Unset)
    case Some(h) =>
      var (datePart, address) := MatchHeader(block[h]).value;
      (CanonicalAddress(address), DateOf(datePart, parse))
  }

  /** A block's body: every line but its first header line, later header-like lines included. */
  function BlockText(block: seq<string>): string {
    match HeaderIndex(block)
    case None => Concat(block)
    case Some(h) => Concat(block[..h]) + Concat(block[h + 1..])
  }

  /** The entry a terminator-closed block stands for. */
  function BlockEntry(block: seq<string>, pkg: string, parse: string -> Option<int>): Change {
    var (email, date) := HeaderFields(block, parse);
    Change(email, date, pkg, Strip(BlockText(block)), 0)
  }

  /** The entries of the blocks whose stripped text is not empty. */
  function Entries(blocks: seq<seq<string>>, pkg: string, parse: string -> Option<int>): seq<Change> {
    if blocks == [] then []
    else
      var e := BlockEntry(blocks[0], pkg, parse);
      (if e.text != "" then [e] else []) + Entries(blocks[1..], pkg, parse)
  }

  // ---------------------------------------------------------------------------
  // The scan agrees with the reference reading
  // ---------------------------------------------------------------------------

  /** Once a header has been taken, every further line of the block is body text, header-like or not. */
  lemma {:induction false} FeedAfterHeader(acc: Acc, block: seq<string>, parse: string -> Option<int>)
    requires acc.email != ""
    decreases |block|
    ensures Feed(acc, block, parse) == acc.(text := acc.text + Concat(block))
  {
    if block != [] {
      FeedAfterHeader(acc.(text := acc.text + block[0]), block[1..], parse);
    }
  }

  /** A block whose first line is not a header reads as that line followed by the rest of the block. */
  lemma BlockAfterBodyLine(block: seq<string>, parse: string -> Option<int>)
    requires block != [] && MatchHeader(block[0]).None?
    ensures HeaderFields(block, parse) == HeaderFields(block[1..], parse)
    ensures BlockText(block) == block[0] + BlockText(block[1..])
  {
    assert Concat(block) == block[0] + Concat(block[1..]);
    match HeaderIndex(block[1..])
    case None =>
    case Some(h) =>
      assert HeaderIndex(block) == Some(h + 1);
      SplitAfterFirst(block, h);
  }

  /** Cutting a block around line `h + 1` is cutting its tail around line `h`, behind the first line. */
  lemma SplitAfterFirst(block: seq<string>, h: nat)
    requires h + 1 < |block|
    ensures Concat(block[..h + 1]) + Concat(block[h + 2..]) == block[0] + (Concat(block[1..][..h]) + Concat(block[1..][h + 1..]))
  {
    var rest := block[1..];
    assert block[..h + 1] == [block[0]] + rest[..h];
    assert block[h + 2..] == rest[h + 1..];
    ConcatAppend([block[0]], rest[..h]);
    Associative(block[0], Concat(rest[..h]), Concat(rest[h + 1..]));
  }

  /** A block whose first line is a header takes its author and date from it, and all later lines as body. */
  lemma BlockAfterHeaderLine(block: seq<string>, parse: string -> Option<int>)
    requires block != [] && MatchHeader(block[0]).Some?
    ensures HeaderFields(block, parse)
         == (CanonicalAddress(MatchHeader(block[0]).value.1), DateOf(MatchHeader(block[0]).value.0, parse))
    ensures BlockText(block) == Concat(block[1..])
  {
    assert HeaderIndex(block) == Some(0);
    assert block[..0] == [];
  }

  /** From an empty header, absorbing a block takes its first header line and appends every other line. */
  lemma {:induction false} FeedBlock(text: string, block: seq<string>, parse: string -> Option<int>)
    decreases |block|
    ensures Feed(Acc("", Unset, text), block, parse)
         == Acc(HeaderFields(block, parse).0, HeaderFields(block, parse).1, text + BlockText(block))
  {
    if block != [] {
      var acc := Acc("", Unset, text);
      if MatchHeader(block[0]).Some? {
        var next := Absorb(acc, block[0], parse);
        FeedAfterHeader(next, block[1..], parse);
        BlockAfterHeaderLine(block, parse);
      } else {
        FeedBlock(text + block[0], block[1..], parse);
        BlockAfterBodyLine(block, parse);
      }
    }
  }

  /** A stretch of lines without a terminator emits nothing and only moves the state. */
  lemma {:induction false} Advance(acc: Acc, lines: seq<string>, t: nat, pkg: string, parse: string -> Option<int>)
    requires t <= |lines|
    requires forall k :: 0 <= k < t ==> !IsTerminator(lines[k])
    decreases t
    ensures Emitted(acc, lines, pkg, parse) == Emitted(Feed(acc, lines[..t], parse), lines[t..], pkg, parse)
  {
    if t > 0 {
      Advance(Absorb(acc, lines[0], parse), lines[1..], t - 1, pkg, parse);
      assert lines[..t][1..] == lines[1..][..t - 1];
      assert lines[1..][t - 1..] == lines[t..];
    }
  }

  /**
   * The scan emits exactly the entries of the terminator-closed blocks whose
   * stripped text is not empty, in file order.
   */
  lemma {:induction false} CandidatesAreBlockEntries(lines: seq<string>, pkg: string, parse: string -> Option<int>)
    decreases |lines|
    ensures Candidates(lines, pkg, parse) == Entries(Blocks(lines), pkg, parse)
  {
    match FirstTerminator(lines)
    case None =>
      NoTerminatorCount(lines);
    case Some(t) =>
      ScanFirstBlock(lines, t, pkg, parse);
      CandidatesAreBlockEntries(lines[t + 1..], pkg, parse);
      assert Blocks(lines) == [lines[..t]] + Blocks(lines[t + 1..]);
  }

  /** The first block yields its entry when its stripped text is not empty. */
  lemma EntriesHead(blocks: seq<seq<string>>, pkg: string, parse: string -> Option<int>)
    requires blocks != [] && BlockEntry(blocks[0], pkg, parse).text != ""
    ensures BlockEntry(blocks[0], pkg, parse) in Entries(blocks, pkg, parse)
  {
  }

  /** The entries of the later blocks are among the entries of all of them. */
  lemma EntriesTail(blocks: seq<seq<string>>, x: Change, pkg: string, parse: string -> Option<int>)
    requires blocks != [] && x in Entries(blocks[1..], pkg, parse)
    ensures x in Entries(blocks, pkg, parse)
  {
  }

  /** Every block whose stripped text is not empty yields its entry. */
  lemma {:induction false} EntriesHas(blocks: seq<seq<string>>, block: seq<string>, pkg: string, parse: string -> Option<int>)
    requires block in blocks && BlockEntry(block, pkg, parse).text != ""
    ensures BlockEntry(block, pkg, parse) in Entries(blocks, pkg, parse)
  {
    if blocks[0] == block {
      EntriesHead(blocks, pkg, parse);
    } else {
      EntriesHas(blocks[1..], block, pkg, parse);
      EntriesTail(blocks, BlockEntry(block, pkg, parse), pkg, parse);
    }
  }

  /**
   * The date `process_file` hands to the store for a block with text: empty
   * when the block has no header line; else the parsed date of its first
   * header line, or 1970-01-01 00:00 UTC when that date does not parse.
   */
  lemma StoredDate(lines: seq<string>, b: nat, pkg: string, parse: string -> Option<int>)
    requires b < |Blocks(lines)| && Strip(BlockText(Blocks(lines)[b])) != ""
    ensures BlockEntry(Blocks(lines)[b], pkg, parse) in Candidates(lines, pkg, parse)
    ensures HeaderIndex(Blocks(lines)[b]).None? ==>
              BlockEntry(Blocks(lines)[b], pkg, parse).date == Unset
              && BlockEntry(Blocks(lines)[b], pkg, parse).email == ""
    ensures HeaderIndex(Blocks(lines)[b]).Some? ==>
              var datePart := MatchHeader(Blocks(lines)[b][HeaderIndex(Blocks(lines)[b]).value]).value.0;
              parse(datePart).None? ==> BlockEntry(Blocks(lines)[b], pkg, parse).date == At(Epoch)
    ensures HeaderIndex(Blocks(lines)[b]).Some? ==>
              var datePart := MatchHeader(Blocks(lines)[b][HeaderIndex(Blocks(lines)[b]).value]).value.0;
              parse(datePart).Some? ==> BlockEntry(Blocks(lines)[b], pkg, parse).date == At(parse(datePart).value)
  {
    CandidatesAreBlockEntries(lines, pkg, parse);
    EntriesHas(Blocks(lines), Blocks(lines)[b], pkg, parse);
  }

  /** The scan up to the first terminator emits that block's entry, unless its text is empty, then starts afresh. */
  lemma ScanFirstBlock(lines: seq<string>, t: nat, pkg: string, parse: string -> Option<int>)
    requires FirstTerminator(lines) == Some(t)
    ensures Candidates(lines, pkg, parse)
         == (if BlockEntry(lines[..t], pkg, parse).text != "" then [BlockEntry(lines[..t], pkg, parse)] else [])
            + Candidates(lines[t + 1..], pkg, parse)
  {
    var block := lines[..t];
    Advance(Fresh, lines, t, pkg, parse);
    FeedBlock("", block, parse);
    assert "" + BlockText(block) == BlockText(block);
    assert lines[t..][1..] == lines[t + 1..];
  }

  /** Lines after the last terminator never become an entry: a final block without a terminator is dropped. */
  lemma {:induction false} TrailingBlockDropped(acc: Acc, lines: seq<string>, tail: seq<string>, pkg: string, parse: string -> Option<int>)
    requires forall k :: 0 <= k < |tail| ==> !IsTerminator(tail[k])
    decreases |lines|
    ensures Emitted(acc, lines + tail, pkg, parse) == Emitted(acc, lines, pkg, parse)
  {
    if lines == [] {
      NoTerminatorCount(tail);
      assert lines + tail == tail;
    } else {
      assert (lines + tail)[1..] == lines[1..] + tail;
      if IsTerminator(lines[0]) {
        TrailingBlockDropped(Fresh, lines[1..], tail, pkg, parse);
      } else {
        TrailingBlockDropped(Absorb(acc, lines[0], parse), lines[1..], tail, pkg, parse);
      }
    }
  }

  /** The literal is 67 hyphens: a line of 66 is body text, and any line holding 67 in a row is a terminator. */
  lemma TerminatorLength(line: string, i: nat)
    requires i + 67 <= |line| && forall k :: i <= k < i + 67 ==> line[k] == '-'
    ensures IsTerminator(line)
    ensures !IsTerminator(TerminatorRun[1..])
  {
    assert line[i..i + 67] == TerminatorRun;
    assert OccursAt(line, TerminatorRun, i);
  }
}
