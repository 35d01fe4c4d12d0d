/**
 * The summary step (process_stats.rb:196-249): point sums per author and
 * per package, ranked by descending sum, the two thresholds, the listing of
 * an author's top packages with its overflow flag, and the digest that is
 * mailed or printed for each author with a non-empty listing.
 */
module Report {
  import opened Optional
  import opened Sorting
  import opened Changes

  // ---------------------------------------------------------------------------
  // Aggregation: GROUP BY with sum(points)
  // ---------------------------------------------------------------------------

  /** The values of `xs`, each once, in order of first occurrence. */
  function Distinct(xs: seq<string>): (r: seq<string>)
    ensures forall x :: x in r <==> x in xs
    ensures NoDuplicates(r)
  {
    if xs == [] then []
    else
      var n := |xs| - 1;
      var front := Distinct(xs[..n]);
      assert xs == xs[..n] + [xs[n]];
      if xs[n] in front then front else front + [xs[n]]
  }

  /** The email of every row, in table order. */
  function EmailsOf(rows: seq<Change>): (r: seq<string>)
    ensures forall e :: e in r <==> exists k :: 0 <= k < |rows| && rows[k].email == e
  {
    var r := seq(|rows|, k requires 0 <= k < |rows| => rows[k].email);
    assert forall k :: 0 <= k < |rows| ==> r[k] == rows[k].email;
    r
  }

  /** The packages of `email`'s rows, in table order. */
  function PackagesOf(rows: seq<Change>, email: string): (r: seq<string>)
    ensures forall p :: p in r <==> exists k :: 0 <= k < |rows| && rows[k].email == email && rows[k].pkg == p
  {
    if rows == [] then []
    else
      var n := |rows| - 1;
      assert forall k :: 0 <= k < n ==> rows[..n][k] == rows[k];
      PackagesOf(rows[..n], email) + (if rows[n].email == email then [rows[n].pkg] else [])
  }

  /** `sum(points)` over the rows of `email`. */
  function AuthorSum(rows: seq<Change>, email: string): int {
    if rows == [] then 0
    else
      var n := |rows| - 1;
      AuthorSum(rows[..n], email) + (if rows[n].email == email then rows[n].points else 0)
  }

  /** `sum(points)` over the rows of `email` in package `pkg`. */
  function PackageSum(rows: seq<Change>, email: string, pkg: string): int {
    if rows == [] then 0
    else
      var n := |rows| - 1;
      PackageSum(rows[..n], email, pkg) + (if rows[n].email == email && rows[n].pkg == pkg then rows[n].points else 0)
  }

  /** The sums of `email`'s packages `ps`, added up. */
  function PackageSums(rows: seq<Change>, email: string, ps: seq<string>): int {
    if ps == [] then 0 else PackageSum(rows, email, ps[0]) + PackageSums(rows, email, ps[1..])
  }

  /** One more row adds its points to the package sums exactly when it is `email`'s and its package is among `ps`. */
  lemma {:induction false} PackageSumsSnoc(rows: seq<Change>, c: Change, email: string, ps: seq<string>)
    requires NoDuplicates(ps)
    ensures PackageSums(rows + [c], email, ps)
         == PackageSums(rows, email, ps) + (if c.email == email && c.pkg in ps then c.points else 0)
  {
    if ps != [] {
      assert (rows + [c])[..|rows|] == rows;
      assert NoDuplicates(ps[1..]) by {
        forall i, j | 0 <= i < j < |ps[1..]| ensures ps[1..][i] != ps[1..][j] {
          assert ps[1..][i] == ps[i + 1] && ps[1..][j] == ps[j + 1];
        }
      }
      if c.pkg == ps[0] {
        forall k | 0 <= k < |ps[1..]| ensures ps[1..][k] != c.pkg {
          assert ps[1..][k] == ps[k + 1];
        }
      }
      PackageSumsSnoc(rows, c, email, ps[1..]);
    }
  }

  /** Summing an author's rows package by package gives the author's sum, for any duplicate-free list covering the author's packages. */
  lemma {:induction false} AuthorSumByPackages(rows: seq<Change>, email: string, ps: seq<string>)
    requires NoDuplicates(ps)
    requires forall k :: 0 <= k < |rows| && rows[k].email == email ==> rows[k].pkg in ps
    ensures AuthorSum(rows, email) == PackageSums(rows, email, ps)
  {
    if rows == [] {
      if ps != [] {
        AuthorSumByPackages(rows, email, ps[1..]);
      }
    } else {
      var n := |rows| - 1;
      assert rows == rows[..n] + [rows[n]];
      assert forall k :: 0 <= k < n ==> rows[..n][k] == rows[k];
      AuthorSumByPackages(rows[..n], email, ps);
      PackageSumsSnoc(rows[..n], rows[n], email, ps);
    }
  }

  /** An author's `points_sum` is the sum of the `points_sum` of each of the author's packages. */
  lemma AuthorSumOfPackages(rows: seq<Change>, email: string)
    ensures AuthorSum(rows, email) == PackageSums(rows, email, Distinct(PackagesOf(rows, email)))
  {
    var ps := Distinct(PackagesOf(rows, email));
    forall k | 0 <= k < |rows| && rows[k].email == email ensures rows[k].pkg in ps {
      assert rows[k].pkg in PackagesOf(rows, email);
    }
    AuthorSumByPackages(rows, email, ps);
  }

  /** Groups compared by `points_sum`, larger first. */
  function ByPointsDesc(): ((string, int), (string, int)) -> bool {
    (a: (string, int), b: (string, int)) => a.1 >= b.1
  }

  /** Each group name paired with its sum. */
  function Pairs(keys: seq<string>, sum: string -> int): (r: seq<(string, int)>)
    ensures |r| == |keys|
  {
    seq(|keys|, k requires 0 <= k < |keys| => (keys[k], sum(keys[k])))
  }

  /** `... .order("points_sum DESC")`: the groups by descending sum. */
  function Rank(keys: seq<string>, sum: string -> int): seq<(string, int)> {
    Sort(Pairs(keys, sum), ByPointsDesc())
  }

  /** Sums do not increase along the ranking. */
  predicate Descending(r: seq<(string, int)>) {
    forall i, j :: 0 <= i < j < |r| ==> r[i].1 >= r[j].1
  }

  /** `name` has an entry in the ranking. */
  predicate Ranked(r: seq<(string, int)>, name: string) {
    exists i :: 0 <= i < |r| && r[i].0 == name
  }

  /** No name has two entries. */
  predicate DistinctNames(r: seq<(string, int)>) {
    forall i, j :: 0 <= i < j < |r| ==> r[i].0 != r[j].0
  }

  /** A ranking lists every group once, with its sum, by descending sum. */
  lemma RankSpec(keys: seq<string>, sum: string -> int)
    requires NoDuplicates(keys)
    ensures Descending(Rank(keys, sum)) && DistinctNames(Rank(keys, sum))
    ensures forall i :: 0 <= i < |Rank(keys, sum)| ==> Rank(keys, sum)[i].1 == sum(Rank(keys, sum)[i].0)
    ensures forall x :: Ranked(Rank(keys, sum), x) <==> x in keys
  {
    var le := ByPointsDesc();
    var ps := Pairs(keys, sum);
    var r := Rank(keys, sum);
    forall a: (string, int), b: (string, int) ensures le(a, b) || le(b, a) {
    }
    forall a: (string, int), b: (string, int), c: (string, int) | le(a, b) && le(b, c) ensures le(a, c) {
    }
    SortSorted(ps, le);
    forall i | 0 <= i < |r| ensures r[i] in ps {
      SortSameElements(ps, le, r[i]);
    }
    forall x ensures Ranked(r, x) <==> x in keys {
      if x in keys {
        var k :| 0 <= k < |keys| && keys[k] == x;
        assert ps[k] in ps;
        SortSameElements(ps, le, ps[k]);
        var i :| 0 <= i < |r| && r[i] == ps[k];
      }
      if Ranked(r, x) {
        var i :| 0 <= i < |r| && r[i].0 == x;
        assert r[i] in ps;
      }
    }
    assert NoDuplicates(ps) by {
      forall i, j | 0 <= i < j < |ps| ensures ps[i] != ps[j] {
        assert ps[i].0 == keys[i] && ps[j].0 == keys[j];
      }
    }
    PermutationNoDuplicates(ps, r);
    forall i, j | 0 <= i < j < |r| ensures r[i].0 != r[j].0 {
      assert r[i] in ps && r[j] in ps;
    }
  }

  /** `Change.group(:email)...order("points_sum DESC")`: authors by descending point sum. */
  function AuthorRanking(rows: seq<Change>): seq<(string, int)> {
    Rank(Distinct(EmailsOf(rows)), e => AuthorSum(rows, e))
  }

  /** `Change.where(:email => email).group(:pkg)...order("points_sum DESC")`: an author's packages by descending sum. */
  function PackageRanking(rows: seq<Change>, email: string): seq<(string, int)> {
    Rank(Distinct(PackagesOf(rows, email)), p => PackageSum(rows, email, p))
  }

  /** Some row has author `email`. */
  predicate Wrote(rows: seq<Change>, email: string) {
    exists k :: 0 <= k < |rows| && rows[k].email == email
  }

  /** Some row has author `email` and package `pkg`. */
  predicate Touched(rows: seq<Change>, email: string, pkg: string) {
    exists k :: 0 <= k < |rows| && rows[k].email == email && rows[k].pkg == pkg
  }

  /** The author ranking has one entry per author in the table, with that author's sum, by descending sum. */
  lemma AuthorRankingSpec(rows: seq<Change>)
    ensures Descending(AuthorRanking(rows)) && DistinctNames(AuthorRanking(rows))
    ensures forall i :: 0 <= i < |AuthorRanking(rows)| ==> AuthorRanking(rows)[i].1 == AuthorSum(rows, AuthorRanking(rows)[i].0)
    ensures forall e :: Ranked(AuthorRanking(rows), e) <==> Wrote(rows, e)
  {
    var keys := Distinct(EmailsOf(rows));
    RankSpec(keys, e => AuthorSum(rows, e));
    forall e ensures e in keys <==> Wrote(rows, e) {
      assert e in EmailsOf(rows) <==> Wrote(rows, e);
    }
  }

  /** An author's package ranking has one entry per package the author touched, with its sum, by descending sum. */
  lemma PackageRankingSpec(rows: seq<Change>, email: string)
    ensures Descending(PackageRanking(rows, email)) && DistinctNames(PackageRanking(rows, email))
    ensures forall i :: 0 <= i < |PackageRanking(rows, email)| ==>
      PackageRanking(rows, email)[i].1 == PackageSum(rows, email, PackageRanking(rows, email)[i].0)
    ensures forall p :: Ranked(PackageRanking(rows, email), p) <==> Touched(rows, email, p)
  {
    var keys := Distinct(PackagesOf(rows, email));
    RankSpec(keys, p => PackageSum(rows, email, p));
    forall p ensures p in keys <==> Touched(rows, email, p) {
      assert p in PackagesOf(rows, email) <==> Touched(rows, email, p);
    }
  }

  // ---------------------------------------------------------------------------
  // Listing an author's packages
  // ---------------------------------------------------------------------------

  /**
   * The package at rank `j` (0-based) is listed: the counter is already
   * `j + 1` when it is tested against 10, and the sum must exceed the bound.
   */
  predicate Keeps(r: seq<(string, int)>, bound: int, j: int) {
    0 <= j < |r| && r[j].1 > bound && j + 1 < 10
  }

  /** The packages written as bullets, in ranking order. */
  function Listed(r: seq<(string, int)>, bound: int): (l: seq<string>)
    ensures |l| <= |r| && |l| <= 9
  {
    if r == [] then []
    else
      var n := |r| - 1;
      Listed(r[..n], bound) + (if Keeps(r, bound, n) then [r[n].0] else [])
  }

  /** The `others` flag: some ranked package was not listed. */
  predicate Others(r: seq<(string, int)>, bound: int) {
    exists j :: 0 <= j < |r| && !Keeps(r, bound, j)
  }

  /** The names of a ranking. */
  function Names(r: seq<(string, int)>): (s: seq<string>)
    ensures |s| == |r|
  {
    seq(|r|, k requires 0 <= k < |r| => r[k].0)
  }

  /**
   * On a descending ranking the listing is its top: the longest prefix of at
   * most 9 packages whose sums all exceed the bound.
   */
  lemma {:induction false} ListedIsTop(r: seq<(string, int)>, bound: int)
    requires Descending(r)
    ensures Listed(r, bound) == Names(r[..|Listed(r, bound)|])
    ensures forall j :: 0 <= j < |Listed(r, bound)| ==> r[j].1 > bound
    ensures |Listed(r, bound)| < |r| && |Listed(r, bound)| < 9 ==> r[|Listed(r, bound)|].1 <= bound
  {
    if r != [] {
      var n := |r| - 1;
      var front := r[..n];
      assert Descending(front);
      ListedIsTop(front, bound);
      var l := Listed(front, bound);
      var m := |l|;
      if Keeps(r, bound, n) {
        assert Listed(r, bound) == l + [r[n].0];
        assert forall j :: 0 <= j < n ==> front[j].1 >= r[n].1;
        AllAbove(front, bound, m);
        assert front[..m] == front;
        assert Names(r) == Names(front) + [r[n].0];
      } else {
        assert Listed(r, bound) == l;
        assert r[..m] == front[..m];
      }
    }
  }

  /** A ranking whose sums all exceed the bound has no first entry at or below it. */
  lemma AllAbove(r: seq<(string, int)>, bound: int, m: nat)
    requires m <= |r|
    requires forall j :: 0 <= j < |r| ==> r[j].1 > bound
    requires m < |r| ==> r[m].1 <= bound
    ensures m == |r|
  {
  }

  /** Every package is listed exactly when `others` stays false. */
  lemma {:induction false} OthersIff(r: seq<(string, int)>, bound: int)
    ensures Others(r, bound) <==> |Listed(r, bound)| < |r|
  {
    if r != [] {
      var n := |r| - 1;
      var front := r[..n];
      OthersIff(front, bound);
      if Others(front, bound) {
        var j :| 0 <= j < n && !Keeps(front, bound, j);
        assert !Keeps(r, bound, j);
      }
      if Others(r, bound) && !Others(front, bound) {
        var j :| 0 <= j < |r| && !Keeps(r, bound, j);
        if j < n {
          assert !Keeps(front, bound, j);
        }
      }
    }
  }

  /** On a descending ranking something is listed exactly when the top package's sum exceeds the bound. */
  lemma ListedNonEmptyIff(r: seq<(string, int)>, bound: int)
    requires Descending(r)
    ensures Listed(r, bound) != [] <==> r != [] && r[0].1 > bound
  {
    ListedIsTop(r, bound);
  }

  /** Ranking one more package. */
  lemma ListedSnoc(r: seq<(string, int)>, bound: int, n: nat)
    requires n < |r|
    ensures Listed(r[..n + 1], bound) == Listed(r[..n], bound) + (if Keeps(r, bound, n) then [r[n].0] else [])
    ensures Others(r[..n + 1], bound) <==> Others(r[..n], bound) || !Keeps(r, bound, n)
  {
    var front := r[..n + 1];
    assert front[..n] == r[..n];
    assert Keeps(front, bound, n) == Keeps(r, bound, n);
    if Others(r[..n], bound) {
      var j :| 0 <= j < n && !Keeps(r[..n], bound, j);
      assert !Keeps(front, bound, j);
    }
    if Others(front, bound) {
      var j :| 0 <= j <= n && !Keeps(front, bound, j);
      if j < n {
        assert !Keeps(r[..n], bound, j);
      }
    }
  }

  /** The loop over an author's ranked packages: the bullets, the `others` flag and the counter `i`. */
  method ListPackages(ranking: seq<(string, int)>, bound: int) returns (listed: seq<string>, others: bool, count: nat)
    ensures listed == Listed(ranking, bound)
    ensures others == Others(ranking, bound)
    ensures count == |ranking|
  {
    listed, others, count := [], false, 0;
    while count < |ranking|
      invariant count <= |ranking|
      invariant listed == Listed(ranking[..count], bound)
      invariant others == Others(ranking[..count], bound)
    {
      var (pkg, sum) := ranking[count];
      ListedSnoc(ranking, bound, count);
      count := count + 1;
      if sum > bound && count < 10 {
        listed := listed + [pkg];
      } else {
        others := true;
      }
    }
    assert ranking[..count] == ranking;
  }

  // ---------------------------------------------------------------------------
  // Digests
  // ---------------------------------------------------------------------------

  /**
   * The lines of a digest. The fixed English paragraphs are abstracted:
   * `Greeting` is the mail's headers and opening, `Namely` the lead-in of
   * the list, `Appeal` the closing request, `AskAbout` the printed line
   * naming the recipient. `Bullet(p)` is `   * p`, `Ellipsis` is `   ...`.
   */
  datatype Line = Greeting | Namely | Bullet(pkg: string) | Ellipsis | Blank | Appeal | AskAbout(recipient: string)

  /** A mail handed to sendmail, or the text printed instead. */
  datatype Digest = Mail(recipient: string, body: seq<Line>) | Printed(recipient: string, body: seq<Line>)

  /** The integer forms of `ethreshold * default_points` and `pthreshold * default_points` (a sum exceeds a real bound exactly when it exceeds its floor). */
  datatype Thresholds = Thresholds(authorBound: int, packageBound: int)

  function BulletLines(listed: seq<string>): (r: seq<Line>)
    ensures |r| == |listed|
  {
    seq(|listed|, k requires 0 <= k < |listed| => Bullet(listed[k]))
  }

  function EllipsisIf(others: bool): seq<Line> {
    if others then [Ellipsis] else []
  }

  /** The mail: the list, with its lead-in and ellipsis, only when more than two packages were counted. */
  function MailBody(listed: seq<string>, others: bool, count: nat): seq<Line> {
    [Greeting]
    + (if count > 2 then [Namely, Blank] + BulletLines(listed) + EllipsisIf(others) + [Blank] else [])
    + [Appeal]
  }

  /** The printed form: the list is always shown. */
  function PrintBody(email: string, listed: seq<string>, others: bool): seq<Line> {
    [AskAbout(email), Blank] + BulletLines(listed) + EllipsisIf(others) + [Blank]
  }

  /** The packages a digest's lines name, in order. */
  function Bullets(body: seq<Line>): seq<string> {
    if body == [] then [] else (if body[0].Bullet? then [body[0].pkg] else []) + Bullets(body[1..])
  }

  lemma {:induction false} BulletsAppend(a: seq<Line>, b: seq<Line>)
    ensures Bullets(a + b) == Bullets(a) + Bullets(b)
  {
    if a == [] {
      assert a + b == b;
    } else {
      assert (a + b)[1..] == a[1..] + b;
      BulletsAppend(a[1..], b);
    }
  }

  lemma {:induction false} BulletsOfList(listed: seq<string>)
    ensures Bullets(BulletLines(listed)) == listed
  {
    if listed != [] {
      assert BulletLines(listed)[1..] == BulletLines(listed[1..]);
      BulletsOfList(listed[1..]);
    }
  }

  /** A mail names the listed packages, and ends the list with an ellipsis when `others`, only if more than two packages were counted. */
  lemma MailBodyShows(listed: seq<string>, others: bool, count: nat)
    ensures Bullets(MailBody(listed, others, count)) == if count > 2 then listed else []
    ensures Ellipsis in MailBody(listed, others, count) <==> count > 2 && others
  {
    var list := BulletLines(listed);
    BulletsOfList(listed);
    BulletsAppend([Namely, Blank], list);
    BulletsAppend([Namely, Blank] + list, EllipsisIf(others));
    BulletsAppend([Namely, Blank] + list + EllipsisIf(others), [Blank]);
    var middle := if count > 2 then [Namely, Blank] + list + EllipsisIf(others) + [Blank] else [];
    BulletsAppend([Greeting], middle);
    BulletsAppend([Greeting] + middle, [Appeal]);
    assert Ellipsis !in list;
  }

  /** The printed form names every listed package, with the ellipsis exactly when `others`. */
  lemma PrintBodyShows(email: string, listed: seq<string>, others: bool)
    ensures Bullets(PrintBody(email, listed, others)) == listed
    ensures Ellipsis in PrintBody(email, listed, others) <==> others
  {
    var list := BulletLines(listed);
    BulletsOfList(listed);
    BulletsAppend([AskAbout(email), Blank], list);
    BulletsAppend([AskAbout(email), Blank] + list, EllipsisIf(others));
    BulletsAppend([AskAbout(email), Blank] + list + EllipsisIf(others), [Blank]);
    assert Ellipsis !in list;
  }

  /** The digest for one author who passed the author threshold: none when nothing is listed. */
  function AuthorDigest(rows: seq<Change>, email: string, t: Thresholds, mail: bool): Option<Digest> {
    var ranking := PackageRanking(rows, email);
    var listed := Listed(ranking, t.packageBound);
    var others := Others(ranking, t.packageBound);
    if listed == [] then None
    else if mail then Some(Mail(email, MailBody(listed, others, |ranking|)))
    else Some(Printed(email, PrintBody(email, listed, others)))
  }

  /**
   * An author's digest exists exactly when the top package passes the
   * package bound; it goes to the author, is a mail exactly in mail mode,
   * and names the listed packages (in a mail only when more than two
   * packages were counted), with the ellipsis exactly when some were not listed.
   */
  lemma AuthorDigestShows(rows: seq<Change>, email: string, t: Thresholds, mail: bool)
    ensures AuthorDigest(rows, email, t, mail).Some?
        <==> PackageRanking(rows, email) != [] && PackageRanking(rows, email)[0].1 > t.packageBound
    ensures AuthorDigest(rows, email, t, mail).Some? ==>
              var d := AuthorDigest(rows, email, t, mail).value;
              var ranking := PackageRanking(rows, email);
              && d.recipient == email
              && (d.Mail? <==> mail)
              && Bullets(d.body) == (if mail && |ranking| <= 2 then [] else Listed(ranking, t.packageBound))
              && (Ellipsis in d.body <==> (!mail || |ranking| > 2) && Others(ranking, t.packageBound))
  {
    var ranking := PackageRanking(rows, email);
    var listed := Listed(ranking, t.packageBound);
    var others := Others(ranking, t.packageBound);
    PackageRankingSpec(rows, email);
    ListedNonEmptyIff(ranking, t.packageBound);
    MailBodyShows(listed, others, |ranking|);
    PrintBodyShows(email, listed, others);
  }

  /** The digests for the authors of a ranking, in its order. */
  function DigestsOf(rows: seq<Change>, authors: seq<(string, int)>, t: Thresholds, mail: bool): seq<Digest> {
    if authors == [] then []
    else
      var n := |authors| - 1;
      DigestsOf(rows, authors[..n], t, mail)
      + (if authors[n].1 > t.authorBound then ToSeq(AuthorDigest(rows, authors[n].0, t, mail)) else [])
  }

  /** What the summary step sends or prints, in order. */
  function Digests(rows: seq<Change>, t: Thresholds, mail: bool): seq<Digest> {
    DigestsOf(rows, AuthorRanking(rows), t, mail)
  }

  /** Some digest goes to `e`. */
  predicate Recipient(ds: seq<Digest>, e: string) {
    exists i :: 0 <= i < |ds| && ds[i].recipient == e
  }

  /** Some entry of the ranking for `e` passes the author bound. */
  predicate PassesAuthorBound(authors: seq<(string, int)>, e: string, t: Thresholds) {
    exists i :: 0 <= i < |authors| && authors[i].0 == e && authors[i].1 > t.authorBound
  }

  lemma RecipientAppend(a: seq<Digest>, b: seq<Digest>, e: string)
    ensures Recipient(a + b, e) <==> Recipient(a, e) || Recipient(b, e)
  {
    if Recipient(a, e) {
      var i :| 0 <= i < |a| && a[i].recipient == e;
      assert (a + b)[i] == a[i];
    }
    if Recipient(b, e) {
      var i :| 0 <= i < |b| && b[i].recipient == e;
      assert (a + b)[|a| + i] == b[i];
    }
  }

  lemma PassesSnoc(authors: seq<(string, int)>, e: string, t: Thresholds)
    requires authors != []
    ensures PassesAuthorBound(authors, e, t) <==>
      PassesAuthorBound(authors[..|authors| - 1], e, t)
      || (authors[|authors| - 1].0 == e && authors[|authors| - 1].1 > t.authorBound)
  {
    var n := |authors| - 1;
    if PassesAuthorBound(authors[..n], e, t) {
      var i :| 0 <= i < n && authors[..n][i].0 == e && authors[..n][i].1 > t.authorBound;
      assert authors[i] == authors[..n][i];
    }
    if PassesAuthorBound(authors, e, t) {
      var i :| 0 <= i < |authors| && authors[i].0 == e && authors[i].1 > t.authorBound;
      if i < n {
        assert authors[..n][i] == authors[i];
      }
    }
  }

  /** A digest goes to `e` exactly when an entry for `e` passes the author bound and `e`'s listing is not empty. */
  lemma {:induction false} DigestsOfRecipient(rows: seq<Change>, authors: seq<(string, int)>, t: Thresholds, mail: bool, e: string)
    ensures Recipient(DigestsOf(rows, authors, t, mail), e)
        <==> PassesAuthorBound(authors, e, t) && Listed(PackageRanking(rows, e), t.packageBound) != []
  {
    if authors != [] {
      var n := |authors| - 1;
      DigestsOfRecipient(rows, authors[..n], t, mail, e);
      PassesSnoc(authors, e, t);
      var extra := if authors[n].1 > t.authorBound then ToSeq(AuthorDigest(rows, authors[n].0, t, mail)) else [];
      RecipientAppend(DigestsOf(rows, authors[..n], t, mail), extra, e);
      assert Recipient(extra, e) <==> authors[n].0 == e && authors[n].1 > t.authorBound && Listed(PackageRanking(rows, e), t.packageBound) != [] by {
        if extra != [] {
          assert extra[0].recipient == authors[n].0;
        }
      }
    }
  }

  /**
   * An author gets a digest exactly when their point sum exceeds the author
   * bound and their best package's sum exceeds the package bound.
   */
  lemma Reported(rows: seq<Change>, t: Thresholds, mail: bool, e: string)
    ensures Recipient(Digests(rows, t, mail), e)
        <==> (AuthorSum(rows, e) > t.authorBound && PackageRanking(rows, e) != [] && PackageRanking(rows, e)[0].1 > t.packageBound)
  {
    var authors := AuthorRanking(rows);
    var ranking := PackageRanking(rows, e);
    DigestsOfRecipient(rows, authors, t, mail, e);
    AuthorRankingSpec(rows);
    PackageRankingSpec(rows, e);
    ListedNonEmptyIff(ranking, t.packageBound);
    if PassesAuthorBound(authors, e, t) {
      var i :| 0 <= i < |authors| && authors[i].0 == e && authors[i].1 > t.authorBound;
      assert authors[i].1 == AuthorSum(rows, e);
    }
    if ranking != [] {
      assert Ranked(ranking, ranking[0].0);
      assert Touched(rows, e, ranking[0].0);
      assert Wrote(rows, e);
      assert Ranked(authors, e);
      var i :| 0 <= i < |authors| && authors[i].0 == e;
      assert authors[i].1 == AuthorSum(rows, e);
    }
  }
}
