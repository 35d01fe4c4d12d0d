/**
 * The scoring rules (process_stats.rb:150-190) as functions on the rows of
 * the `changes` table: the per-entry formula of the normal pass, the bulk
 * overwrites of hack mode, and the reset. The in-place passes that apply
 * them are methods of Store.Store.
 */
module Scoring {
  import opened Strings
  import opened Changes

  /** The options `default_points`, `update_points` and `feature_points`. */
  datatype Config = Config(defaultPoints: int, updatePoints: int, featurePoints: int)

  /** The text matches `[Uu]pdate` or `[Vv]ersion` anywhere (the script's `.*` around the word may match nothing). */
  predicate MentionsUpdate(text: string) {
    Contains(text, "update") || Contains(text, "Update") || Contains(text, "version") || Contains(text, "Version")
  }

  /** The text matches `[Ff]eature` anywhere. */
  predicate MentionsFeature(text: string) {
    Contains(text, "feature") || Contains(text, "Feature")
  }

  /** `Pkg.where(:name => pkg).first`: the package's weight, or the fallback when it has no row. */
  function Lookup(weights: map<string, int>, pkg: string, fallback: int): int {
    if pkg in weights then weights[pkg] else fallback
  }

  /**
   * The base the normal pass gives an entry of package `pkg`. The weight is
   * looked up only when the package differs from `last_pkg`, which starts as
   * the empty string; entries are visited by package name, so those of a
   * package named "" come first and keep the default without a lookup.
   */
  function Base(weights: map<string, int>, pkg: string, cfg: Config): int {
    if pkg == "" then cfg.defaultPoints else Lookup(weights, pkg, cfg.defaultPoints)
  }

  /**
   * The `last_pkg` cache agrees with a fresh lookup for every package but the
   * empty name, whose entries keep the default even when `pkgs` has a row
   * for "" with another weight.
   */
  lemma BaseAgreesWithLookup(weights: map<string, int>, pkg: string, cfg: Config)
    ensures pkg != "" ==> Base(weights, pkg, cfg) == Lookup(weights, pkg, cfg.defaultPoints)
    ensures pkg == "" ==> (Base(weights, pkg, cfg) == Lookup(weights, pkg, cfg.defaultPoints)
                           <==> "" !in weights || weights[""] == cfg.defaultPoints)
  {
  }

  /** An entry's score from its base: a feature mention wins over an update or version mention. */
  function Score(text: string, base: int, cfg: Config): int {
    if MentionsFeature(text) then base * cfg.featurePoints
    else if MentionsUpdate(text) then base * cfg.updatePoints
    else base
  }

  /**
   * The normal pass assigns the base, then the update product when the text
   * mentions an update or version, then the feature product when it mentions
   * a feature: the last assignment that fires is the score.
   */
  lemma ScoreAsAssigned(text: string, base: int, cfg: Config)
    ensures var afterUpdate := if MentionsUpdate(text) then base * cfg.updatePoints else base;
            var afterFeature := if MentionsFeature(text) then base * cfg.featurePoints else afterUpdate;
            Score(text, base, cfg) == afterFeature
  {
  }

  /** One row after the normal pass: scored when it had no points, untouched otherwise. */
  function ScoreRow(c: Change, weights: map<string, int>, cfg: Config): Change {
    if c.points == 0 then c.(points := Score(c.text, Base(weights, c.pkg, cfg), cfg)) else c
  }

  /** The table after the normal pass. */
  function Rescored(rows: seq<Change>, weights: map<string, int>, cfg: Config): (r: seq<Change>)
    ensures |r| == |rows|
  {
    seq(|rows|, k requires 0 <= k < |rows| => ScoreRow(rows[k], weights, cfg))
  }

  /**
   * Scoring again without a reset changes nothing: a row the first pass left
   * at 0 is rescored from the same text and package, to the same value.
   */
  lemma RescoreIdempotent(rows: seq<Change>, weights: map<string, int>, cfg: Config)
    ensures Rescored(Rescored(rows, weights, cfg), weights, cfg) == Rescored(rows, weights, cfg)
  {
    var once := Rescored(rows, weights, cfg);
    forall k | 0 <= k < |rows|
      ensures ScoreRow(once[k], weights, cfg) == once[k]
    {
      assert once[k] == ScoreRow(rows[k], weights, cfg);
    }
  }

  /** The normal pass scores each row on its own, so it distributes over concatenation. */
  lemma RescoredAppend(a: seq<Change>, b: seq<Change>, weights: map<string, int>, cfg: Config)
    ensures Rescored(a + b, weights, cfg) == Rescored(a, weights, cfg) + Rescored(b, weights, cfg)
  {
  }

  /** After a reset the normal pass scores every row by the formula, whatever it held before. */
  lemma ResetThenRescore(rows: seq<Change>, weights: map<string, int>, cfg: Config)
    ensures forall k :: 0 <= k < |rows| ==>
      Rescored(Zeroed(rows), weights, cfg)[k].points == Score(rows[k].text, Base(weights, rows[k].pkg, cfg), cfg)
  {
  }

  /** `Change.update_all("points=0")`. */
  function Zeroed(rows: seq<Change>): (r: seq<Change>)
    ensures |r| == |rows|
  {
    seq(|rows|, k requires 0 <= k < |rows| => rows[k].(points := 0))
  }

  // ---------------------------------------------------------------------------
  // Hack mode: bulk overwrites over every row, whatever its points
  // ---------------------------------------------------------------------------

  /** `Change.where("text like '%pat%'").update_all(:points => v)`. */
  function SetWhereText(rows: seq<Change>, pat: string, v: int): (r: seq<Change>)
    ensures |r| == |rows|
  {
    seq(|rows|, k requires 0 <= k < |rows| => if Contains(rows[k].text, pat) then rows[k].(points := v) else rows[k])
  }

  /** `Change.where("points=0").update_all(:points => v)`. */
  function SetWhereUnscored(rows: seq<Change>, v: int): (r: seq<Change>)
    ensures |r| == |rows|
  {
    seq(|rows|, k requires 0 <= k < |rows| => if rows[k].points == 0 then rows[k].(points := v) else rows[k])
  }

  /** The seven statements of hack mode, in the order they run. */
  function HackStatements(rows: seq<Change>, cfg: Config): seq<Change> {
    var u := cfg.updatePoints * cfg.defaultPoints;
    var f := cfg.featurePoints * cfg.defaultPoints;
    var r1 := SetWhereText(rows, "update", u);
    var r2 := SetWhereText(r1, "Update", u);
    var r3 := SetWhereText(r2, "Version", u);
    var r4 := SetWhereText(r3, "version", u);
    var r5 := SetWhereText(r4, "feature", f);
    var r6 := SetWhereText(r5, "Feature", f);
    SetWhereUnscored(r6, cfg.defaultPoints)
  }

  /**
   * A row's points after hack mode: feature text gets feature_points *
   * default_points, else update or version text gets update_points *
   * default_points, else the row keeps its points; whatever is then 0 gets
   * default_points. Package weights play no part.
   */
  function HackScore(c: Change, cfg: Config): int {
    var p :=
      if MentionsFeature(c.text) then cfg.featurePoints * cfg.defaultPoints
      else if MentionsUpdate(c.text) then cfg.updatePoints * cfg.defaultPoints
      else c.points;
    if p == 0 then cfg.defaultPoints else p
  }

  /** The seven bulk statements of hack mode leave every row with its HackScore, and nothing else changed. */
  lemma HackStatementsScore(rows: seq<Change>, cfg: Config)
    ensures |HackStatements(rows, cfg)| == |rows|
    ensures forall k :: 0 <= k < |rows| ==>
      HackStatements(rows, cfg)[k] == rows[k].(points := HackScore(rows[k], cfg))
  {
    var u := cfg.updatePoints * cfg.defaultPoints;
    var f := cfg.featurePoints * cfg.defaultPoints;
    var r1 := SetWhereText(rows, "update", u);
    var r2 := SetWhereText(r1, "Update", u);
    var r3 := SetWhereText(r2, "Version", u);
    var r4 := SetWhereText(r3, "version", u);
    var r5 := SetWhereText(r4, "feature", f);
    var r6 := SetWhereText(r5, "Feature", f);
    forall k | 0 <= k < |rows|
      ensures r6[k] == rows[k].(points :=
        if MentionsFeature(rows[k].text) then f
        else if MentionsUpdate(rows[k].text) then u
        else rows[k].points)
    {
      assert r4[k] == rows[k].(points := if MentionsUpdate(rows[k].text) then u else rows[k].points);
    }
  }

  /** The outcomes of hack mode, by case, for every row regardless of its previous points. */
  lemma HackOutcome(c: Change, cfg: Config)
    ensures MentionsFeature(c.text) && cfg.featurePoints * cfg.defaultPoints != 0
            ==> HackScore(c, cfg) == cfg.featurePoints * cfg.defaultPoints
    ensures !MentionsFeature(c.text) && MentionsUpdate(c.text) && cfg.updatePoints * cfg.defaultPoints != 0
            ==> HackScore(c, cfg) == cfg.updatePoints * cfg.defaultPoints
    ensures !MentionsFeature(c.text) && !MentionsUpdate(c.text)
            ==> HackScore(c, cfg) == if c.points == 0 then cfg.defaultPoints else c.points
    ensures cfg.defaultPoints != 0 ==> HackScore(c, cfg) != 0
  {
  }

  /** With non-zero default points, hack mode leaves no row at 0, so the normal pass that follows changes nothing. */
  lemma HackThenRescore(rows: seq<Change>, weights: map<string, int>, cfg: Config)
    requires cfg.defaultPoints != 0
    ensures Rescored(HackStatements(rows, cfg), weights, cfg) == HackStatements(rows, cfg)
  {
    var h := HackStatements(rows, cfg);
    HackStatementsScore(rows, cfg);
    forall k | 0 <= k < |h| ensures h[k].points != 0 {
      HackOutcome(rows[k], cfg);
    }
  }

  /** With non-zero factors and weights, the normal pass leaves no row at 0 points. */
  lemma RescoredNonZero(rows: seq<Change>, weights: map<string, int>, cfg: Config)
    requires cfg.defaultPoints != 0 && cfg.updatePoints != 0 && cfg.featurePoints != 0
    requires forall p :: p in weights ==> weights[p] != 0
    ensures forall k :: 0 <= k < |rows| ==> Rescored(rows, weights, cfg)[k].points != 0
  {
    forall k | 0 <= k < |rows| && rows[k].points == 0
      ensures Score(rows[k].text, Base(weights, rows[k].pkg, cfg), cfg) != 0
    {
      var base := Base(weights, rows[k].pkg, cfg);
      assert base != 0;
      NonZeroProduct(base, cfg.featurePoints);
      NonZeroProduct(base, cfg.updatePoints);
    }
  }

  lemma NonZeroProduct(a: int, b: int)
    requires a != 0 && b != 0
    ensures a * b != 0
  {
  }
}
