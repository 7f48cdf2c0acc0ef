/**
 * `NextRails::BundleReport`: which gems the compatibility and staleness
 * reports list, in what order and with which counts, and the Hash that the
 * JSON staleness report is generated from. Rendering (ERB, colours, `puts`)
 * is not modelled.
 */
module BundleReport {
  import opened Wrappers
  import opened Collections
  import opened RubyString
  import opened RubyHash
  import opened GemInfo

  // ---------------------------------------------------------------------------
  // Compatibility report: `compatibility(rails_version:, include_rails_gems:)`
  // ---------------------------------------------------------------------------

  /** A gem survives the `reject` of the compatibility report: it blocks the upgrade. */
  predicate Blocks(g: Gem, includeRailsGems: bool)
  {
    !(g.compatible || (!includeRailsGems && g.fromRails))
  }

  /** The `sort_by` key: `[tier, name].join("-")`, tier 0 when the latest version is compatible. */
  function SortKey(g: Gem): string
  {
    (if g.latestCompatible then "0" else "1") + "-" + g.name
  }

  predicate KeyLe(g: Gem, h: Gem)
  {
    LexLe(SortKey(g), SortKey(h))
  }

  lemma KeyLeIsTotalPreorder()
    ensures TotalPreorder(KeyLe)
  {
    forall a: Gem, b: Gem ensures KeyLe(a, b) || KeyLe(b, a) {
      LexLeTotal(SortKey(a), SortKey(b));
    }
    forall a: Gem, b: Gem, c: Gem | KeyLe(a, b) && KeyLe(b, c) ensures KeyLe(a, c) {
      LexLeTransitive(SortKey(a), SortKey(b), SortKey(c));
    }
  }

  /**
   * `incompatible_gems`: the gems that block the upgrade, sorted by SortKey.
   * Gems are only dropped, never added or changed, and each kept gem keeps its
   * multiplicity.
   */
  function IncompatibleGems(gems: seq<Gem>, includeRailsGems: bool): (r: seq<Gem>)
    ensures forall g :: multiset(r)[g] == if Blocks(g, includeRailsGems) then multiset(gems)[g] else 0
    ensures forall g :: g in r <==> g in gems && !g.compatible && (includeRailsGems || !g.fromRails)
    ensures SortedBy(r, KeyLe)
  {
    KeyLeIsTotalPreorder();
    var kept := Filter(gems, (g: Gem) => Blocks(g, includeRailsGems));
    FilterMultiset(gems, (g: Gem) => Blocks(g, includeRailsGems));
    var r := SortBy(kept, KeyLe);
    assert forall g :: g in r <==> g in multiset(r);
    r
  }

  /**
   * What any sorted result of the `sort_by` guarantees, whichever order it
   * gives equal keys: gems with a compatible latest version come first, and
   * within a tier names ascend.
   */
  lemma SortKeyOrder(r: seq<Gem>)
    requires SortedBy(r, KeyLe)
    ensures forall i, j :: 0 <= i < j < |r| && r[j].latestCompatible ==> r[i].latestCompatible
    ensures forall i, j :: 0 <= i < j < |r| && r[i].latestCompatible == r[j].latestCompatible ==>
      LexLe(r[i].name, r[j].name)
  {
    forall i, j | 0 <= i < j < |r|
      ensures r[j].latestCompatible ==> r[i].latestCompatible
      ensures r[i].latestCompatible == r[j].latestCompatible ==> LexLe(r[i].name, r[j].name)
    {
      var a, b := r[i], r[j];
      assert KeyLe(a, b);
      if a.latestCompatible == b.latestCompatible {
        var tier := if a.latestCompatible then "0-" else "1-";
        assert SortKey(a) == tier + a.name && SortKey(b) == tier + b.name;
        LexLeCommonPrefix(tier, a.name, b.name);
      } else if b.latestCompatible {
        FirstCharDecides(SortKey(b), SortKey(a));
      }
    }
  }

  /** The gems of s in state st, in the order of s. */
  function Bucket(s: seq<Gem>, st: State): seq<Gem>
  {
    Filter(s, (g: Gem) => g.state == st)
  }

  /** Appending a gem extends only the bucket of its own state. */
  lemma BucketAppend(init: seq<Gem>, last: Gem, st: State)
    ensures Bucket(init + [last], st) == Bucket(init, st) + (if last.state == st then [last] else [])
  {
  }

  /** A state has a non-empty bucket exactly when some gem is in that state. */
  lemma BucketNonEmpty(s: seq<Gem>, st: State)
    ensures Bucket(s, st) != [] <==> exists g :: g in s && g.state == st
  {
    var b := Bucket(s, st);
    if b != [] {
      assert b[0] in b;
    } else {
      forall g | g in s ensures g.state != st {
        assert g !in b;
      }
    }
  }

  /** The buckets of a gem list as GroupByState promises them in m. */
  ghost predicate GroupsBuckets(m: map<State, seq<Gem>>, s: seq<Gem>)
  {
    forall st :: (st in m <==> Bucket(s, st) != []) && (st in m ==> m[st] == Bucket(s, st))
  }

  /** Appending a gem to the array of its state (creating it if need be) groups the longer list. */
  lemma GroupAppend(m: map<State, seq<Gem>>, init: seq<Gem>, last: Gem)
    requires GroupsBuckets(m, init)
    ensures GroupsBuckets(m[last.state := (if last.state in m then m[last.state] else []) + [last]], init + [last])
  {
  }

  /**
   * `s.group_by(&:state)`: each gem is appended to the array under its state;
   * a state that no gem has gets no key.
   */
  function GroupByState(s: seq<Gem>): (m: map<State, seq<Gem>>)
    ensures forall st :: st in m <==> Bucket(s, st) != []
    ensures forall st :: st in m ==> m[st] == Bucket(s, st)
  {
    if s == [] then map[]
    else
      var init, last := s[..|s| - 1], s[|s| - 1];
      var m := GroupByState(init);
      GroupAppend(m, init, last);
      assert init + [last] == s;
      m[last.state := (if last.state in m then m[last.state] else []) + [last]]
  }

  /** Every gem of s is in the bucket of its own state and in no other. */
  lemma EveryGemInOneBucket(s: seq<Gem>)
    ensures forall g :: g in s ==> g.state in GroupByState(s) && g in GroupByState(s)[g.state]
    ensures forall g, st :: st in GroupByState(s) && g in GroupByState(s)[st] ==> g in s && g.state == st
  {
  }

  /** The number of gems under st; no key counts as none. */
  function BucketSize(m: map<State, seq<Gem>>, st: State): nat
  {
    if st in m then |m[st]| else 0
  }

  lemma {:induction false} BucketLengthsSum(s: seq<Gem>)
    ensures |Bucket(s, LatestCompatible)| + |Bucket(s, Incompatible)| + |Bucket(s, NoNewVersion)| == |s|
  {
    if s != [] {
      var init, last := s[..|s| - 1], s[|s| - 1];
      assert s == init + [last];
      BucketLengthsSum(init);
      BucketAppend(init, last, LatestCompatible);
      BucketAppend(init, last, Incompatible);
      BucketAppend(init, last, NoNewVersion);
    }
  }

  /** Grouping loses and duplicates nothing: the bucket sizes add up to the number of gems. */
  lemma BucketSizesSum(s: seq<Gem>)
    ensures var m := GroupByState(s);
      BucketSize(m, LatestCompatible) + BucketSize(m, Incompatible) + BucketSize(m, NoNewVersion) == |s|
  {
    var m := GroupByState(s);
    BucketLengthsSum(s);
  }

  /** A bucket of a sorted sequence is sorted the same way. */
  lemma GroupingKeepsOrder(s: seq<Gem>, le: (Gem, Gem) -> bool)
    requires SortedBy(s, le)
    ensures forall st :: st in GroupByState(s) ==> SortedBy(GroupByState(s)[st], le)
  {
    forall st | st in GroupByState(s) ensures SortedBy(GroupByState(s)[st], le) {
      FilterKeepsOrder(s, (g: Gem) => g.state == st, le);
    }
  }

  /** The data the compatibility template renders. */
  datatype CompatibilityReport = CompatibilityReport(
    incompatibleGems: seq<Gem>,               // incompatible_gems
    byState: map<State, seq<Gem>>             // incompatible_gems_by_state
  )

  /**
   * The report: the blocking gems, and the same gems grouped by state. Each
   * blocking gem is in exactly the bucket of its state, and a bucket holds
   * only blocking gems.
   */
  function Compatibility(gems: seq<Gem>, includeRailsGems: bool): (r: CompatibilityReport)
    ensures forall g :: g in r.incompatibleGems <==> g in gems && Blocks(g, includeRailsGems)
    ensures forall g :: g in gems && Blocks(g, includeRailsGems) ==> g.state in r.byState && g in r.byState[g.state]
    ensures forall g, st :: st in r.byState && g in r.byState[st] ==>
      g in gems && Blocks(g, includeRailsGems) && g.state == st
  {
    var incompatible := IncompatibleGems(gems, includeRailsGems);
    EveryGemInOneBucket(incompatible);
    CompatibilityReport(incompatible, GroupByState(incompatible))
  }

  /**
   * The number printed in the template's last line, `incompatible_gems.length`:
   * one per position of the bundle that holds a blocking gem.
   */
  function IncompatibleCount(gems: seq<Gem>, includeRailsGems: bool): (n: nat)
    ensures n == |set i: nat | i < |gems| && Blocks(gems[i], includeRailsGems)|
    ensures n <= |gems|
  {
    var blocks := (g: Gem) => Blocks(g, includeRailsGems);
    var r := IncompatibleGems(gems, includeRailsGems);
    CountMatches(r, gems, blocks);
    assert MatchingIndices(gems, blocks) == set i: nat | i < |gems| && Blocks(gems[i], includeRailsGems);
    |r|
  }

  /**
   * The report's buckets add up to the printed count, and each bucket keeps
   * the sort order.
   */
  lemma CompatibilityBuckets(gems: seq<Gem>, includeRailsGems: bool)
    ensures var r := Compatibility(gems, includeRailsGems);
      && BucketSize(r.byState, LatestCompatible) + BucketSize(r.byState, Incompatible)
         + BucketSize(r.byState, NoNewVersion) == IncompatibleCount(gems, includeRailsGems)
      && (forall st :: st in r.byState ==> SortedBy(r.byState[st], KeyLe))
  {
    var r := Compatibility(gems, includeRailsGems);
    BucketSizesSum(r.incompatibleGems);
    GroupingKeepsOrder(r.incompatibleGems, KeyLe);
  }

  /**
   * With GemInfo's state agreeing with its latest-version check, every bucket
   * lists its gems in ascending name order.
   */
  lemma BucketsByName(gems: seq<Gem>, includeRailsGems: bool)
    requires forall g :: g in gems && Blocks(g, includeRailsGems) ==> StateAgreesWithLatest(g)
    ensures var r := Compatibility(gems, includeRailsGems);
      forall st, i, j :: st in r.byState && 0 <= i < j < |r.byState[st]| ==>
        LexLe(r.byState[st][i].name, r.byState[st][j].name)
  {
    var r := Compatibility(gems, includeRailsGems);
    CompatibilityBuckets(gems, includeRailsGems);
    forall st | st in r.byState
      ensures forall i, j :: 0 <= i < j < |r.byState[st]| ==> LexLe(r.byState[st][i].name, r.byState[st][j].name)
    {
      var b := r.byState[st];
      SortKeyOrder(b);
      forall i, j | 0 <= i < j < |b| ensures LexLe(b[i].name, b[j].name) {
        assert b[i] in b && b[j] in b;
        assert StateAgreesWithLatest(b[i]) && StateAgreesWithLatest(b[j]);
      }
    }
  }

  /** The template's sections, in its order; `if incompatible_gems_by_state[state]` skips a missing key. */
  function Sections(r: CompatibilityReport): (sections: seq<State>)
    ensures forall st :: st in sections <==> st in r.byState
    ensures forall i, j :: 0 <= i < j < |sections| ==> SectionRank(sections[i]) < SectionRank(sections[j])
  {
    var first := if LatestCompatible in r.byState then [LatestCompatible] else [];
    var second := if Incompatible in r.byState then [Incompatible] else [];
    var third := if NoNewVersion in r.byState then [NoNewVersion] else [];
    var sections := first + second + third;
    assert forall st :: st in sections <==> st in r.byState by {
      forall st ensures st in sections <==> st in r.byState {
        assert st in sections <==> st in first || st in second || st in third;
        assert st == LatestCompatible || st == Incompatible || st == NoNewVersion;
      }
    }
    sections
  }

  function SectionRank(st: State): nat
  {
    match st
    case LatestCompatible => 0
    case Incompatible => 1
    case NoNewVersion => 2
  }

  /** A section is rendered exactly when some blocking gem is in its state. */
  lemma SectionShownIffStateOccurs(gems: seq<Gem>, includeRailsGems: bool, st: State)
    ensures st in Sections(Compatibility(gems, includeRailsGems)) <==>
      exists g :: g in gems && Blocks(g, includeRailsGems) && g.state == st
  {
    var r := Compatibility(gems, includeRailsGems);
    BucketNonEmpty(r.incompatibleGems, st);
    if exists g :: g in gems && Blocks(g, includeRailsGems) && g.state == st {
      var g :| g in gems && Blocks(g, includeRailsGems) && g.state == st;
      assert g in r.incompatibleGems;
    }
  }

  // ---------------------------------------------------------------------------
  // `gem_header`
  // ---------------------------------------------------------------------------

  /** `"#{name} #{version}"`, the header `output_to_stdout` prints (styling dropped). */
  function PlainHeader(g: Gem): string
  {
    g.name + " " + g.version
  }

  const LoadedFromGit: string := " (loaded from git)"

  /** `gem_header`: the plain header, with the git note appended for git-sourced gems. */
  function GemHeader(g: Gem): (header: string)
    ensures PlainHeader(g) <= header
    ensures header == PlainHeader(g) <==> !g.sourcedFromGit
    ensures g.sourcedFromGit ==> header[|PlainHeader(g)|..] == LoadedFromGit
  {
    var header := PlainHeader(g);
    if g.sourcedFromGit then header + LoadedFromGit else header
  }

  // ---------------------------------------------------------------------------
  // Staleness report: `outdated(human_readable = true)`
  // ---------------------------------------------------------------------------

  predicate CreatedNoLater(g: Gem, h: Gem)
  {
    g.createdAt <= h.createdAt
  }

  lemma CreatedNoLaterIsTotalPreorder()
    ensures TotalPreorder(CreatedNoLater)
  {
  }

  /** `gems.reject(&:up_to_date?).sort_by(&:created_at)`. */
  function OutOfDateGems(gems: seq<Gem>): (r: seq<Gem>)
    ensures forall g :: multiset(r)[g] == if g.upToDate then 0 else multiset(gems)[g]
    ensures forall g :: g in r <==> g in gems && !g.upToDate
    ensures SortedBy(r, CreatedNoLater)
    ensures |r| <= |gems|
  {
    CreatedNoLaterIsTotalPreorder();
    var kept := Filter(gems, (g: Gem) => !g.upToDate);
    FilterMultiset(gems, (g: Gem) => !g.upToDate);
    var r := SortBy(kept, CreatedNoLater);
    assert forall g :: g in r <==> g in multiset(r);
    assert |r| == |multiset(r)| == |multiset(kept)| == |kept|;
    r
  }

  /** `gems.select(&:sourced_from_git?).count`. */
  function CountSourcedFromGit(gems: seq<Gem>): (n: nat)
    ensures n == |set i: nat | i < |gems| && gems[i].sourcedFromGit|
    ensures n <= |gems|
    ensures n == 0 <==> forall g :: g in gems ==> !g.sourcedFromGit
    ensures n == |gems| <==> forall g :: g in gems ==> g.sourcedFromGit
  {
    var selected := Filter(gems, (g: Gem) => g.sourcedFromGit);
    FilterKeepsAll(gems, (g: Gem) => g.sourcedFromGit);
    FilterCountsMatches(gems, (g: Gem) => g.sourcedFromGit);
    assert MatchingIndices(gems, (g: Gem) => g.sourcedFromGit) == set i: nat | i < |gems| && gems[i].sourcedFromGit;
    assert selected == [] <==> forall g :: g in gems ==> !g.sourcedFromGit by {
      if selected != [] { assert selected[0] in selected; }
    }
    |selected|
  }

  /** The three arguments `outdated` passes to either output method. */
  datatype ReportArgs = ReportArgs(outOfDateGems: seq<Gem>, totalGemCount: nat, sourcedFromGitCount: nat)

  /** Which output method `outdated` calls, with its arguments. */
  datatype Output = ToStdout(args: ReportArgs) | ToJson(args: ReportArgs)

  function Outdated(gems: seq<Gem>, humanReadable: bool): (out: Output)
    ensures out.ToStdout? <==> humanReadable
    ensures out.args.outOfDateGems == OutOfDateGems(gems)
    ensures out.args.sourcedFromGitCount == CountSourcedFromGit(gems)
    ensures forall g :: g in out.args.outOfDateGems <==> g in gems && !g.upToDate
    ensures SortedBy(out.args.outOfDateGems, CreatedNoLater)
    ensures out.args.totalGemCount == |gems|
    ensures |out.args.outOfDateGems| <= out.args.totalGemCount
    ensures out.args.sourcedFromGitCount <= out.args.totalGemCount
  {
    var args := ReportArgs(OutOfDateGems(gems), |gems|, CountSourcedFromGit(gems));
    if humanReadable then ToStdout(args) else ToJson(args)
  }

  /** The human-readable and the JSON report are given the same list and counts. */
  lemma OutputModesAgree(gems: seq<Gem>)
    ensures Outdated(gems, true).args == Outdated(gems, false).args
    ensures Outdated(gems, true).args.outOfDateGems == OutOfDateGems(gems)
    ensures Outdated(gems, true).args.sourcedFromGitCount == CountSourcedFromGit(gems)
  {
  }

  // ---------------------------------------------------------------------------
  // `build_json(out_of_date_gems, total_gem_count, sourced_from_git_count)`
  // ---------------------------------------------------------------------------

  /** The Hash's symbol keys. */
  datatype JsonKey = Gems | SourcedFromGitCount | TotalGemCount

  /** One `:gems` entry. */
  datatype GemEntry = GemEntry(
    name: string,
    installedVersion: string,
    installedAge: string,
    latestVersion: string,
    latestAge: string
  )

  datatype JsonValue = GemList(entries: seq<GemEntry>) | Integer(n: int)

  /** The hash `build_json` appends for one gem: its name, then the installed and the latest release. */
  function EntryOf(g: Gem): (e: GemEntry)
    ensures e.name == g.name
    ensures e.installedVersion == g.version && e.installedAge == g.age
    ensures e.latestVersion == g.latestVersion && e.latestAge == g.latestAge
  {
    GemEntry(g.name, g.version, g.age, g.latestVersion, g.latestAge)
  }

  /** The `:gems` array of h, all of whose entries describe `gems`, one per gem, in order. */
  predicate ListsGems(h: Hash<JsonKey, JsonValue>, gems: seq<Gem>)
  {
    match Get<JsonKey, JsonValue>(h, Gems)
    case Some(GemList(entries)) =>
      |entries| == |gems| && forall i :: 0 <= i < |gems| ==> entries[i] == EntryOf(gems[i])
    case _ => false
  }

  /**
   * The Hash `build_json` returns. `Hash.new { [] }` answers a missing key with
   * a fresh `[]` without storing it, so `:gems` is present only when some gem
   * was appended; the merge then adds the two counts after it.
   */
  method BuildJson(outOfDateGems: seq<Gem>, totalGemCount: int, sourcedFromGitCount: int)
    returns (output: Hash<JsonKey, JsonValue>)
    ensures Keys(output) == (if outOfDateGems == [] then [] else [Gems]) + [SourcedFromGitCount, TotalGemCount]
    ensures outOfDateGems != [] ==> ListsGems(output, outOfDateGems)
    ensures Get(output, SourcedFromGitCount) == Some(Integer(sourcedFromGitCount))
    ensures Get(output, TotalGemCount) == Some(Integer(totalGemCount))
  {
    output := [];
    for i := 0 to |outOfDateGems|
      invariant i == 0 ==> output == []
      invariant i > 0 ==> Keys(output) == [Gems] && ListsGems(output, outOfDateGems[..i])
    {
      var gem := outOfDateGems[i];
      // output[:gems] += [...]: read through the default, then store
      var current := match Get<JsonKey, JsonValue>(output, Gems) case Some(GemList(entries)) => entries case _ => [];
      output := Put(output, Gems, GemList(current + [EntryOf(gem)]));
    }
    var counts := [(SourcedFromGitCount, Integer(sourcedFromGitCount)), (TotalGemCount, Integer(totalGemCount))];
    assert Keys(counts) == [SourcedFromGitCount, TotalGemCount] by {
      assert counts[1..][1..] == [];
    }
    var built := output;
    MergeKeys(built, counts);
    MergeGet(built, counts, Gems);
    MergeGet(built, counts, SourcedFromGitCount);
    MergeGet(built, counts, TotalGemCount);
    output := Merge(built, counts);
    assert outOfDateGems[..|outOfDateGems|] == outOfDateGems;
  }

  // ---------------------------------------------------------------------------
  // The percentage in `output_to_stdout`'s footer
  // ---------------------------------------------------------------------------

  /** The Ruby exception `(0 / 0.0).round` raises. */
  datatype FloatError = FloatDomainError

  /** p is k/n * 100 rounded to the nearest integer, halves rounded up (`Float#round`). */
  predicate NearestPercent(p: int, k: nat, n: nat)
  {
    2 * n * p <= 200 * k + n < 2 * n * p + 2 * n
  }

  /** `((k / n.to_f) * 100).round` as written: with no gems, NaN cannot be rounded. */
  function PercentageAsWritten(k: nat, n: nat): (r: Result<int, FloatError>)
    ensures r.Failure? <==> n == 0
    ensures r.Success? ==> NearestPercent(r.value, k, n)
  {
    if n == 0 then Failure(FloatDomainError)
    else Success(Percentage(k, n))
  }

  /** The percentage with an empty bundle reported as 0%. */
  function Percentage(k: nat, n: nat): (p: nat)
    ensures n == 0 ==> p == 0
    ensures n > 0 ==> NearestPercent(p, k, n)
    ensures k <= n ==> p <= 100
  {
    if n == 0 then 0
    else
      var p := (200 * k + n) / (2 * n);
      DivBounds(200 * k + n, 2 * n);
      if k <= n then
        PercentBound(p, k, n);
        p
      else p
  }

  lemma DivBounds(x: nat, d: nat)
    requires d > 0
    ensures d * (x / d) <= x < d * (x / d) + d
  {
  }

  lemma PercentBound(p: nat, k: nat, n: nat)
    requires 0 < n && k <= n && NearestPercent(p, k, n)
    ensures p <= 100
  {
    assert 2 * n * p < 2 * n * 101;
    MultiplyCancel(2 * n, p, 101);
  }

  lemma MultiplyCancel(a: int, b: int, c: int)
    requires a > 0 && a * b < a * c
    ensures b < c
  {
  }

  /** An empty bundle makes the as-written footer raise, where 0% is meant. */
  lemma EmptyBundleRaises()
    ensures PercentageAsWritten(0, 0) == Failure(FloatDomainError)
    ensures Percentage(0, 0) == 0
  {
  }

  /** At most one integer is the nearest percentage: the rounding is determined. */
  lemma NearestPercentUnique(p: int, q: int, k: nat, n: nat)
    requires NearestPercent(p, k, n) && NearestPercent(q, k, n)
    ensures p == q
  {
    assert 2 * n * p < 2 * n * (q + 1);
    MultiplyCancel(2 * n, p, q + 1);
    assert 2 * n * q < 2 * n * (p + 1);
    MultiplyCancel(2 * n, q, p + 1);
  }

  /** The footer of the human-readable staleness report. */
  datatype Footer = Footer(sourcedFromGitCount: nat, outOfDateCount: nat, totalGemCount: nat, percentOutOfDate: nat)

  /** The footer as written: it raises `FloatDomainError` when there are no gems. */
  function StdoutFooterAsWritten(args: ReportArgs): (f: Result<Footer, FloatError>)
    ensures f.Failure? <==> args.totalGemCount == 0
    ensures f.Success? ==> f.value.totalGemCount == args.totalGemCount
    ensures f.Success? ==> f.value.sourcedFromGitCount == args.sourcedFromGitCount
    ensures f.Success? ==> f.value.outOfDateCount == |args.outOfDateGems|
    ensures f.Success? ==> NearestPercent(f.value.percentOutOfDate, |args.outOfDateGems|, args.totalGemCount)
  {
    var k := |args.outOfDateGems|;
    match PercentageAsWritten(k, args.totalGemCount)
    case Failure(e) => Failure(e)
    case Success(p) =>
      assert p >= 0 by {
        assert p == Percentage(k, args.totalGemCount);
      }
      Success(Footer(args.sourcedFromGitCount, k, args.totalGemCount, p))
  }

  /** The footer with an empty bundle shown as 0% out of date. */
  function StdoutFooter(args: ReportArgs): (f: Footer)
    ensures f.totalGemCount == args.totalGemCount && f.sourcedFromGitCount == args.sourcedFromGitCount
    ensures f.outOfDateCount == |args.outOfDateGems|
    ensures args.totalGemCount == 0 ==> f.percentOutOfDate == 0
    ensures args.totalGemCount > 0 ==> NearestPercent(f.percentOutOfDate, |args.outOfDateGems|, args.totalGemCount)
    ensures f.outOfDateCount <= f.totalGemCount ==> f.percentOutOfDate <= 100
  {
    var k := |args.outOfDateGems|;
    Footer(args.sourcedFromGitCount, k, args.totalGemCount, Percentage(k, args.totalGemCount))
  }

  /** Wherever the footer as written does not raise, the corrected footer agrees with it. */
  lemma StdoutFooterCorrectsOnlyEmpty(args: ReportArgs)
    ensures StdoutFooterAsWritten(args).Success? ==> StdoutFooterAsWritten(args).value == StdoutFooter(args)
    ensures StdoutFooterAsWritten(args).Failure? ==> StdoutFooter(args).percentOutOfDate == 0
  {
  }

  /** The human-readable staleness report raises exactly for an empty bundle. */
  lemma OutdatedFooterRaisesIffEmpty(gems: seq<Gem>)
    ensures StdoutFooterAsWritten(Outdated(gems, true).args).Failure? <==> gems == []
  {
  }

  /** For any bundle, the printed percentage of out-of-date gems is between 0 and 100. */
  lemma OutdatedPercentageBounded(gems: seq<Gem>)
    ensures StdoutFooter(Outdated(gems, true).args).percentOutOfDate <= 100
  {
  }

  // ---------------------------------------------------------------------------
  // Worked examples
  // ---------------------------------------------------------------------------

  function SampleGem(name: string, compatible: bool, latestCompatible: bool, state: State): Gem
  {
    Gem(name, "1.0", compatible, latestCompatible, false, state, false, false, 0, "a year ago", "2.0", "a day ago")
  }

  /** A gem already compatible is not reported, and an empty bundle gives an empty report. */
  lemma CompatibleGemNotReported()
    ensures Compatibility([SampleGem("rack", true, true, LatestCompatible)], true).incompatibleGems == []
    ensures Compatibility([], true) == CompatibilityReport([], map[])
  {
    assert Filter([SampleGem("rack", true, true, LatestCompatible)], (g: Gem) => Blocks(g, true)) == [];
  }

  /** An up-to-date gem is not listed as out of date but still counts towards the total. */
  lemma UpToDateGemCountedNotListed()
    ensures var g := SampleGem("rack", true, true, LatestCompatible).(upToDate := true);
      Outdated([g], false).args == ReportArgs([], 1, 0)
  {
  }
}
