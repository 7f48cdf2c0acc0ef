# next_rails bundle report, modelled in Dafny

This project models the selection and ordering logic of `NextRails::BundleReport`
(`lib/next_rails/bundle_report.rb`), the part of next_rails that decides which gems
a report lists, in what order, and with which counts:

- the **compatibility report** (`compatibility`): it drops the gems that do not block a
  Rails upgrade, sorts the rest by the key `"<0|1>-<name>"`, groups them by state, and
  prints their number;
- the **staleness report** (`outdated`): it lists the out-of-date gems oldest first and
  counts all gems and the git-sourced ones. It passes the same three values to the
  human-readable output and the JSON output;
- the **Hash behind the JSON output** (`build_json`): it is filled in a loop and then
  merged with the two counts;
- `gem_header` and the out-of-date percentage printed by `output_to_stdout`.

Files:

- `gem_info.dfy`: module `GemInfo`. A gem is a record. Each of its fields holds the
  answer of one `GemInfo` predicate for the Rails version under consideration.
- `collections.dfy`: module `Collections`. `select`/`reject` (Filter) and `sort_by`
  (SortBy, an insertion sort by a total preorder), with their lemmas.
- `ruby_string.dfy`: module `RubyString`. The order of `String#<=>`.
- `ruby_hash.dfy`: module `RubyHash`. A Ruby Hash as an insertion-ordered list of pairs,
  with `h[k]`, `h[k] = v` and `merge`.
- `bundle_report.dfy`: module `BundleReport`. The report logic itself.
- `wrappers.dfy`: module `Wrappers`. The Option and Result types.

`sort_by` is not stable. `SortBy` returns one admissible order, and the ordering
lemmas (`SortKeyOrder`, `GroupingKeepsOrder`) assume only a sorted sequence. They
therefore hold for whatever order Ruby gives gems with equal keys.

## Model

| member | source | states |
|---|---|---|
| `Collections.Filter` | lib/next_rails/bundle_report.rb:9-10 | `reject`/`select` keep exactly the elements satisfying the condition, and never more elements than the input |
| `Collections.FilterMultiset` | lib/next_rails/bundle_report.rb:9-10 | filtering only removes gems: a kept gem keeps its multiplicity, a dropped one has none, nothing is added or changed |
| `Collections.FilterCountsMatches` | lib/next_rails/bundle_report.rb:64 | the number of selected elements is the number of positions whose element satisfies the condition |
| `Collections.FilterKeepsAll` | lib/next_rails/bundle_report.rb:64 | the selection has every gem exactly when all gems satisfy the condition |
| `Collections.SortBy` | lib/next_rails/bundle_report.rb:11-16 | `sort_by` returns a permutation of its input, sorted by the key order |
| `Collections.FilterKeepsOrder` | lib/next_rails/bundle_report.rb:18 | any sub-selection of a sorted list (such as a `group_by` bucket) is sorted the same way |
| `RubyString.LexLe` | lib/next_rails/bundle_report.rb:11-16 | the `<=>` order that `sort_by` applies to the string keys; a string compares no greater than any string it is a prefix of |
| `RubyString.LexLeTotal` | lib/next_rails/bundle_report.rb:11-16 | any two sort keys are comparable |
| `RubyString.LexLeTransitive` | lib/next_rails/bundle_report.rb:11-16 | the string order on sort keys is transitive |
| `RubyString.LexLeAntisymmetric` | lib/next_rails/bundle_report.rb:11-16 | two keys that each compare no greater than the other are equal, so only gems with the same tier and name tie |
| `RubyString.LexLeCommonPrefix` | lib/next_rails/bundle_report.rb:12-15 | a shared `"0-"`/`"1-"` prefix leaves the comparison to the names |
| `RubyHash.Get` | lib/next_rails/bundle_report.rb:81 | a lookup finds a value exactly when the key is stored, and the value found is stored under that key |
| `RubyHash.Put` | lib/next_rails/bundle_report.rb:81 | `h[k] = v` makes k map to v, leaves other keys alone, and appends k only if it is new |
| `RubyHash.Merge` | lib/next_rails/bundle_report.rb:92-97 | `merge` keeps the receiver's keys in place at the front, and the result has exactly the keys of both hashes |
| `RubyHash.MergeGet` | lib/next_rails/bundle_report.rb:92-97 | after `merge`, the merged-in keys hold the merged-in values and every other key keeps its value |
| `RubyHash.MergeKeys` | lib/next_rails/bundle_report.rb:92-97 | merging new keys appends them after the existing keys, in their own order |
| `BundleReport.KeyLeIsTotalPreorder` | lib/next_rails/bundle_report.rb:11-16 | comparing sort keys is a total preorder, which is what `sort_by` needs |
| `BundleReport.IncompatibleGems` | lib/next_rails/bundle_report.rb:9-16 | `incompatible_gems` holds exactly the gems that are not compatible and not excluded Rails gems, with their multiplicities, sorted by key |
| `BundleReport.SortKeyOrder` | lib/next_rails/bundle_report.rb:11-16 | in any key-sorted list, gems whose latest version is compatible come first, and names ascend within each tier |
| `BundleReport.BucketAppend` | lib/next_rails/bundle_report.rb:18 | appending a gem extends only the bucket of its own state |
| `BundleReport.BucketNonEmpty` | lib/next_rails/bundle_report.rb:18 | a state's bucket is non-empty exactly when some gem has that state |
| `BundleReport.GroupAppend` | lib/next_rails/bundle_report.rb:18 | one `group_by` step (append under the gem's state) keeps every bucket equal to the gems of that state |
| `BundleReport.GroupByState` | lib/next_rails/bundle_report.rb:18 | `group_by(&:state)` has a key exactly for the states that occur, and each key maps to that state's gems in list order |
| `BundleReport.EveryGemInOneBucket` | lib/next_rails/bundle_report.rb:18 | every gem is in its own state's bucket, and a bucket holds only gems of its state |
| `BundleReport.BucketLengthsSum` | lib/next_rails/bundle_report.rb:18 | the three state buckets together have as many gems as the list |
| `BundleReport.BucketSizesSum` | lib/next_rails/bundle_report.rb:18 | the bucket sizes of the `group_by` result add up to the list length; a missing key counts 0 |
| `BundleReport.GroupingKeepsOrder` | lib/next_rails/bundle_report.rb:18 | each bucket of a sorted list keeps the sort order |
| `BundleReport.Compatibility` | lib/next_rails/bundle_report.rb:8-18 | `incompatible_gems` holds exactly the blocking gems; each blocking gem is in the group of its state, and a group holds only blocking gems of that state |
| `BundleReport.IncompatibleCount` | lib/next_rails/bundle_report.rb:49 | the printed count is the number of positions of the bundle that hold a blocking gem, so at most the bundle size |
| `BundleReport.CompatibilityBuckets` | lib/next_rails/bundle_report.rb:18-49 | the group sizes add up to the printed count, and each group stays key-sorted |
| `BundleReport.BucketsByName` | lib/next_rails/bundle_report.rb:11-18 | if GemInfo's state agrees with its latest-version check for every blocking gem, every group lists names in ascending order |
| `BundleReport.Sections` | lib/next_rails/bundle_report.rb:21-48 | the template renders a section exactly for each state that has a key, in the order latest-compatible, incompatible, no-new-version |
| `BundleReport.SectionShownIffStateOccurs` | lib/next_rails/bundle_report.rb:18-39 | a section is rendered exactly when some blocking gem is in that state |
| `BundleReport.CompatibleGemNotReported` | lib/next_rails/bundle_report.rb:9-10 | for a sample compatible gem: it is not reported; and an empty bundle gives no groups |
| `BundleReport.GemHeader` | lib/next_rails/bundle_report.rb:55-59 | the header starts with `"name version"`, and it has the `" (loaded from git)"` suffix exactly when the gem is sourced from git |
| `BundleReport.OutOfDateGems` | lib/next_rails/bundle_report.rb:63 | the list holds exactly the gems that are not up to date, with their multiplicities, in ascending `created_at` order, and is no longer than the bundle |
| `BundleReport.CountSourcedFromGit` | lib/next_rails/bundle_report.rb:64 | the git count is the number of positions of the bundle holding a git-sourced gem; so it is at most the total, 0 exactly when no gem is git-sourced, and the total exactly when all are |
| `BundleReport.Outdated` | lib/next_rails/bundle_report.rb:61-71 | the flag picks the output; the arguments are the out-of-date list (`OutOfDateGems`, oldest first), the gem count, and the git count (`CountSourcedFromGit`), which does not exceed it |
| `BundleReport.OutputModesAgree` | lib/next_rails/bundle_report.rb:66-70 | both outputs receive identical `(list, gems.count, sourced_from_git.count)` |
| `BundleReport.UpToDateGemCountedNotListed` | lib/next_rails/bundle_report.rb:62-64 | for a sample up-to-date gem: it is not listed but is counted in the total |
| `BundleReport.EntryOf` | lib/next_rails/bundle_report.rb:82-88 | a `:gems` entry carries the gem's name, its installed version and age, and its latest version and age |
| `BundleReport.BuildJson` | lib/next_rails/bundle_report.rb:78-98 | the Hash's keys are `:gems` (only if some gem was appended), then `sourced_from_git_count` and `total_gem_count` equal to the arguments; `:gems` has one entry per gem, in order, copied from it |
| `BundleReport.PercentageAsWritten` | lib/next_rails/bundle_report.rb:109 | as written: raises when there are no gems; otherwise the nearest integer to 100·k/n, halves up |
| `BundleReport.Percentage` | lib/next_rails/bundle_report.rb:109 | the percentage rounded to nearest (halves up), 0 for an empty bundle, at most 100 when k ≤ n |
| `BundleReport.PercentBound` | lib/next_rails/bundle_report.rb:109 | a rounded share of at most n out of n is at most 100 |
| `BundleReport.NearestPercentUnique` | lib/next_rails/bundle_report.rb:109 | the rounding condition determines the percentage uniquely |
| `BundleReport.EmptyBundleRaises` | lib/next_rails/bundle_report.rb:109 | with no gems the expression as written fails, where 0% is meant |
| `BundleReport.StdoutFooterAsWritten` | lib/next_rails/bundle_report.rb:109-113 | as written: the footer raises `FloatDomainError` exactly when the total is 0; otherwise it shows the given counts and the nearest percentage |
| `BundleReport.StdoutFooter` | lib/next_rails/bundle_report.rb:109-113 | corrected: the footer shows the given counts; the percentage is 0% for an empty bundle and otherwise the nearest integer to 100·k/n (halves up), in [0, 100] whenever the list is no longer than the total |
| `BundleReport.StdoutFooterCorrectsOnlyEmpty` | lib/next_rails/bundle_report.rb:109 | the corrected footer equals the as-written one wherever that does not raise, and shows 0% where it does |
| `BundleReport.OutdatedFooterRaisesIffEmpty` | lib/next_rails/bundle_report.rb:61-71 | the human-readable staleness report as written raises exactly for a bundle with no gems |
| `BundleReport.OutdatedPercentageBounded` | lib/next_rails/bundle_report.rb:61-71 | for any bundle, the percentage of the corrected footer is at most 100 |

## Left out

- Rendering is not modelled: the ERB template text, `colorize` styles, `puts`, and the per-gem lines of `output_to_stdout` (lines 100-107). Only the section logic (`Sections`) and the printed numbers are modelled.
- `output_to_json` (lines 73-76) is not modelled: it calls `build_json` and prints the result with `JSON.pretty_generate`, a library serialiser outside this model.
- `NextRails::GemInfo` is not part of this model. `GemInfo.all` becomes the input list. `compatible_with_rails?`, `from_rails?`, `state`, `up_to_date?`, `sourced_from_git?`, `created_at`, `age` and `latest_version` become record fields, already evaluated for the Rails version passed to `compatibility`. The `rails_version` argument only feeds those predicates and the message text, so it is not a parameter here.
- That a gem's state is LatestCompatible exactly when its latest version is compatible cannot be checked from this file. `BucketsByName` takes it as a premise (`StateAgreesWithLatest`).
- `GemInfo#state` is assumed to return one of `:latest_compatible`, `:incompatible` or `:no_new_version` for every gem the reject keeps. The three-valued `State` type encodes this. `EveryGemInOneBucket`, `BucketSizesSum` and `CompatibilityBuckets` rely on it: with a fourth value, line 18 would group gems under a key that no section renders (lines 21, 30, 39), while line 49 would still count them.
- Percentage: Ruby computes `(k / n.to_f * 100).round` in floating point. The model rounds the exact value 100·k/n to the nearest integer, halves up. Float error at .5 ties is not modelled.
- Ruby `String#<=>` compares bytes. The model compares characters by code point, which gives the same order for UTF-8 text.
- `created_at` is modelled as an integer timestamp. A missing timestamp (nil) is not modelled; in Ruby, comparing nil with a Time raises.
- `sort_by` is not stable, a nil `created_at` makes the sort raise, and an empty bundle makes line 109 raise. The model follows the code, except where Findings says otherwise.
- `BundleReport.StdoutFooter`: shows 0% for an empty bundle, where line 109 raises `FloatDomainError`. The raising behaviour is modelled separately by `BundleReport.StdoutFooterAsWritten`, and `BundleReport.StdoutFooterCorrectsOnlyEmpty` proves the two differ only there.

## Findings

| source | as written | input that shows it | evidently intended | confidence | as-written member | corrected member |
|---|---|---|---|---|---|---|
| lib/next_rails/bundle_report.rb:109 | `((out_of_date_gems.count / total_gem_count.to_f) * 100).round`: with no gems this is `(0 / 0.0).round`, i.e. `NaN.round`, which raises `FloatDomainError` | `outdated` on a bundle with no gems (`total_gem_count == 0`) | report 0% out of date | low (a bundle normally has gems); not executed | `BundleReport.PercentageAsWritten` and `BundleReport.StdoutFooterAsWritten` (shown by `BundleReport.EmptyBundleRaises` and `BundleReport.OutdatedFooterRaisesIffEmpty`) | `BundleReport.Percentage` (used by `BundleReport.StdoutFooter`) |
