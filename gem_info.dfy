/**
 * `NextRails::GemInfo` as the report sees it. GemInfo itself (loading the
 * bundle, asking the registry, evaluating gemspec requirements) is not part of
 * this model: each predicate the report calls becomes a field holding its
 * answer for the Rails version under consideration.
 */
module GemInfo {

  /** `gem.state(rails_version)`: why the gem blocks the upgrade. */
  datatype State = LatestCompatible | Incompatible | NoNewVersion

  datatype Gem = Gem(
    name: string,
    version: string,           // installed version
    compatible: bool,          // compatible_with_rails?(rails_version:) of the installed version
    latestCompatible: bool,    // latest_version.compatible_with_rails?(rails_version:)
    fromRails: bool,           // from_rails?
    state: State,              // state(rails_version)
    upToDate: bool,            // up_to_date?
    sourcedFromGit: bool,      // sourced_from_git?
    createdAt: int,            // created_at of the installed version, as a timestamp
    age: string,               // age of the installed version, as displayed
    latestVersion: string,     // latest_version.version
    latestAge: string          // latest_version.age
  )

  /**
   * Assumed of GemInfo, whose `state` is not part of this model: a gem is in
   * state LatestCompatible exactly when its latest version is compatible.
   */
  predicate StateAgreesWithLatest(g: Gem)
  {
    g.state == LatestCompatible <==> g.latestCompatible
  }
}
