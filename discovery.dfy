/**
 * Source-file discovery of `load_csv_files`: the directory listing is scanned for the three
 * extracts (project-tracker epics, maintenance tickets, machine utilization) by substring match
 * on the file name; when one or more is not found, the run stops and names the missing ones.
 */
module Discovery {
  import opened Wrappers
  import opened Strings

  datatype Role = Epics | Maintenance | Utilization

  const EpicsTag: string := "API_JIRA_Data_Epics"
  const MaintenanceTag: string := "API_JIRA_Data_Maintenance_Query"
  const UtilizationTag: string := "Dataverse Desktop Machine Utilizations"
  const CsvSuffix: string := ".csv"

  /** The substring that marks a file of the role, which is also the name reported when it is missing. */
  function Tag(role: Role): string {
    match role
    case Epics => EpicsTag
    case Maintenance => MaintenanceTag
    case Utilization => UtilizationTag
  }

  /** Position of a role in the fixed order the roles are tried and reported in. */
  function Rank(role: Role): nat {
    match role
    case Epics => 0
    case Maintenance => 1
    case Utilization => 2
  }

  /**
   * The role a directory entry fills: only `.csv` entries count, and the first role whose tag
   * the name contains wins, tried in the order epics, maintenance, utilization.
   */
  function RoleOf(entry: string): Option<Role> {
    if !EndsWith(entry, CsvSuffix) then None
    else if Contains(entry, EpicsTag) then Some(Epics)
    else if Contains(entry, MaintenanceTag) then Some(Maintenance)
    else if Contains(entry, UtilizationTag) then Some(Utilization)
    else None
  }

  /**
   * An entry fills a role only if it is a `.csv` file whose name contains the role's tag and no
   * tag tried before it; an entry fills none when it is not a `.csv` file or contains no tag.
   */
  lemma RoleOfSpec(entry: string)
    ensures RoleOf(entry).Some? ==> EndsWith(entry, CsvSuffix) && Contains(entry, Tag(RoleOf(entry).value))
    ensures RoleOf(entry).Some? ==> forall other: Role :: Rank(other) < Rank(RoleOf(entry).value) ==> !Contains(entry, Tag(other))
    ensures RoleOf(entry).None? <==> !EndsWith(entry, CsvSuffix) || forall role: Role :: !Contains(entry, Tag(role))
  {
  }

  /** Some entry of the listing fills `role`. */
  ghost predicate Filled(entries: seq<string>, role: Role) {
    exists i :: 0 <= i < |entries| && RoleOf(entries[i]) == Some(role)
  }

  /** The last element of `s` satisfying `p`, if any. */
  function LastMatch<T>(s: seq<T>, p: T -> bool): Option<T>
    decreases |s|
  {
    if |s| == 0 then None
    else if p(s[|s| - 1]) then Some(s[|s| - 1])
    else LastMatch(s[..|s| - 1], p)
  }

  /** The entry held for `role` after the scan: each match replaces the previous one, so the last entry of that role. */
  function LastOfRole(entries: seq<string>, role: Role): Option<string> {
    LastMatch(entries, (e: string) => RoleOf(e) == Some(role))
  }

  /** The outcome of discovery: the three file names, or the tags of the roles nobody filled. */
  datatype SourceFiles = Found(epics: string, maintenance: string, utilization: string) | Missing(names: seq<string>)

  /** The names reported missing, in the fixed order epics, maintenance, utilization. */
  function MissingNames(epics: Option<string>, maintenance: Option<string>, utilization: Option<string>): seq<string> {
    (if epics.None? then [EpicsTag] else [])
    + (if maintenance.None? then [MaintenanceTag] else [])
    + (if utilization.None? then [UtilizationTag] else [])
  }

  function Discover(entries: seq<string>): SourceFiles {
    var e, m, u := LastOfRole(entries, Epics), LastOfRole(entries, Maintenance), LastOfRole(entries, Utilization);
    if e.Some? && m.Some? && u.Some? then Found(e.value, m.value, u.value)
    else Missing(MissingNames(e, m, u))
  }

  /** One more entry: it replaces the held entry of its role and leaves the other roles alone. */
  lemma LastOfRoleStep(entries: seq<string>, entry: string, role: Role)
    ensures LastOfRole(entries + [entry], role) == if RoleOf(entry) == Some(role) then Some(entry) else LastOfRole(entries, role)
  {
    assert (entries + [entry])[..|entries|] == entries;
  }

  /** The scan of the listing and the missing-file report of `load_csv_files`; reading the files is not modelled. */
  method LoadCsvFiles(entries: seq<string>) returns (r: SourceFiles)
    ensures r == Discover(entries)
  {
    var epics: Option<string> := None;
    var maintenance: Option<string> := None;
    var utilization: Option<string> := None;
    for i := 0 to |entries|
      invariant epics == LastOfRole(entries[..i], Epics)
      invariant maintenance == LastOfRole(entries[..i], Maintenance)
      invariant utilization == LastOfRole(entries[..i], Utilization)
    {
      var file := entries[i];
      assert entries[..i + 1] == entries[..i] + [file];
      LastOfRoleStep(entries[..i], file, Epics);
      LastOfRoleStep(entries[..i], file, Maintenance);
      LastOfRoleStep(entries[..i], file, Utilization);
      if EndsWith(file, CsvSuffix) {
        if Contains(file, EpicsTag) {
          epics := Some(file);
        } else if Contains(file, MaintenanceTag) {
          maintenance := Some(file);
        } else if Contains(file, UtilizationTag) {
          utilization := Some(file);
        }
      }
    }
    assert entries[..|entries|] == entries;
    if !(epics.Some? && maintenance.Some? && utilization.Some?) {
      var missing: seq<string> := [];
      if epics.None? {
        missing := missing + [EpicsTag];
      }
      if maintenance.None? {
        missing := missing + [MaintenanceTag];
      }
      if utilization.None? {
        missing := missing + [UtilizationTag];
      }
      return Missing(missing);
    }
    return Found(epics.value, maintenance.value, utilization.value);
  }

  /**
   * What a last-match scan keeps: nothing exactly when no element matches, and otherwise a
   * matching element after which no element matches.
   */
  lemma {:induction false} LastMatchSpec<T>(s: seq<T>, p: T -> bool)
    ensures LastMatch(s, p).None? <==> forall i :: 0 <= i < |s| ==> !p(s[i])
    ensures LastMatch(s, p).Some? ==>
      exists i :: 0 <= i < |s| && s[i] == LastMatch(s, p).value && p(s[i])
        && forall j :: i < j < |s| ==> !p(s[j])
    decreases |s|
  {
    if |s| > 0 {
      var n := |s| - 1;
      var init := s[..n];
      if !p(s[n]) {
        LastMatchSpec(init, p);
        assert forall i :: 0 <= i < n ==> init[i] == s[i];
        if LastMatch(init, p).Some? {
          var i :| 0 <= i < |init| && init[i] == LastMatch(init, p).value && p(init[i])
            && forall j :: i < j < |init| ==> !p(init[j]);
          assert forall j :: i < j < |s| ==> !p(s[j]) by {
            forall j | i < j < |s| ensures !p(s[j]) {
              if j < n { assert s[j] == init[j]; }
            }
          }
        }
      }
    }
  }

  /** A role is held after the scan exactly when some entry fills it, and what is held fills it. */
  lemma LastOfRoleFilled(entries: seq<string>, role: Role)
    ensures LastOfRole(entries, role).None? <==> !Filled(entries, role)
    ensures LastOfRole(entries, role).Some? ==> RoleOf(LastOfRole(entries, role).value) == Some(role)
  {
    var p := (e: string) => RoleOf(e) == Some(role);
    LastMatchSpec(entries, p);
    if LastOfRole(entries, role).Some? {
      var i :| 0 <= i < |entries| && entries[i] == LastMatch(entries, p).value && p(entries[i])
        && forall j :: i < j < |entries| ==> !p(entries[j]);
    }
  }

  /** The entry held for a role is one of that role after which no entry of that role follows. */
  lemma LastOfRoleIsLast(entries: seq<string>, role: Role)
    requires LastOfRole(entries, role).Some?
    ensures exists i ::
      && 0 <= i < |entries| && entries[i] == LastOfRole(entries, role).value
      && RoleOf(entries[i]) == Some(role)
      && forall j :: i < j < |entries| ==> RoleOf(entries[j]) != Some(role)
  {
    LastMatchSpec(entries, (e: string) => RoleOf(e) == Some(role));
  }

  /**
   * Discovery succeeds exactly when every role is filled, and then holds, for each role, an
   * entry of that role.
   */
  lemma DiscoverFound(entries: seq<string>)
    ensures Discover(entries).Found? <==> forall role: Role :: Filled(entries, role)
    ensures Discover(entries).Found? ==>
      && RoleOf(Discover(entries).epics) == Some(Epics)
      && RoleOf(Discover(entries).maintenance) == Some(Maintenance)
      && RoleOf(Discover(entries).utilization) == Some(Utilization)
  {
    LastOfRoleFilled(entries, Epics);
    LastOfRoleFilled(entries, Maintenance);
    LastOfRoleFilled(entries, Utilization);
    if forall role: Role :: Filled(entries, role) {
      assert Filled(entries, Epics) && Filled(entries, Maintenance) && Filled(entries, Utilization);
    }
    if Discover(entries).Found? {
      forall role: Role ensures Filled(entries, role) {
        match role
        case Epics =>
        case Maintenance =>
        case Utilization =>
      }
    }
  }

  /** The roles whose entry is absent, in the fixed order. */
  function UnfilledRoles(epics: Option<string>, maintenance: Option<string>, utilization: Option<string>): seq<Role> {
    (if epics.None? then [Epics] else [])
    + (if maintenance.None? then [Maintenance] else [])
    + (if utilization.None? then [Utilization] else [])
  }

  /** The reported names are the tags of the absent roles, which come in strictly increasing order. */
  lemma MissingNamesAreTags(epics: Option<string>, maintenance: Option<string>, utilization: Option<string>)
    ensures var roles := UnfilledRoles(epics, maintenance, utilization);
      && MissingNames(epics, maintenance, utilization) == seq(|roles|, i requires 0 <= i < |roles| => Tag(roles[i]))
      && (forall i, j :: 0 <= i < j < |roles| ==> Rank(roles[i]) < Rank(roles[j]))
      && (Epics in roles <==> epics.None?)
      && (Maintenance in roles <==> maintenance.None?)
      && (Utilization in roles <==> utilization.None?)
  {
  }

  /**
   * A failed discovery reports at least one name, and the reported names are exactly the tags
   * of the unfilled roles, each once, in the order epics, maintenance, utilization.
   */
  lemma DiscoverMissing(entries: seq<string>)
    requires Discover(entries).Missing?
    ensures var roles := UnfilledRoles(LastOfRole(entries, Epics), LastOfRole(entries, Maintenance), LastOfRole(entries, Utilization));
      && |roles| >= 1
      && Discover(entries).names == seq(|roles|, i requires 0 <= i < |roles| => Tag(roles[i]))
      && (forall i, j :: 0 <= i < j < |roles| ==> Rank(roles[i]) < Rank(roles[j]))
      && (forall role: Role :: role in roles <==> !Filled(entries, role))
  {
    var e, m, u := LastOfRole(entries, Epics), LastOfRole(entries, Maintenance), LastOfRole(entries, Utilization);
    MissingNamesAreTags(e, m, u);
    UnfilledRolesOfListing(entries);
  }

  /** The absent roles after the scan are exactly the roles no entry fills. */
  lemma UnfilledRolesOfListing(entries: seq<string>)
    ensures var roles := UnfilledRoles(LastOfRole(entries, Epics), LastOfRole(entries, Maintenance), LastOfRole(entries, Utilization));
      forall role: Role :: role in roles <==> !Filled(entries, role)
  {
    var e, m, u := LastOfRole(entries, Epics), LastOfRole(entries, Maintenance), LastOfRole(entries, Utilization);
    LastOfRoleFilled(entries, Epics);
    LastOfRoleFilled(entries, Maintenance);
    LastOfRoleFilled(entries, Utilization);
    MissingNamesAreTags(e, m, u);
    forall role: Role ensures role in UnfilledRoles(e, m, u) <==> !Filled(entries, role) {
      match role
      case Epics =>
      case Maintenance =>
      case Utilization =>
    }
  }

  /**
   * A listing with an epics extract and a utilization extract but no maintenance extract
   * reports exactly the maintenance name and loads nothing.
   */
  lemma OneMissingReported(entries: seq<string>)
    requires Filled(entries, Epics) && Filled(entries, Utilization) && !Filled(entries, Maintenance)
    ensures Discover(entries) == Missing([MaintenanceTag])
  {
    LastOfRoleFilled(entries, Epics);
    LastOfRoleFilled(entries, Maintenance);
    LastOfRoleFilled(entries, Utilization);
  }
}
