/**
 * `ModuleClassLoader.asDescription`: validation of a module's `addon.yml`
 * manifest into a module description.
 *
 * The manifest is the YAML document flattened to its scalar entries: a
 * dotted path (`name`, `permissions.foo.default`) maps to the entry's text.
 */
module Manifests {
  import opened Common
  import opened Text

  type Manifest = map<string, string>

  const RequiredKeys: seq<string> := ["main", "name", "version", "authors"]
  const PermissionsPrefix: string := "permissions."
  const Snapshot: string := "-SNAPSHOT"
  const DefaultIcon: string := "PAPER"
  const SnapshotWarning: string :=
    " addon depends on development version of GManager plugin. Some functions may be not implemented."

  datatype Description = Description(
    main: string,
    name: string,
    version: string,
    authors: seq<string>,
    metrics: bool,
    repository: string,
    dependencies: seq<string>,
    softDependencies: seq<string>,
    icon: string,
    apiVersion: Option<string>,
    permissions: Option<Manifest>)

  /** The reasons `InvalidModuleDescriptionException` is thrown. */
  datatype DescriptionError =
    | MissingKey(key: string)
    | UnknownIcon(icon: Option<string>)
    | InvalidApiVersion(version: string)

  /** A description together with the warnings logged while building it. */
  datatype Parsed = Parsed(description: Description, warnings: seq<string>)

  // ------------------------------------------------------------ scalars

  function GetString(data: Manifest, key: string, default: string): (v: string)
  {
    if key in data then data[key] else default
  }

  /** `getBoolean(key, default)`: a YAML 1.1 boolean scalar, else the default. */
  function GetBoolean(data: Manifest, key: string, default: bool): (b: bool)
  {
    if key !in data then default
    else if data[key] in {"true", "True", "TRUE", "yes", "Yes", "YES", "on", "On", "ON"} then true
    else if data[key] in {"false", "False", "FALSE", "no", "No", "NO", "off", "Off", "OFF"} then false
    else default
  }

  /** A comma-separated list entry; an absent key is the empty list. */
  function ListEntry(data: Manifest, key: string): seq<string> {
    if key in data then SplitOnCommas(data[key]) else []
  }

  /** `isConfigurationSection("permissions")` / `getConfigurationSection("permissions")` */
  function PermissionSection(data: Manifest): Option<Manifest> {
    if exists k :: k in data && StartsWith(k, PermissionsPrefix) then
      Some(map k | k in data && StartsWith(k, PermissionsPrefix) :: data[k])
    else None
  }

  // ------------------------------------------------------------ api-version

  predicate IsDigits(d: string) {
    |d| > 0 && forall i :: 0 <= i < |d| ==> '0' <= d[i] <= '9'
  }

  /** `(\d+\.)?` */
  predicate OptionalGroup(g: string) {
    g == "" || (|g| >= 2 && g[|g| - 1] == '.' && IsDigits(g[..|g| - 1]))
  }

  /** `(\*|\d+)` */
  predicate FinalPart(x: string) {
    x == "*" || IsDigits(x)
  }

  /** `s.matches("^(\\d+\\.)?(\\d+\\.)?(\\*|\\d+)$")`: the whole string is the
      concatenation of two optional groups and a final part. */
  predicate ApiVersionMatches(s: string) {
    exists i, j :: 0 <= i <= j <= |s| && OptionalGroup(s[..i]) && OptionalGroup(s[i..j]) && FinalPart(s[j..])
  }

  /** The version as the check sees it: every `-SNAPSHOT` removed. */
  function StripSnapshot(v: string): string {
    RemoveAll(v, Snapshot)
  }

  // ------------------------------------------------------------ validation

  /** The first required key the manifest lacks, in the order they are checked. */
  function FirstMissing(data: Manifest): (k: Option<string>)
    ensures k.None? <==> forall key :: key in RequiredKeys ==> key in data
    ensures k.Some? ==> k.value in RequiredKeys && k.value !in data
  {
    if "main" !in data then Some("main")
    else if "name" !in data then Some("name")
    else if "version" !in data then Some("version")
    else if "authors" !in data then Some("authors")
    else None
  }

  /** `ModuleClassLoader.asDescription(data)`; `materials` are the names
      `Material.getMaterial` knows. */
  function AsDescription(data: Manifest, materials: set<string>): (r: Result<Parsed, DescriptionError>)
    ensures FirstMissing(data).Some? ==> r == Err(MissingKey(FirstMissing(data).value))
    ensures r.Ok? ==> forall key :: key in RequiredKeys ==> key in data
    ensures r.Ok? ==>
      var d := r.value.description;
      && d.main == data["main"] && d.name == data["name"] && d.version == data["version"]
      && d.authors == [data["authors"]]
      && d.dependencies == ListEntry(data, "depend")
      && d.softDependencies == ListEntry(data, "softdepend")
      && d.metrics == GetBoolean(data, "metrics", true)
      && d.repository == GetString(data, "repository", "")
      && d.icon in materials
      && d.icon == ToUpper(GetString(data, "icon", DefaultIcon))
      && d.apiVersion == Get(data, "api-version")
      && d.permissions == PermissionSection(data)
    ensures r.Ok? && "api-version" in data ==> ApiVersionMatches(StripSnapshot(data["api-version"]))
    ensures r.Ok? ==> |r.value.warnings| == (if "api-version" in data && Contains(data["api-version"], Snapshot) then 1 else 0)
    ensures r.Err? && r.error.UnknownIcon? ==> ToUpper(GetString(data, "icon", DefaultIcon)) !in materials
    // with every required key present, the icon is checked before the api-version
    ensures FirstMissing(data).None? && ToUpper(GetString(data, "icon", DefaultIcon)) !in materials ==>
      r == Err(UnknownIcon(Get(data, "icon")))
    ensures FirstMissing(data).None? && ToUpper(GetString(data, "icon", DefaultIcon)) in materials &&
            "api-version" in data && !ApiVersionMatches(StripSnapshot(data["api-version"])) ==>
      r == Err(InvalidApiVersion(data["api-version"]))
    // and a manifest passing all three checks is accepted
    ensures FirstMissing(data).None? && ToUpper(GetString(data, "icon", DefaultIcon)) in materials &&
            ("api-version" !in data || ApiVersionMatches(StripSnapshot(data["api-version"]))) ==>
      r.Ok?
    ensures r.Err? && r.error.InvalidApiVersion? ==>
      "api-version" in data && !ApiVersionMatches(StripSnapshot(data["api-version"]))
  {
    match FirstMissing(data)
    case Some(k) => Err(MissingKey(k))
    case None =>
      var icon := ToUpper(GetString(data, "icon", DefaultIcon));
      if icon !in materials then Err(UnknownIcon(Get(data, "icon")))
      else if "api-version" in data && !ApiVersionMatches(StripSnapshot(data["api-version"])) then
        Err(InvalidApiVersion(data["api-version"]))
      else
        var warnings :=
          if "api-version" in data && Contains(data["api-version"], Snapshot)
          then [data["name"] + SnapshotWarning] else [];
        Ok(Parsed(
          Description(
            data["main"], data["name"], data["version"], [data["authors"]],
            GetBoolean(data, "metrics", true), GetString(data, "repository", ""),
            ListEntry(data, "depend"), ListEntry(data, "softdepend"),
            icon, Get(data, "api-version"), PermissionSection(data)),
          warnings))
  }

  // ------------------------------------------------------------ properties

  /** The three checks of `asDescription`: the required keys, a known icon and,
      when present, an api-version of the right shape. */
  predicate Acceptable(data: Manifest, materials: set<string>) {
    && FirstMissing(data).None?
    && ToUpper(GetString(data, "icon", DefaultIcon)) in materials
    && ("api-version" !in data || ApiVersionMatches(StripSnapshot(data["api-version"])))
  }

  /** A manifest is accepted exactly when it passes the three checks; one
      without an api-version is accepted with no warning. */
  lemma AcceptedIffAcceptable(data: Manifest, materials: set<string>)
    ensures AsDescription(data, materials).Ok? <==> Acceptable(data, materials)
    ensures Acceptable(data, materials) && "api-version" !in data ==>
      AsDescription(data, materials).value.warnings == []
  {
  }

  /** A manifest lacking any of `main`, `name`, `version`, `authors` is refused,
      and the key reported is the first of them, in that order, that is missing. */
  lemma MissingKeyReportedInOrder(data: Manifest, materials: set<string>, k: nat)
    requires k < |RequiredKeys| && RequiredKeys[k] !in data
    requires forall j :: 0 <= j < k ==> RequiredKeys[j] in data
    ensures AsDescription(data, materials) == Err(MissingKey(RequiredKeys[k]))
  {
  }

  /** A `depend` entry written as a ", "-separated list yields exactly those
      names, and an absent entry yields none. */
  lemma DependenciesFromList(data: Manifest, materials: set<string>, names: seq<string>)
    requires AsDescription(data, materials).Ok?
    requires |names| >= 1 && forall n :: n in names ==> IsListItem(n)
    ensures "depend" in data && data["depend"] == JoinCommaSpace(names) ==>
      AsDescription(data, materials).value.description.dependencies == names
    ensures "depend" !in data ==> AsDescription(data, materials).value.description.dependencies == []
  {
    if "depend" in data && data["depend"] == JoinCommaSpace(names) {
      SplitJoinRoundTrip(names);
    }
  }

  /** A valid version carrying `-SNAPSHOT` is accepted with exactly one warning;
      without it there is none. */
  lemma SnapshotWarnsOnce(data: Manifest, materials: set<string>)
    requires FirstMissing(data).None?
    requires ToUpper(GetString(data, "icon", DefaultIcon)) in materials
    requires "api-version" in data && ApiVersionMatches(StripSnapshot(data["api-version"]))
    ensures AsDescription(data, materials).Ok?
    ensures |AsDescription(data, materials).value.warnings| == 1 <==> StripSnapshot(data["api-version"]) != data["api-version"]
  {
    RemoveAllShrinksIffContains(data["api-version"], Snapshot);
  }

  /** The example `api-version: 2.0-SNAPSHOT`: loads, with one warning. */
  lemma SnapshotExample(data: Manifest, materials: set<string>)
    requires FirstMissing(data).None? && "icon" !in data && DefaultIcon in materials
    requires "api-version" in data && data["api-version"] == "2.0-SNAPSHOT"
    ensures AsDescription(data, materials).Ok?
    ensures |AsDescription(data, materials).value.warnings| == 1
  {
    SnapshotStripped();
    StrippedVersionMatches();
    DefaultIconIsUpperCase();
  }

  lemma DefaultIconIsUpperCase()
    ensures ToUpper(DefaultIcon) == DefaultIcon
  {
    var u := ToUpper(DefaultIcon);
    assert u[0] == 'P' && u[1] == 'A' && u[2] == 'P' && u[3] == 'E' && u[4] == 'R';
  }

  lemma SnapshotStripped()
    ensures Contains("2.0-SNAPSHOT", Snapshot)
    ensures RemoveAll("2.0-SNAPSHOT", Snapshot) == "2.0"
  {
    var v := "2.0-SNAPSHOT";
    assert StartsWith(v[3..], Snapshot);
    assert RemoveAll(v[3..], Snapshot) == "";
    assert RemoveAll(v, Snapshot) == "2.0" by {
      assert v[..1] == "2" && v[1..] == ".0-SNAPSHOT";
      assert v[1..][1..] == "0-SNAPSHOT" && v[1..][1..][1..] == "-SNAPSHOT";
    }
    assert Contains(v, Snapshot) by {
      assert Contains(v[3..], Snapshot);
      assert Contains(v[2..], Snapshot) by { assert v[2..][1..] == v[3..]; }
      assert Contains(v[1..], Snapshot) by { assert v[1..][1..] == v[2..]; }
    }
  }

  lemma StrippedVersionMatches()
    ensures ApiVersionMatches("2.0")
  {
    assert "2.0"[..2] == "2." && "2.0"[2..2] == "" && "2.0"[2..] == "0";
    assert OptionalGroup("2.0"[..2]) && OptionalGroup("2.0"[2..2]) && FinalPart("2.0"[2..]);
  }

  /** Every version of the forms N, N.N, N.N.N, optionally ending in `*`
      instead of the last number, is accepted. */
  lemma ApiVersionAcceptsDottedNumbers(a: string, b: string, t: string)
    requires IsDigits(a) && IsDigits(b) && FinalPart(t)
    ensures ApiVersionMatches(t)
    ensures ApiVersionMatches(a + "." + t)
    ensures ApiVersionMatches(a + "." + b + "." + t)
  {
    assert OptionalGroup("");
    var s1 := t;
    assert s1[..0] == "" && s1[0..0] == "" && s1[0..] == t;
    var s2 := a + "." + t;
    var i2 := |a| + 1;
    assert s2[..i2] == a + "." && s2[..i2][..|a|] == a;
    assert s2[i2..i2] == "" && s2[i2..] == t;
    assert OptionalGroup(s2[..i2]) && OptionalGroup(s2[i2..i2]) && FinalPart(s2[i2..]);
    var s3 := a + "." + b + "." + t;
    var j3 := |a| + 1 + |b| + 1;
    assert s3[..i2] == a + "." && s3[..i2][..|a|] == a;
    assert s3[i2..j3] == b + "." && s3[i2..j3][..|b|] == b;
    assert s3[j3..] == t;
    assert OptionalGroup(s3[..i2]) && OptionalGroup(s3[i2..j3]) && FinalPart(s3[j3..]);
  }

  predicate IsDigit(c: char) { '0' <= c <= '9' }

  lemma GroupShape(g: string)
    requires OptionalGroup(g)
    ensures forall k :: 0 <= k < |g| ==> IsDigit(g[k]) || (g[k] == '.' && k == |g| - 1)
    ensures g != "" ==> IsDigit(g[0]) && g[|g| - 1] == '.'
  {
    if g != "" {
      forall k | 0 <= k < |g| - 1 ensures IsDigit(g[k]) { assert g[k] == g[..|g| - 1][k]; }
    }
  }

  /** What an accepted version looks like: it starts with a digit or is `*`, its
      last character is a digit or `*`, every other character is a digit or a
      dot, and no dot is followed by another dot. */
  lemma ApiVersionShape(s: string)
    requires ApiVersionMatches(s)
    ensures s != "" && (IsDigit(s[0]) || s == "*")
    ensures IsDigit(s[|s| - 1]) || s[|s| - 1] == '*'
    ensures forall k :: 0 <= k < |s| - 1 ==> IsDigit(s[k]) || s[k] == '.'
    ensures forall k :: 0 <= k < |s| - 1 && s[k] == '.' ==> s[k + 1] != '.'
  {
    var i, j :| 0 <= i <= j <= |s| && OptionalGroup(s[..i]) && OptionalGroup(s[i..j]) && FinalPart(s[j..]);
    GroupsShape(s, i, j);
    FinalShape(s, j);
  }

  /** The two optional groups `s[..i]` and `s[i..j]` together: digits and dots,
      every dot but a final one followed by a digit, a digit first and a dot last. */
  lemma GroupsShape(s: string, i: nat, j: nat)
    requires i <= j <= |s| && OptionalGroup(s[..i]) && OptionalGroup(s[i..j])
    ensures forall k :: 0 <= k < j ==> IsDigit(s[k]) || s[k] == '.'
    ensures forall k :: 0 <= k < j - 1 && s[k] == '.' ==> IsDigit(s[k + 1])
    ensures j > 0 ==> IsDigit(s[0]) && s[j - 1] == '.'
  {
    var g1, g2 := s[..i], s[i..j];
    GroupShape(g1);
    GroupShape(g2);
    forall k | 0 <= k < j ensures IsDigit(s[k]) || s[k] == '.' {
      if k < i { assert s[k] == g1[k]; } else { assert s[k] == g2[k - i]; }
    }
    forall k | 0 <= k < i && s[k] == '.' && k < j - 1 ensures IsDigit(s[k + 1]) {
      assert s[k] == g1[k];
      assert s[k + 1] == g2[0];
    }
    forall k | i <= k < j - 1 ensures s[k] != '.' {
      assert s[k] == g2[k - i];
    }
    if j > 0 {
      if i > 0 { assert s[0] == g1[0]; } else { assert s[0] == g2[0]; }
      if i < j { assert s[j - 1] == g2[|g2| - 1]; } else { assert s[j - 1] == g1[|g1| - 1]; }
    }
  }

  /** The final part `s[j..]` after the groups completes the shape. */
  lemma FinalShape(s: string, j: nat)
    requires j <= |s| && FinalPart(s[j..])
    requires forall k :: 0 <= k < j ==> IsDigit(s[k]) || s[k] == '.'
    requires forall k :: 0 <= k < j - 1 && s[k] == '.' ==> IsDigit(s[k + 1])
    requires j > 0 ==> IsDigit(s[0]) && s[j - 1] == '.'
    ensures s != "" && (IsDigit(s[0]) || s == "*")
    ensures IsDigit(s[|s| - 1]) || s[|s| - 1] == '*'
    ensures forall k :: 0 <= k < |s| - 1 ==> IsDigit(s[k]) || s[k] == '.'
    ensures forall k :: 0 <= k < |s| - 1 && s[k] == '.' ==> s[k + 1] != '.'
  {
    var t := s[j..];
    assert t != "";
    forall k | j <= k < |s| - 1 ensures IsDigit(s[k]) {
      assert s[k] == t[k - j];
    }
    forall k | 0 <= k < j && s[k] == '.' && k < |s| - 1 ensures s[k + 1] != '.' {
      if k < j - 1 {
      } else {
        assert s[k + 1] == t[0];
      }
    }
    if j == 0 { assert s == t; }
    assert s[|s| - 1] == t[|t| - 1];
  }
}
