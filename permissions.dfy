/**
 * The permissions a module's `permissions` section declares, as
 * `ModuleManager.setPerms` and `registerPermission` read them.
 *
 * The section is kept as the manifest stores it: its entries are keyed by
 * their full path (`permissions.a.b.default`), while the paths the section's
 * own methods take and the permission names are relative to it (`a.b`).
 */
module Permissions {
  import opened Common
  import opened Text
  import opened Platform
  import opened Manifests

  const DefaultSuffix: string := ".default"
  const DescriptionSuffix: string := ".description"

  /** The manifest key of a path relative to the permissions section. */
  function Key(path: string): string {
    PermissionsPrefix + path
  }

  /** `ConfigurationSection.contains(path)`: the path holds a value, or is a
      section above one. */
  predicate SectionContains(section: Manifest, path: string) {
    Key(path) in section || exists k :: k in section && StartsWith(k, Key(path) + ".")
  }

  /** `getKeys(true)`: every path of the section that holds a value or a
      section, at any depth. */
  function Paths(section: Manifest): (r: set<string>)
    ensures forall p :: p in r <==> p != "" && SectionContains(section, p)
  {
    var r := set k, i | k in section && |PermissionsPrefix| < i <= |k| && SectionContains(section, k[|PermissionsPrefix|..i]) :: k[|PermissionsPrefix|..i];
    forall p | p != "" && SectionContains(section, p) ensures p in r {
      PathWitness(section, p);
    }
    r
  }

  lemma PathWitness(section: Manifest, p: string)
    requires p != "" && SectionContains(section, p)
    ensures exists k, i :: k in section && |PermissionsPrefix| < i <= |k| && k[|PermissionsPrefix|..i] == p
  {
    var n := |PermissionsPrefix|;
    if Key(p) in section {
      var k := Key(p);
      assert k[n..|k|] == p;
    } else {
      var k :| k in section && StartsWith(k, Key(p) + ".");
      assert k[..|Key(p) + "."|] == Key(p) + ".";
      assert k[n..n + |p|] == (Key(p) + ".")[n..n + |p|] == p;
    }
  }

  /** The test `setPerms` applies to a path before registering it: both
      `<path>.default` and `<path>.description` are present. */
  predicate IsNode(section: Manifest, p: string) {
    SectionContains(section, p + DefaultSuffix) && SectionContains(section, p + DescriptionSuffix)
  }

  /** `registerPermission(perms, p)`: the permission it registers, or `None`
      where it throws because `<p>.default` holds no value or a name that
      `PermissionDefault.getByName` does not know (`defaults`). */
  function GrantFor(section: Manifest, p: string, defaults: map<string, PermissionDefault>): (g: Option<Grant>)
    ensures g.Some? <==> Key(p + DefaultSuffix) in section && section[Key(p + DefaultSuffix)] in defaults
    ensures g.Some? ==> g.value.name == p
  {
    match Get(section, Key(p + DefaultSuffix))
    case None => None
    case Some(level) =>
      if level in defaults then Some(Grant(p, Get(section, Key(p + DescriptionSuffix)), defaults[level]))
      else None
  }

  /** The permissions registered once the paths in `visited` have had their turn. */
  function GrantsOver(section: Manifest, defaults: map<string, PermissionDefault>, visited: set<string>): set<Grant> {
    set p | p in visited && IsNode(section, p) && GrantFor(section, p, defaults).Some? :: GrantFor(section, p, defaults).value
  }

  /** Everything one `setPerms` call registers. */
  function Grants(section: Manifest, defaults: map<string, PermissionDefault>): set<Grant> {
    GrantsOver(section, defaults, Paths(section))
  }

  /** A permission is registered under a name exactly when the name's
      `.default` entry holds a known default and its `.description` is
      present, whether as a value or as a section. */
  lemma GrantedIff(section: Manifest, defaults: map<string, PermissionDefault>, p: string)
    ensures (exists g :: g in Grants(section, defaults) && g.name == p) <==>
      && p != ""
      && Key(p + DefaultSuffix) in section && section[Key(p + DefaultSuffix)] in defaults
      && SectionContains(section, p + DescriptionSuffix)
  {
    if p != "" && Key(p + DefaultSuffix) in section && section[Key(p + DefaultSuffix)] in defaults
      && SectionContains(section, p + DescriptionSuffix)
    {
      var k := Key(p + DefaultSuffix);
      assert k == Key(p) + "." + "default";
      assert StartsWith(k, Key(p) + ".");
      assert SectionContains(section, p);
      assert p in Paths(section);
      assert GrantFor(section, p, defaults).value in Grants(section, defaults);
    }
  }

  /** A registered permission carries the description and default level the
      section gives for it, and no name is registered twice. */
  lemma GrantsAgreeWithSection(section: Manifest, defaults: map<string, PermissionDefault>)
    ensures forall g :: g in Grants(section, defaults) ==>
      && Key(g.name + DefaultSuffix) in section
      && g.level == defaults[section[Key(g.name + DefaultSuffix)]]
      && g.description == Get(section, Key(g.name + DescriptionSuffix))
    ensures forall g, h :: g in Grants(section, defaults) && h in Grants(section, defaults) && g.name == h.name ==> g == h
  {
  }
}
