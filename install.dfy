/**
 * prepareInstallation: where the design-system assets are copied from and to.
 * Pure path composition; the copying itself is done by a caller.
 */
module Install {
  import opened Chars

  datatype InstallationPaths = InstallationPaths(from: string, to: string)

  predicate EndsWith(s: string, suffix: string)
  {
    |suffix| <= |s| && s[|s| - |suffix|..] == suffix
  }

  /** A root path in the form the installer passes it: non-empty, no trailing separator. */
  predicate IsPlainRoot(root: string)
  {
    root != "" && root[|root| - 1] != '/'
  }

  lemma EndsWithAppend(a: string, x: string, y: string)
    requires EndsWith(a, x)
    ensures EndsWith(a + y, x + y)
  {
    var n := |a + y| - |x + y|;
    assert (a + y)[n..] == a[|a| - |x|..] + y;
  }

  lemma StartsWithAppend(a: string, y: string)
    ensures StartsWith(a + y, a)
  {
    assert (a + y)[..|a|] == a;
  }

  /**
   * `path.join(base, segment)` for a segment without separators: an empty
   * base is dropped, and a base that already ends in `/` gets none added.
   */
  function Join(base: string, segment: string): (joined: string)
    ensures EndsWith(joined, segment)
    ensures base != "" ==> StartsWith(joined, base)
    ensures IsPlainRoot(base) ==> joined == base + "/" + segment
    ensures IsPlainRoot(segment) ==> IsPlainRoot(joined)
  {
    if base == "" then
      assert segment[|segment| - |segment|..] == segment;
      segment
    else if base[|base| - 1] == '/' then
      StartsWithAppend(base, segment);
      assert (base + segment)[|base|..] == segment;
      base + segment
    else
      StartsWithAppend(base, "/" + segment);
      assert base + "/" + segment == base + ("/" + segment);
      assert (base + ("/" + segment))[|base| + 1..] == segment;
      base + "/" + segment
  }

  lemma StartsWithTransitive(d: string, a: string, root: string)
    requires StartsWith(d, a) && StartsWith(a, root)
    ensures StartsWith(d, root)
  {
    assert d[..|root|] == d[..|a|][..|root|];
  }

  lemma AssetsSuffix()
    ensures "assets" + "/elementary" == "assets/elementary"
    ensures "/" + "assets" + "/elementary" == "/assets/elementary"
  {
  }

  lemma AssetsDirSuffix(root: string)
    ensures EndsWith(Join(Join(root, "assets"), "elementary"), "assets/elementary")
  {
    var a := Join(root, "assets");
    assert IsPlainRoot("assets");
    assert Join(a, "elementary") == a + "/" + "elementary";
    EndsWithAppend(a, "assets", "/elementary");
    AssetsSuffix();
    assert a + "/" + "elementary" == a + "/elementary";
  }

  lemma AssetsDirPrefix(root: string)
    ensures root != "" ==> StartsWith(Join(Join(root, "assets"), "elementary"), root)
  {
    if root != "" {
      var a := Join(root, "assets");
      StartsWithTransitive(Join(a, "elementary"), a, root);
    }
  }

  lemma AssetsDirPlain(root: string)
    ensures IsPlainRoot(root) ==> Join(Join(root, "assets"), "elementary") == root + "/assets/elementary"
  {
    if IsPlainRoot(root) {
      var a := Join(root, "assets");
      assert a == root + "/" + "assets";
      assert IsPlainRoot("assets");
      assert Join(a, "elementary") == a + "/" + "elementary";
      AssetsSuffix();
      assert root + "/" + "assets" + "/" + "elementary" == root + ("/" + "assets" + "/elementary");
    }
  }

  /** `join(root, 'assets', 'elementary')`. */
  function AssetsDir(root: string): (dir: string)
    ensures EndsWith(dir, "assets/elementary")
    ensures root != "" ==> StartsWith(dir, root)
    ensures IsPlainRoot(root) ==> dir == root + "/assets/elementary"
  {
    AssetsDirSuffix(root);
    AssetsDirPrefix(root);
    AssetsDirPlain(root);
    Join(Join(root, "assets"), "elementary")
  }

  /** `prepareInstallation(sourcePath, targetPath)`. */
  function PrepareInstallation(sourcePath: string, targetPath: string): (paths: InstallationPaths)
    ensures EndsWith(paths.from, "assets/elementary") && EndsWith(paths.to, "assets/elementary")
    ensures sourcePath != "" ==> StartsWith(paths.from, sourcePath)
    ensures targetPath != "" ==> StartsWith(paths.to, targetPath)
    ensures IsPlainRoot(sourcePath) ==> paths.from == sourcePath + "/assets/elementary"
    ensures IsPlainRoot(targetPath) ==> paths.to == targetPath + "/assets/elementary"
  {
    InstallationPaths(AssetsDir(sourcePath), AssetsDir(targetPath))
  }

  /** Each path depends on its own argument only: `from` ignores the target, `to` the source. */
  lemma PrepareInstallationIndependent(sourcePath: string, targetPath: string, otherSource: string, otherTarget: string)
    ensures PrepareInstallation(sourcePath, targetPath).from == PrepareInstallation(sourcePath, otherTarget).from
    ensures PrepareInstallation(sourcePath, targetPath).to == PrepareInstallation(otherSource, targetPath).to
  {
  }

  /**
   * The composed directory gives back its root: two plain roots whose asset
   * directories agree are the same root.
   */
  lemma AssetsDirInjective(a: string, b: string)
    requires IsPlainRoot(a) && IsPlainRoot(b)
    requires AssetsDir(a) == AssetsDir(b)
    ensures a == b
  {
    var suffix := "/assets/elementary";
    assert a == (a + suffix)[..|a + suffix| - |suffix|];
    assert b == (b + suffix)[..|b + suffix| - |suffix|];
  }

  lemma PrepareInstallationExample()
    ensures PrepareInstallation("/skill", "/proj") == InstallationPaths("/skill/assets/elementary", "/proj/assets/elementary")
  {
    var source, target := "/skill", "/proj";
    assert IsPlainRoot(source) && IsPlainRoot(target);
    assert source + "/assets/elementary" == "/skill/assets/elementary";
    assert target + "/assets/elementary" == "/proj/assets/elementary";
  }
}
