/**
 * The "missing features" inspection of the Rust plugin.  For a file of a
 * workspace package it reports, as one warning, every feature that a
 * dependency or the file's own target requires but that is disabled in the
 * workspace package declaring it.
 */
module MissingFeaturesInspection {
  import opened Wrappers

  type FeatureName = string

  /** Targets are compared by identity; an id stands for that identity. */
  type TargetId = nat

  datatype PackageOrigin = Stdlib | StdlibDependency | Workspace | Dependency

  datatype FeatureState = Enabled | Disabled

  /**
   * A Cargo package: its origin, the state of each of its features, its
   * dependencies, and the id of its library target if it has one.
   */
  datatype Package = Package(
    name: string,
    origin: PackageOrigin,
    featureState: map<FeatureName, FeatureState>,
    dependencies: seq<Dependency>,
    libTarget: Option<TargetId>)

  /** A dependency edge, with the features the dependent asks of `pkg`. */
  datatype Dependency = Dependency(pkg: Package, requiredFeatures: seq<FeatureName>)

  /** A Cargo target (library, binary, example, ...) of package `pkg`. */
  datatype Target = Target(id: TargetId, pkg: Package, requiredFeatures: seq<FeatureName>)

  datatype PackageFeature = PackageFeature(pkg: Package, name: FeatureName)

  /** `feature` is listed for `pkg` and switched off; an unlisted feature is not. */
  predicate IsDisabled(pkg: Package, feature: FeatureName)
  {
    feature in pkg.featureState && pkg.featureState[feature] == Disabled
  }

  // ---------------------------------------------------------------------
  // Specification of the collected sets
  // ---------------------------------------------------------------------

  /** The disabled ones among `features`, paired with `pkg`. */
  function DisabledAmong(pkg: Package, features: seq<FeatureName>): set<PackageFeature>
  {
    set f | f in features && IsDisabled(pkg, f) :: PackageFeature(pkg, f)
  }

  /**
   * The features required through `deps` of workspace packages that those
   * packages have disabled.
   */
  function MissingFromDependencies(deps: seq<Dependency>): set<PackageFeature>
  {
    set d, f | d in deps && d.pkg.origin == Workspace && f in d.requiredFeatures && IsDisabled(d.pkg, f)
      :: PackageFeature(d.pkg, f)
  }

  /**
   * A target's own required features are checked only when its package has
   * a library target and the target is not that library.
   */
  predicate ChecksOwnFeatures(target: Target)
  {
    target.pkg.libTarget.Some? && target.id != target.pkg.libTarget.value
  }

  function MissingForTarget(target: Target): set<PackageFeature>
  {
    MissingFromDependencies(target.pkg.dependencies)
    + (if ChecksOwnFeatures(target) then DisabledAmong(target.pkg, target.requiredFeatures) else {})
  }

  lemma DisabledAmongSnoc(pkg: Package, features: seq<FeatureName>, f: FeatureName)
    ensures DisabledAmong(pkg, features + [f])
         == DisabledAmong(pkg, features) + (if IsDisabled(pkg, f) then {PackageFeature(pkg, f)} else {})
  {
    forall pf | pf in DisabledAmong(pkg, features + [f])
      ensures pf in DisabledAmong(pkg, features) || (IsDisabled(pkg, f) && pf == PackageFeature(pkg, f))
    {
      var g :| g in features + [f] && IsDisabled(pkg, g) && pf == PackageFeature(pkg, g);
      if g != f {
        assert g in features;
      }
    }
  }

  lemma MissingFromDependenciesSnoc(deps: seq<Dependency>, d: Dependency)
    ensures MissingFromDependencies(deps + [d])
         == MissingFromDependencies(deps)
            + (if d.pkg.origin == Workspace then DisabledAmong(d.pkg, d.requiredFeatures) else {})
  {
    forall pf | pf in MissingFromDependencies(deps + [d])
      ensures pf in MissingFromDependencies(deps)
           || (d.pkg.origin == Workspace && pf in DisabledAmong(d.pkg, d.requiredFeatures))
    {
      var e, f :| e in deps + [d] && e.pkg.origin == Workspace && f in e.requiredFeatures
        && IsDisabled(e.pkg, f) && pf == PackageFeature(e.pkg, f);
      if e != d {
        assert e in deps;
      }
    }
  }

  // ---------------------------------------------------------------------
  // The collectors
  // ---------------------------------------------------------------------

  /** A mutable set of package features, grown in place. */
  class PackageFeatureSet {
    var elements: set<PackageFeature>

    constructor ()
      ensures elements == {}
    {
      elements := {};
    }

    method Add(pf: PackageFeature)
      modifies this
      ensures elements == old(elements) + {pf}
    {
      elements := elements + {pf};
    }
  }

  /**
   * Adds to `missing` the disabled features that `pkg` requires of its
   * workspace dependencies; nothing already in `missing` is removed.
   */
  method CollectMissingFeaturesForPackageInto(pkg: Package, missing: PackageFeatureSet)
    modifies missing
    ensures old(missing.elements) <= missing.elements
    ensures missing.elements == old(missing.elements) + MissingFromDependencies(pkg.dependencies)
  {
    var deps := pkg.dependencies;
    for i := 0 to |deps|
      invariant missing.elements == old(missing.elements) + MissingFromDependencies(deps[..i])
    {
      var dep := deps[i];
      if dep.pkg.origin == Workspace {
        ghost var before := missing.elements;
        for j := 0 to |dep.requiredFeatures|
          invariant missing.elements == before + DisabledAmong(dep.pkg, dep.requiredFeatures[..j])
        {
          var requiredFeature := dep.requiredFeatures[j];
          if requiredFeature in dep.pkg.featureState && dep.pkg.featureState[requiredFeature] == Disabled {
            missing.Add(PackageFeature(dep.pkg, requiredFeature));
          }
          DisabledAmongSnoc(dep.pkg, dep.requiredFeatures[..j], requiredFeature);
          assert dep.requiredFeatures[..j + 1] == dep.requiredFeatures[..j] + [requiredFeature];
        }
        assert dep.requiredFeatures[..|dep.requiredFeatures|] == dep.requiredFeatures;
      }
      MissingFromDependenciesSnoc(deps[..i], dep);
      assert deps[..i + 1] == deps[..i] + [dep];
    }
    assert deps[..|deps|] == deps;
  }

  /** The missing features of `pkg`'s dependencies, collected into a new set. */
  method CollectMissingFeaturesForPackage(pkg: Package) returns (missing: set<PackageFeature>)
    ensures missing == MissingFromDependencies(pkg.dependencies)
  {
    var acc := new PackageFeatureSet();
    CollectMissingFeaturesForPackageInto(pkg, acc);
    missing := acc.elements;
  }

  /**
   * The missing features of a target: those of its package's dependencies,
   * plus its own disabled required features when it is not the library.
   */
  method CollectMissingFeatureForTarget(target: Target) returns (missing: set<PackageFeature>)
    ensures missing == MissingForTarget(target)
  {
    var acc := new PackageFeatureSet();
    CollectMissingFeaturesForPackageInto(target.pkg, acc);
    var libTarget := target.pkg.libTarget;
    if libTarget.Some? && target.id != libTarget.value {
      var pkg, features := target.pkg, target.requiredFeatures;
      for j := 0 to |features|
        invariant acc.elements == MissingFromDependencies(pkg.dependencies) + DisabledAmong(pkg, features[..j])
      {
        var requiredFeature := features[j];
        if requiredFeature in pkg.featureState && pkg.featureState[requiredFeature] == Disabled {
          acc.Add(PackageFeature(pkg, requiredFeature));
        }
        DisabledAmongSnoc(pkg, features[..j], requiredFeature);
        assert features[..j + 1] == features[..j] + [requiredFeature];
      }
      assert features[..|features|] == features;
    }
    missing := acc.elements;
  }

  // ---------------------------------------------------------------------
  // Properties of the collected sets
  // ---------------------------------------------------------------------

  /**
   * (p, f) is reported for a package exactly when one of its dependencies
   * leads to the workspace package p, requires f, and p has f disabled.
   */
  lemma PackageMissingIff(pkg: Package, p: Package, f: FeatureName)
    ensures PackageFeature(p, f) in MissingFromDependencies(pkg.dependencies)
        <==> exists d :: d in pkg.dependencies && d.pkg == p && p.origin == Workspace
                         && f in d.requiredFeatures && IsDisabled(p, f)
  {
    if PackageFeature(p, f) in MissingFromDependencies(pkg.dependencies) {
      var d, g :| d in pkg.dependencies && d.pkg.origin == Workspace && g in d.requiredFeatures
        && IsDisabled(d.pkg, g) && PackageFeature(p, f) == PackageFeature(d.pkg, g);
      assert d.pkg == p && g == f;
    }
  }

  /** Everything reported is a disabled feature of a workspace package. */
  lemma ReportedAreWorkspaceDisabled(deps: seq<Dependency>)
    ensures forall pf :: pf in MissingFromDependencies(deps) ==> pf.pkg.origin == Workspace && IsDisabled(pf.pkg, pf.name)
  {
  }

  /** A dependency on a non-workspace package contributes nothing. */
  lemma NonWorkspaceContributesNothing(deps: seq<Dependency>, d: Dependency, f: FeatureName)
    requires d in deps && d.pkg.origin != Workspace
    ensures PackageFeature(d.pkg, f) !in MissingFromDependencies(deps)
  {
    ReportedAreWorkspaceDisabled(deps);
  }

  /** A feature that is enabled, or absent from the state table, is never reported. */
  lemma EnabledOrAbsentNeverReported(target: Target, p: Package, f: FeatureName)
    requires f !in p.featureState || p.featureState[f] == Enabled
    ensures PackageFeature(p, f) !in MissingForTarget(target)
  {
    ReportedAreWorkspaceDisabled(target.pkg.dependencies);
  }

  /**
   * The target's result contains the package's result, and adds to it only
   * the target's own disabled features when it is not the library target.
   */
  lemma TargetExtendsPackage(target: Target)
    ensures MissingFromDependencies(target.pkg.dependencies) <= MissingForTarget(target)
    ensures !ChecksOwnFeatures(target) ==> MissingForTarget(target) == MissingFromDependencies(target.pkg.dependencies)
    ensures forall pf :: pf in MissingForTarget(target) - MissingFromDependencies(target.pkg.dependencies) ==>
      ChecksOwnFeatures(target) && pf.pkg == target.pkg && pf.name in target.requiredFeatures && IsDisabled(target.pkg, pf.name)
  {
  }

  /** A non-library target reports its own disabled required features. */
  lemma OwnDisabledFeatureReported(target: Target, f: FeatureName)
    requires ChecksOwnFeatures(target)
    requires f in target.requiredFeatures && IsDisabled(target.pkg, f)
    ensures PackageFeature(target.pkg, f) in MissingForTarget(target)
  {
  }

  // ---------------------------------------------------------------------
  // The inspection entry points
  // ---------------------------------------------------------------------

  datatype CargoProject = CargoProject(manifest: string)

  /** What the inspection learns about a file. */
  datatype SourceFile = SourceFile(
    isRustFile: bool,
    cargoProject: Option<CargoProject>,
    containingTarget: Option<Target>)

  /** The quick fix that enables the listed features. */
  datatype EnableCargoFeaturesFix = EnableCargoFeaturesFix(project: CargoProject, features: set<PackageFeature>)

  /** A warning on the file listing the missing features, with its fix. */
  datatype ProblemDescriptor = ProblemDescriptor(missingFeatures: set<PackageFeature>, fix: EnableCargoFeaturesFix)

  /** No warning for an empty set; otherwise exactly one, carrying the whole set. */
  function CreateProblemDescriptors(missing: set<PackageFeature>, project: CargoProject): (r: seq<ProblemDescriptor>)
    ensures |r| <= 1
    ensures r == [] <==> missing == {}
    ensures forall d :: d in r ==> d.missingFeatures == missing && d.fix == EnableCargoFeaturesFix(project, missing)
  {
    if missing == {} then []
    else [ProblemDescriptor(missing, EnableCargoFeaturesFix(project, missing))]
  }

  /** The file is a Rust file of a cargo project, in a target of a workspace package. */
  predicate Inspected(file: SourceFile)
  {
    file.isRustFile && file.cargoProject.Some? && file.containingTarget.Some?
    && file.containingTarget.value.pkg.origin == Workspace
  }

  /**
   * Inspects one file: no answer at all unless the file is inspected;
   * otherwise the warnings for its target's missing features.
   */
  method CheckFile(file: SourceFile) returns (r: Option<seq<ProblemDescriptor>>)
    ensures r.None? <==> !Inspected(file)
    ensures r.Some? ==> r.value == CreateProblemDescriptors(
      MissingForTarget(file.containingTarget.value), file.cargoProject.value)
  {
    if !file.isRustFile {
      return None;
    }
    if file.cargoProject.None? {
      return None;
    }
    var cargoProject := file.cargoProject.value;
    if file.containingTarget.None? {
      return None;
    }
    var target := file.containingTarget.value;
    if target.pkg.origin != Workspace {
      return None;
    }
    var missingFeatures := CollectMissingFeatureForTarget(target);
    return Some(CreateProblemDescriptors(missingFeatures, cargoProject));
  }
}
