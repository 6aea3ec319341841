/**
 * Optional dependencies: the table of optional packages with the install group and the
 * feature each one enables, and the session-wide record of the packages already warned
 * about, shared by `warn_if_missing` and every `requires_optional` wrapper so that each
 * missing package is warned about at most once.
 *
 * Whether a package imports (`importlib.import_module` succeeding) is outside the model:
 * it is the predicate `installed`, fixed when the registry is created.
 */
module OptionalDeps {
  import opened Wrappers

  /** A table entry: the extras group that installs the package and the feature it enables. */
  datatype DepInfo = DepInfo(group: string, feature: string)

  /** `OPTIONAL_DEPS`. */
  const Table: map<string, DepInfo> := map[
    "cupy" := DepInfo("performance", "GPU acceleration"),
    "dask" := DepInfo("performance", "parallel processing and chunked loading"),
    "holoviews" := DepInfo("ui", "interactive visualization"),
    "hvplot" := DepInfo("ui", "interactive plotting"),
    "tiled" := DepInfo("bluesky", "bluesky data access"),
    "databroker" := DepInfo("bluesky", "bluesky data access"),
    "PIL" := DepInfo("io", "image file loading"),
    "fabio" := DepInfo("io", "image file loading"),
    "h5py" := DepInfo("io", "HDF5/NEXUS file loading"),
    "pyFAI" := DepInfo("processing", "azimuthal integration"),
    "astropy" := DepInfo("io", "FITS file loading"),
    "scikit-image" := DepInfo("processing", "image processing")
  ]

  /** The default of the lookup. */
  const Unknown: DepInfo := DepInfo("unknown", "unknown")

  /** `OPTIONAL_DEPS.get(name, {'group': 'unknown', 'feature': 'unknown'})`. */
  function Lookup(name: string): (info: DepInfo)
    ensures name in Table ==> info == Table[name]
    ensures info == Unknown <==> name !in Table
  {
    if name in Table then Table[name] else Unknown
  }

  const HintPrefix: string := "pyhyperscattering["

  /** The extras specifier named in both messages: `pyhyperscattering[<group>]`. */
  function InstallHint(name: string): (hint: string)
    ensures |hint| == |HintPrefix| + |Lookup(name).group| + 1
    ensures hint[..|HintPrefix|] == HintPrefix && hint[|hint| - 1] == ']'
    ensures GroupOfHint(hint) == Lookup(name).group
  {
    HintPrefix + Lookup(name).group + "]"
  }

  /** Reads the group back out of an extras specifier. */
  function GroupOfHint(hint: string): string
    requires |hint| > |HintPrefix|
  {
    hint[|HintPrefix|..|hint| - 1]
  }

  /** Every package of the table installs with one of the five extras groups. */
  lemma TableGroups(name: string)
    requires name in Table
    ensures Lookup(name).group in ["performance", "ui", "bluesky", "io", "processing"]
  {
  }

  /** A package missing from the table is pointed to `pyhyperscattering[unknown]`. */
  lemma UnknownPackageHint(name: string)
    requires name !in Table
    ensures InstallHint(name) == "pyhyperscattering[unknown]"
  {
  }

  /**
   * The names that import are module names: identifiers joined by dots, never with a hyphen.
   * A distribution name such as `scikit-image` (whose module is `skimage`) therefore never imports.
   */
  ghost predicate ModuleNamesOnly(installed: string -> bool) {
    forall name: string | '-' in name :: !installed(name)
  }

  /** Asking for the distribution name `scikit-image` always fails. */
  lemma DistributionNameNeverImports(installed: string -> bool)
    requires ModuleNamesOnly(installed)
    ensures !installed("scikit-image")
  {
    assert "scikit-image"[6] == '-';
  }

  /** The `ImportWarning` issued for a missing package: who, what for, and how to install it. */
  datatype Warning = Warning(package: string, feature: string, hint: string)

  /** The `ImportError` raised by a wrapper whose package is missing. */
  datatype MissingPackage = MissingPackage(package: string, caller: string, hint: string)

  /** The warning both `warn_if_missing` and the wrapper issue for `name`. */
  function WarningFor(name: string): (w: Warning)
    ensures w.package == name && w.feature == Lookup(name).feature
    ensures |w.hint| > |HintPrefix| && GroupOfHint(w.hint) == Lookup(name).group
  {
    Warning(name, Lookup(name).feature, InstallHint(name))
  }

  /** The session: the import check, and `_warned_packages`. */
  class Registry {
    /** Whether importing the package succeeds. */
    const installed: string -> bool
    /** `_warned_packages`. */
    var warned: set<string>
    /** The packages warned about, in the order the warnings were issued. */
    ghost var log: seq<string>

    /**
     * The warned set is exactly the packages warned about, each was warned about once,
     * and none of them is installed.
     */
    ghost predicate Valid()
      reads this
    {
      && (forall i | 0 <= i < |log| :: log[i] in warned && !installed(log[i]))
      && (forall n | n in warned :: n in log)
      && (forall i, j | 0 <= i < j < |log| :: log[i] != log[j])
    }

    /** A fresh session: nothing warned about yet. */
    constructor(installed: string -> bool)
      ensures this.installed == installed
      ensures warned == {} && log == []
      ensures Valid()
    {
      this.installed := installed;
      warned := {};
      log := [];
    }

    /**
     * `warn_if_missing`: warns exactly when the package is missing and not yet warned
     * about, and then records it.
     */
    method WarnIfMissing(name: string) returns (w: Option<Warning>)
      requires Valid()
      modifies this
      ensures Valid()
      ensures w.Some? <==> !installed(name) && name !in old(warned)
      ensures w.Some? ==> w.value == WarningFor(name) && warned == old(warned) + {name} && log == old(log) + [name]
      ensures w.None? ==> warned == old(warned) && log == old(log)
      ensures !installed(name) ==> name in warned
    {
      if !installed(name) && name !in warned {
        w := Some(WarningFor(name));
        warned := warned + {name};
        log := log + [name];
      } else {
        w := None;
      }
    }

    /**
     * The wrapper `requires_optional(name)` puts around `func`: with the package
     * installed it returns `func(args)` and touches nothing; without it, it warns if
     * the package was not warned about yet, and raises `ImportError` without calling
     * `func`.
     */
    method CallRequiring<A, R>(name: string, funcName: string, func: A -> R, args: A)
      returns (r: Result<R, MissingPackage>, w: Option<Warning>)
      requires Valid()
      modifies this
      ensures Valid()
      ensures installed(name) ==> r == Success(func(args)) && w.None? && warned == old(warned) && log == old(log)
      ensures !installed(name) ==> r == Failure(MissingPackage(name, funcName, InstallHint(name))) && name in warned
      ensures w.Some? <==> !installed(name) && name !in old(warned)
      ensures w.Some? ==> w.value == WarningFor(name) && warned == old(warned) + {name} && log == old(log) + [name]
      ensures w.None? ==> warned == old(warned) && log == old(log)
    {
      if !installed(name) {
        if name !in warned {
          w := Some(WarningFor(name));
          warned := warned + {name};
          log := log + [name];
        } else {
          w := None;
        }
        return Failure(MissingPackage(name, funcName, InstallHint(name))), w;
      }
      return Success(func(args)), None;
    }
  }
}
