/**
  `PluginInfo::from_dir`: what the tool learns about a plugin directory,
  merged from `package.json`, the `[package]` table of `Cargo.toml` and the
  `version:`/`name:`/`author:` literals of the frontend entry file.
 */
module PluginMeta {
  import opened Wrappers

  const DefaultVersion: string := "1.0.0"
  const UnknownId: string := "unknown"

  /** String fields of `package.json`; None when the file is absent, unreadable or not JSON. */
  datatype PackageJson = PackageJson(version: Option<string>, name: Option<string>,
                                     author: Option<string>, description: Option<string>)

  /** String fields of `[package]` in `Cargo.toml`; None when unreadable, not TOML or no `[package]`. */
  datatype CargoPackage = CargoPackage(version: Option<string>, name: Option<string>)

  /** The first `version:`, `name:` and `author:` literals of an entry file. */
  datatype IndexLiterals = IndexLiterals(version: Option<string>, name: Option<string>, author: Option<string>)

  /** A plugin directory, as far as `from_dir` looks at it. */
  datatype PluginDir = PluginDir(
    dirName: Option<string>,           // the last component of the path
    files: set<string>,                // names of the entries present
    packageJson: Option<PackageJson>,
    cargoPackage: Option<CargoPackage>,
    indexJsx: Option<IndexLiterals>,   // None when unreadable
    indexJs: Option<IndexLiterals>)

  datatype PluginInfo = PluginInfo(
    id: string,
    version: string,
    name: Option<string>,
    author: Option<string>,
    description: Option<string>,
    hasBackend: bool,
    hasFrontend: bool)

  /** `has_backend`: both `mod.rs` and `Cargo.toml` among the names present. */
  predicate BackendFilesPresent(names: set<string>)
  {
    "mod.rs" in names && "Cargo.toml" in names
  }

  predicate HasBackend(d: PluginDir)
  {
    BackendFilesPresent(d.files)
  }

  predicate HasFrontend(d: PluginDir)
  {
    "index.jsx" in d.files || "index.js" in d.files
  }

  /** `index.jsx` when it exists, otherwise `index.js`. */
  function EntryLiterals(d: PluginDir): Option<IndexLiterals>
  {
    if "index.jsx" in d.files then d.indexJsx else d.indexJs
  }

  function OrElse(first: Option<string>, second: Option<string>): Option<string>
  {
    if first.Some? then first else second
  }

  /** What package.json says, field by field. */
  function Json(d: PluginDir): PackageJson
  {
    if d.packageJson.Some? then d.packageJson.value else PackageJson(None, None, None, None)
  }

  /** What Cargo.toml says; consulted for backends only. */
  function Cargo(d: PluginDir): CargoPackage
  {
    if HasBackend(d) && d.cargoPackage.Some? then d.cargoPackage.value else CargoPackage(None, None)
  }

  /** The version known before the entry file is consulted: Cargo.toml over package.json over the default. */
  function EarlyVersion(d: PluginDir): string
  {
    var v := OrElse(Cargo(d).version, Json(d).version);
    if v.Some? then v.value else DefaultVersion
  }

  /** The entry file is read only for frontends still showing the default version. */
  predicate ReadsEntryFile(d: PluginDir)
  {
    HasFrontend(d) && EarlyVersion(d) == DefaultVersion
  }

  /** What the entry file says; consulted only when `ReadsEntryFile`. */
  function Entry(d: PluginDir): IndexLiterals
  {
    if ReadsEntryFile(d) && EntryLiterals(d).Some? then EntryLiterals(d).value else IndexLiterals(None, None, None)
  }

  /**
    The merged record, stated source by source: for each field the first
    source in its order of precedence that provides it.
   */
  function Merged(d: PluginDir): Result<PluginInfo>
  {
    if !HasBackend(d) && !HasFrontend(d) then Err("Not a valid plugin: no mod.rs/Cargo.toml or index.jsx/index.js found")
    else
      var entryVersion := Entry(d).version;
      Ok(PluginInfo(
        id := if d.dirName.Some? then d.dirName.value else UnknownId,
        version := if entryVersion.Some? then entryVersion.value else EarlyVersion(d),
        name := OrElse(Json(d).name, OrElse(Cargo(d).name, Entry(d).name)),
        author := OrElse(Json(d).author, Entry(d).author),
        description := Json(d).description,
        hasBackend := HasBackend(d),
        hasFrontend := HasFrontend(d)))
  }

  /** The record after package.json and Cargo.toml, before the entry file. */
  function EarlyInfo(d: PluginDir): PluginInfo
  {
    PluginInfo(
      id := if d.dirName.Some? then d.dirName.value else UnknownId,
      version := EarlyVersion(d),
      name := OrElse(Json(d).name, Cargo(d).name),
      author := Json(d).author,
      description := Json(d).description,
      hasBackend := HasBackend(d),
      hasFrontend := HasFrontend(d))
  }

  /** `value` when present, else `current`. */
  function Override(value: Option<string>, current: string): string
  {
    if value.Some? then value.value else current
  }

  /** The package.json block: every field it gives overwrites the record's. */
  method MergePackageJson(info: PluginInfo, json: PackageJson) returns (r: PluginInfo)
    ensures r == info.(version := Override(json.version, info.version), name := OrElse(json.name, info.name),
                       author := OrElse(json.author, info.author), description := OrElse(json.description, info.description))
  {
    r := info;
    if json.version.Some? {
      r := r.(version := json.version.value);
    }
    if json.name.Some? {
      r := r.(name := json.name);
    }
    if json.author.Some? {
      r := r.(author := json.author);
    }
    if json.description.Some? {
      r := r.(description := json.description);
    }
  }

  /** The Cargo.toml block: the version overwrites, the name only fills a gap. */
  method MergeCargoPackage(info: PluginInfo, package: CargoPackage) returns (r: PluginInfo)
    ensures r == info.(version := Override(package.version, info.version), name := OrElse(info.name, package.name))
  {
    r := info;
    if package.version.Some? {
      r := r.(version := package.version.value);
    }
    if r.name.None? && package.name.Some? {
      r := r.(name := package.name);
    }
  }

  /** The entry-file block: the version overwrites, name and author only fill gaps. */
  method MergeEntryLiterals(info: PluginInfo, lit: IndexLiterals) returns (r: PluginInfo)
    ensures r == info.(version := Override(lit.version, info.version), name := OrElse(info.name, lit.name),
                       author := OrElse(info.author, lit.author))
  {
    r := info;
    if lit.version.Some? {
      r := r.(version := lit.version.value);
    }
    if r.name.None? && lit.name.Some? {
      r := r.(name := lit.name);
    }
    if r.author.None? && lit.author.Some? {
      r := r.(author := lit.author);
    }
  }

  /** The first part of `from_dir`: defaults, then package.json, then a backend's Cargo.toml. */
  method ReadManifests(d: PluginDir) returns (info: PluginInfo)
    ensures info == EarlyInfo(d)
  {
    var hasBackend := "mod.rs" in d.files && "Cargo.toml" in d.files;
    info := PluginInfo(
      id := if d.dirName.Some? then d.dirName.value else UnknownId,
      version := DefaultVersion, name := None, author := None, description := None,
      hasBackend := hasBackend, hasFrontend := "index.jsx" in d.files || "index.js" in d.files);
    if d.packageJson.Some? {
      info := MergePackageJson(info, d.packageJson.value);
    }
    if hasBackend && d.cargoPackage.Some? {
      info := MergeCargoPackage(info, d.cargoPackage.value);
    }
  }

  /** `from_dir`, overwriting the fields of `info` source after source. */
  method FromDir(d: PluginDir) returns (r: Result<PluginInfo>)
    ensures r == Merged(d)
  {
    var hasBackend := "mod.rs" in d.files && "Cargo.toml" in d.files;
    var hasFrontend := "index.jsx" in d.files || "index.js" in d.files;
    if !hasBackend && !hasFrontend {
      return Err("Not a valid plugin: no mod.rs/Cargo.toml or index.jsx/index.js found");
    }
    var info := ReadManifests(d);
    if hasFrontend && info.version == DefaultVersion {
      var literals := if "index.jsx" in d.files then d.indexJsx else d.indexJs;
      if literals.Some? {
        info := MergeEntryLiterals(info, literals.value);
      }
    }
    assert Merged(d) == Ok(info);
    return Ok(info);
  }

  /** A directory is rejected exactly when it has neither a backend nor a frontend. */
  lemma RejectsOnlyNonPlugins(d: PluginDir)
    ensures Merged(d).Err? <==> !HasBackend(d) && !HasFrontend(d)
    ensures Merged(d).Ok? ==>
      Merged(d).value.hasBackend == HasBackend(d) && Merged(d).value.hasFrontend == HasFrontend(d)
  {
  }

  /** `package.json` decides the name, author and description whenever it gives them. */
  lemma PackageJsonFirst(d: PluginDir, j: PackageJson)
    requires Merged(d).Ok? && d.packageJson == Some(j)
    ensures j.name.Some? ==> Merged(d).value.name == j.name
    ensures j.author.Some? ==> Merged(d).value.author == j.author
    ensures Merged(d).value.description == j.description
  {
  }

  /**
    A backend's Cargo.toml version beats package.json; only a version that
    reads exactly `1.0.0` can still be replaced by the entry file's.
   */
  lemma CargoVersionWins(d: PluginDir, v: string)
    requires Merged(d).Ok? && HasBackend(d)
    requires d.cargoPackage.Some? && d.cargoPackage.value.version == Some(v) && v != DefaultVersion
    ensures Merged(d).value.version == v
  {
  }

  /**
    The `1.0.0` test cannot tell a default from a declared `1.0.0`: a
    package.json that declares `1.0.0` still lets the entry file's version through.
   */
  lemma DeclaredDefaultVersionYields(d: PluginDir, lit: IndexLiterals, v: string)
    requires HasFrontend(d) && !HasBackend(d)
    requires d.packageJson.Some? && d.packageJson.value.version == Some(DefaultVersion)
    requires EntryLiterals(d) == Some(lit) && lit.version == Some(v)
    ensures Merged(d) == Ok(Merged(d).value) && Merged(d).value.version == v
  {
  }

  /** Once a version other than the default is known, the entry file is never consulted. */
  lemma EntryFileIgnoredWhenVersionKnown(d: PluginDir, jsx: Option<IndexLiterals>, js: Option<IndexLiterals>)
    requires EarlyVersion(d) != DefaultVersion
    ensures Merged(d.(indexJsx := jsx, indexJs := js)) == Merged(d)
  {
    var d' := d.(indexJsx := jsx, indexJs := js);
    assert EarlyVersion(d') == EarlyVersion(d);
    assert HasBackend(d') == HasBackend(d) && HasFrontend(d') == HasFrontend(d);
  }

  /** With no source naming a version, the default stands. */
  lemma VersionDefaultsWhenUndeclared(d: PluginDir)
    requires Merged(d).Ok?
    requires d.packageJson.None? || d.packageJson.value.version.None?
    requires d.cargoPackage.None? || d.cargoPackage.value.version.None?
    requires EntryLiterals(d).None? || EntryLiterals(d).value.version.None?
    ensures Merged(d).value.version == DefaultVersion
  {
  }
}
