/**
  The build cache (`BuildCache`, `plugin_needs_rebuild`, `update_build_cache`):
  one entry per plugin id holding the source digest of its last successful
  build, and the decision whether a plugin must be rebuilt.
 */
module Cache {
  import opened Wrappers
  import opened Fingerprint
  import PluginMeta

  datatype CacheEntry = CacheEntry(sourceHash: Digest, builtAt: nat)

  type Entries = map<string, CacheEntry>

  /** The cache file, `build/.build_cache.json`, as the tool finds it. */
  datatype CacheFile =
    | Absent                   // no file yet
    | Unreadable               // the repository root or the file cannot be read
    | Malformed                // text that does not parse as a cache
    | Stored(entries: Entries) // what `save` last wrote

  /**
    `BuildCache::load`: a missing file and an unparsable one both give the
    empty cache; only a failure to read is an error.
   */
  function LoadCache(file: CacheFile): (r: Result<Entries>)
    ensures r.Err? <==> file == Unreadable
    ensures file.Stored? ==> r == Ok(file.entries)
    ensures file == Absent || file == Malformed ==> r == Ok(map[])
  {
    match file
    case Absent => Ok(map[])
    case Unreadable => Err("cannot read the build cache")
    case Malformed => Ok(map[])
    case Stored(entries) => Ok(entries)
  }

  class BuildCache {
    var plugins: Entries

    constructor (entries: Entries)
      ensures plugins == entries
    {
      plugins := entries;
    }

    function Get(id: string): (r: Option<CacheEntry>)
      reads this
      ensures r.Some? <==> id in plugins
      ensures r.Some? ==> r.value == plugins[id]
    {
      if id in plugins then Some(plugins[id]) else None
    }

    /** Records a fresh digest and build time for `id`; every other entry stays. */
    method Set(id: string, sourceHash: Digest, timestamp: nat)
      modifies this
      ensures plugins == old(plugins)[id := CacheEntry(sourceHash, timestamp)]
      ensures Get(id) == Some(CacheEntry(sourceHash, timestamp))
      ensures forall other :: other != id ==> Get(other) == old(Get(other))
    {
      plugins := plugins[id := CacheEntry(sourceHash, timestamp)];
    }

    /** What `save` writes. */
    function Save(): (file: CacheFile)
      reads this
      ensures LoadCache(file) == Ok(plugins)
    {
      Stored(plugins)
    }
  }

  /** The names at the top of the plugin directory, as the walk sees them. */
  function TopLevelNames(walk: seq<Path>): set<string>
  {
    set p | p in walk && |p| == 1 :: p[0]
  }

  /** `has_backend`, decided from the files that exist, readable or not. */
  predicate WalkHasBackend(walk: seq<Path>)
  {
    PluginMeta.BackendFilesPresent(TopLevelNames(walk))
  }

  /**
    `plugin_needs_rebuild`. `installed` holds the file names present in the
    host's plugin directory.
   */
  function NeedsRebuild(id: string, tree: Tree, walk: seq<Path>, os: Os, installed: set<string>,
                        file: CacheFile, sha: Bytes -> Digest): (r: Result<bool>)
    ensures ArtifactName(id, os, WalkHasBackend(walk)) !in installed ==> r == Ok(true)
    ensures r == Ok(true) && ArtifactName(id, os, WalkHasBackend(walk)) in installed ==>
      && LoadCache(file).Ok?
      && (id !in LoadCache(file).value || LoadCache(file).value[id].sourceHash != PluginHash(tree, walk, os, sha))
  {
    if ArtifactName(id, os, WalkHasBackend(walk)) !in installed then Ok(true)
    else
      match LoadCache(file)
      case Err(e) => Err(e)
      case Ok(entries) =>
        var current := PluginHash(tree, walk, os, sha);
        if id in entries then Ok(entries[id].sourceHash != current) else Ok(true)
  }

  /**
    A plugin is skipped exactly when its artifact is installed, the cache
    can be read, and it holds the digest the sources have now.
   */
  lemma SkipExactlyWhenUpToDate(id: string, tree: Tree, walk: seq<Path>, os: Os, installed: set<string>,
                                file: CacheFile, sha: Bytes -> Digest)
    ensures NeedsRebuild(id, tree, walk, os, installed, file, sha) == Ok(false) <==>
      && ArtifactName(id, os, WalkHasBackend(walk)) in installed
      && LoadCache(file).Ok?
      && id in LoadCache(file).value
      && LoadCache(file).value[id].sourceHash == PluginHash(tree, walk, os, sha)
  {
  }

  /** The decision fails only when the cache cannot be read, and never when the artifact is missing. */
  lemma NeedsRebuildFailsOnlyOnUnreadableCache(id: string, tree: Tree, walk: seq<Path>, os: Os,
                                               installed: set<string>, file: CacheFile, sha: Bytes -> Digest)
    ensures NeedsRebuild(id, tree, walk, os, installed, file, sha).Err? <==>
      ArtifactName(id, os, WalkHasBackend(walk)) in installed && file == Unreadable
  {
  }

  /**
    `update_build_cache`: load the cache, hash the sources, record the
    digest with the given time and write the cache back. Fails, leaving the
    file as it was, when the cache cannot be read.
   */
  method UpdateBuildCache(file: CacheFile, id: string, tree: Tree, walk: seq<Path>, os: Os,
                          sha: Bytes -> Digest, now: nat)
    returns (r: Result<CacheFile>)
    ensures r.Err? <==> file == Unreadable
    ensures r.Ok? ==>
      LoadCache(r.value) == Ok(LoadCache(file).value[id := CacheEntry(PluginHash(tree, walk, os, sha), now)])
  {
    match LoadCache(file)
    case Err(e) =>
      r := Err(e);
    case Ok(entries) =>
      var cache := new BuildCache(entries);
      var hash := CalculatePluginHash(tree, walk, os, sha);
      cache.Set(id, hash, now);
      r := Ok(cache.Save());
  }

  /**
    Once a build has been recorded, the same sources with the artifact in
    place are not rebuilt.
   */
  lemma UpToDateAfterUpdate(id: string, tree: Tree, walk: seq<Path>, os: Os, installed: set<string>,
                            before: CacheFile, after: CacheFile, sha: Bytes -> Digest, now: nat)
    requires LoadCache(before).Ok?
    requires LoadCache(after) == Ok(LoadCache(before).value[id := CacheEntry(PluginHash(tree, walk, os, sha), now)])
    requires ArtifactName(id, os, WalkHasBackend(walk)) in installed
    ensures NeedsRebuild(id, tree, walk, os, installed, after, sha) == Ok(false)
  {
  }

  /**
    After a build is recorded, changing the bytes of one hashed file always
    changes what is hashed, and makes the plugin stale provided the hash
    tells the two inputs apart.
   */
  lemma EditAfterUpdateRebuilds(id: string, tree: Tree, walk: seq<Path>, os: Os, installed: set<string>,
                                after: CacheFile, sha: Bytes -> Digest, now: nat, p: Path, c: Bytes)
    requires LoadCache(after).Ok? && id in LoadCache(after).value
    requires LoadCache(after).value[id].sourceHash == PluginHash(tree, walk, os, sha)
    requires IsHashed(p) && p in walk && p in tree && c != tree[p]
    requires sha(HashInput(tree, walk, os)) != sha(HashInput(tree[p := c], walk, os))
    ensures HashInput(tree, walk, os) != HashInput(tree[p := c], walk, os)
    ensures NeedsRebuild(id, tree[p := c], walk, os, installed, after, sha) == Ok(true)
  {
    ContentChangeAltersHashInput(tree, walk, os, p, c);
  }

  /** Recording one plugin's build changes no other plugin's decision. */
  lemma UpdateLeavesOthers(id: string, other: string, tree: Tree, walk: seq<Path>, os: Os,
                           installed: set<string>, before: CacheFile, after: CacheFile,
                           sha: Bytes -> Digest, entry: CacheEntry)
    requires other != id && LoadCache(before).Ok?
    requires LoadCache(after) == Ok(LoadCache(before).value[id := entry])
    ensures NeedsRebuild(other, tree, walk, os, installed, after, sha)
         == NeedsRebuild(other, tree, walk, os, installed, before, sha)
  {
  }
}
