/**
  The source fingerprint: which files of a plugin directory feed the hash,
  in which order, and what the hasher is fed (`calculate_plugin_hash`).

  A directory is a finite map from relative path (a sequence of components)
  to file contents; the walk is the order in which the directory walker
  yields regular files. SHA-256 and its hex rendering are one uninterpreted
  function `sha` from the byte stream fed to the hasher to a digest string.
 */
module Fingerprint {
  import opened Wrappers
  import opened Text

  newtype Byte = b: int | 0 <= b < 256

  type Bytes = seq<Byte>

  /** A path as its components, e.g. ["src", "router.rs"]. */
  type Path = seq<string>

  /** Readable file contents by path relative to the plugin directory. */
  type Tree = map<Path, Bytes>

  /** The hex digest the cache stores. */
  type Digest = string

  datatype Os = Windows | MacOs | OtherOs

  const SourceExtensions: set<string> := {"rs", "jsx", "js", "ts", "tsx", "json", "toml", "css", "scss"}
  const ExcludedDirs: set<string> := {"target", "node_modules", ".git"}
  const LockFiles: set<string> := {"package-lock.json", "bun.lockb", "Cargo.lock"}

  // ---------------------------------------------------------------------------
  // File selection

  /**
    `Path::extension`: the text after the last dot of the file name, except
    that a name without a dot, or whose only dot leads it, has none.
   */
  function Extension(name: string): (r: Option<string>)
    ensures r.Some? ==> '.' !in r.value && EndsWith(name, "." + r.value) && |r.value| < |name| - 1
    ensures r.None? <==> forall k :: 0 < k < |name| ==> name[k] != '.'
  {
    match LastIndex(name, '.')
    case None => None
    case Some(i) =>
      if i == 0 then
        assert forall k :: 0 < k < |name| ==> name[k] == name[1..][k - 1];
        None
      else
        assert name[i..] == "." + name[i + 1..];
        Some(name[i + 1..])
  }

  predicate HasSourceExtension(p: Path)
  {
    FileName(p).Some? && Extension(FileName(p).value).Some?
    && Extension(FileName(p).value).value in SourceExtensions
  }

  predicate InExcludedDir(p: Path)
  {
    exists k :: 0 <= k < |p| && p[k] in ExcludedDirs
  }

  predicate IsLockFile(p: Path)
  {
    FileName(p).Some? && FileName(p).value in LockFiles
  }

  /** The three tests of `calculate_plugin_hash`, applied to the path given. */
  predicate Selected(p: Path)
  {
    HasSourceExtension(p) && !InExcludedDir(p) && !IsLockFile(p)
  }

  /**
    As written, the walker's paths are `plugin_dir` joined with the relative
    path, and the excluded-directory test looks at every component of that,
    including the components of `plugin_dir` itself.
   */
  predicate IsHashedAsWritten(root: Path, rel: Path)
  {
    Selected(root + rel)
  }

  /** Corrected: only components below the plugin directory are looked at. */
  predicate IsHashed(rel: Path)
  {
    Selected(rel)
  }

  /**
    Below a plugin directory none of whose own components is excluded, the
    test as written and the corrected one agree on every non-empty relative
    path.
   */
  lemma AsWrittenAgreesBelowCleanRoot(root: Path, rel: Path)
    requires !InExcludedDir(root) && rel != []
    ensures IsHashedAsWritten(root, rel) == IsHashed(rel)
  {
    var p := root + rel;
    assert FileName(p) == FileName(rel);
    if InExcludedDir(rel) {
      var k :| 0 <= k < |rel| && rel[k] in ExcludedDirs;
      assert p[|root| + k] == rel[k];
    }
    if InExcludedDir(p) {
      var k :| 0 <= k < |p| && p[k] in ExcludedDirs;
      if k >= |root| {
        assert p[k] == rel[k - |root|];
      }
    }
  }

  /** The files of the walk that feed the hash, in walk order. */
  function SelectFiles(walk: seq<Path>): (r: seq<Path>)
    ensures |r| <= |walk|
  {
    if walk == [] then []
    else
      var last := walk[|walk| - 1];
      SelectFiles(walk[..|walk| - 1]) + (if IsHashed(last) then [last] else [])
  }

  lemma {:induction false} SelectFilesCount(walk: seq<Path>, p: Path)
    ensures multiset(SelectFiles(walk))[p] == if IsHashed(p) then multiset(walk)[p] else 0
  {
    if walk != [] {
      var init, last := walk[..|walk| - 1], walk[|walk| - 1];
      SelectFilesCount(init, p);
      assert walk == init + [last];
      var tail := if IsHashed(last) then [last] else [];
      assert SelectFiles(walk) == SelectFiles(init) + tail;
      assert multiset(SelectFiles(walk))[p] == multiset(SelectFiles(init))[p] + multiset(tail)[p];
      assert multiset(walk)[p] == multiset(init)[p] + multiset{last}[p];
    }
  }

  // ---------------------------------------------------------------------------
  // Path order (`PathBuf`'s `Ord`: component by component)

  predicate PathLess(a: Path, b: Path)
  {
    if a == [] then b != []
    else if b == [] then false
    else StringLess(a[0], b[0]) || (a[0] == b[0] && PathLess(a[1..], b[1..]))
  }

  predicate PathLeq(a: Path, b: Path)
  {
    a == b || PathLess(a, b)
  }

  lemma {:induction false} PathLessTransitive(a: Path, b: Path, c: Path)
    requires PathLess(a, b) && PathLess(b, c)
    ensures PathLess(a, c)
  {
    if a != [] && b != [] && c != [] {
      if StringLess(a[0], b[0]) && StringLess(b[0], c[0]) {
        StringLessTransitive(a[0], b[0], c[0]);
      } else if a[0] == b[0] && b[0] == c[0] {
        PathLessTransitive(a[1..], b[1..], c[1..]);
      }
    }
  }

  lemma {:induction false} PathLessAsymmetric(a: Path, b: Path)
    requires PathLess(a, b)
    ensures !PathLess(b, a) && a != b
  {
    if a != [] && b != [] {
      if StringLess(a[0], b[0]) {
        StringLessAsymmetric(a[0], b[0]);
        StringLessIrreflexive(a[0]);
      } else {
        PathLessAsymmetric(a[1..], b[1..]);
        StringLessIrreflexive(a[0]);
      }
    }
  }

  lemma {:induction false} PathLessTotal(a: Path, b: Path)
    ensures a == b || PathLess(a, b) || PathLess(b, a)
  {
    if a != [] && b != [] {
      StringLessTotal(a[0], b[0]);
      if a[0] == b[0] {
        PathLessTotal(a[1..], b[1..]);
        if a[1..] == b[1..] {
          assert a == [a[0]] + a[1..] && b == [b[0]] + b[1..];
        }
      }
    }
  }

  lemma PathLeqTransitive(a: Path, b: Path, c: Path)
    requires PathLeq(a, b) && PathLeq(b, c)
    ensures PathLeq(a, c)
  {
    if a != b && b != c { PathLessTransitive(a, b, c); }
  }

  predicate SortedPaths(s: seq<Path>)
  {
    forall i, j :: 0 <= i < j < |s| ==> PathLeq(s[i], s[j])
  }

  function InsertPath(x: Path, s: seq<Path>): (r: seq<Path>)
    requires SortedPaths(s)
    ensures SortedPaths(r) && multiset(r) == multiset(s) + multiset{x}
  {
    if s == [] then [x]
    else if PathLeq(x, s[0]) then
      InsertInFront(x, s);
      [x] + s
    else
      var rest := InsertPath(x, s[1..]);
      InsertBehind(x, s, rest);
      [s[0]] + rest
  }

  lemma InsertInFront(x: Path, s: seq<Path>)
    requires SortedPaths(s) && s != [] && PathLeq(x, s[0])
    ensures SortedPaths([x] + s) && multiset([x] + s) == multiset(s) + multiset{x}
  {
    var r := [x] + s;
    forall i, j | 0 <= i < j < |r| ensures PathLeq(r[i], r[j]) {
      if i == 0 && j > 1 {
        PathLeqTransitive(x, s[0], s[j - 1]);
      } else if i > 0 {
        assert r[i] == s[i - 1] && r[j] == s[j - 1];
      }
    }
  }

  lemma InsertBehind(x: Path, s: seq<Path>, rest: seq<Path>)
    requires SortedPaths(s) && s != [] && !PathLeq(x, s[0])
    requires SortedPaths(rest) && multiset(rest) == multiset(s[1..]) + multiset{x}
    ensures SortedPaths([s[0]] + rest) && multiset([s[0]] + rest) == multiset(s) + multiset{x}
  {
    PathLessTotal(x, s[0]);
    forall k | 0 <= k < |rest| ensures PathLeq(s[0], rest[k]) {
      assert rest[k] in multiset(rest);
      if rest[k] != x {
        assert rest[k] in multiset(s[1..]);
        var j :| 0 <= j < |s[1..]| && s[1..][j] == rest[k];
        assert s[1 + j] == rest[k];
      }
    }
    var r := [s[0]] + rest;
    forall i, j | 0 <= i < j < |r| ensures PathLeq(r[i], r[j]) {
      if i > 0 {
        assert r[i] == rest[i - 1] && r[j] == rest[j - 1];
      } else {
        assert r[j] == rest[j - 1];
      }
    }
    assert s == [s[0]] + s[1..];
  }

  /**
    The result of `files.sort()`. The library's algorithm is not modelled:
    insertion sort gives the same list, since `SortedUnique` shows a sorted
    permutation is unique.
   */
  function SortPaths(s: seq<Path>): (r: seq<Path>)
    ensures SortedPaths(r) && multiset(r) == multiset(s)
  {
    if s == [] then []
    else
      assert s == s[..|s| - 1] + [s[|s| - 1]];
      InsertPath(s[|s| - 1], SortPaths(s[..|s| - 1]))
  }

  lemma {:induction false} SortedUnique(a: seq<Path>, b: seq<Path>)
    requires SortedPaths(a) && SortedPaths(b) && multiset(a) == multiset(b)
    ensures a == b
    decreases |a|
  {
    if a != [] {
      SortedSameHead(a, b);
      MultisetTail(a, b);
      SortedUnique(a[1..], b[1..]);
      assert a == [a[0]] + a[1..] && b == [b[0]] + b[1..];
    } else {
      assert |b| == |multiset(b)| == 0;
    }
  }

  /** Two sorted permutations start with the same path: the least one. */
  lemma SortedSameHead(a: seq<Path>, b: seq<Path>)
    requires SortedPaths(a) && SortedPaths(b) && multiset(a) == multiset(b) && a != []
    ensures b != [] && a[0] == b[0]
  {
    assert a[0] in multiset(b);
    assert b[0] in multiset(a);
    var i :| 0 <= i < |b| && b[i] == a[0];
    var j :| 0 <= j < |a| && a[j] == b[0];
    assert PathLeq(b[0], a[0]) by { if i > 0 { assert PathLeq(b[0], b[i]); } }
    assert PathLeq(a[0], b[0]) by { if j > 0 { assert PathLeq(a[0], a[j]); } }
    if a[0] != b[0] {
      PathLessAsymmetric(a[0], b[0]);
    }
  }

  lemma MultisetTail<T>(a: seq<T>, b: seq<T>)
    requires a != [] && b != [] && a[0] == b[0] && multiset(a) == multiset(b)
    ensures multiset(a[1..]) == multiset(b[1..])
  {
    assert a == [a[0]] + a[1..] && b == [b[0]] + b[1..];
    forall p ensures multiset(a[1..])[p] == multiset(b[1..])[p] {
      assert multiset(a)[p] == multiset{a[0]}[p] + multiset(a[1..])[p];
      assert multiset(b)[p] == multiset{b[0]}[p] + multiset(b[1..])[p];
    }
  }

  // ---------------------------------------------------------------------------
  // The byte stream fed to the hasher

  /** UTF-8 encoding of one Unicode scalar value (`str::as_bytes`). */
  function Utf8Char(c: char): (r: Bytes)
    ensures 1 <= |r| <= 4
  {
    var n := c as int;
    if n < 0x80 then [n as Byte]
    else if n < 0x800 then [(0xC0 + n / 64) as Byte, (0x80 + n % 64) as Byte]
    else if n < 0x10000 then
      [(0xE0 + n / 4096) as Byte, (0x80 + (n / 64) % 64) as Byte, (0x80 + n % 64) as Byte]
    else
      [(0xF0 + n / 262144) as Byte, (0x80 + (n / 4096) % 64) as Byte,
       (0x80 + (n / 64) % 64) as Byte, (0x80 + n % 64) as Byte]
  }

  function Utf8(s: string): Bytes
  {
    if s == [] then [] else Utf8Char(s[0]) + Utf8(s[1..])
  }

  function Separator(os: Os): char
  {
    if os == Windows then '\\' else '/'
  }

  /** `rel_path.to_string_lossy().as_bytes()`. */
  function PathBytes(rel: Path, os: Os): Bytes
  {
    Utf8(Join(rel, Separator(os)))
  }

  /** What one file adds: its relative path, then its contents if it can be read. */
  function Chunk(tree: Tree, rel: Path, os: Os): Bytes
  {
    PathBytes(rel, os) + (if rel in tree then tree[rel] else [])
  }

  /** The hasher's input for the files in the order given. */
  function Feed(tree: Tree, files: seq<Path>, os: Os): Bytes
  {
    if files == [] then []
    else Feed(tree, files[..|files| - 1], os) + Chunk(tree, files[|files| - 1], os)
  }

  /** The whole input of the hasher: the selected files, sorted. */
  function HashInput(tree: Tree, walk: seq<Path>, os: Os): Bytes
  {
    Feed(tree, SortPaths(SelectFiles(walk)), os)
  }

  function PluginHash(tree: Tree, walk: seq<Path>, os: Os, sha: Bytes -> Digest): Digest
  {
    sha(HashInput(tree, walk, os))
  }

  lemma SelectFilesStep(walk: seq<Path>, i: nat)
    requires i < |walk|
    ensures SelectFiles(walk[..i + 1]) == SelectFiles(walk[..i]) + (if IsHashed(walk[i]) then [walk[i]] else [])
  {
    assert walk[..i + 1][..i] == walk[..i];
  }

  lemma FeedStep(tree: Tree, files: seq<Path>, os: Os, i: nat)
    requires i < |files|
    ensures Feed(tree, files[..i + 1], os) == Feed(tree, files[..i], os) + PathBytes(files[i], os)
      + (if files[i] in tree then tree[files[i]] else [])
  {
    assert files[..i + 1][..i] == files[..i];
  }

  /**
    `calculate_plugin_hash`: collect the selected files in walk order, sort
    them, then feed each file's relative path and contents to the hasher.
   */
  method CalculatePluginHash(tree: Tree, walk: seq<Path>, os: Os, sha: Bytes -> Digest)
    returns (digest: Digest)
    ensures digest == PluginHash(tree, walk, os, sha)
  {
    var files: seq<Path> := [];
    for i := 0 to |walk|
      invariant files == SelectFiles(walk[..i])
    {
      SelectFilesStep(walk, i);
      if IsHashed(walk[i]) {
        files := files + [walk[i]];
      }
    }
    assert walk[..|walk|] == walk;
    files := SortPaths(files);
    var fed: Bytes := [];
    for i := 0 to |files|
      invariant fed == Feed(tree, files[..i], os)
    {
      FeedStep(tree, files, os, i);
      fed := fed + PathBytes(files[i], os);
      if files[i] in tree {
        fed := fed + tree[files[i]];
      }
    }
    assert files[..|files|] == files;
    digest := sha(fed);
  }

  // ---------------------------------------------------------------------------
  // What the hash input depends on

  lemma {:induction false} FeedAgree(t1: Tree, t2: Tree, files: seq<Path>, os: Os)
    requires forall k :: 0 <= k < |files| ==> Chunk(t1, files[k], os) == Chunk(t2, files[k], os)
    ensures Feed(t1, files, os) == Feed(t2, files, os)
  {
    if files != [] {
      FeedAgree(t1, t2, files[..|files| - 1], os);
    }
  }

  /**
    The hash input depends only on how often each selected file is walked
    and on the contents of selected files: files in excluded directories,
    lock files, files with other extensions and the walk order do not
    influence it.
   */
  lemma HashInputDependsOnSelectedOnly(t1: Tree, w1: seq<Path>, t2: Tree, w2: seq<Path>, os: Os)
    requires forall p :: IsHashed(p) ==> multiset(w1)[p] == multiset(w2)[p]
    requires forall p :: IsHashed(p) ==> (p in t1 <==> p in t2) && (p in t1 ==> t1[p] == t2[p])
    ensures HashInput(t1, w1, os) == HashInput(t2, w2, os)
  {
    var s1, s2 := SelectFiles(w1), SelectFiles(w2);
    forall p ensures multiset(s1)[p] == multiset(s2)[p] {
      SelectFilesCount(w1, p);
      SelectFilesCount(w2, p);
    }
    assert multiset(s1) == multiset(s2);
    var f1, f2 := SortPaths(s1), SortPaths(s2);
    SortedUnique(f1, f2);
    forall k | 0 <= k < |f1| ensures Chunk(t1, f1[k], os) == Chunk(t2, f1[k], os) {
      assert f1[k] in multiset(s1);
      SelectFilesCount(w1, f1[k]);
    }
    FeedAgree(t1, t2, f1, os);
  }

  /** Walking the same files in another order gives the same digest. */
  lemma HashIndependentOfWalkOrder(tree: Tree, w1: seq<Path>, w2: seq<Path>, os: Os, sha: Bytes -> Digest)
    requires multiset(w1) == multiset(w2)
    ensures PluginHash(tree, w1, os, sha) == PluginHash(tree, w2, os, sha)
  {
    HashInputDependsOnSelectedOnly(tree, w1, tree, w2, os);
  }

  lemma {:induction false} FeedLength(t1: Tree, t2: Tree, files: seq<Path>, os: Os)
    requires forall k :: 0 <= k < |files| ==> |Chunk(t1, files[k], os)| == |Chunk(t2, files[k], os)|
    ensures |Feed(t1, files, os)| == |Feed(t2, files, os)|
  {
    if files != [] {
      FeedLength(t1, t2, files[..|files| - 1], os);
    }
  }

  lemma AppendDiffers(a1: Bytes, a2: Bytes, b1: Bytes, b2: Bytes)
    requires |a1| == |a2| && (a1 != a2 || b1 != b2)
    ensures a1 + b1 != a2 + b2
  {
    var s1, s2 := a1 + b1, a2 + b2;
    assert s1[..|a1|] == a1 && s1[|a1|..] == b1;
    assert s2[..|a2|] == a2 && s2[|a2|..] == b2;
  }

  lemma {:induction false} FeedDiffers(t1: Tree, t2: Tree, files: seq<Path>, os: Os, k: nat)
    requires forall i :: 0 <= i < |files| ==> |Chunk(t1, files[i], os)| == |Chunk(t2, files[i], os)|
    requires k < |files| && Chunk(t1, files[k], os) != Chunk(t2, files[k], os)
    ensures Feed(t1, files, os) != Feed(t2, files, os)
  {
    var init := files[..|files| - 1];
    FeedLength(t1, t2, init, os);
    if k < |files| - 1 {
      FeedDiffers(t1, t2, init, os, k);
    }
    AppendDiffers(Feed(t1, init, os), Feed(t2, init, os),
                  Chunk(t1, files[|files| - 1], os), Chunk(t2, files[|files| - 1], os));
  }

  /** Two file lists of one length whose chunks are pointwise no longer feed no more bytes. */
  lemma {:induction false} FeedNoLonger(t1: Tree, f1: seq<Path>, t2: Tree, f2: seq<Path>, os: Os)
    requires |f1| == |f2|
    requires forall i :: 0 <= i < |f1| ==> |Chunk(t1, f1[i], os)| <= |Chunk(t2, f2[i], os)|
    ensures |Feed(t1, f1, os)| <= |Feed(t2, f2, os)|
  {
    if f1 != [] {
      FeedNoLonger(t1, f1[..|f1| - 1], t2, f2[..|f2| - 1], os);
    }
  }

  /** ... and strictly fewer when one chunk is strictly shorter. */
  lemma {:induction false} FeedShorter(t1: Tree, f1: seq<Path>, t2: Tree, f2: seq<Path>, os: Os, k: nat)
    requires |f1| == |f2|
    requires forall i :: 0 <= i < |f1| ==> |Chunk(t1, f1[i], os)| <= |Chunk(t2, f2[i], os)|
    requires k < |f1| && |Chunk(t1, f1[k], os)| < |Chunk(t2, f2[k], os)|
    ensures |Feed(t1, f1, os)| < |Feed(t2, f2, os)|
  {
    var init1, init2 := f1[..|f1| - 1], f2[..|f2| - 1];
    if k < |f1| - 1 {
      FeedShorter(t1, init1, t2, init2, os, k);
    } else {
      FeedNoLonger(t1, init1, t2, init2, os);
    }
  }

  /** Changing the bytes of a hashed file always changes what the hasher is fed. */
  lemma ContentChangeAltersHashInput(tree: Tree, walk: seq<Path>, os: Os, p: Path, c: Bytes)
    requires IsHashed(p) && p in walk && p in tree && c != tree[p]
    ensures HashInput(tree, walk, os) != HashInput(tree[p := c], walk, os)
  {
    var files := SortPaths(SelectFiles(walk));
    SelectFilesCount(walk, p);
    assert p in multiset(files);
    var k :| 0 <= k < |files| && files[k] == p;
    FeedAltered(tree, files, os, p, c, k);
  }

  lemma FeedAltered(tree: Tree, files: seq<Path>, os: Os, p: Path, c: Bytes, k: nat)
    requires p in tree && c != tree[p] && k < |files| && files[k] == p
    ensures Feed(tree, files, os) != Feed(tree[p := c], files, os)
  {
    var t2 := tree[p := c];
    forall i | 0 <= i < |files| && files[i] != p
      ensures Chunk(tree, files[i], os) == Chunk(t2, files[i], os)
    {
      ChunkElsewhere(tree, p, c, files[i], os);
    }
    if |c| == |tree[p]| {
      assert Chunk(tree, p, os) != Chunk(t2, p, os) by {
        AppendDiffers(PathBytes(p, os), PathBytes(p, os), tree[p], c);
      }
      FeedDiffers(tree, t2, files, os, k);
    } else if |c| < |tree[p]| {
      FeedShorter(t2, files, tree, files, os, k);
    } else {
      FeedShorter(tree, files, t2, files, os, k);
    }
  }

  lemma ChunkElsewhere(tree: Tree, p: Path, c: Bytes, q: Path, os: Os)
    requires q != p
    ensures Chunk(tree, q, os) == Chunk(tree[p := c], q, os)
  {
  }

  // ---------------------------------------------------------------------------
  // Renaming a file (see Findings in README.md)

  /** The directory after `before` is renamed to `after`, its contents kept. */
  function RenameTree(tree: Tree, before: Path, after: Path): Tree
    requires before in tree
  {
    (tree - {before})[after := tree[before]]
  }

  /** The walk after the rename: `after` wherever `before` was. */
  function RenameWalk(walk: seq<Path>, before: Path, after: Path): (r: seq<Path>)
    ensures |r| == |walk|
  {
    seq(|walk|, i requires 0 <= i < |walk| => if walk[i] == before then after else walk[i])
  }

  lemma {:induction false} SelectFilesRenamed(walk: seq<Path>, before: Path, after: Path)
    requires IsHashed(before) == IsHashed(after)
    ensures SelectFiles(RenameWalk(walk, before, after)) == RenameWalk(SelectFiles(walk), before, after)
  {
    if walk != [] {
      var init, last := walk[..|walk| - 1], walk[|walk| - 1];
      SelectFilesRenamed(init, before, after);
      var rw := RenameWalk(walk, before, after);
      RenameWalkInit(walk, before, after);
      var tail := if IsHashed(last) then [last] else [];
      assert RenameWalk(tail, before, after) == if IsHashed(rw[|rw| - 1]) then [rw[|rw| - 1]] else [];
      RenameWalkAppend(SelectFiles(init), tail, before, after);
    }
  }

  lemma RenameWalkInit(walk: seq<Path>, before: Path, after: Path)
    requires walk != []
    ensures var rw := RenameWalk(walk, before, after);
      rw[..|rw| - 1] == RenameWalk(walk[..|walk| - 1], before, after)
  {
  }

  lemma RenameWalkAppend(u: seq<Path>, v: seq<Path>, before: Path, after: Path)
    ensures RenameWalk(u + v, before, after) == RenameWalk(u, before, after) + RenameWalk(v, before, after)
  {
  }

  lemma {:induction false} FeedLengthAppend(tree: Tree, u: seq<Path>, v: seq<Path>, os: Os)
    ensures |Feed(tree, u + v, os)| == |Feed(tree, u, os)| + |Feed(tree, v, os)|
  {
    if v == [] {
      assert u + v == u;
    } else {
      var init := v[..|v| - 1];
      FeedLengthAppend(tree, u, init, os);
      var w := u + v;
      assert w[..|w| - 1] == u + init && w[|w| - 1] == v[|v| - 1];
      FeedLast(tree, w, os);
      FeedLast(tree, v, os);
    }
  }

  lemma FeedLast(tree: Tree, w: seq<Path>, os: Os)
    requires w != []
    ensures Feed(tree, w, os) == Feed(tree, w[..|w| - 1], os) + Chunk(tree, w[|w| - 1], os)
  {
  }

  /** The number of bytes fed does not depend on the order of the files. */
  lemma {:induction false} FeedLengthPermutation(tree: Tree, a: seq<Path>, b: seq<Path>, os: Os)
    requires multiset(a) == multiset(b)
    ensures |Feed(tree, a, os)| == |Feed(tree, b, os)|
    decreases |a|
  {
    if a == [] {
      assert |b| == |multiset(b)| == 0;
    } else {
      var x := a[|a| - 1];
      assert x in multiset(b);
      var i :| 0 <= i < |b| && b[i] == x;
      MultisetRemove(a, b, i);
      FeedLengthPermutation(tree, a[..|a| - 1], b[..i] + b[i + 1..], os);
      FeedLengthRemove(tree, b, i, os);
      FeedLast(tree, a, os);
    }
  }

  lemma MultisetRemove<T>(a: seq<T>, b: seq<T>, i: nat)
    requires multiset(a) == multiset(b) && a != [] && i < |b| && b[i] == a[|a| - 1]
    ensures multiset(a[..|a| - 1]) == multiset(b[..i] + b[i + 1..])
  {
    var init, x, rest := a[..|a| - 1], a[|a| - 1], b[..i] + b[i + 1..];
    assert a == init + [x];
    assert b == b[..i] + [x] + b[i + 1..];
    forall p ensures multiset(rest)[p] == multiset(init)[p] {
      assert multiset(b)[p] == multiset(b[..i])[p] + multiset([x])[p] + multiset(b[i + 1..])[p];
      assert multiset(rest)[p] == multiset(b[..i])[p] + multiset(b[i + 1..])[p];
      assert multiset(a)[p] == multiset(init)[p] + multiset([x])[p];
    }
  }

  lemma FeedLengthRemove(tree: Tree, b: seq<Path>, i: nat, os: Os)
    requires i < |b|
    ensures |Feed(tree, b, os)| == |Feed(tree, b[..i] + b[i + 1..], os)| + |Chunk(tree, b[i], os)|
  {
    assert b == b[..i] + [b[i]] + b[i + 1..];
    FeedLengthAppend(tree, b[..i] + [b[i]], b[i + 1..], os);
    FeedLengthAppend(tree, b[..i], [b[i]], os);
    FeedLengthAppend(tree, b[..i], b[i + 1..], os);
    assert Feed(tree, [b[i]], os) == Chunk(tree, b[i], os) by {
      assert [b[i]][..0] == [];
    }
  }

  /**
    What the source does get right: a rename that changes the length of the
    path's bytes changes the hasher's input, because its length is the sum
    of the paths' and the contents' lengths.
   */
  lemma RenameChangingLengthAltersHashInput(tree: Tree, walk: seq<Path>, os: Os, before: Path, after: Path)
    requires before in tree && before in walk && after !in walk
    requires IsHashed(before) && IsHashed(after)
    requires |PathBytes(before, os)| != |PathBytes(after, os)|
    ensures HashInput(tree, walk, os) != HashInput(RenameTree(tree, before, after), RenameWalk(walk, before, after), os)
  {
    var s1 := SelectFiles(walk);
    SelectFilesRenamed(walk, before, after);
    HashInputLength(tree, walk, os);
    HashInputLength(RenameTree(tree, before, after), RenameWalk(walk, before, after), os);
    SelectFilesCount(walk, before);
    assert before in multiset(s1);
    var k :| 0 <= k < |s1| && s1[k] == before;
    forall i | 0 <= i < |s1| ensures s1[i] != after {
      SelectedInWalk(walk, i);
    }
    RenamedFeedLength(tree, s1, os, before, after, k);
  }

  /** Renaming one of the files fed to a name of another length changes how much is fed. */
  lemma RenamedFeedLength(tree: Tree, files: seq<Path>, os: Os, before: Path, after: Path, k: nat)
    requires before in tree && k < |files| && files[k] == before
    requires forall i :: 0 <= i < |files| ==> files[i] != after
    requires |PathBytes(before, os)| != |PathBytes(after, os)|
    ensures |Feed(tree, files, os)| != |Feed(RenameTree(tree, before, after), RenameWalk(files, before, after), os)|
  {
    var t2, r := RenameTree(tree, before, after), RenameWalk(files, before, after);
    forall i | 0 <= i < |files|
      ensures files[i] != before ==> Chunk(t2, r[i], os) == Chunk(tree, files[i], os)
      ensures files[i] == before ==> |Chunk(t2, r[i], os)| + |PathBytes(before, os)| == |Chunk(tree, files[i], os)| + |PathBytes(after, os)|
    {
      ChunkRenamed(tree, os, before, after, files[i]);
    }
    if |PathBytes(before, os)| < |PathBytes(after, os)| {
      FeedShorter(tree, files, t2, r, os, k);
    } else {
      FeedShorter(t2, r, tree, files, os, k);
    }
  }

  /** The hasher's input is as long as the selected files fed in walk order. */
  lemma HashInputLength(tree: Tree, walk: seq<Path>, os: Os)
    ensures |HashInput(tree, walk, os)| == |Feed(tree, SelectFiles(walk), os)|
  {
    FeedLengthPermutation(tree, SortPaths(SelectFiles(walk)), SelectFiles(walk), os);
  }

  /** The chunk of a file other than `after` once `before` is renamed to `after`. */
  lemma ChunkRenamed(tree: Tree, os: Os, before: Path, after: Path, p: Path)
    requires before in tree && p != after
    ensures var t2 := RenameTree(tree, before, after);
      && (p != before ==> Chunk(t2, p, os) == Chunk(tree, p, os))
      && (p == before ==> |Chunk(t2, after, os)| + |PathBytes(before, os)| == |Chunk(tree, p, os)| + |PathBytes(after, os)|)
  {
  }

  /** Every selected file is in the walk. */
  lemma SelectedInWalk(walk: seq<Path>, i: nat)
    requires i < |SelectFiles(walk)|
    ensures SelectFiles(walk)[i] in walk
  {
    var s1 := SelectFiles(walk);
    assert s1[i] in multiset(s1);
    SelectFilesCount(walk, s1[i]);
  }

  /**
    As written, a rename that keeps the path's length can go unseen: with
    empty files `a.jsb.js` and `a.jsb.jsa.js`, renaming the first to
    `b.jsa.js` feeds the hasher `a.jsb.jsa.jsb.jsa.js` both times.
   */
  lemma RenameCanCollide(os: Os)
    ensures var before, after, other := ["a.jsb.js"], ["b.jsa.js"], ["a.jsb.jsa.js"];
      var tree: Tree := map[before := [], other := []];
      var walk := [before, other];
      && IsHashed(before) && IsHashed(after) && IsHashed(other)
      && RenameTree(tree, before, after) == map[after := [], other := []]
      && RenameWalk(walk, before, after) == [after, other]
      && HashInput(tree, walk, os) == HashInput(RenameTree(tree, before, after), RenameWalk(walk, before, after), os)
  {
    CollideRenamed(["a.jsb.js"], ["b.jsa.js"], ["a.jsb.jsa.js"]);
    CollideHashed();
    CollideNames();
    PrefixStringLess("a.jsb.js", "a.jsb.jsa.js");
    SameBytesCollide("a.jsb.js", "b.jsa.js", "a.jsb.jsa.js", os);
  }

  /** The two name pairs run together into the same text. */
  lemma CollideNames()
    ensures "a.jsb.js" + "a.jsb.jsa.js" == "a.jsb.jsa.js" + "b.jsa.js"
  {
  }

  /**
    Renaming `[b]` to `[a]` beside `[o]`, all three hashed and empty, leaves
    the input alone when `b` sorts before `o`, `o` before `a`, and the names
    run together the same.
   */
  lemma SameBytesCollide(b: string, a: string, o: string, os: Os)
    requires [b] != [a] && [b] != [o] && [a] != [o]
    requires IsHashed([b]) && IsHashed([a]) && IsHashed([o])
    requires StringLess(b, o) && StringLess(o, a) && b + o == o + a
    ensures HashInput(map[[b] := [], [o] := []], [[b], [o]], os) == HashInput(map[[a] := [], [o] := []], [[a], [o]], os)
  {
    var tree: Tree := map[[b] := [], [o] := []];
    var t2: Tree := map[[a] := [], [o] := []];
    SortTwo([b], [o]);
    SortTwo([o], [a]);
    CollideInput(tree, [b], [o], os);
    CollideInput(t2, [a], [o], os);
    CollideBytes(b, o, a);
  }

  lemma CollideBytes(b: string, o: string, a: string)
    requires b + o == o + a
    ensures Utf8(b) + Utf8(o) == Utf8(o) + Utf8(a)
  {
    Utf8Append(b, o);
    Utf8Append(o, a);
  }

  lemma CollideRenamed(before: Path, after: Path, other: Path)
    requires before != after && before != other && after != other
    ensures RenameTree(map[before := [], other := []], before, after) == map[after := [], other := []]
    ensures RenameWalk([before, other], before, after) == [after, other]
  {
  }

  /** The hasher's input for two hashed empty files, in terms of their sorted order. */
  lemma CollideInput(tree: Tree, x: Path, y: Path, os: Os)
    requires IsHashed(x) && IsHashed(y)
    requires x in tree && y in tree && tree[x] == [] && tree[y] == [] && |x| == 1 && |y| == 1
    ensures SortPaths([x, y]) == [x, y] ==> HashInput(tree, [x, y], os) == Utf8(x[0]) + Utf8(y[0])
    ensures SortPaths([x, y]) == [y, x] ==> HashInput(tree, [x, y], os) == Utf8(y[0]) + Utf8(x[0])
  {
    CollideSelected(x, y);
    CollideFed(tree, x, y, os);
    CollideFed(tree, y, x, os);
  }

  lemma CollideHashed()
    ensures IsHashed(["a.jsb.js"]) && IsHashed(["b.jsa.js"]) && IsHashed(["a.jsb.jsa.js"])
  {
    CollideHashedOne("a.jsb.js", 5);
    CollideHashedOne("b.jsa.js", 5);
    CollideHashedOne("a.jsb.jsa.js", 9);
  }

  lemma CollideHashedOne(name: string, dot: nat)
    requires dot + 3 == |name| && name[dot..] == ".js" && dot > 0
    requires name[0] == 'a' || name[0] == 'b'
    ensures IsHashed([name])
  {
    assert name !in LockFiles && name !in ExcludedDirs;
    JsNameHashed(name, dot);
  }

  lemma CollideSelected(x: Path, y: Path)
    requires IsHashed(x) && IsHashed(y)
    ensures SelectFiles([x, y]) == [x, y]
  {
    assert [x, y][..1] == [x];
    assert [x][..0] == [];
  }

  /** Two paths in order sort to that order, whichever way they come. */
  lemma SortTwo(x: Path, y: Path)
    requires x != [] && y != [] && StringLess(x[0], y[0])
    ensures SortPaths([x, y]) == [x, y] && SortPaths([y, x]) == [x, y]
  {
    assert PathLess(x, y);
    assert SortedPaths([x, y]);
    assert multiset([y, x]) == multiset([x, y]);
    SortedUnique(SortPaths([x, y]), [x, y]);
    SortedUnique(SortPaths([y, x]), [x, y]);
  }

  lemma CollideFed(tree: Tree, x: Path, y: Path, os: Os)
    requires x in tree && y in tree && tree[x] == [] && tree[y] == [] && |x| == 1 && |y| == 1
    ensures Feed(tree, [x, y], os) == Utf8(x[0]) + Utf8(y[0])
  {
    assert [x, y][..1] == [x];
    assert [x][..0] == [];
    assert Join(x, Separator(os)) == x[0] && Join(y, Separator(os)) == y[0];
    assert PathBytes(x, os) + [] == PathBytes(x, os) && PathBytes(y, os) + [] == PathBytes(y, os);
    assert Chunk(tree, x, os) == Utf8(x[0]) && Chunk(tree, y, os) == Utf8(y[0]);
    assert Feed(tree, [x], os) == [] + Chunk(tree, x, os) == Chunk(tree, x, os);
  }

  /** A one-component `.js` name whose last dot is at `dot` is hashed. */
  lemma JsNameHashed(name: string, dot: nat)
    requires dot + 3 == |name| && name[dot..] == ".js" && name !in LockFiles && name !in ExcludedDirs
    requires dot > 0
    ensures IsHashed([name])
  {
    assert LastIndex(name, '.') == Some(dot) by {
      LastIndexOfTail(name, dot);
    }
    assert name[dot + 1..] == "js";
    assert Extension(name) == Some("js");
    assert !InExcludedDir([name]);
  }

  lemma LastIndexOfTail(name: string, dot: nat)
    requires dot + 3 == |name| && name[dot..] == ".js"
    ensures LastIndex(name, '.') == Some(dot)
  {
    var n := name[..|name| - 1];
    var m := n[..|n| - 1];
    assert name[|name| - 1] == 's' && n[|n| - 1] == 'j' && m[|m| - 1] == '.';
    assert m[..|m| - 1] == name[..dot];
  }

  lemma {:induction false} PrefixStringLess(a: string, b: string)
    requires |a| < |b| && b[..|a|] == a
    ensures StringLess(a, b)
  {
    if a != [] {
      PrefixStringLess(a[1..], b[1..]);
    }
  }

  lemma {:induction false} Utf8Append(x: string, y: string)
    ensures Utf8(x + y) == Utf8(x) + Utf8(y)
  {
    if x != [] {
      Utf8Append(x[1..], y);
      assert (x + y)[1..] == x[1..] + y;
    } else {
      assert x + y == y;
    }
  }

  /**
    Corrected: the hasher is given the sorted files as (relative path,
    contents) pairs, so where one file ends and the next begins is part of
    what is hashed.
   */
  function PairInput(tree: Tree, walk: seq<Path>): (r: seq<(Path, Bytes)>)
    ensures var files := SortPaths(SelectFiles(walk));
      && |r| == |files|
      && forall i :: 0 <= i < |r| ==> r[i].0 == files[i] && r[i].1 == (if files[i] in tree then tree[files[i]] else [])
  {
    var files := SortPaths(SelectFiles(walk));
    seq(|files|, i requires 0 <= i < |files| => (files[i], if files[i] in tree then tree[files[i]] else []))
  }

  /** With the corrected input, renaming a hashed file is always seen. */
  lemma RenameAltersHashInput(tree: Tree, walk: seq<Path>, before: Path, after: Path)
    requires before in tree && before in walk && IsHashed(before) && before != after
    ensures PairInput(tree, walk) != PairInput(RenameTree(tree, before, after), RenameWalk(walk, before, after))
  {
    var w2 := RenameWalk(walk, before, after);
    var p1, p2 := PairInput(tree, walk), PairInput(RenameTree(tree, before, after), w2);
    var f1 := SortPaths(SelectFiles(walk));
    SelectFilesCount(walk, before);
    assert before in multiset(f1);
    var k :| 0 <= k < |f1| && f1[k] == before;
    assert p1[k].0 == before;
    RenamedAway(walk, before, after);
    SortedWithout(w2, before);
    assert |p2| <= k || p2[k].0 != before;
  }

  lemma RenamedAway(walk: seq<Path>, before: Path, after: Path)
    requires before != after
    ensures before !in RenameWalk(walk, before, after)
  {
    var r := RenameWalk(walk, before, after);
    forall i | 0 <= i < |r| ensures r[i] != before {
    }
  }

  /** A path the walk never reaches is in no place of the sorted selection. */
  lemma SortedWithout(walk: seq<Path>, p: Path)
    requires p !in walk
    ensures forall i :: 0 <= i < |SortPaths(SelectFiles(walk))| ==> SortPaths(SelectFiles(walk))[i] != p
  {
    SelectFilesCount(walk, p);
    var f := SortPaths(SelectFiles(walk));
    forall i | 0 <= i < |f| ensures f[i] != p {
      assert f[i] in multiset(f);
    }
  }

  // ---------------------------------------------------------------------------
  // The hash as written (see Findings in README.md)

  function SelectFilesAsWritten(root: Path, walk: seq<Path>): seq<Path>
  {
    if walk == [] then []
    else
      var last := walk[|walk| - 1];
      SelectFilesAsWritten(root, walk[..|walk| - 1]) + (if IsHashedAsWritten(root, last) then [last] else [])
  }

  function HashInputAsWritten(root: Path, tree: Tree, walk: seq<Path>, os: Os): Bytes
  {
    Feed(tree, SortPaths(SelectFilesAsWritten(root, walk)), os)
  }

  lemma {:induction false} NothingSelectedUnderExcludedRoot(root: Path, walk: seq<Path>)
    requires InExcludedDir(root)
    ensures SelectFilesAsWritten(root, walk) == []
  {
    if walk != [] {
      NothingSelectedUnderExcludedRoot(root, walk[..|walk| - 1]);
      var k :| 0 <= k < |root| && root[k] in ExcludedDirs;
      assert (root + walk[|walk| - 1])[k] == root[k];
    }
  }

  /** Under a plugin directory with no excluded component, the hash as written is the corrected one. */
  lemma {:induction false} SelectFilesAsWrittenBelowCleanRoot(root: Path, walk: seq<Path>)
    requires !InExcludedDir(root)
    requires forall k :: 0 <= k < |walk| ==> walk[k] != []
    ensures SelectFilesAsWritten(root, walk) == SelectFiles(walk)
    ensures forall tree, os :: HashInputAsWritten(root, tree, walk, os) == HashInput(tree, walk, os)
  {
    if walk != [] {
      SelectFilesAsWrittenBelowCleanRoot(root, walk[..|walk| - 1]);
      AsWrittenAgreesBelowCleanRoot(root, walk[|walk| - 1]);
    }
  }

  /**
    As written, a plugin directory named `target` (or one anywhere below a
    directory of that name) hashes no file at all, so an edit to its
    sources leaves the hash input unchanged, while the corrected selection
    hashes `mod.rs` and sees the edit.
   */
  lemma PluginNamedTargetIgnoresEdits(tree: Tree, walk: seq<Path>, os: Os, c: Bytes)
    requires ["mod.rs"] in walk && ["mod.rs"] in tree && c != tree[["mod.rs"]]
    ensures HashInputAsWritten(["plugins", "target"], tree, walk, os)
         == HashInputAsWritten(["plugins", "target"], tree[["mod.rs"] := c], walk, os)
    ensures HashInput(tree, walk, os) != HashInput(tree[["mod.rs"] := c], walk, os)
  {
    var root := ["plugins", "target"];
    assert root[1] in ExcludedDirs;
    NothingSelectedUnderExcludedRoot(root, walk);
    ModRsHashed();
    ContentChangeAltersHashInput(tree, walk, os, ["mod.rs"], c);
  }

  lemma ModRsHashed()
    ensures IsHashed(["mod.rs"])
  {
    var p := ["mod.rs"];
    assert LastIndex("mod.rs", '.') == Some(3);
    assert Extension(FileName(p).value) == Some("rs");
    assert !InExcludedDir(p);
  }

  // ---------------------------------------------------------------------------
  // Artifact names

  /** The file the build installs: a native library for backend plugins, a script otherwise. */
  function ArtifactName(id: string, os: Os, hasBackend: bool): (r: string)
    ensures hasBackend && os == Windows ==> r == id + ".dll"
    ensures hasBackend && os == MacOs ==> r == "lib" + id + ".dylib"
    ensures hasBackend && os == OtherOs ==> r == "lib" + id + ".so"
    ensures !hasBackend ==> r == id + ".js"
  {
    if hasBackend then
      match os
      case Windows => id + ".dll"
      case MacOs => "lib" + id + ".dylib"
      case OtherOs => "lib" + id + ".so"
    else id + ".js"
  }

  /** Only scripts end in 's'. */
  lemma ArtifactLastChar(id: string, os: Os, hasBackend: bool)
    ensures var n := ArtifactName(id, os, hasBackend); n[|n| - 1] == 's' <==> !hasBackend
  {
  }

  /** Distinct plugins never share an artifact path on one OS. */
  lemma ArtifactNameInjective(id1: string, b1: bool, id2: string, b2: bool, os: Os)
    requires ArtifactName(id1, os, b1) == ArtifactName(id2, os, b2)
    ensures id1 == id2 && b1 == b2
  {
    var n := ArtifactName(id1, os, b1);
    if b1 != b2 {
      ArtifactLastChar(id1, os, b1);
      ArtifactLastChar(id2, os, b2);
    } else if !b1 {
      assert id1 == n[..|n| - 3] == id2;
    } else {
      match os
      case Windows => assert id1 == n[..|n| - 4] == id2;
      case MacOs => assert id1 == n[3..|n| - 6] == id2;
      case OtherOs => assert id1 == n[3..|n| - 3] == id2;
    }
  }

}
