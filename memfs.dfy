/**
 * `PatchedInMemoryFileSystem` of src/memfs.ts: an in-memory file store that
 * answers from the editor overlay, then from its file cache, then from the
 * TypeScript library files, reads the disk on a miss and caches what it read,
 * and refuses to cache files outside the workspace root.
 */
module MemFs {
  import opened Wrappers

  /** `join('node_modules', 'typescript')`, with the POSIX separator. */
  const TypeScriptPackageDir: string := "node_modules/typescript"

  /** `s.startsWith(prefix)`. */
  predicate StartsWith(s: string, prefix: string) {
    |prefix| <= |s| && s[..|prefix|] == prefix
  }

  /** `t` occurs in `s` at index `k`. */
  predicate OccursAt(s: string, t: string, k: nat) {
    k + |t| <= |s| && s[k..k + |t|] == t
  }

  /** The search of `s.indexOf(t)` from index `i` on. */
  function IndexFrom(s: string, t: string, i: nat): (r: int)
    requires i <= |s|
    ensures r == -1 || (i <= r && OccursAt(s, t, r))
    ensures r == -1 ==> forall k :: i <= k <= |s| ==> !OccursAt(s, t, k)
    ensures r != -1 ==> forall k :: i <= k < r ==> !OccursAt(s, t, k)
    decreases |s| - i
  {
    if OccursAt(s, t, i) then i
    else if i == |s| then -1
    else IndexFrom(s, t, i + 1)
  }

  /** `s.indexOf(t)`: the first index of `t` in `s`, or -1 when `t` does not occur. */
  function IndexOf(s: string, t: string): (r: int)
    ensures r == -1 <==> forall k :: 0 <= k <= |s| ==> !OccursAt(s, t, k)
    ensures r != -1 ==> 0 <= r && OccursAt(s, t, r) && forall k :: 0 <= k < r ==> !OccursAt(s, t, k)
  {
    IndexFrom(s, t, 0)
  }

  /**
   * The file store. `files` is the cache of the parent `InMemoryFileSystem`,
   * whose `add` may store `undefined`; `errors` are the messages logged.
   */
  class PatchedInMemoryFileSystem {
    var overlay: map<string, string>
    var files: map<string, Option<string>>
    var errors: seq<string>
    /** The library files bundled with the compiler, keyed by path. */
    const typeScriptLibraries: map<string, string>
    /** `path2uri`. */
    const pathToUri: string -> string
    const rootUri: string

    /** The root URI is the URI of the workspace path, fixed once and for all. */
    constructor (path: string, pathToUri: string -> string, typeScriptLibraries: map<string, string>)
      ensures this.rootUri == pathToUri(path)
      ensures this.pathToUri == pathToUri && this.typeScriptLibraries == typeScriptLibraries
      ensures overlay == map[] && files == map[] && errors == []
    {
      this.pathToUri := pathToUri;
      this.typeScriptLibraries := typeScriptLibraries;
      this.rootUri := pathToUri(path);
      overlay := map[];
      files := map[];
      errors := [];
    }

    /** `add` stores a URI under the root or inside the TypeScript package. */
    predicate Accepts(uri: string) {
      StartsWith(uri, rootUri) || IndexOf(uri, TypeScriptPackageDir) != -1
    }

    /** The message `add` logs for a refused URI. */
    static function OutOfRoot(uri: string): string {
      "File " + uri + " out of root path"
    }

    /** `add`: cache the content if the URI is accepted, otherwise log an error and change nothing else. */
    method Add(uri: string, content: Option<string>)
      modifies this
      ensures overlay == old(overlay)
      ensures Accepts(uri) ==> files == old(files)[uri := content] && errors == old(errors)
      ensures !Accepts(uri) ==> files == old(files) && errors == old(errors) + [OutOfRoot(uri)]
    {
      if !StartsWith(uri, rootUri) && IndexOf(uri, TypeScriptPackageDir) == -1 {
        errors := errors + [OutOfRoot(uri)];
      } else {
        files := files[uri := content];
      }
    }

    /**
     * `readFileIfExistsOverwrite`: the first defined value of the overlay at
     * the path's URI, the cache at that URI, and the libraries at the path.
     */
    function ReadFileIfExistsOverwrite(path: string): (r: Option<string>)
      reads this
      ensures r.Some? <==>
        pathToUri(path) in overlay ||
        (pathToUri(path) in files && files[pathToUri(path)].Some?) ||
        path in typeScriptLibraries
      ensures pathToUri(path) in overlay ==> r == Some(overlay[pathToUri(path)])
      ensures pathToUri(path) !in overlay && pathToUri(path) in files && files[pathToUri(path)].Some? ==>
        r == files[pathToUri(path)]
      ensures r.Some? && pathToUri(path) !in overlay && (pathToUri(path) !in files || files[pathToUri(path)].None?) ==>
        r == Some(typeScriptLibraries[path])
    {
      var uri := pathToUri(path);
      if uri in overlay then Some(overlay[uri])
      else if uri in files && files[uri].Some? then files[uri]
      else if path in typeScriptLibraries then Some(typeScriptLibraries[path])
      else None
    }

    /**
     * `readFile`: stored content when any lookup hits, with nothing changed;
     * otherwise the disk's answer, handed to `add` under the path's URI. After
     * a miss the next lookup hits exactly when `add` accepted a defined content.
     */
    method ReadFile(path: string, disk: string -> Option<string>) returns (content: Option<string>)
      modifies this
      ensures overlay == old(overlay)
      ensures old(ReadFileIfExistsOverwrite(path)).Some? ==>
        content == old(ReadFileIfExistsOverwrite(path)) && files == old(files) && errors == old(errors)
      ensures old(ReadFileIfExistsOverwrite(path)).None? ==> content == disk(path)
      ensures old(ReadFileIfExistsOverwrite(path)).None? && Accepts(pathToUri(path)) ==>
        files == old(files)[pathToUri(path) := disk(path)] && errors == old(errors)
      ensures old(ReadFileIfExistsOverwrite(path)).None? && !Accepts(pathToUri(path)) ==>
        files == old(files) && errors == old(errors) + [OutOfRoot(pathToUri(path))]
      ensures old(ReadFileIfExistsOverwrite(path)).None? ==>
        ReadFileIfExistsOverwrite(path) == if Accepts(pathToUri(path)) then disk(path) else None
    {
      content := ReadFileIfExistsOverwrite(path);
      if content.None? {
        content := disk(path);
        Add(pathToUri(path), content);
      }
    }
  }

  /** A file read twice: the second read is served from the store only if the first one was cached. */
  method ReadTwice(fs: PatchedInMemoryFileSystem, path: string, disk: string -> Option<string>, disk': string -> Option<string>)
    returns (first: Option<string>, second: Option<string>)
    requires fs.ReadFileIfExistsOverwrite(path).None?
    requires fs.Accepts(fs.pathToUri(path)) && disk(path).Some?
    modifies fs
    ensures first == second == disk(path)
  {
    first := fs.ReadFile(path, disk);
    second := fs.ReadFile(path, disk');
  }
}
