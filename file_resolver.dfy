/**
  Resolution of an image reference to a vault file (src/utils/file-resolver.ts):
  an early-return ladder over the vault's exact-path lookup and its link
  resolver, then completion with image extensions, then a case-insensitive scan
  of all files.
 */
module FileResolver {

  import opened Wrappers
  import opened Text

  /** A file extension: what follows the last '.' of a file name, so it holds no '.'. */
  type Ext = e: string | '.' !in e witness ""

  /** A vault file (Obsidian's `TFile`): full path, name with extension, name without it. */
  datatype TFile = TFile(path: string, name: string, basename: string, extension: Ext)

  /**
    The vault as the resolver sees it. `lookup` is `getAbstractFileByPath`
    restricted to files (a folder at that path counts as no hit), `files` is
    `getFiles()` in its order, and `linkDest(link, sourcePath)` is
    `metadataCache.getFirstLinkpathDest`.
   */
  datatype Vault = Vault(files: seq<TFile>, lookup: map<string, TFile>, linkDest: (string, string) -> Option<TFile>)

  /** The extensions tried when a reference has none, in order. */
  const ResolverExtensions: seq<string> := ["png", "jpg", "jpeg", "gif", "webp", "svg", "bmp"]

  /** The fallback test: name equal, path equal, or path containing the target, all lower-cased. */
  predicate FileMatches(f: TFile, lowerName: string) {
    LowerStr(f.name) == lowerName || LowerStr(f.path) == lowerName || Contains(LowerStr(f.path), lowerName)
  }

  /** `files.find(...)` from index `i` on. */
  function FindFrom(files: seq<TFile>, lowerName: string, i: nat): (r: Option<TFile>)
    requires i <= |files|
    decreases |files| - i
    ensures r.Some? ==> r.value in files[i..] && FileMatches(r.value, lowerName)
  {
    if i == |files| then None
    else if FileMatches(files[i], lowerName) then Some(files[i])
    else FindFrom(files, lowerName, i + 1)
  }

  /** What the vault and, with a current file, the link resolver say about one candidate path. */
  function ExtensionHit(v: Vault, withExt: string, currentFile: Option<TFile>): Option<TFile> {
    if withExt in v.lookup then Some(v.lookup[withExt])
    else if currentFile.Some? then v.linkDest(withExt, currentFile.value.path)
    else None
  }

  /** Extension completion from the `k`-th extension on. */
  function TryExtensions(v: Vault, path: string, currentFile: Option<TFile>, k: nat): Option<TFile>
    requires k <= |ResolverExtensions|
    decreases |ResolverExtensions| - k
  {
    if k == |ResolverExtensions| then None
    else
      var hit := ExtensionHit(v, path + "." + ResolverExtensions[k], currentFile);
      if hit.Some? then hit else TryExtensions(v, path, currentFile, k + 1)
  }

  /** The resolution ladder, each step tried only when every earlier one missed. */
  function Resolve(v: Vault, path: string, currentFile: Option<TFile>): Option<TFile> {
    if path in v.lookup then Some(v.lookup[path])
    else if currentFile.Some? && v.linkDest(path, currentFile.value.path).Some? then v.linkDest(path, currentFile.value.path)
    else if v.linkDest(path, "").Some? then v.linkDest(path, "")
    else if TryExtensions(v, path, currentFile, 0).Some? then TryExtensions(v, path, currentFile, 0)
    else FindFrom(v.files, LowerStr(path), 0)
  }

  method ResolveFileByPath(v: Vault, path: string, currentFile: Option<TFile>) returns (r: Option<TFile>)
    ensures r == Resolve(v, path, currentFile)
  {
    if path in v.lookup {
      return Some(v.lookup[path]);
    }
    if currentFile.Some? {
      var relative := v.linkDest(path, currentFile.value.path);
      if relative.Some? {
        return relative;
      }
    }
    var root := v.linkDest(path, "");
    if root.Some? {
      return root;
    }
    for k := 0 to |ResolverExtensions|
      invariant TryExtensions(v, path, currentFile, 0) == TryExtensions(v, path, currentFile, k)
    {
      var withExt := path + "." + ResolverExtensions[k];
      if withExt in v.lookup {
        return Some(v.lookup[withExt]);
      }
      if currentFile.Some? {
        var relative := v.linkDest(withExt, currentFile.value.path);
        if relative.Some? {
          return relative;
        }
      }
    }
    var lowerName := LowerStr(path);
    var i := 0;
    while i < |v.files|
      invariant 0 <= i <= |v.files|
      invariant FindFrom(v.files, lowerName, 0) == FindFrom(v.files, lowerName, i)
    {
      if FileMatches(v.files[i], lowerName) {
        return Some(v.files[i]);
      }
      i := i + 1;
    }
    return None;
  }

  /** An exact vault-path hit wins before any link resolution is tried. */
  lemma ExactHitFirst(v: Vault, path: string, currentFile: Option<TFile>)
    requires path in v.lookup
    ensures Resolve(v, path, currentFile) == Some(v.lookup[path])
  {
  }

  /** Relative link resolution is used only with a current file; the root link comes next. */
  lemma LinkResolutionOrder(v: Vault, path: string, currentFile: Option<TFile>)
    requires path !in v.lookup
    ensures currentFile.Some? && v.linkDest(path, currentFile.value.path).Some? ==>
      Resolve(v, path, currentFile) == v.linkDest(path, currentFile.value.path)
    ensures (currentFile.None? || v.linkDest(path, currentFile.value.path).None?) && v.linkDest(path, "").Some? ==>
      Resolve(v, path, currentFile) == v.linkDest(path, "")
  {
  }

  /** The candidate `path.ext` misses both the vault and (with a current file) the link resolver. */
  predicate ExtensionMiss(v: Vault, path: string, currentFile: Option<TFile>, k: nat)
    requires k < |ResolverExtensions|
  {
    ExtensionHit(v, path + "." + ResolverExtensions[k], currentFile).None?
  }

  lemma {:induction false} TryExtensionsFirstHit(v: Vault, path: string, currentFile: Option<TFile>, j: nat, k: nat)
    requires j <= k < |ResolverExtensions|
    requires forall i :: j <= i < k ==> ExtensionMiss(v, path, currentFile, i)
    requires !ExtensionMiss(v, path, currentFile, k)
    ensures TryExtensions(v, path, currentFile, j) == ExtensionHit(v, path + "." + ResolverExtensions[k], currentFile)
    decreases k - j
  {
    if j < k {
      assert ExtensionMiss(v, path, currentFile, j);
      TryExtensionsFirstHit(v, path, currentFile, j + 1, k);
    }
  }

  lemma {:induction false} TryExtensionsAllMiss(v: Vault, path: string, currentFile: Option<TFile>, j: nat)
    requires j <= |ResolverExtensions|
    requires forall i :: j <= i < |ResolverExtensions| ==> ExtensionMiss(v, path, currentFile, i)
    ensures TryExtensions(v, path, currentFile, j).None?
    decreases |ResolverExtensions| - j
  {
    if j < |ResolverExtensions| {
      assert ExtensionMiss(v, path, currentFile, j);
      TryExtensionsAllMiss(v, path, currentFile, j + 1);
    }
  }

  /** The earlier steps all miss. */
  predicate LinkStepsMiss(v: Vault, path: string, currentFile: Option<TFile>) {
    path !in v.lookup
    && (currentFile.None? || v.linkDest(path, currentFile.value.path).None?)
    && v.linkDest(path, "").None?
  }

  /**
    Extension completion takes the first extension, in the order png, jpg,
    jpeg, gif, webp, svg, bmp, whose completed path the vault or the relative
    link resolver knows.
   */
  lemma ExtensionCompletionOrder(v: Vault, path: string, currentFile: Option<TFile>, k: nat)
    requires LinkStepsMiss(v, path, currentFile)
    requires k < |ResolverExtensions|
    requires forall i :: 0 <= i < k ==> ExtensionMiss(v, path, currentFile, i)
    requires !ExtensionMiss(v, path, currentFile, k)
    ensures Resolve(v, path, currentFile) == ExtensionHit(v, path + "." + ResolverExtensions[k], currentFile)
  {
    TryExtensionsFirstHit(v, path, currentFile, 0, k);
  }

  /**
    With every earlier step missing, the result is the first file of the vault's
    order passing the one disjunctive test; the root link resolver is never
    retried with an extension.
   */
  lemma FallbackScan(v: Vault, path: string, currentFile: Option<TFile>)
    requires LinkStepsMiss(v, path, currentFile)
    requires forall i :: 0 <= i < |ResolverExtensions| ==> ExtensionMiss(v, path, currentFile, i)
    ensures Resolve(v, path, currentFile) == FindFrom(v.files, LowerStr(path), 0)
    ensures forall f :: Resolve(v, path, currentFile) == Some(f) ==> f in v.files && FileMatches(f, LowerStr(path))
  {
    TryExtensionsAllMiss(v, path, currentFile, 0);
  }

  lemma {:induction false} FindFromFirst(files: seq<TFile>, lowerName: string, i: nat, k: nat)
    requires i <= k < |files|
    requires forall j :: i <= j < k ==> !FileMatches(files[j], lowerName)
    requires FileMatches(files[k], lowerName)
    ensures FindFrom(files, lowerName, i) == Some(files[k])
    decreases k - i
  {
    if i < k {
      FindFromFirst(files, lowerName, i + 1, k);
    }
  }

  /** With an empty target every path contains it, so the fallback returns the first vault file. */
  lemma EmptyTargetGivesFirstFile(v: Vault, currentFile: Option<TFile>)
    requires LinkStepsMiss(v, "", currentFile)
    requires forall i :: 0 <= i < |ResolverExtensions| ==> ExtensionMiss(v, "", currentFile, i)
    requires |v.files| > 0
    ensures Resolve(v, "", currentFile) == Some(v.files[0])
  {
    FallbackScan(v, "", currentFile);
    EmptyContained(LowerStr(v.files[0].path));
    FindFromFirst(v.files, LowerStr(""), 0, 0);
  }

  /** A file the vault or its link resolver produced. */
  ghost predicate FromVault(v: Vault, f: TFile) {
    f in v.files || f in v.lookup.Values || exists link, source :: v.linkDest(link, source) == Some(f)
  }

  lemma {:induction false} TryExtensionsFromVault(v: Vault, path: string, currentFile: Option<TFile>, k: nat)
    requires k <= |ResolverExtensions|
    ensures forall f :: TryExtensions(v, path, currentFile, k) == Some(f) ==> FromVault(v, f)
    decreases |ResolverExtensions| - k
  {
    if k < |ResolverExtensions| {
      var withExt := path + "." + ResolverExtensions[k];
      if withExt !in v.lookup && currentFile.Some? && v.linkDest(withExt, currentFile.value.path).Some? {
        var f := v.linkDest(withExt, currentFile.value.path).value;
        assert v.linkDest(withExt, currentFile.value.path) == Some(f);
      }
      TryExtensionsFromVault(v, path, currentFile, k + 1);
    }
  }

  /** The resolver never makes up a file: it returns one the vault or link resolver gave, or nothing. */
  lemma ResolveFromVault(v: Vault, path: string, currentFile: Option<TFile>)
    ensures forall f :: Resolve(v, path, currentFile) == Some(f) ==> FromVault(v, f)
  {
    TryExtensionsFromVault(v, path, currentFile, 0);
    if path !in v.lookup && currentFile.Some? && v.linkDest(path, currentFile.value.path).Some? {
      assert v.linkDest(path, currentFile.value.path) == Some(v.linkDest(path, currentFile.value.path).value);
    } else if path !in v.lookup && v.linkDest(path, "").Some? {
      assert v.linkDest(path, "") == Some(v.linkDest(path, "").value);
    }
  }

  /**
    The fallback is not ordered by quality of match: a file whose path merely
    contains the target wins over a later file whose path equals it.
   */
  lemma FallbackNotPriorityOrdered()
    ensures var partial := TFile("old/a.png.bak", "a.png.bak", "a.png", "bak");
            var exact := TFile("a.png", "a.png", "a", "png");
            var v := Vault([partial, exact], map["old/a.png.bak" := partial, "a.png" := exact], (l, s) => None);
            Resolve(v, "A.png", None) == Some(partial)
  {
    var partial := TFile("old/a.png.bak", "a.png.bak", "a.png", "bak");
    var exact := TFile("a.png", "a.png", "a", "png");
    var v := Vault([partial, exact], map["old/a.png.bak" := partial, "a.png" := exact], (l, s) => None);
    assert LowerStr("A.png") == "a.png";
    assert LowerStr(partial.path) == "old/a.png.bak";
    assert At(LowerStr(partial.path), 4, "a.png");
    forall i | 0 <= i < |ResolverExtensions|
      ensures ExtensionMiss(v, "A.png", None, i)
    {
      assert ("A.png" + "." + ResolverExtensions[i])[0] == 'A';
    }
    FallbackScan(v, "A.png", None);
    FindFromFirst(v.files, "a.png", 0, 0);
  }
}
