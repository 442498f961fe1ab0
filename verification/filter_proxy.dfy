/**
  `FileSystemTreeView.FilterProxyModel` of pyqode: the rule that decides
  which rows of the file system model are shown.  The operating-system
  calls it makes (`os.path.dirname`, `join`, `normpath`, `listdir`,
  `ismount`) and `fnmatch.fnmatch` are supplied as total functions.
 */
module FilterProxy {
  import opened Results
  import IgnorePatterns

  /** The path and pattern services the filter relies on. */
  datatype OsServices = OsServices(
    dirname: string -> string,
    join: (string, string) -> string,
    normpath: string -> string,
    listdir: string -> seq<string>,
    ismount: string -> bool,
    fnmatch: (string, string) -> bool)

  /** `ignoredUnused` holds the normalised paths of the root's siblings;
      `root` is unset until `set_root_path` is called. */
  datatype Proxy = Proxy(ignoredPatterns: seq<string>, ignoredUnused: seq<string>, root: Option<string>)

  /** `filterAcceptsRow` before `set_root_path` reads an attribute that does
      not exist yet. */
  datatype FilterError = RootNotSet

  /** A new proxy: the default patterns, no siblings, no root. */
  function NewProxy(): (p: Proxy)
    ensures p.ignoredPatterns == IgnorePatterns.DefaultPatterns
    ensures p.ignoredUnused == [] && p.root.None?
  {
    Proxy(IgnorePatterns.DefaultPatterns, [], None)
  }

  /** The path of the `j`-th entry of the directory that holds `path`. */
  function EntryPath(os: OsServices, path: string, j: nat): string
    requires j < |os.listdir(os.dirname(path))|
  {
    os.join(os.dirname(path), os.listdir(os.dirname(path))[j])
  }

  /** `set_root_path(path)`: remembers the root and replaces the sibling
      list by the normalised path of every entry of the root's parent
      directory except the root itself, in directory order. */
  method SetRootPath(os: OsServices, p: Proxy, path: string) returns (r: Proxy)
    ensures r.root == Some(path) && r.ignoredPatterns == p.ignoredPatterns
    ensures |r.ignoredUnused| <= |os.listdir(os.dirname(path))|
    ensures forall j :: 0 <= j < |os.listdir(os.dirname(path))| && EntryPath(os, path, j) != path ==>
              os.normpath(EntryPath(os, path, j)) in r.ignoredUnused
    ensures forall x :: x in r.ignoredUnused ==>
              exists j :: 0 <= j < |os.listdir(os.dirname(path))| && EntryPath(os, path, j) != path
                          && x == os.normpath(EntryPath(os, path, j))
  {
    var parentDir := os.dirname(path);
    var items := os.listdir(parentDir);
    var unused: seq<string> := [];
    var i := 0;
    while i < |items|
      invariant 0 <= i <= |items|
      invariant |unused| <= i
      invariant forall j :: 0 <= j < i && EntryPath(os, path, j) != path ==>
                  os.normpath(EntryPath(os, path, j)) in unused
      invariant forall x :: x in unused ==>
                  exists j :: 0 <= j < i && EntryPath(os, path, j) != path
                              && x == os.normpath(EntryPath(os, path, j))
    {
      var itemPath := os.join(parentDir, items[i]);
      assert itemPath == EntryPath(os, path, i);
      if itemPath != path {
        unused := unused + [os.normpath(itemPath)];
      }
      i := i + 1;
    }
    r := p.(ignoredUnused := unused, root := Some(path));
  }

  /** The row for a file named `fileName` at `filePath` is shown: the root
      is a mount point, or the file is no sibling of the root and no ignore
      pattern matches its name. */
  ghost predicate Shown(os: OsServices, p: Proxy, fileName: string, filePath: string)
    requires p.root.Some?
  {
    || os.ismount(p.root.value)
    || (&& os.normpath(filePath) !in p.ignoredUnused
        && forall i :: 0 <= i < |p.ignoredPatterns| ==> !os.fnmatch(fileName, p.ignoredPatterns[i]))
  }

  /** `filterAcceptsRow`: the mount-point test, then the sibling test, then
      the patterns in order, stopping at the first match. */
  method FilterAcceptsRow(os: OsServices, p: Proxy, fileName: string, filePath: string)
    returns (r: Result<bool, FilterError>)
    ensures r.Err? <==> p.root.None?
    ensures r.Ok? ==> (r.value <==> Shown(os, p, fileName, filePath))
  {
    if p.root.None? {
      return Err(RootNotSet);
    }
    var fp := os.normpath(filePath);
    if os.ismount(p.root.value) {
      return Ok(true);
    }
    if fp in p.ignoredUnused {
      return Ok(false);
    }
    var i := 0;
    while i < |p.ignoredPatterns|
      invariant 0 <= i <= |p.ignoredPatterns|
      invariant forall j :: 0 <= j < i ==> !os.fnmatch(fileName, p.ignoredPatterns[j])
    {
      if os.fnmatch(fileName, p.ignoredPatterns[i]) {
        return Ok(false);
      }
      i := i + 1;
    }
    return Ok(true);
  }
}
