/**
  The ignore-pattern list of pyqode's `FileSystemTreeView`: shell-style
  patterns kept in insertion order, and the proxy filter's pattern list,
  which is the five built-in patterns followed by the tree view's own.
 */
module IgnorePatterns {

  /** One positional argument of `add_ignore_patterns`: a single pattern or
      a Python list of patterns, which is flattened by one level. */
  datatype PatternArg = One(pattern: string) | Many(patterns: seq<string>)

  /** The patterns an argument list stands for, in order. */
  function Flatten(args: seq<PatternArg>): (r: seq<string>)
  {
    if |args| == 0 then []
    else
      var first := match args[0] case One(p) => [p] case Many(ps) => ps;
      first + Flatten(args[1..])
  }

  lemma {:induction false} FlattenAppend(a: seq<PatternArg>, b: seq<PatternArg>)
    ensures Flatten(a + b) == Flatten(a) + Flatten(b)
    decreases |a|
  {
    if |a| == 0 {
      assert a + b == b;
    } else {
      assert (a + b)[0] == a[0];
      assert (a + b)[1..] == a[1..] + b;
      FlattenAppend(a[1..], b);
    }
  }

  /** Arguments that are all single patterns stand for exactly those patterns. */
  lemma {:induction false} FlattenSingles(ps: seq<string>)
    ensures Flatten(seq(|ps|, i requires 0 <= i < |ps| => One(ps[i]))) == ps
    decreases |ps|
  {
    var args := seq(|ps|, i requires 0 <= i < |ps| => One(ps[i]));
    if |ps| > 0 {
      var tail := seq(|ps| - 1, i requires 0 <= i < |ps| - 1 => One(ps[1..][i]));
      assert args[1..] == tail;
      FlattenSingles(ps[1..]);
      assert ps == [ps[0]] + ps[1..];
    }
  }

  /** `add_ignore_patterns(*patterns)`: appends every argument in order, the
      elements of a list argument one by one. */
  method AddIgnorePatterns(patterns: seq<string>, args: seq<PatternArg>) returns (r: seq<string>)
    ensures r == patterns + Flatten(args)
    ensures |r| >= |patterns| && r[..|patterns|] == patterns
  {
    r := patterns;
    var i := 0;
    while i < |args|
      invariant 0 <= i <= |args|
      invariant r == patterns + Flatten(args[..i])
    {
      match args[i] {
        case One(p) =>
          r := r + [p];
        case Many(ps) =>
          var j := 0;
          while j < |ps|
            invariant 0 <= j <= |ps|
            invariant r == patterns + Flatten(args[..i]) + ps[..j]
          {
            r := r + [ps[j]];
            assert ps[..j + 1] == ps[..j] + [ps[j]];
            j := j + 1;
          }
          assert ps[..j] == ps;
      }
      FlattenAppend(args[..i], [args[i]]);
      assert args[..i + 1] == args[..i] + [args[i]];
      i := i + 1;
    }
    assert args[..i] == args;
  }

  /** `ignore_directories(*directories)`: each argument goes through
      `add_ignore_patterns` on its own, so a directory name is appended
      unchanged and a list of names is appended element by element. */
  method IgnoreDirectories(patterns: seq<string>, directories: seq<PatternArg>) returns (r: seq<string>)
    ensures r == patterns + Flatten(directories)
  {
    r := patterns;
    var i := 0;
    while i < |directories|
      invariant 0 <= i <= |directories|
      invariant r == patterns + Flatten(directories[..i])
    {
      r := AddIgnorePatterns(r, [directories[i]]);
      FlattenAppend(directories[..i], [directories[i]]);
      assert directories[..i + 1] == directories[..i] + [directories[i]];
      i := i + 1;
    }
    assert directories[..i] == directories;
  }

  /** `ignore_extensions(*extensions)`: each extension `ext` becomes the
      pattern "*" + `ext`, appended in order. */
  method IgnoreExtensions(patterns: seq<string>, extensions: seq<string>) returns (r: seq<string>)
    ensures |r| == |patterns| + |extensions|
    ensures r[..|patterns|] == patterns
    ensures forall i :: 0 <= i < |extensions| ==> r[|patterns| + i] == "*" + extensions[i]
  {
    var globbed := seq(|extensions|, i requires 0 <= i < |extensions| => "*" + extensions[i]);
    r := IgnoreDirectories(patterns, seq(|globbed|, i requires 0 <= i < |globbed| => One(globbed[i])));
    FlattenSingles(globbed);
  }

  /** `clear_ignore_patterns`: the list is emptied in place. */
  function ClearIgnorePatterns(patterns: seq<string>): (r: seq<string>)
    ensures |r| == 0
  {
    []
  }

  /** After a clear, the list holds exactly the patterns added since. */
  method AddAfterClear(patterns: seq<string>, args: seq<PatternArg>) returns (r: seq<string>)
    ensures r == Flatten(args)
  {
    r := AddIgnorePatterns(ClearIgnorePatterns(patterns), args);
  }

  /** The patterns a new `FilterProxyModel` starts with. */
  const DefaultPatterns: seq<string> := ["*.pyc", "*.pyo", "*.coverage", ".DS_Store", "__pycache__"]

  /** `set_root_path` of the tree view: a new proxy gets the default
      patterns, then the tree view's patterns are appended one by one. */
  method ProxyPatterns(user: seq<string>) returns (r: seq<string>)
    ensures |r| == 5 + |user|
    ensures r[..5] == DefaultPatterns && r[5..] == user
    ensures forall p :: p in r <==> p in DefaultPatterns || p in user
  {
    r := DefaultPatterns;
    var i := 0;
    while i < |user|
      invariant 0 <= i <= |user|
      invariant r == DefaultPatterns + user[..i]
    {
      r := r + [user[i]];
      assert user[..i + 1] == user[..i] + [user[i]];
      i := i + 1;
    }
    assert user[..i] == user;
  }
}
