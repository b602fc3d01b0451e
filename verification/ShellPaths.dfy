/** The directories `run` of shellcmd.py launches its commands in, as paths. */
module ShellPaths {
  import opened ShellRunner

  predicate IsAbsolute(path: string) {
    path != [] && path[0] == '/'
  }

  // How far the first component goes.
  function ToSlash(path: string): (n: nat)
    ensures n <= |path| && '/' !in path[..n] && (n < |path| ==> path[n] == '/')
  {
    if path == [] || path[0] == '/' then 0
    else
      var n := ToSlash(path[1..]);
      assert path[..n + 1] == [path[0]] + path[1..][..n];
      n + 1
  }

  // The names between the slashes; several slashes count as one.
  function Components(path: string): seq<string>
    decreases |path|
  {
    if path == [] then []
    else if path[0] == '/' then Components(path[1..])
    else
      var n := ToSlash(path);
      [path[..n]] + Components(path[n..])
  }

  lemma {:induction false} ToSlashIs(path: string, n: nat)
    requires n <= |path| && '/' !in path[..n] && (n < |path| ==> path[n] == '/')
    ensures ToSlash(path) == n
  {
    if n > 0 {
      assert path[0] in path[..n];
      assert path[1..][..n - 1] == path[..n][1..];
      ToSlashIs(path[1..], n - 1);
    }
  }

  // Two paths that meet at a slash.
  lemma {:induction false} ComponentsJoin(a: string, b: string)
    requires a == [] || a[|a| - 1] == '/' || b == [] || b[0] == '/'
    ensures Components(a + b) == Components(a) + Components(b)
    decreases |a|
  {
    if a == [] {
      assert a + b == b;
    } else if a[0] == '/' {
      assert (a + b)[1..] == a[1..] + b;
      ComponentsJoin(a[1..], b);
    } else {
      FirstComponent(a, b);
      ComponentsJoin(a[ToSlash(a)..], b);
    }
  }

  lemma FirstComponent(a: string, b: string)
    requires a != [] && a[0] != '/' && (a[|a| - 1] == '/' || b == [] || b[0] == '/')
    ensures var n := ToSlash(a);
            && 0 < n && (n == |a| || a[n..][|a| - n - 1] == a[|a| - 1])
            && Components(a + b) == [a[..n]] + Components(a[n..] + b)
  {
    var n := ToSlash(a);
    assert a[..n][n - 1] != '/' by {
      assert a[..n][n - 1] in a[..n];
    }
    assert (a + b)[..n] == a[..n] && (a + b)[n..] == a[n..] + b;
    ToSlashIs(a + b, n);
  }

  // An absolute directory replaces the path; a relative one is appended to it,
  // component by component.
  lemma JoinIs(cwd: string, dir: string)
    ensures IsAbsolute(dir) ==> JoinPath(cwd, dir) == dir
    ensures !IsAbsolute(dir) ==>
              && Components(JoinPath(cwd, dir)) == Components(cwd) + Components(dir)
              && IsAbsolute(JoinPath(cwd, dir)) == IsAbsolute(cwd)
  {
    if !IsAbsolute(dir) {
      if cwd == [] || cwd[|cwd| - 1] == '/' {
        ComponentsJoin(cwd, dir);
      } else {
        ComponentsJoin(cwd, "/" + dir);
        assert cwd + "/" + dir == cwd + ("/" + dir);
        assert ("/" + dir)[1..] == dir;
      }
    }
  }

  function AllComponents(dirs: seq<string>): seq<string> {
    if dirs == [] then [] else Components(dirs[0]) + AllComponents(dirs[1..])
  }

  lemma Regroup(a: seq<string>, b: seq<string>, c: seq<string>)
    ensures a + b + c == a + (b + c)
  {
  }

  // Entering several directories: those before the last absolute one do not
  // matter, and the others add up.
  lemma {:induction false} EnterRelative(cwd: string, dirs: seq<string>)
    requires forall i | 0 <= i < |dirs| :: !IsAbsolute(dirs[i])
    ensures Components(EnterDirs(cwd, dirs)) == Components(cwd) + AllComponents(dirs)
    ensures IsAbsolute(EnterDirs(cwd, dirs)) == IsAbsolute(cwd)
    decreases |dirs|
  {
    if dirs != [] {
      var next := JoinPath(cwd, dirs[0]);
      JoinIs(cwd, dirs[0]);
      assert forall i | 0 <= i < |dirs[1..]| :: dirs[1..][i] == dirs[i + 1];
      EnterRelative(next, dirs[1..]);
      Regroup(Components(cwd), Components(dirs[0]), AllComponents(dirs[1..]));
    }
  }

  lemma {:induction false} EnterAbsolute(cwd: string, dirs: seq<string>, k: nat)
    requires k < |dirs| && IsAbsolute(dirs[k])
    requires forall i | k < i < |dirs| :: !IsAbsolute(dirs[i])
    ensures Components(EnterDirs(cwd, dirs)) == Components(dirs[k]) + AllComponents(dirs[k + 1..])
    ensures IsAbsolute(EnterDirs(cwd, dirs))
    decreases |dirs|
  {
    JoinIs(cwd, dirs[0]);
    var next := JoinPath(cwd, dirs[0]);
    if k == 0 {
      assert forall i | 0 <= i < |dirs[1..]| :: dirs[1..][i] == dirs[i + 1];
      EnterRelative(next, dirs[1..]);
    } else {
      EnterAbsolute(next, dirs[1..], k - 1);
      assert dirs[1..][k..] == dirs[k + 1..];
    }
  }
}
