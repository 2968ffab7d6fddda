/** The POSIX path helpers the converter uses: `os.path.basename`,
    `os.path.splitext`, `os.path.dirname`, `os.path.isabs` and `os.path.join`
    (two arguments), and the converter's own `_basename`. */
module Paths {

  /** `s.rfind(c)`: the index of the last `c` in `s`, or -1. */
  function RFind(s: string, c: char): (r: int)
    ensures -1 <= r < |s|
    ensures r >= 0 ==> s[r] == c
    ensures forall i :: r < i < |s| ==> s[i] != c
  {
    if s == [] then -1
    else if s[|s| - 1] == c then |s| - 1
    else RFind(s[..|s| - 1], c)
  }

  /** The last `c` is where the characterisation says it is. */
  lemma RFindIs(s: string, c: char, k: int)
    requires -1 <= k < |s|
    requires k >= 0 ==> s[k] == c
    requires forall i :: k < i < |s| ==> s[i] != c
    ensures RFind(s, c) == k
  {
  }

  /** `os.path.basename`: everything after the last slash. */
  function FileName(path: string): (r: string)
    ensures '/' !in r
    ensures |r| <= |path| && r == path[|path| - |r|..]
  {
    path[RFind(path, '/') + 1..]
  }

  /** The file name is the longest slash-free suffix: the whole path, or what
      follows a slash. */
  lemma FileNameIsLastComponent(path: string)
    ensures var r := FileName(path);
      r == path || path[|path| - |r| - 1] == '/'
  {
  }

  /** The root part of `os.path.splitext` on a name without slashes: the name
      cut at its last dot, unless everything before that dot is dots (so
      ".bashrc" and "..x" keep their dot). */
  function Stem(name: string): (r: string)
    ensures |r| <= |name| && r == name[..|r|]
  {
    var d := RFind(name, '.');
    if d > 0 && exists i :: 0 <= i < d && name[i] != '.' then name[..d] else name
  }

  /** `Book._basename`: a path's file name with its extension removed. */
  function Basename(path: string): (r: string)
    ensures '/' !in r
    ensures |r| <= |FileName(path)| && r == FileName(path)[..|r|]
  {
    Stem(FileName(path))
  }

  /** The stem and the extension put back together give the file name again,
      and the extension is either empty or one dot and no other dot. */
  lemma StemSplits(name: string)
    ensures var st := Stem(name);
      var ext := name[|st|..];
      st + ext == name && (ext == "" || (ext[0] == '.' && '.' !in ext[1..]))
  {
  }

  /** The file name of "dir/name" is "name" whatever "dir" holds. */
  lemma FileNameAfterSlash(dir: string, name: string)
    requires '/' !in name
    ensures FileName(dir + "/" + name) == name
  {
    var path := dir + "/" + name;
    assert path[|dir|] == '/';
    assert forall i :: |dir| < i < |path| ==> path[i] == name[i - |dir| - 1];
    RFindIs(path, '/', |dir|);
    assert path[|dir| + 1..] == name;
  }

  /** A file name written as stem, dot, extension yields that stem back. */
  lemma BasenameOfJoined(dir: string, stem: string, ext: string)
    requires '/' !in stem && '/' !in ext && '.' !in ext
    requires exists i :: 0 <= i < |stem| && stem[i] != '.'
    ensures Basename(dir + "/" + stem + "." + ext) == stem
  {
    var name := stem + "." + ext;
    assert dir + "/" + stem + "." + ext == dir + "/" + name;
    assert '/' !in name by {
      assert forall i :: 0 <= i < |name| ==> name[i] == '.' || name[i] in stem || name[i] in ext;
    }
    FileNameAfterSlash(dir, name);
    StemOfDotted(stem, ext);
  }

  /** A bare file name "stem.ext", with no directory part, yields its stem. */
  lemma BasenameOfName(stem: string, ext: string)
    requires '/' !in stem && '/' !in ext && '.' !in ext
    requires exists i :: 0 <= i < |stem| && stem[i] != '.'
    ensures Basename(stem + "." + ext) == stem
  {
    var name := stem + "." + ext;
    assert forall i :: 0 <= i < |name| ==> name[i] == '.' || name[i] in stem || name[i] in ext;
    RFindIs(name, '/', -1);
    StemOfDotted(stem, ext);
  }

  lemma StemOfDotted(stem: string, ext: string)
    requires '.' !in ext
    requires exists i :: 0 <= i < |stem| && stem[i] != '.'
    ensures Stem(stem + "." + ext) == stem
  {
    var name := stem + "." + ext;
    assert name[|stem|] == '.';
    assert forall i :: |stem| < i < |name| ==> name[i] == ext[i - |stem| - 1];
    RFindIs(name, '.', |stem|);
    var i :| 0 <= i < |stem| && stem[i] != '.';
    assert name[i] != '.';
    assert name[..|stem|] == stem;
  }

  /** A bare name, with no directory and no dot, is its own basename. */
  lemma BasenameOfBareName(name: string)
    requires '/' !in name && '.' !in name
    ensures Basename(name) == name
  {
    RFindIs(name, '/', -1);
    RFindIs(name, '.', -1);
  }

  /** A name whose only dots lead it (".bashrc", "..x") keeps them: it is its
      own stem, with no extension. */
  lemma StemOfDotfile(dots: string, rest: string)
    requires forall i :: 0 <= i < |dots| ==> dots[i] == '.'
    requires '.' !in rest
    ensures Stem(dots + rest) == dots + rest
  {
    var name := dots + rest;
    assert forall i :: |dots| <= i < |name| ==> name[i] == rest[i - |dots|];
    var d := RFind(name, '.');
    assert d < |dots|;
    assert forall i :: 0 <= i < d ==> name[i] == dots[i];
  }

  /** A file name without a dot is its own basename. */
  lemma BasenameWithoutDot(dir: string, name: string)
    requires '/' !in name && '.' !in name
    ensures Basename(dir + "/" + name) == name
  {
    FileNameAfterSlash(dir, name);
    RFindIs(name, '.', -1);
  }

  predicate AllSlashes(s: string) {
    forall i :: 0 <= i < |s| ==> s[i] == '/'
  }

  /** `s.rstrip("/")`. */
  function StripTrailingSlashes(s: string): (r: string)
    ensures |r| <= |s| && r == s[..|r|] && AllSlashes(s[|r|..])
    ensures r == [] || r[|r| - 1] != '/'
  {
    if s == [] || s[|s| - 1] != '/' then s
    else
      var r := StripTrailingSlashes(s[..|s| - 1]);
      assert s[|r|..] == s[..|s| - 1][|r|..] + [s[|s| - 1]];
      r
  }

  /** `os.path.dirname`: everything up to the last slash, with trailing slashes
      removed unless the head is nothing but slashes. */
  function Dirname(path: string): (r: string)
    ensures |r| <= |path| && r == path[..|r|]
    ensures '/' !in path <==> r == ""
  {
    var head := path[..RFind(path, '/') + 1];
    if head != "" && !AllSlashes(head) then
      var r := StripTrailingSlashes(head);
      assert r != "" by {
        var i :| 0 <= i < |head| && head[i] != '/';
        assert i < |r|;
      }
      r
    else
      assert '/' in path ==> head[|head| - 1] == '/';
      head
  }

  /** The directory of a file at the root is the root. */
  lemma DirnameAtRoot(name: string)
    requires '/' !in name
    ensures Dirname("/" + name) == "/"
  {
    var path := "/" + name;
    assert forall i :: 0 < i < |path| ==> path[i] == name[i - 1];
    RFindIs(path, '/', 0);
    assert path[..1] == "/";
  }

  /** The directory of "dir/name" is "dir" when "dir" is an ordinary directory path. */
  lemma DirnameOfJoined(dir: string, name: string)
    requires '/' !in name && dir != [] && dir[|dir| - 1] != '/'
    ensures Dirname(dir + "/" + name) == dir
  {
    var path := dir + "/" + name;
    assert path[|dir|] == '/';
    assert forall i :: |dir| < i < |path| ==> path[i] == name[i - |dir| - 1];
    RFindIs(path, '/', |dir|);
    var r := RFind(path, '/');
    var head := path[..r + 1];
    assert head == dir + "/";
    assert !AllSlashes(head) by {
      assert head[|dir| - 1] != '/';
    }
    assert StripTrailingSlashes(head) == StripTrailingSlashes(dir);
  }

  /** `os.path.isabs`: the path starts with a slash, so that its directory
      part does too. */
  predicate IsAbs(path: string)
    ensures IsAbs(path) <==> Dirname(path) != "" && Dirname(path)[0] == '/'
  {
    assert |path| > 0 && path[0] == '/' ==> '/' in path;
    |path| > 0 && path[0] == '/'
  }

  /** `os.path.join(a, b)`. */
  function JoinPath(a: string, b: string): (r: string)
    ensures IsAbs(b) ==> r == b
    ensures !IsAbs(b) ==> |a| + |b| <= |r| <= |a| + 1 + |b| && r[..|a|] == a && r[|r| - |b|..] == b
    ensures !IsAbs(b) ==> (|r| == |a| + 1 + |b| <==> a != "" && a[|a| - 1] != '/')
    ensures !IsAbs(b) && |r| == |a| + 1 + |b| ==> r[|a|] == '/'
  {
    if IsAbs(b) then b
    else if a == "" || a[|a| - 1] == '/' then a + b
    else a + "/" + b
  }

  /** A prefix that is empty or ends in a slash does not change the file name. */
  lemma FileNameAfterPrefix(p: string, b: string)
    requires p == [] || p[|p| - 1] == '/'
    ensures FileName(p + b) == FileName(b)
  {
    var j := p + b;
    var rb := RFind(b, '/');
    assert forall i :: |p| <= i < |j| ==> j[i] == b[i - |p|];
    if rb >= 0 {
      RFindIs(j, '/', |p| + rb);
    } else {
      RFindIs(j, '/', |p| - 1);
    }
    assert FileName(j) == j[|p| + rb + 1..];
    assert FileName(b) == b[rb + 1..];
    assert j[|p| + rb + 1..] == b[rb + 1..];
  }

  /** Joining a relative path onto a directory does not change its file name. */
  lemma FileNameOfJoinPath(a: string, b: string)
    ensures FileName(JoinPath(a, b)) == FileName(b)
  {
    if !IsAbs(b) {
      if a == "" || a[|a| - 1] == '/' {
        FileNameAfterPrefix(a, b);
      } else {
        assert a + "/" + b == (a + "/") + b;
        FileNameAfterPrefix(a + "/", b);
      }
    }
  }
}
