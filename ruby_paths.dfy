/**
 * Ruby's path-string operations used by the accessor: `File.join`,
 * `File.dirname`, and `File.expand_path` (lexical part), all with `/` as
 * the only separator.
 */
module RubyPaths {
  import opened Wrappers
  import opened RubyStrings

  /** A path component that names an entry: non-empty, free of `/`, and neither `.` nor `..`. */
  predicate IsName(c: string)
  {
    c != "" && c != "." && c != ".." && '/' !in c
  }

  /** `a` without its trailing run of separators. */
  function TrimTrailingSeps(a: string): (r: string)
    ensures |r| <= |a| && r == a[..|r|]
    ensures r == [] || r[|r| - 1] != '/'
    ensures forall i :: |r| <= i < |a| ==> a[i] == '/'
    decreases |a|
  {
    if a != [] && a[|a| - 1] == '/' then TrimTrailingSeps(a[..|a| - 1]) else a
  }

  /**
   * `File.join(a, b)`: when `b` starts with a separator, the separators that
   * end `a` are dropped; when `a` already ends with one nothing is added;
   * otherwise one `/` is put between them (so `File.join("", b)` is "/" + b).
   */
  function Join(a: string, b: string): (r: string)
    ensures |r| <= |a| + 1 + |b|
    ensures var t := TrimTrailingSeps(a); |t| < |r| && r[..|t|] == t && r[|t|] == '/'
    ensures |b| <= |r| && r[|r| - |b|..] == b
    ensures forall i :: |TrimTrailingSeps(a)| <= i < |r| - |b| ==> r[i] == '/'
  {
    if b != [] && b[0] == '/' then TrimTrailingSeps(a) + b
    else if a != [] && a[|a| - 1] == '/' then a + b
    else a + "/" + b
  }

  /** Number of separators at the start of `s`. */
  function LeadingSeps(s: string): (n: nat)
    ensures n <= |s|
    ensures forall i :: 0 <= i < n ==> s[i] == '/'
    ensures n < |s| ==> s[n] != '/'
    decreases |s|
  {
    if s != [] && s[0] == '/' then 1 + LeadingSeps(s[1..]) else 0
  }

  /** First index at or after `i` that is not a separator (or `|s|`). */
  function SkipSeps(s: string, i: nat): (j: nat)
    requires i <= |s|
    ensures i <= j <= |s|
    ensures forall k :: i <= k < j ==> s[k] == '/'
    ensures j < |s| ==> s[j] != '/'
    decreases |s| - i
  {
    if i < |s| && s[i] == '/' then SkipSeps(s, i + 1) else i
  }

  /**
   * Scanning `s` from `i`, the start of the last run of separators that is
   * followed by something other than a separator (`last` if there is none).
   */
  function LastSepRun(s: string, i: nat, last: Option<nat>): (r: Option<nat>)
    requires i <= |s|
    ensures r.Some? ==> r == last || (i <= r.value < |s| && s[r.value] == '/')
    ensures last.Some? ==> r.Some?
    decreases |s| - i
  {
    if i == |s| then last
    else if s[i] == '/' then
      var j := SkipSeps(s, i);
      if j == |s| then last else LastSepRun(s, j, Some(i))
    else LastSepRun(s, i + 1, last)
  }

  /**
   * `File.dirname(s)`: leading separators collapse to one, trailing ones are
   * ignored, and everything from the last inner separator run on is cut;
   * "." when nothing is left.
   */
  function Dirname(s: string): (r: string)
    ensures r != []
    ensures r == "." ||
      var start := if LeadingSeps(s) > 1 then LeadingSeps(s) - 1 else 0;
      start + |r| <= |s| && r == s[start..start + |r|]
  {
    var root := LeadingSeps(s);
    var name := if root > 1 then root - 1 else 0;
    var p := LastSepRun(s, root, None).GetOr(root);
    if p == name then "." else s[name..p]
  }

  /** `File.dirname` adds no character but the `.` it returns for a path without a directory. */
  lemma DirnameChars(s: string, c: char)
    ensures c != '.' && c !in s ==> c !in Dirname(s)
  {
    var r := Dirname(s);
    var start := if LeadingSeps(s) > 1 then LeadingSeps(s) - 1 else 0;
    assert r != "." ==> forall j :: 0 <= j < |r| ==> r[j] == s[start + j];
  }

  /** With no separator from `i` on, the scan returns what it had found before. */
  lemma {:induction false} LastSepRunNone(s: string, i: nat, last: Option<nat>)
    requires i <= |s|
    requires forall k :: i <= k < |s| ==> s[k] != '/'
    ensures LastSepRun(s, i, last) == last
    decreases |s| - i
  {
    if i < |s| {
      LastSepRunNone(s, i + 1, last);
    }
  }

  /** A lone separator at `k`, with none after it and none just before it, is the last run found. */
  lemma {:induction false} LastSepRunAt(s: string, i: nat, last: Option<nat>, k: nat)
    requires i <= k < |s| - 1
    requires s[k] == '/' && (forall j :: k < j < |s| ==> s[j] != '/')
    requires k == i || s[k - 1] != '/'
    ensures LastSepRun(s, i, last) == Some(k)
    decreases |s| - i
  {
    if i == k {
      assert SkipSeps(s, k + 1) == k + 1;
      assert SkipSeps(s, k) == k + 1;
      LastSepRunNone(s, k + 1, Some(k));
    } else if s[i] == '/' {
      var j := SkipSeps(s, i);
      LastSepRunAt(s, j, Some(i), k);
    } else {
      LastSepRunAt(s, i + 1, last, k);
    }
  }

  /** A separator run that starts at `k` and is followed by a name is found by the scan, or a later one is. */
  lemma {:induction false} LastSepRunPast(s: string, i: nat, last: Option<nat>, k: nat)
    requires i <= k < |s| - 1
    requires s[k] == '/' && s[k + 1] != '/'
    requires k == i || s[k - 1] != '/'
    ensures LastSepRun(s, i, last).Some? && LastSepRun(s, i, last).value >= k
    decreases |s| - i
  {
    if i == k {
      assert SkipSeps(s, k + 1) == k + 1;
      assert SkipSeps(s, k) == k + 1;
    } else if s[i] == '/' {
      var j := SkipSeps(s, i);
      assert s[k - 1] != '/';
      LastSepRunPast(s, j, Some(i), k);
    } else {
      LastSepRunPast(s, i + 1, last, k);
    }
  }

  /** The directory of a relative path joined onto a plain path lies within that path. */
  lemma DirnameOfJoinedRelative(a: string, p: string)
    ensures IsPlainPath(a) && p != [] && p[0] != '/' ==>
      |a| <= |Dirname(Join(a, p))| && Dirname(Join(a, p))[..|a|] == a
  {
    if IsPlainPath(a) && p != [] && p[0] != '/' {
      var s := a + "/" + p;
      assert Join(a, p) == s;
      var k := |a|;
      assert s[k] == '/' && s[k + 1] == p[0];
      assert s[k - 1] == a[k - 1];
      assert s[0] == a[0] && (k >= 2 ==> s[1] == a[1]);
      var root := LeadingSeps(s);
      assert root <= 1;
      assert s[k - 1] != '/';
      LastSepRunPast(s, root, None, k);
      assert s[..k] == a;
    }
  }

  /** A path that joins cleanly: non-empty, no trailing separator, no doubled leading separator. */
  predicate IsPlainPath(a: string)
  {
    a != [] && a[|a| - 1] != '/' && !(|a| >= 2 && a[0] == '/' && a[1] == '/')
  }

  /** Joining a plain path with one name puts a single `/` between them, and `Dirname` undoes it. */
  lemma DirnameOfJoin(a: string, b: string)
    requires IsPlainPath(a)
    requires b != [] && '/' !in b
    ensures Join(a, b) == a + "/" + b
    ensures Dirname(Join(a, b)) == a
  {
    var s := a + "/" + b;
    var k := |a|;
    assert s[k] == '/' && s[k + 1] == b[0];
    assert forall j :: k < j < |s| ==> s[j] == b[j - k - 1];
    assert s[k - 1] == a[k - 1];
    var root := LeadingSeps(s);
    assert s[0] == a[0] && (k >= 2 ==> s[1] == a[1]);
    LastSepRunAt(s, root, None, k);
    assert s[0..k] == a;
  }

  /** `"/" + c0 + "/" + ... + "/" + cn` for components `cs`. */
  function AbsolutePath(cs: seq<string>): string
  {
    "/" + JoinWith(cs, '/')
  }

  /** `File.expand_path`'s lexical work: `.` and empty components vanish, `..` drops the previous one (never above the root). */
  function Resolve(stack: seq<string>, comps: seq<string>): seq<string>
    decreases |comps|
  {
    if comps == [] then stack
    else if comps[0] == "" || comps[0] == "." then Resolve(stack, comps[1..])
    else if comps[0] == ".." then Resolve(if stack == [] then [] else stack[..|stack| - 1], comps[1..])
    else Resolve(stack + [comps[0]], comps[1..])
  }

  /** An absolute path without empty, `.` or `..` components: the form `File.expand_path` returns. */
  predicate IsExpanded(r: string)
  {
    r != [] && r[0] == '/' && (r == "/" || forall c :: c in Fields(r[1..], '/') ==> IsName(c))
  }

  /** Resolving separator-free components onto a stack of names leaves names only. */
  lemma {:induction false} ResolveKeepsNames(stack: seq<string>, comps: seq<string>)
    requires forall c :: c in stack ==> IsName(c)
    requires forall c :: c in comps ==> '/' !in c
    ensures forall c :: c in Resolve(stack, comps) ==> IsName(c)
    decreases |comps|
  {
    if comps == [] {
    } else if comps[0] == "" || comps[0] == "." {
      ResolveKeepsNames(stack, comps[1..]);
    } else if comps[0] == ".." {
      ResolveKeepsNames(if stack == [] then [] else stack[..|stack| - 1], comps[1..]);
    } else {
      assert comps[0] in comps;
      ResolveKeepsNames(stack + [comps[0]], comps[1..]);
    }
  }

  /** The absolute path of a list of names is in expanded form. */
  lemma AbsolutePathIsExpanded(cs: seq<string>)
    requires forall c :: c in cs ==> IsName(c)
    ensures IsExpanded(AbsolutePath(cs))
  {
    var r := AbsolutePath(cs);
    assert r[1..] == JoinWith(cs, '/');
    if cs != [] {
      FieldsOfJoinWith(cs, '/');
    }
  }

  /** `File.expand_path(p)` with `cwd` for `Dir.pwd`: relative paths are taken from `cwd`, then resolved lexically. */
  function ExpandPath(p: string, cwd: string): (r: string)
    ensures IsExpanded(r)
  {
    var abs := if p != [] && p[0] == '/' then p else cwd + "/" + p;
    var cs := Resolve([], Fields(abs, '/'));
    ResolveKeepsNames([], Fields(abs, '/'));
    AbsolutePathIsExpanded(cs);
    AbsolutePath(cs)
  }

  /** Expanding an expanded path changes nothing. */
  lemma ExpandPathIdempotent(p: string, cwd: string)
    ensures ExpandPath(ExpandPath(p, cwd), cwd) == ExpandPath(p, cwd)
  {
    var r := ExpandPath(p, cwd);
    var j := r[1..];
    assert r == "" + ['/'] + j;
    FieldsCons("", j, '/');
    if r == "/" {
      assert j == "";
      assert Fields(r, '/') == ["", ""];
      assert ["", ""][1..] == [""];
      assert Resolve([], [""]) == [];
    } else {
      var cs := Fields(j, '/');
      ResolveNames([], cs);
      assert Fields(r, '/') == [""] + cs;
      assert ([""] + cs)[1..] == cs;
      assert Resolve([], Fields(r, '/')) == cs;
      assert JoinWith(cs, '/') == j;
    }
  }

  /** Splitting at a separator that follows a separator-free first part. */
  lemma {:induction false} FieldsCons(a: string, b: string, sep: char)
    requires sep !in a
    ensures Fields(a + [sep] + b, sep) == [a] + Fields(b, sep)
    decreases |a|
  {
    if a == [] {
      assert a + [sep] + b == [sep] + b;
      assert ([sep] + b)[1..] == b;
    } else {
      var s := a + [sep] + b;
      assert s[0] == a[0];
      assert s[1..] == a[1..] + [sep] + b;
      FieldsCons(a[1..], b, sep);
      assert [a[0]] + a[1..] == a;
    }
  }

  /** `Fields` undoes `JoinWith` for separator-free parts. */
  lemma {:induction false} FieldsOfJoinWith(cs: seq<string>, sep: char)
    requires cs != []
    requires forall c :: c in cs ==> sep !in c
    ensures Fields(JoinWith(cs, sep), sep) == cs
    decreases |cs|
  {
    if |cs| == 1 {
      FieldsNoSep(cs[0], sep);
    } else {
      assert cs[0] in cs;
      assert forall c :: c in cs[1..] ==> c in cs;
      FieldsOfJoinWith(cs[1..], sep);
      FieldsCons(cs[0], JoinWith(cs[1..], sep), sep);
    }
  }

  /** A string without separator is a single field. */
  lemma {:induction false} FieldsNoSep(s: string, sep: char)
    requires sep !in s
    ensures Fields(s, sep) == [s]
    decreases |s|
  {
    if s != [] {
      assert s[1..] == s[1..];
      assert forall c :: c in s[1..] ==> c in s;
      FieldsNoSep(s[1..], sep);
      assert [s[0]] + s[1..] == s;
    }
  }

  /** Names pass through `Resolve` unchanged. */
  lemma {:induction false} ResolveNames(stack: seq<string>, comps: seq<string>)
    requires forall c :: c in comps ==> IsName(c)
    ensures Resolve(stack, comps) == stack + comps
    decreases |comps|
  {
    if comps != [] {
      assert comps[0] in comps;
      assert forall c :: c in comps[1..] ==> c in comps;
      ResolveNames(stack + [comps[0]], comps[1..]);
      assert stack + [comps[0]] + comps[1..] == stack + comps;
    }
  }

  /** The last character of a join of non-empty parts is the last character of the last part. */
  lemma {:induction false} JoinWithLast(cs: seq<string>, sep: char)
    requires cs != [] && cs[|cs| - 1] != []
    ensures JoinWith(cs, sep) != [] && JoinWith(cs, sep)[|JoinWith(cs, sep)| - 1] == cs[|cs| - 1][|cs[|cs| - 1]| - 1]
    decreases |cs|
  {
    if |cs| > 1 {
      JoinWithLast(cs[1..], sep);
    }
  }

  /** The first character of a join whose first part is non-empty is that part's first character. */
  lemma JoinWithFirst(cs: seq<string>, sep: char)
    requires cs != [] && cs[0] != []
    ensures JoinWith(cs, sep) != [] && JoinWith(cs, sep)[0] == cs[0][0]
  {
  }

  /** An absolute path built from names is plain, and its directory is the path of all but its last name. */
  lemma DirnameOfAbsolute(dirs: seq<string>, base: string)
    requires forall c :: c in dirs ==> IsName(c)
    requires IsName(base)
    ensures Dirname(AbsolutePath(dirs + [base])) == if dirs == [] then "/" else AbsolutePath(dirs)
    ensures IsPlainPath(AbsolutePath(dirs + [base]))
  {
    var p := AbsolutePath(dirs + [base]);
    JoinWithLast(dirs + [base], '/');
    if dirs == [] {
      assert dirs + [base] == [base];
      assert p == "/" + base;
      assert LeadingSeps(p) == 1;
      assert forall k :: 1 <= k < |p| ==> p[k] == base[k - 1];
      LastSepRunNone(p, 1, None);
    } else {
      assert dirs[0] in dirs && dirs[|dirs| - 1] in dirs;
      JoinWithSnoc(dirs, base, '/');
      JoinWithLast(dirs, '/');
      JoinWithFirst(dirs, '/');
      var a := AbsolutePath(dirs);
      assert p == a + "/" + base;
      DirnameOfJoin(a, base);
    }
  }
}
