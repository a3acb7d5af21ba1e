/**
 * Bookbinder's LocalFilesystemAccessor: the path and string logic of its
 * file lookups, and its writes and copies over an abstract filesystem that
 * maps paths to contents.
 */
module LocalFilesystemAccessor {
  import opened Wrappers
  import Seqs
  import opened RubyStrings
  import opened RubyPaths
  import Glob
  import opened Errors

  // ---------------------------------------------------------------------
  // find_files_extension_agnostically

  /**
   * The extension-free lookup key: `pattern.to_s.split('.').first`, with the
   * nil of an all-dot or empty pattern interpolated as "".
   */
  function ExtensionlessPattern(pattern: string): (stem: string)
    ensures |stem| <= |pattern| && stem == pattern[..|stem|]
    ensures '.' !in stem
  {
    var fields := Split(pattern, '.');
    SplitFirst(pattern, '.');
    if fields == [] then "" else fields[0]
  }

  /** The stem is the part of the whole path string before its first `.`. */
  lemma ExtensionlessPatternIsPrefixBeforeFirstDot(pattern: string)
    ensures ExtensionlessPattern(pattern) == PrefixBefore(pattern, '.')
    ensures Split(pattern, '.') == [] <==> forall i :: 0 <= i < |pattern| ==> pattern[i] == '.'
  {
    SplitFirst(pattern, '.');
    if Split(pattern, '.') == [] && pattern != [] {
      assert pattern[0] == '.';
      assert IndexOf(pattern, '.') == Some(0);
    }
  }

  /** Cutting a stem again changes nothing. */
  lemma ExtensionlessPatternIdempotent(pattern: string)
    ensures ExtensionlessPattern(ExtensionlessPattern(pattern)) == ExtensionlessPattern(pattern)
  {
    var stem := ExtensionlessPattern(pattern);
    ExtensionlessPatternIsPrefixBeforeFirstDot(stem);
  }

  /**
   * The cut applies to the whole path, not to its last component: a dot in
   * a directory name truncates there (`a/di.r/foo.html` gives `a/di`).
   */
  lemma ExtensionlessPatternCutsAtFirstDot(prefix: string, rest: string)
    requires '.' !in prefix
    ensures ExtensionlessPattern(prefix + "." + rest) == prefix
  {
    var p := prefix + "." + rest;
    ExtensionlessPatternIsPrefixBeforeFirstDot(p);
    assert p[|prefix|] == '.';
    assert p[..|prefix|] == prefix;
    assert forall j :: 0 <= j < |prefix| ==> p[j] == prefix[j] && prefix[j] != '.';
    assert forall j :: |prefix| < j <= |p| ==> p[..j][|prefix|] == '.';
    assert IndexOf(p, '.') == Some(|prefix|);
  }

  /** The pattern of a literal and a star matches the rest of a path at `k` exactly when the literal occurs there. */
  lemma LiteralStarAt(lit: string, path: string, k: nat)
    requires '*' !in lit && k <= |path|
    ensures Glob.Match(lit + "*", path[k..]) <==> OccursAt(path, k, lit)
  {
    Glob.MatchLiteral(lit, "*", path[k..]);
    if |lit| <= |path[k..]| {
      var t := path[k..][|lit|..];
      Glob.MatchStar("", t);
      assert "*" + "" == "*";
      assert t[|t|..] == [];
      assert path[k..][..|lit|] == path[k..k + |lit|];
    }
  }

  /** A pattern made of a star, a literal without stars and a star matches the paths that contain the literal. */
  lemma StarLiteralStar(lit: string)
    ensures '*' !in lit ==> forall path :: Glob.Match("*" + (lit + "*"), path) <==> Contains(path, lit)
  {
    forall path | '*' !in lit ensures Glob.Match("*" + (lit + "*"), path) <==> Contains(path, lit) {
      Glob.MatchStar(lit + "*", path);
      forall k | 0 <= k <= |path|
        ensures Glob.Match(lit + "*", path[k..]) <==> OccursAt(path, k, lit)
      {
        LiteralStarAt(lit, path, k);
      }
    }
  }

  /**
   * The `-path` argument given to `find`: a star, a slash, the stem, a dot
   * and a star. A path matches it exactly when it contains `/`, the stem,
   * then a `.`.
   */
  function SearchPattern(stem: string): (pat: string)
    ensures '*' !in stem ==> forall path :: Glob.Match(pat, path) <==> Contains(path, "/" + stem + ".")
  {
    var lit := "/" + stem + ".";
    assert '*' !in stem ==> '*' !in lit by {
      assert forall i :: 1 <= i <= |stem| ==> lit[i] == stem[i - 1];
    }
    StarLiteralStar(lit);
    assert "*/" + stem + ".*" == "*" + (lit + "*");
    "*/" + stem + ".*"
  }

  /** Where `/` + stem + `.` occurs in `dir/name`: inside `dir`, or at the `/` before `name`. */
  lemma {:induction false} OccurrenceInDirOrName(stem: string, dir: string, name: string, k: int)
    requires '/' !in stem && '/' !in name
    requires OccursAt(dir + "/" + name, k, "/" + stem + ".")
    ensures OccursAt(dir, k, "/" + stem + ".") || (k == |dir| && OccursAt(name, 0, stem + "."))
  {
    var lit := "/" + stem + ".";
    var path := dir + "/" + name;
    assert forall j :: 0 <= j < |lit| ==> path[k + j] == lit[j];
    assert forall i :: 1 <= i < |lit| ==> lit[i] != '/' by {
      assert forall i :: 1 <= i <= |stem| ==> lit[i] == stem[i - 1];
    }
    assert path[|dir|] == '/';
    assert forall i :: |dir| < i < |path| ==> path[i] == name[i - |dir| - 1];
    assert path[k] == '/';
    assert k <= |dir|;
    if k < |dir| {
      assert k + |lit| <= |dir|;
      assert dir[k..k + |lit|] == path[k..k + |lit|];
    } else {
      assert name[..|stem| + 1] == path[k + 1..k + |lit|];
      assert (stem + ".") == lit[1..];
    }
  }

  /**
   * For a file `name` inside directory `dir`, the pattern of a stem without
   * `/` matches exactly when `name` starts with the stem and a `.`, or the
   * directory path itself contains `/` + stem + `.`.
   */
  lemma SearchPatternInDirectory(stem: string, dir: string, name: string)
    requires '*' !in stem && '/' !in stem && '/' !in name
    ensures Glob.Match(SearchPattern(stem), dir + "/" + name) <==>
      Contains(dir, "/" + stem + ".") || OccursAt(name, 0, stem + ".")
  {
    var lit := "/" + stem + ".";
    var path := dir + "/" + name;
    if Contains(path, lit) {
      var k :| 0 <= k <= |path| && OccursAt(path, k, lit);
      OccurrenceInDirOrName(stem, dir, name, k);
    }
    if Contains(dir, lit) {
      var k :| 0 <= k <= |dir| && OccursAt(dir, k, lit);
      assert path[k..k + |lit|] == dir[k..k + |lit|];
      assert OccursAt(path, k, lit);
    }
    if OccursAt(name, 0, stem + ".") {
      assert path[|dir|..|dir| + |lit|] == "/" + name[..|stem| + 1];
      assert OccursAt(path, |dir|, lit);
    }
  }

  /** In the current directory, a file is found exactly when its name starts with the stem and a `.`. */
  lemma SearchPatternInCurrentDirectory(stem: string, name: string)
    requires '*' !in stem && '/' !in stem && '/' !in name
    ensures Glob.Match(SearchPattern(stem), "./" + name) <==> OccursAt(name, 0, stem + ".")
  {
    SearchPatternInDirectory(stem, ".", name);
    assert "./" + name == "." + "/" + name;
  }

  /** A stem finds a file of that name with any extension, one or several (`foo` finds `foo.html.md.erb`). */
  lemma StemFindsAnyExtension(stem: string, ext: string)
    requires '*' !in stem && '/' !in stem && '/' !in ext
    ensures Glob.Match(SearchPattern(stem), "./" + stem + "." + ext)
  {
    var name := stem + "." + ext;
    assert '/' !in name by {
      assert forall i :: 0 <= i < |name| ==> name[i] == (if i < |stem| then stem[i] else if i == |stem| then '.' else ext[i - |stem| - 1]);
    }
    assert name[..|stem| + 1] == stem + ".";
    SearchPatternInCurrentDirectory(stem, name);
    assert "./" + stem + "." + ext == "./" + name;
  }

  /** A stem never finds a longer name that goes on without a `.` (`foo` never finds `food.html`). */
  lemma StemNeedsDotAfterIt(stem: string, c: char, rest: string)
    requires '*' !in stem && '/' !in stem && '/' !in rest
    requires c != '.' && c != '/'
    ensures !Glob.Match(SearchPattern(stem), "./" + stem + [c] + rest)
  {
    var name := stem + [c] + rest;
    assert '/' !in name by {
      assert forall i :: 0 <= i < |name| ==> name[i] == (if i < |stem| then stem[i] else if i == |stem| then c else rest[i - |stem| - 1]);
    }
    assert name[|stem|] == c;
    SearchPatternInCurrentDirectory(stem, name);
    assert "./" + stem + [c] + rest == "./" + name;
  }

  /**
   * `find_files_extension_agnostically(pattern, directory)`: `walk` is every
   * path `find -L directory` visits, in its order; `find` prints those that
   * match the search pattern, and the output is read back line by line.
   * For a pattern without `*` or a quote, and paths that print as one line
   * each, that is exactly the visited paths holding `/` + stem + `.`, in
   * walk order.
   */
  function FindFilesExtensionAgnostically(pattern: string, walk: seq<string>): (r: seq<string>)
    ensures ('*' !in pattern && '\'' !in pattern && forall p :: p in walk ==> PrintableLine(p)) ==>
      r == Seqs.Filter(walk, p => Contains(p, "/" + ExtensionlessPattern(pattern) + "."))
  {
    var stem := ExtensionlessPattern(pattern);
    var printed := Seqs.Filter(walk, p => Glob.Match(SearchPattern(stem), p));
    if '*' in pattern || '\'' in pattern || exists p :: p in walk && !PrintableLine(p) then
      ParseLines(Unlines(printed))
    else
      assert '*' !in stem by {
        assert forall i :: 0 <= i < |stem| ==> stem[i] == pattern[i];
      }
      ParseUnlines(printed);
      Seqs.FilterSame(walk, p => Glob.Match(SearchPattern(stem), p), p => Contains(p, "/" + stem + "."));
      ParseLines(Unlines(printed))
  }

  // ---------------------------------------------------------------------
  // find_files_recursively

  /** A path with a hidden component, one that matches `%r{/\.}`: a `/` directly followed by a `.`. */
  predicate IsHidden(p: string)
    ensures IsHidden(p) <==> exists i :: 0 <= i < |p| - 1 && p[i] == '/' && p[i + 1] == '.'
  {
    SlashDotAt(p);
    Contains(p, "/.")
  }

  /** `/.` occurs in `p` exactly where a `/` is directly followed by a `.`. */
  lemma SlashDotAt(p: string)
    ensures Contains(p, "/.") <==> exists i :: 0 <= i < |p| - 1 && p[i] == '/' && p[i + 1] == '.'
  {
    if Contains(p, "/.") {
      var k :| 0 <= k <= |p| && OccursAt(p, k, "/.");
      assert p[k..k + 2] == "/.";
      assert p[k] == '/' && p[k + 1] == '.';
    }
    if exists i :: 0 <= i < |p| - 1 && p[i] == '/' && p[i + 1] == '.' {
      var i :| 0 <= i < |p| - 1 && p[i] == '/' && p[i + 1] == '.';
      assert p[i..i + 2] == "/.";
      assert OccursAt(p, i, "/.");
    }
  }

  /**
   * `find_files_recursively(from)`: the lines of `find -L from`, minus hidden
   * paths, minus directories (`isDirectory` stands for `Pathname#directory?`);
   * the result holds, in output order, exactly the listed paths that are
   * neither hidden nor directories.
   */
  function FindFilesRecursively(findOutput: string, isDirectory: string -> bool): (r: seq<string>)
    ensures r == Seqs.Filter(ParseLines(findOutput), p => !IsHidden(p) && !isDirectory(p))
    ensures forall p :: p in r <==> p in ParseLines(findOutput) && !IsHidden(p) && !isDirectory(p)
  {
    var visible := Seqs.Filter(ParseLines(findOutput), p => !IsHidden(p));
    Seqs.FilterFilter(ParseLines(findOutput), p => !IsHidden(p), p => !isDirectory(p),
      p => !IsHidden(p) && !isDirectory(p));
    Seqs.Filter(visible, p => !isDirectory(p))
  }

  /** When `find` prints the paths `walked`, the lines read back are those very paths. */
  lemma FindFilesRecursivelyOfWalk(walked: seq<string>, isDirectory: string -> bool)
    requires forall p :: p in walked ==> PrintableLine(p)
    ensures FindFilesRecursively(Unlines(walked), isDirectory) ==
      Seqs.Filter(walked, p => !IsHidden(p) && !isDirectory(p))
  {
    ParseUnlines(walked);
  }

  // ---------------------------------------------------------------------
  // rename_file and copy_including_intermediate_dirs: target paths

  /** `File.expand_path(File.join(path, '..', new_name))`, with `cwd` for the working directory. */
  function RenameTarget(path: string, newName: string, cwd: string): (r: string)
    ensures IsExpanded(r)
    ensures ExpandPath(r, cwd) == r
  {
    ExpandPathIdempotent(Join(Join(path, ".."), newName), cwd);
    ExpandPath(Join(Join(path, ".."), newName), cwd)
  }

  /** `Resolve` over a concatenation resolves the first part, then the second. */
  lemma {:induction false} ResolveAppend(stack: seq<string>, xs: seq<string>, ys: seq<string>)
    ensures Resolve(stack, xs + ys) == Resolve(Resolve(stack, xs), ys)
    decreases |xs|
  {
    if xs != [] {
      assert (xs + ys)[0] == xs[0];
      assert (xs + ys)[1..] == xs[1..] + ys;
      var next := if xs[0] == "" || xs[0] == "." then stack
                  else if xs[0] == ".." then (if stack == [] then [] else stack[..|stack| - 1])
                  else stack + [xs[0]];
      assert Resolve(stack, xs) == Resolve(next, xs[1..]);
      assert Resolve(stack, xs + ys) == Resolve(next, xs[1..] + ys);
      ResolveAppend(next, xs[1..], ys);
    } else {
      assert xs + ys == ys;
    }
  }

  /** Expanding an absolute path built from separator-free components resolves those components. */
  lemma ExpandAbsolutePath(cs: seq<string>, cwd: string)
    requires cs != [] && forall c :: c in cs ==> '/' !in c
    ensures ExpandPath(AbsolutePath(cs), cwd) == AbsolutePath(Resolve([], cs))
  {
    var t := AbsolutePath(cs);
    FieldsOfJoinWith(cs, '/');
    FieldsCons("", JoinWith(cs, '/'), '/');
    assert t == "" + ['/'] + JoinWith(cs, '/');
    assert Fields(t, '/') == [""] + cs;
    assert ([""] + cs)[1..] == cs;
  }

  /** Appending a name to a plain path keeps it plain. */
  lemma PlainAppend(a: string, c: string)
    requires IsPlainPath(a) && c != [] && c[|c| - 1] != '/'
    ensures IsPlainPath(a + "/" + c)
  {
    var t := a + "/" + c;
    assert t[0] == a[0];
    assert t[1] == if |a| >= 2 then a[1] else '/';
    assert t[|t| - 1] == c[|c| - 1];
  }

  /** Going up from a plain path and then down to a name: `path/../new_name`. */
  lemma JoinUpThenName(path: string, newName: string)
    requires IsPlainPath(path) && IsName(newName)
    ensures Join(Join(path, ".."), newName) == path + "/.." + "/" + newName
  {
    var up := path + "/..";
    DirnameOfJoin(path, "..");
    assert Join(path, "..") == up;
    PlainAppend(path, "..");
    DirnameOfJoin(up, newName);
  }

  /** `path/../new_name` for an absolute path of names, as one absolute path of components. */
  lemma RenameJoin(dirs: seq<string>, base: string, newName: string)
    requires forall c :: c in dirs ==> IsName(c)
    requires IsName(base) && IsName(newName)
    ensures Join(Join(AbsolutePath(dirs + [base]), ".."), newName) == AbsolutePath(dirs + [base] + [".."] + [newName])
  {
    var p := AbsolutePath(dirs + [base]);
    DirnameOfAbsolute(dirs, base);
    JoinUpThenName(p, newName);
    var j := JoinWith(dirs + [base], '/');
    JoinWithSnoc(dirs + [base], "..", '/');
    var j2 := JoinWith(dirs + [base] + [".."], '/');
    assert j2 == j + "/" + "..";
    JoinWithSnoc(dirs + [base] + [".."], newName, '/');
    assert JoinWith(dirs + [base] + [".."] + [newName], '/') == j2 + "/" + newName;
    UpThenNameText(j, newName);
  }

  /** The text of `/j/../name`, regrouped. */
  lemma UpThenNameText(j: string, newName: string)
    ensures ("/" + j) + "/.." + "/" + newName == "/" + ((j + "/" + "..") + "/" + newName)
  {
  }

  /** Resolving names, then `..`, then a name replaces the last name. */
  lemma ResolveSibling(dirs: seq<string>, base: string, newName: string)
    requires forall c :: c in dirs ==> IsName(c)
    requires IsName(base) && IsName(newName)
    ensures Resolve([], dirs + [base] + [".."] + [newName]) == dirs + [newName]
  {
    assert dirs + [base] + [".."] + [newName] == (dirs + [base]) + ([".."] + [newName]);
    ResolveAppend([], dirs + [base], [".."] + [newName]);
    assert forall c :: c in dirs + [base] ==> c in dirs || c == base;
    ResolveNames([], dirs + [base]);
    assert [] + (dirs + [base]) == dirs + [base];
    assert (dirs + [base])[..|dirs + [base]| - 1] == dirs;
    assert Resolve(dirs + [base], [".."] + [newName]) == Resolve(dirs, [newName]);
    ResolveNames(dirs, [newName]);
  }

  /** A non-empty absolute path of names is plain. */
  lemma AbsolutePathIsPlain(dirs: seq<string>)
    requires dirs != [] && forall c :: c in dirs ==> IsName(c)
    ensures IsPlainPath(AbsolutePath(dirs))
  {
    var init, last := dirs[..|dirs| - 1], dirs[|dirs| - 1];
    assert init + [last] == dirs;
    assert forall c :: c in init ==> c in dirs;
    assert last in dirs;
    DirnameOfAbsolute(init, last);
  }

  /** Joining a name onto a non-empty absolute path of names appends the name as a component. */
  lemma JoinAbsolutePath(dirs: seq<string>, newName: string)
    requires dirs != [] && IsPlainPath(AbsolutePath(dirs)) && IsName(newName)
    ensures Join(AbsolutePath(dirs), newName) == AbsolutePath(dirs + [newName])
  {
    DirnameOfJoin(AbsolutePath(dirs), newName);
    JoinWithSnoc(dirs, newName, '/');
  }

  /** The directory of an absolute path of names, joined with a name, is the sibling path. */
  lemma DirnameJoinSibling(dirs: seq<string>, base: string, newName: string)
    requires forall c :: c in dirs ==> IsName(c)
    requires IsName(base) && IsName(newName)
    ensures Join(Dirname(AbsolutePath(dirs + [base])), newName) == AbsolutePath(dirs + [newName])
  {
    DirnameOfAbsolute(dirs, base);
    if dirs == [] {
      assert Join("/", newName) == "/" + newName;
      assert JoinWith([newName], '/') == newName;
      assert dirs + [newName] == [newName];
    } else {
      AbsolutePathIsPlain(dirs);
      JoinAbsolutePath(dirs, newName);
    }
  }

  /** The components of `path/../new_name` hold no `/`. */
  lemma SiblingComponentsSlashFree(dirs: seq<string>, base: string, newName: string)
    requires forall c :: c in dirs ==> IsName(c)
    requires IsName(base) && IsName(newName)
    ensures forall c :: c in dirs + [base] + [".."] + [newName] ==> '/' !in c
  {
    forall c | c in dirs + [base] + [".."] + [newName] ensures '/' !in c {
      assert c in dirs || c == base || c == ".." || c == newName;
    }
  }

  /** Renaming a file of an absolute, normalised path keeps it in the same directory under the new name. */
  lemma RenameTargetSameDirectory(dirs: seq<string>, base: string, newName: string, cwd: string)
    requires forall c :: c in dirs ==> IsName(c)
    requires IsName(base) && IsName(newName)
    ensures RenameTarget(AbsolutePath(dirs + [base]), newName, cwd) == Join(Dirname(AbsolutePath(dirs + [base])), newName)
    ensures RenameTarget(AbsolutePath(dirs + [base]), newName, cwd) == AbsolutePath(dirs + [newName])
  {
    var p := AbsolutePath(dirs + [base]);
    var cs := dirs + [base] + [".."] + [newName];
    assert RenameTarget(p, newName, cwd) == ExpandPath(Join(Join(p, ".."), newName), cwd);
    RenameJoin(dirs, base, newName);
    SiblingComponentsSlashFree(dirs, base, newName);
    ExpandAbsolutePath(cs, cwd);
    ResolveSibling(dirs, base, newName);
    assert RenameTarget(p, newName, cwd) == AbsolutePath(dirs + [newName]);
    DirnameJoinSibling(dirs, base, newName);
  }

  /**
   * `copy_including_intermediate_dirs`: the directory the file is copied
   * into, `File.dirname(File.join(dest, path_within_destination))`, where
   * `pathWithinDestination` stands for `relative_path_from(root, file)`.
   */
  function IntermediateDirsDestination(dest: string, pathWithinDestination: string): (r: string)
    ensures r != []
    ensures IsPlainPath(dest) && pathWithinDestination != [] && pathWithinDestination[0] != '/' ==>
      |dest| <= |r| && r[..|dest|] == dest
  {
    DirnameOfJoinedRelative(dest, pathWithinDestination);
    Dirname(Join(dest, pathWithinDestination))
  }

  /**
   * For a relative path made of names, the file lands under `dest` at its
   * relative path: the computed directory is `dest` joined with the
   * relative path's directories, and that directory joined with the file
   * name is `dest` joined with the relative path.
   */
  lemma IntermediateDirsKeepLayout(dest: string, comps: seq<string>)
    requires IsPlainPath(dest)
    requires comps != [] && forall c :: c in comps ==> IsName(c)
    ensures var rel := JoinWith(comps, '/');
      && IntermediateDirsDestination(dest, rel) ==
        (if |comps| == 1 then dest else Join(dest, JoinWith(comps[..|comps| - 1], '/')))
      && Join(IntermediateDirsDestination(dest, rel), comps[|comps| - 1]) == Join(dest, rel)
  {
    var last := comps[|comps| - 1];
    assert last in comps;
    if |comps| == 1 {
      assert JoinWith(comps, '/') == last;
      DirnameOfJoin(dest, last);
    } else {
      NestedComponents(dest, comps);
    }
  }

  /** The case of `IntermediateDirsKeepLayout` with at least one directory above the file. */
  lemma NestedComponents(dest: string, comps: seq<string>)
    requires IsPlainPath(dest)
    requires |comps| >= 2 && forall c :: c in comps ==> IsName(c)
    ensures var rel := JoinWith(comps, '/');
      && IntermediateDirsDestination(dest, rel) == Join(dest, JoinWith(comps[..|comps| - 1], '/'))
      && Join(IntermediateDirsDestination(dest, rel), comps[|comps| - 1]) == Join(dest, rel)
  {
    var rel := JoinWith(comps, '/');
    var dirs, last := JoinWith(comps[..|comps| - 1], '/'), comps[|comps| - 1];
    SplitLastComponent(comps);
    assert rel == dirs + "/" + last;
    NestedDestination(dest, dirs, last);
  }

  /** A relative path of two or more names is its directories' path, a `/`, and its last name. */
  lemma SplitLastComponent(comps: seq<string>)
    requires |comps| >= 2 && forall c :: c in comps ==> IsName(c)
    ensures var dirs := JoinWith(comps[..|comps| - 1], '/');
      && dirs != [] && dirs[0] != '/' && dirs[|dirs| - 1] != '/'
      && IsName(comps[|comps| - 1])
      && JoinWith(comps, '/') == dirs + "/" + comps[|comps| - 1]
  {
    var last := comps[|comps| - 1];
    var init := comps[..|comps| - 1];
    assert init + [last] == comps;
    assert last in comps && init[0] in comps && init[|init| - 1] in comps;
    JoinWithSnoc(init, last, '/');
    JoinWithFirst(init, '/');
    JoinWithLast(init, '/');
  }

  /** A file at `dirs/name` below `dest` is copied into `dest/dirs`, where it lands at `dest/dirs/name`. */
  lemma NestedDestination(dest: string, dirs: string, name: string)
    requires IsPlainPath(dest) && IsName(name)
    requires dirs != [] && dirs[0] != '/' && dirs[|dirs| - 1] != '/'
    ensures IntermediateDirsDestination(dest, dirs + "/" + name) == Join(dest, dirs)
    ensures Join(Join(dest, dirs), name) == Join(dest, dirs + "/" + name)
  {
    assert Join(dest, dirs) == dest + "/" + dirs;
    assert Join(dest, dirs + "/" + name) == dest + "/" + (dirs + "/" + name);
    assert dest + "/" + (dirs + "/" + name) == (dest + "/" + dirs) + "/" + name;
    PlainAppend(dest, dirs);
    DirnameOfJoin(dest + "/" + dirs, name);
  }

  // ---------------------------------------------------------------------
  // The filesystem the accessor writes to and copies within

  /**
   * The directories `mkdir_p(p)` needs: `p` itself and every prefix of it
   * that ends before a separator.
   */
  function MkdirTargets(p: string): (r: set<string>)
    ensures forall t :: t in r ==> 0 < |t| <= |p| && t == p[..|t|] && (|t| == |p| || p[|t|] == '/')
    ensures forall i :: 0 < i <= |p| && (i == |p| || p[i] == '/') ==> p[..i] in r
    ensures p != "" ==> p in r
  {
    assert p != "" ==> p[..|p|] == p;
    set i | 0 < i <= |p| && (i == |p| || p[i] == '/') :: p[..i]
  }

  /**
   * The targets from length `i` on that a file stands on: the shortest of
   * them, or none.
   */
  function BlockedFrom(p: string, fileKeys: set<string>, i: nat): (r: Option<string>)
    requires 1 <= i
    ensures r.None? ==> forall t :: t in MkdirTargets(p) * fileKeys ==> |t| < i
    ensures r.Some? ==> r.value in MkdirTargets(p) * fileKeys && i <= |r.value|
    ensures r.Some? ==> forall t :: t in MkdirTargets(p) * fileKeys && i <= |t| ==> |r.value| <= |t|
    decreases |p| + 1 - i
  {
    if i > |p| then None
    else if (i == |p| || p[i] == '/') && p[..i] in fileKeys then Some(p[..i])
    else
      var r := BlockedFrom(p, fileKeys, i + 1);
      assert forall t :: t in MkdirTargets(p) * fileKeys && |t| == i ==> t == p[..i];
      r
  }

  /**
   * The exception `mkdir_p(path)` raises, if any. A NUL byte is refused and
   * the empty path does not exist. Otherwise `mkdir_p` makes the missing
   * directories from the top down, so the first `mkdir` to fail is the one
   * on the shortest target a file stands on, and it raises EEXIST for it.
   */
  function MkdirError(path: string, fileKeys: set<string>): (e: Option<Error>)
    ensures e.None? <==> '\0' !in path && path != "" && MkdirTargets(path) * fileKeys == {}
    ensures '\0' in path ==> e == Some(NullByteInPath(path))
    ensures '\0' !in path && path == "" ==> e == Some(NoSuchEntry(path))
    ensures '\0' !in path && path != "" && e.Some? ==>
      e.value.AlreadyExists? && e.value.path in MkdirTargets(path) * fileKeys &&
      forall t :: t in MkdirTargets(path) * fileKeys ==> |e.value.path| <= |t|
  {
    if '\0' in path then Some(NullByteInPath(path))
    else if path == "" then Some(NoSuchEntry(path))
    else match BlockedFrom(path, fileKeys, 1)
      case None => None
      case Some(t) => Some(AlreadyExists(t))
  }

  /** `k` lies strictly below directory `root`. */
  predicate IsUnder(k: string, root: string)
  {
    |root| < |k| && k[..|root|] == root && k[|root|] == '/'
  }

  /** The paths of `ks` that lie below `root`. */
  function Below(ks: set<string>, root: string): (r: set<string>)
    ensures forall k :: k in r <==> k in ks && IsUnder(k, root)
  {
    set k | k in ks && IsUnder(k, root)
  }

  /** The entries of `m` below `src`, moved below `dest` (what `cp_r "src/.", dest` adds). */
  function Relocated<V>(m: map<string, V>, src: string, dest: string): (r: map<string, V>)
    ensures forall t :: t in r ==> IsUnder(t, dest) && src + t[|dest|..] in m && r[t] == m[src + t[|dest|..]]
    ensures forall t :: IsUnder(t, dest) && src + t[|dest|..] in m ==> t in r
  {
    var targets := set k | k in m && IsUnder(k, src) :: dest + k[|src|..];
    assert forall t :: t in targets ==> IsUnder(t, dest) && src + t[|dest|..] in m by {
      forall t | t in targets ensures IsUnder(t, dest) && src + t[|dest|..] in m {
        var k :| k in m && IsUnder(k, src) && t == dest + k[|src|..];
        assert t[|dest|..] == k[|src|..];
        assert src + k[|src|..] == k;
      }
    }
    forall t | IsUnder(t, dest) && src + t[|dest|..] in m ensures t in targets {
      var k := src + t[|dest|..];
      assert k[|src|..] == t[|dest|..];
      assert dest + t[|dest|..] == t;
    }
    map t | t in targets :: m[src + t[|dest|..]]
  }

  /** The directories below `src`, moved below `dest`. */
  function RelocatedDirs(ds: set<string>, src: string, dest: string): (r: set<string>)
    ensures forall t :: t in r <==> IsUnder(t, dest) && src + t[|dest|..] in ds
  {
    Relocated(map d | d in ds :: true, src, dest).Keys
  }

  /**
   * The paths where copying the tree below `src` to `dest` runs into an
   * entry of the other kind: a file to be copied onto a directory, or a
   * directory to be made where a file stands.
   */
  function CopyClashes(files: map<string, string>, dirs: set<string>, sourceDirs: set<string>, src: string, dest: string): (r: set<string>)
    ensures forall t :: t in r <==>
      (t in dirs && IsUnder(t, dest) && src + t[|dest|..] in files) ||
      (t in files && IsUnder(t, dest) && src + t[|dest|..] in sourceDirs)
  {
    (Relocated(files, src, dest).Keys * dirs) + (RelocatedDirs(sourceDirs, src, dest) * files.Keys)
  }

  /** The message raised when `copy_contents` is given a missing source directory. */
  function CopyContentsMistake(src: string): string
  {
    "The method copy_contents cannot copy the contents of the directory '" + src + "' because it was not found."
  }

  /** What a file holds before an append: its contents, or nothing when it does not exist yet. */
  function ContentsOrEmpty(files: map<string, string>, path: string): string
  {
    if path in files then files[path] else ""
  }

  /** A filesystem of files (path to contents) and directories, seen through the accessor. */
  class Filesystem {
    var files: map<string, string>
    var dirs: set<string>
    /** The working directory `File.expand_path` resolves relative paths against. */
    const cwd: string

    /** No entry has the empty path, and no path is both a file and a directory. */
    ghost predicate Valid()
      reads this
    {
      "" !in files && "" !in dirs && files.Keys !! dirs
    }

    constructor (initialFiles: map<string, string>, initialDirs: set<string>, workingDirectory: string)
      requires "" !in initialFiles && "" !in initialDirs && initialFiles.Keys !! initialDirs
      ensures Valid()
      ensures files == initialFiles && dirs == initialDirs && cwd == workingDirectory
    {
      files, dirs, cwd := initialFiles, initialDirs, workingDirectory;
    }

    /** `file_exist?(path)`; a NUL byte in the path raises. */
    method FileExist(path: string) returns (r: Result<bool, Error>)
      requires Valid()
      ensures '\0' in path ==> r == Err(NullByteInPath(path))
      ensures '\0' !in path ==> r.Ok? && (r.value <==> path in files || path in dirs)
      ensures path == "" ==> r == Ok(false)
    {
      if '\0' in path {
        return Err(NullByteInPath(path));
      }
      r := Ok(path in files || path in dirs);
    }

    /** `read(path)`: the contents of an existing file; a NUL byte, a directory or a missing path raises. */
    method Read(path: string) returns (r: Result<string, Error>)
      ensures r.Ok? <==> '\0' !in path && path in files
      ensures r.Ok? ==> r.value == files[path]
      ensures r.Err? ==> (r.error ==
        (if '\0' in path then NullByteInPath(path) else if path in dirs then IsADirectory(path) else NoSuchEntry(path)))
    {
      if '\0' in path {
        r := Err(NullByteInPath(path));
      } else if path in files {
        r := Ok(files[path]);
      } else if path in dirs {
        r := Err(IsADirectory(path));
      } else {
        r := Err(NoSuchEntry(path));
      }
    }

    /** `make_directory(path)`: `mkdir_p`, which raises as `MkdirError` says and changes nothing then. */
    method MakeDirectory(path: string) returns (r: Outcome<Error>)
      requires Valid()
      modifies this
      ensures Valid()
      ensures r.Fail? <==> MkdirError(path, old(files).Keys).Some?
      ensures r.Fail? ==> r.error == MkdirError(path, old(files).Keys).value
      ensures files == old(files)
      ensures r.Pass? ==> dirs == old(dirs) + MkdirTargets(path)
      ensures r.Fail? ==> dirs == old(dirs)
    {
      var e := MkdirError(path, files.Keys);
      if e.Some? {
        return Fail(e.value);
      }
      forall t | t in MkdirTargets(path) ensures t !in files && t != "" {
        assert t !in MkdirTargets(path) * files.Keys;
      }
      dirs := dirs + MkdirTargets(path);
      r := Pass;
    }

    /**
     * `write(to:, text:)`: makes the parent directories, opens `to` for
     * appending, adds `text` after what it held, and returns `to`. A NUL
     * byte in `to` raises before anything is made. The parent directories
     * stay made when the open fails: on the empty path (ENOENT), on a
     * directory (EISDIR), or on a path ending in `/`, which the open refuses
     * (ENOTDIR when a file stands there, EISDIR otherwise).
     */
    method Write(to: string, text: string) returns (r: Result<string, Error>)
      requires Valid()
      modifies this
      ensures Valid()
      ensures r.Ok? <==> ('\0' !in to && MkdirError(Dirname(to), old(files).Keys).None? &&
        to != "" && to[|to| - 1] != '/' && to !in old(dirs) + MkdirTargets(Dirname(to)))
      ensures r.Ok? ==> r.value == to && files == old(files)[to := ContentsOrEmpty(old(files), to) + text]
      ensures r.Err? ==> files == old(files)
      ensures '\0' in to ==> r == Err(NullByteInPath(to)) && dirs == old(dirs)
      ensures '\0' !in to && MkdirError(Dirname(to), old(files).Keys).Some? ==>
        r == Err(MkdirError(Dirname(to), old(files).Keys).value) && dirs == old(dirs)
      ensures '\0' !in to && MkdirError(Dirname(to), old(files).Keys).None? ==>
        && dirs == old(dirs) + MkdirTargets(Dirname(to))
        && (to == "" ==> r == Err(NoSuchEntry(to)))
        && (to != "" && to[|to| - 1] == '/' ==>
              r == Err(if TrimTrailingSeps(to) in old(files) then NotADirectory(to) else IsADirectory(to)))
        && (to != "" && to[|to| - 1] != '/' && to in old(dirs) + MkdirTargets(Dirname(to)) ==> r == Err(IsADirectory(to)))
    {
      if '\0' in to {
        return Err(NullByteInPath(to));
      }
      DirnameChars(to, '\0');
      var made := MakeDirectory(Dirname(to));
      if made.Fail? {
        return Err(made.error);
      }
      if to == "" {
        return Err(NoSuchEntry(to));
      }
      if to[|to| - 1] == '/' {
        return Err(if TrimTrailingSeps(to) in files then NotADirectory(to) else IsADirectory(to));
      }
      if to in dirs {
        return Err(IsADirectory(to));
      }
      files := files[to := ContentsOrEmpty(files, to) + text];
      r := Ok(to);
    }

    /**
     * `copy_contents(src, dest)`: raises ProgrammerMistake, changing nothing,
     * unless `src` is an existing directory (a NUL byte in it raises first);
     * otherwise makes `dest` (raising as `mkdir_p` does) and copies
     * everything below `src` to the same place below `dest`, overwriting
     * files. With `dest` already made, copying `src/.` onto `src` itself
     * raises "same file", and a file that would land on a directory (EISDIR)
     * or a directory that would be made where a file stands (EEXIST) stops
     * the copy.
     */
    method CopyContents(src: string, dest: string) returns (r: Outcome<Error>)
      requires Valid()
      modifies this
      ensures Valid()
      ensures '\0' in src ==> r == Fail(NullByteInPath(src)) && files == old(files) && dirs == old(dirs)
      ensures '\0' !in src && src !in old(dirs) ==>
        r == Fail(ProgrammerMistake(CopyContentsMistake(src))) && files == old(files) && dirs == old(dirs)
      ensures '\0' !in src && src in old(dirs) && MkdirError(dest, old(files).Keys).Some? ==>
        r == Fail(MkdirError(dest, old(files).Keys).value) && files == old(files) && dirs == old(dirs)
      ensures var copying := '\0' !in src && src in old(dirs) && MkdirError(dest, old(files).Keys).None?;
        copying && src == dest ==>
          r == Fail(SameFile(src + "/.")) && files == old(files) && dirs == old(dirs) + MkdirTargets(dest)
      ensures var copying := '\0' !in src && src in old(dirs) && MkdirError(dest, old(files).Keys).None?;
        r.Pass? <==> (copying && src != dest &&
          CopyClashes(old(files), old(dirs) + MkdirTargets(dest), old(dirs), src, dest) == {})
      ensures r.Pass? ==> files == old(files) + Relocated(old(files), src, dest)
      ensures r.Pass? ==> dirs == old(dirs) + MkdirTargets(dest) + RelocatedDirs(old(dirs), src, dest)
      ensures r.Fail? ==> files == old(files)
      ensures var copying := '\0' !in src && src in old(dirs) && MkdirError(dest, old(files).Keys).None?;
        copying && src != dest && r.Fail? ==>
          && dirs == old(dirs) + MkdirTargets(dest)
          && (r.error.IsADirectory? || r.error.AlreadyExists?)
          && r.error.path in CopyClashes(old(files), old(dirs) + MkdirTargets(dest), old(dirs), src, dest)
    {
      if '\0' in src {
        return Fail(NullByteInPath(src));
      }
      if src !in dirs {
        return Fail(ProgrammerMistake(CopyContentsMistake(src)));
      }
      var sourceDirs := dirs;
      var made := MakeDirectory(dest);
      if made.Fail? {
        return made;
      }
      if src == dest {
        return Fail(SameFile(src + "/."));
      }
      r := CopyTree(src, dest, sourceDirs);
    }

    /**
     * `cp_r "src/.", dest` once `dest` is made (`sourceDirs` are the
     * directories before that): everything below `src` goes to the same
     * place below `dest`, unless a file would land on a directory (EISDIR) or
     * a directory would be made where a file stands (EEXIST).
     */
    method CopyTree(src: string, dest: string, sourceDirs: set<string>) returns (r: Outcome<Error>)
      requires Valid() && sourceDirs <= dirs
      modifies this
      ensures Valid()
      ensures r.Pass? <==> CopyClashes(old(files), old(dirs), sourceDirs, src, dest) == {}
      ensures r.Pass? ==>
        files == old(files) + Relocated(old(files), src, dest) && dirs == old(dirs) + RelocatedDirs(sourceDirs, src, dest)
      ensures r.Fail? ==>
        && files == old(files) && dirs == old(dirs)
        && (r.error.IsADirectory? || r.error.AlreadyExists?)
        && r.error.path in CopyClashes(old(files), old(dirs), sourceDirs, src, dest)
    {
      var copiedFiles := Relocated(files, src, dest);
      var copiedDirs := RelocatedDirs(sourceDirs, src, dest);
      if copiedFiles.Keys * dirs != {} {
        var t :| t in copiedFiles.Keys * dirs;
        return Fail(IsADirectory(t));
      }
      if copiedDirs * files.Keys != {} {
        var t :| t in copiedDirs * files.Keys;
        return Fail(AlreadyExists(t));
      }
      assert CopyClashes(files, dirs, sourceDirs, src, dest) == {};
      CopiedTreeDisjoint(files, dirs, sourceDirs, src, dest);
      files := files + copiedFiles;
      dirs := dirs + copiedDirs;
      r := Pass;
    }

    /** `File.rename` of a file: it cannot replace a directory (EISDIR); any file at `target` is replaced. */
    method MoveFile(path: string, target: string) returns (r: Outcome<Error>)
      requires Valid() && path in files && target != ""
      modifies this
      ensures Valid()
      ensures r.Fail? <==> target in old(dirs)
      ensures r.Fail? ==> r == Fail(IsADirectory(target)) && files == old(files) && dirs == old(dirs)
      ensures r.Pass? ==> files == (old(files) - {path})[target := old(files)[path]] && dirs == old(dirs)
    {
      if target in dirs {
        return Fail(IsADirectory(target));
      }
      files := (files - {path})[target := files[path]];
      r := Pass;
    }

    /**
     * `File.rename` of a directory: it cannot replace a file (ENOTDIR), go
     * below itself (EINVAL) or replace a directory that has entries
     * (ENOTEMPTY); otherwise everything below it moves along.
     */
    method MoveDirectory(path: string, target: string) returns (r: Outcome<Error>)
      requires Valid() && path in dirs && target != ""
      modifies this
      ensures Valid()
      ensures target in old(files) ==> r == Fail(NotADirectory(target))
      ensures target !in old(files) && IsUnder(target, path) ==> r == Fail(InvalidArgument(target))
      ensures (target !in old(files) && !IsUnder(target, path) && target != path &&
               Below(old(files).Keys + old(dirs), target) != {}) ==> r == Fail(DirectoryNotEmpty(target))
      ensures r.Pass? <==> (target !in old(files) && !IsUnder(target, path) &&
                            (target == path || Below(old(files).Keys + old(dirs), target) == {}))
      ensures r.Fail? ==> files == old(files) && dirs == old(dirs)
      ensures r.Pass? ==> files == MovedFiles(old(files), path, target) && dirs == MovedDirs(old(dirs), path, target)
    {
      if target in files {
        return Fail(NotADirectory(target));
      }
      if IsUnder(target, path) {
        return Fail(InvalidArgument(target));
      }
      if target != path && Below(files.Keys + dirs, target) != {} {
        return Fail(DirectoryNotEmpty(target));
      }
      MovedTreeDisjoint(files, dirs, path, target);
      files, dirs := MovedFiles(files, path, target), MovedDirs(dirs, path, target);
      r := Pass;
    }

    /**
     * `rename_file(path, new_name)`: `File.rename` of `path` to `new_name` in
     * the same directory, a file or a directory. A NUL byte in `path`, then
     * in `new_name`, raises while the target is computed; a missing path
     * raises ENOENT.
     */
    method RenameFile(path: string, newName: string) returns (r: Outcome<Error>)
      requires Valid()
      modifies this
      ensures Valid()
      ensures '\0' in path ==> r == Fail(NullByteInPath(path)) && files == old(files) && dirs == old(dirs)
      ensures '\0' !in path && '\0' in newName ==>
        r == Fail(NullByteInPath(newName)) && files == old(files) && dirs == old(dirs)
      ensures '\0' !in path + newName && path !in old(files) && path !in old(dirs) ==>
        r == Fail(NoSuchEntry(path)) && files == old(files) && dirs == old(dirs)
      ensures '\0' !in path + newName && path in old(files) ==> var target := RenameTarget(path, newName, cwd);
        && (r.Fail? <==> target in old(dirs))
        && (r.Fail? ==> r == Fail(IsADirectory(target)) && files == old(files) && dirs == old(dirs))
        && (r.Pass? ==> files == (old(files) - {path})[target := old(files)[path]] && dirs == old(dirs))
      ensures '\0' !in path + newName && path in old(dirs) ==> var target := RenameTarget(path, newName, cwd);
        && (target in old(files) ==> r == Fail(NotADirectory(target)))
        && (target !in old(files) && IsUnder(target, path) ==> r == Fail(InvalidArgument(target)))
        && ((target !in old(files) && !IsUnder(target, path) && target != path &&
             Below(old(files).Keys + old(dirs), target) != {}) ==> r == Fail(DirectoryNotEmpty(target)))
        && (r.Pass? <==> (target !in old(files) && !IsUnder(target, path) &&
                          (target == path || Below(old(files).Keys + old(dirs), target) == {})))
        && (r.Fail? ==> files == old(files) && dirs == old(dirs))
        && (r.Pass? ==> files == MovedFiles(old(files), path, target) && dirs == MovedDirs(old(dirs), path, target))
    {
      if '\0' in path {
        return Fail(NullByteInPath(path));
      }
      if '\0' in newName {
        return Fail(NullByteInPath(newName));
      }
      assert '\0' !in path + newName;
      var target := RenameTarget(path, newName, cwd);
      if path in files {
        r := MoveFile(path, target);
      } else if path in dirs {
        r := MoveDirectory(path, target);
      } else {
        r := Fail(NoSuchEntry(path));
      }
    }
  }

  /** The files after a directory `path` moves to `target`: those outside `path` stay, those below it move along. */
  function MovedFiles(files: map<string, string>, path: string, target: string): (r: map<string, string>)
    ensures forall k :: k in r <==> (k in files && !IsUnder(k, path)) || (IsUnder(k, target) && path + k[|target|..] in files)
    ensures forall k :: k in r && IsUnder(k, target) && path + k[|target|..] in files ==> r[k] == files[path + k[|target|..]]
    ensures forall k :: k in r && !IsUnder(k, target) ==> r[k] == files[k]
  {
    (files - Below(files.Keys, path)) + Relocated(files, path, target)
  }

  /** The directories after a directory `path` moves to `target`. */
  function MovedDirs(dirs: set<string>, path: string, target: string): (r: set<string>)
    ensures forall k :: k in r <==>
      (k in dirs && !IsUnder(k, path) && k != path) || k == target || (IsUnder(k, target) && path + k[|target|..] in dirs)
  {
    (dirs - Below(dirs, path) - {path}) + {target} + RelocatedDirs(dirs, path, target)
  }

  /** Copying a tree without clashes keeps files and directories apart. */
  lemma CopiedTreeDisjoint(files: map<string, string>, dirs: set<string>, sourceDirs: set<string>, src: string, dest: string)
    requires "" !in files && "" !in dirs && files.Keys !! dirs && sourceDirs <= dirs
    requires CopyClashes(files, dirs, sourceDirs, src, dest) == {}
    ensures var copied := files + Relocated(files, src, dest);
      var made := dirs + RelocatedDirs(sourceDirs, src, dest);
      "" !in copied && "" !in made && copied.Keys !! made
  {
    var copied := files + Relocated(files, src, dest);
    var made := dirs + RelocatedDirs(sourceDirs, src, dest);
    forall k | k in copied ensures k !in made && k != "" {
      if k in Relocated(files, src, dest) {
        assert src + k[|dest|..] in files;
        assert k !in CopyClashes(files, dirs, sourceDirs, src, dest);
      } else {
        assert k !in CopyClashes(files, dirs, sourceDirs, src, dest);
      }
    }
  }

  /** Moving a directory tree onto a fresh or empty place (or onto itself) keeps files and directories apart. */
  lemma MovedTreeDisjoint(files: map<string, string>, dirs: set<string>, path: string, target: string)
    requires "" !in files && "" !in dirs && files.Keys !! dirs
    requires target != "" && target !in files && !IsUnder(target, path)
    requires target == path || Below(files.Keys + dirs, target) == {}
    ensures var movedFiles, movedDirs := MovedFiles(files, path, target), MovedDirs(dirs, path, target);
      "" !in movedFiles && "" !in movedDirs && movedFiles.Keys !! movedDirs
  {
    var movedFiles, movedDirs := MovedFiles(files, path, target), MovedDirs(dirs, path, target);
    forall k | k in movedFiles ensures k !in movedDirs {
      if IsUnder(k, target) && path + k[|target|..] in files {
        assert k in dirs ==> k in Below(files.Keys + dirs, target);
      } else {
        assert k in files && !IsUnder(k, path);
        assert IsUnder(k, target) ==> k in Below(files.Keys + dirs, target);
      }
    }
  }

  /** A child path of a plain directory: no NUL byte, no trailing `/`, and not a directory `mkdir_p` makes for its parent. */
  lemma ChildPath(dir: string, name: string)
    requires IsPlainPath(dir) && IsName(name) && '\0' !in dir && '\0' !in name
    ensures var path := dir + "/" + name;
      && '\0' !in path && path[|path| - 1] != '/'
      && path != dir && path !in MkdirTargets(dir)
  {
    var path := dir + "/" + name;
    assert forall i :: 0 <= i < |path| ==> path[i] == (if i < |dir| then dir[i] else if i == |dir| then '/' else name[i - |dir| - 1]);
    assert path[|path| - 1] == name[|name| - 1];
  }

  /** A write to a new file in an existing directory creates the file with the text and returns its path. */
  method WriteCreatesScenario(dir: string, name: string, text: string)
    requires IsPlainPath(dir) && IsName(name) && '\0' !in dir && '\0' !in name
  {
    var fs := new Filesystem(map[], {dir}, dir);
    var path := dir + "/" + name;
    DirnameOfJoin(dir, name);
    ChildPath(dir, name);
    var r := fs.Write(path, text);
    assert r == Ok(path);
    assert fs.files.Keys == {path} && fs.files[path] == "" + text == text;
  }

  /** A write to an existing file appends the text after what it held, and returns its path. */
  method WriteAppendsScenario(dir: string, name: string, first: string, second: string)
    requires IsPlainPath(dir) && IsName(name) && '\0' !in dir && '\0' !in name
  {
    var path := dir + "/" + name;
    DirnameOfJoin(dir, name);
    ChildPath(dir, name);
    var fs := new Filesystem(map[path := first], {dir}, dir);
    assert MkdirTargets(dir) * fs.files.Keys == {};
    var r := fs.Write(path, second);
    assert r == Ok(path);
    assert fs.files[path] == first + second;
  }

  /** Copying from a missing (here: empty) source directory is a programmer mistake and copies nothing. */
  method CopyContentsMissingSourceScenario()
  {
    var fs := new Filesystem(map["/tmp/dest_dir/file.txt" := "destination text"], {"/tmp", "/tmp/dest_dir"}, "/tmp");
    var r := fs.CopyContents("", "/tmp/dest_dir");
    assert r.Fail? && r.error.ProgrammerMistake?;
    assert fs.files["/tmp/dest_dir/file.txt"] == "destination text";
  }

  /** `mkdir_p` below a file raises EEXIST for that file and makes nothing. */
  method MakeDirectoryBelowFileScenario()
  {
    var fs := new Filesystem(map["/f" := "text"], {"/"}, "/");
    assert "/f/x"[2] == '/' && "/f/x"[..2] == "/f";
    var r := fs.MakeDirectory("/f/x");
    assert r == Fail(AlreadyExists("/f"));
    assert fs.dirs == {"/"};
  }

  /** Writing to a path that ends in `/` raises EISDIR once the parent is made, and writes nothing. */
  method WriteTrailingSlashScenario()
  {
    var fs := new Filesystem(map[], {"/d"}, "/");
    assert Dirname("/d/f/") == "/d";
    var r := fs.Write("/d/f/", "text");
    assert r == Err(IsADirectory("/d/f/"));
    assert fs.files == map[];
  }

  /** Copying the contents of a directory onto itself raises "same file" and copies nothing. */
  method CopyContentsOntoItselfScenario()
  {
    var fs := new Filesystem(map["/s/a" := "text"], {"/s"}, "/");
    assert MkdirTargets("/s") * fs.files.Keys == {} by {
      assert forall t :: t in MkdirTargets("/s") ==> |t| <= 2;
    }
    assert '\0' !in "/s" && "/s" != "";
    assert MkdirError("/s", fs.files.Keys).None?;
    var r := fs.CopyContents("/s", "/s");
    assert "/s" + "/." == "/s/.";
    assert r == Fail(SameFile("/s/."));
    assert fs.files == map["/s/a" := "text"];
  }
}
