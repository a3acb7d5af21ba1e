/**
 * Ruby's `Pathname` as `Section` uses it: `Pathname.new` and `Pathname#join`
 * with one argument, which goes through `Pathname#+` (the private `plus`
 * and `chop_basename` of pathname.rb). `+` works on path components: it
 * drops the leading `.` components of the argument (those before its first
 * name, between its leading `..`s too) and folds each leading `..` of the argument into the last name of
 * the base; components after the first name are kept as they are.
 */
module RubyPathname {
  import opened Wrappers
  import opened Errors
  import opened RubyPaths

  /** `Pathname.new(p)` refuses a string holding a NUL character. */
  function New(p: string): (r: Result<string, Error>)
    ensures r.Ok? <==> '\0' !in p
    ensures r.Ok? ==> r.value == p
    ensures r.Err? ==> r.error == NullByteInPath(p)
  {
    if '\0' in p then Err(NullByteInPath(p)) else Ok(p)
  }

  /** `Pathname#absolute?`: the path starts with a separator. */
  predicate IsAbsolute(p: string)
  {
    p != [] && p[0] == '/'
  }

  /** `s` consists of separators only (the empty string included). */
  predicate AllSeps(s: string)
  {
    forall i :: 0 <= i < |s| ==> s[i] == '/'
  }

  /** Index just after the last separator of `t`, or 0 when it has none. */
  function AfterLastSep(t: string): (k: nat)
    ensures k <= |t|
    ensures k > 0 ==> t[k - 1] == '/'
    ensures forall i :: k <= i < |t| ==> t[i] != '/'
    decreases |t|
  {
    if t == [] then 0
    else if t[|t| - 1] == '/' then |t|
    else
      var k := AfterLastSep(t[..|t| - 1]);
      assert forall i :: 0 <= i < |t| - 1 ==> t[..|t| - 1][i] == t[i];
      k
  }

  /** A path cut before its last component. */
  datatype Chopped = Chopped(prefix: string, base: string)

  /** A path with a name in it keeps that name when its trailing separators go, and the name ends it. */
  lemma TrimmedHasName(p: string)
    requires !AllSeps(p)
    ensures TrimTrailingSeps(p) != []
    ensures AfterLastSep(TrimTrailingSeps(p)) < |TrimTrailingSeps(p)|
  {
    var t := TrimTrailingSeps(p);
    var i :| 0 <= i < |p| && p[i] != '/';
    assert i < |t|;
    assert t[|t| - 1] != '/';
  }

  /** After the last separator there is none. */
  lemma NoSepAfterLastSep(t: string)
    ensures '/' !in t[AfterLastSep(t)..]
  {
    var base := t[AfterLastSep(t)..];
    assert forall j :: 0 <= j < |base| ==> base[j] == t[AfterLastSep(t) + j];
  }

  /** What trimming takes off is separators only. */
  lemma TrimmedTail(p: string)
    ensures AllSeps(p[|TrimTrailingSeps(p)|..])
  {
    var tail := p[|TrimTrailingSeps(p)|..];
    assert forall j :: 0 <= j < |tail| ==> tail[j] == p[|TrimTrailingSeps(p)| + j];
  }

  /**
   * `chop_basename(path)`: nil when `File.basename(path)` is "" or "/" (the
   * path is empty or all separators); otherwise the path up to its last
   * component, and that component.
   */
  function ChopBasename(p: string): (r: Option<Chopped>)
    ensures r.None? <==> AllSeps(p)
    ensures r.Some? ==> r.value.base != [] && '/' !in r.value.base
    ensures r.Some? ==> |r.value.prefix| + |r.value.base| <= |p|
    ensures r.Some? ==> p[..|r.value.prefix| + |r.value.base|] == r.value.prefix + r.value.base
    ensures r.Some? ==> AllSeps(p[|r.value.prefix| + |r.value.base|..])
    ensures r.Some? ==> r.value.prefix == [] || r.value.prefix[|r.value.prefix| - 1] == '/'
  {
    if AllSeps(p) then None
    else
      var t := TrimTrailingSeps(p);
      var k := AfterLastSep(t);
      TrimmedHasName(p);
      NoSepAfterLastSep(t);
      TrimmedTail(p);
      assert t[..k] + t[k..] == t;
      Some(Chopped(t[..k], t[k..]))
  }

  /** A component of a path: where it starts, and its name. */
  datatype Component = Component(start: nat, name: string)

  /** The end of the name that starts at `i`: the next separator, or the end of `p`. */
  function NameEnd(p: string, i: nat): (j: nat)
    requires i <= |p|
    ensures i <= j <= |p|
    ensures forall k :: i <= k < j ==> p[k] != '/'
    ensures j < |p| ==> p[j] == '/'
    decreases |p| - i
  {
    if i < |p| && p[i] != '/' then NameEnd(p, i + 1) else i
  }

  /**
   * The components of `p` from index `i` on, in order, as the loop of
   * `chop_basename` calls in `plus` collects them (`basename_list2` with
   * its `index_list2`).
   */
  function ComponentsFrom(p: string, i: nat): (cs: seq<Component>)
    requires i <= |p|
    ensures forall c :: c in cs ==> i <= c.start < |p| && c.name != []
    decreases |p| - i
  {
    if i == |p| then []
    else if p[i] == '/' then ComponentsFrom(p, i + 1)
    else [Component(i, p[i..NameEnd(p, i)])] + ComponentsFrom(p, NameEnd(p, i))
  }

  /** `cs` without its leading components named `n` (the `shift` loops of `plus`). */
  function DropLeading(cs: seq<Component>, n: string): (r: seq<Component>)
    ensures forall c :: c in r ==> c in cs
    ensures r == [] || r[0].name != n
    decreases |cs|
  {
    if cs != [] && cs[0].name == n then DropLeading(cs[1..], n) else cs
  }

  /** The state the main loop of `plus` ends in. */
  datatype Loop = Loop(prefix: string, rest: seq<Component>)

  /**
   * The main loop of `plus`: skip the `.` components that start the argument; take the
   * last component of the base; skip it when it is `.`; stop when it is
   * `..` or the argument does not start with `..`; otherwise cancel the two
   * and go on.
   */
  function PlusLoop(prefix1: string, list2: seq<Component>): (r: Loop)
    ensures forall c :: c in r.rest ==> c in list2
    decreases |prefix1|
  {
    var l2 := DropLeading(list2, ".");
    match ChopBasename(prefix1)
    case None => Loop(prefix1, l2)
    case Some(Chopped(pre, base1)) =>
      if base1 == "." then PlusLoop(pre, l2)
      else if base1 == ".." || l2 == [] || l2[0].name != ".." then Loop(pre + base1, l2)
      else PlusLoop(pre, l2[1..])
  }

  /**
   * What is left of the argument after the loop of `plus`: nothing, or the
   * argument from its first remaining component on. When the base is the
   * root (`atRoot`), leftover `..` components vanish first.
   */
  function Remainder(atRoot: bool, rest: seq<Component>, path2: string): Option<string>
    requires forall c :: c in rest ==> c.start <= |path2|
  {
    var rest2 := if atRoot then DropLeading(rest, "..") else rest;
    if rest2 == [] then None else Some(path2[rest2[0].start..])
  }

  /**
   * The end of `plus`: the remainder is joined on with `File.join` (glued on
   * directly when the base is empty); with no remainder, the base is the
   * result (or "." for the empty base).
   */
  function PlusFinish(prefix1: string, remainder: Option<string>): string
  {
    var joins := ChopBasename(prefix1).Some? || prefix1 != [];
    match remainder
    case Some(suffix) => if joins then Join(prefix1, suffix) else prefix1 + suffix
    case None => if joins then prefix1 else Dirname(prefix1)
  }

  /**
   * `plus(path1, path2)`, the work of `Pathname#+`. An argument that starts
   * with a separator is returned as it is (in Ruby: `prefix2` is not empty
   * once every component is chopped off).
   */
  function Plus(path1: string, path2: string): string
  {
    if IsAbsolute(path2) then path2
    else
      var loop := PlusLoop(path1, ComponentsFrom(path2, 0));
      var atRoot := ChopBasename(loop.prefix).None? && loop.prefix != [];
      PlusFinish(loop.prefix, Remainder(atRoot, loop.rest, path2))
  }

  /** `Pathname#join` with one argument: an absolute argument replaces the base, any other goes through `+`. */
  function PathnameJoin(base: string, arg: string): (r: Result<string, Error>)
    ensures r.Ok? <==> '\0' !in arg
    ensures r.Err? ==> r.error == NullByteInPath(arg)
    ensures r.Ok? && IsAbsolute(arg) ==> r.value == arg
    ensures r.Ok? ==> r.value == Plus(base, arg)
  {
    match New(arg)
    case Err(e) => Err(e)
    case Ok(a) => if IsAbsolute(a) then Ok(a) else Ok(Plus(base, a))
  }

  /** `p` is relative and its first component is a name, neither `.` nor `..`. */
  predicate StartsWithName(p: string)
  {
    p != [] && p[0] != '/' && p[..NameEnd(p, 0)] != "." && p[..NameEnd(p, 0)] != ".."
  }

  /** The last component of `p` is a name, neither `.` nor `..`. */
  predicate EndsInName(p: string)
  {
    ChopBasename(p).Some? && ChopBasename(p).value.base != "." && ChopBasename(p).value.base != ".."
  }

  /** The first component of a path that starts with a name. */
  lemma FirstComponent(p: string)
    requires p != [] && p[0] != '/'
    ensures ComponentsFrom(p, 0) != []
    ensures ComponentsFrom(p, 0)[0] == Component(0, p[..NameEnd(p, 0)])
  {
  }

  /**
   * Onto a base that ends in a name, an argument that starts with a name is
   * joined as `File.join` does: the base without its trailing separators, one
   * `/`, and the argument.
   */
  lemma {:induction false} PlusOfNames(base: string, arg: string)
    requires EndsInName(base) && StartsWithName(arg)
    ensures Plus(base, arg) == Join(TrimTrailingSeps(base), arg)
  {
    FirstComponent(arg);
    var cs := ComponentsFrom(arg, 0);
    assert DropLeading(cs, ".") == cs;
    var ch := ChopBasename(base).value;
    var t := ch.prefix + ch.base;
    var loop := PlusLoop(base, cs);
    assert loop == Loop(t, cs);
    TrimOfNamePrefix(base, t);
    assert ChopBasename(t).Some? by {
      assert t[|t| - 1] != '/';
    }
    assert arg[0..] == arg;
  }

  /** A path whose separator-free end is followed only by separators trims to that end. */
  lemma TrimOfNamePrefix(p: string, t: string)
    requires |t| <= |p| && p[..|t|] == t && AllSeps(p[|t|..])
    requires t != [] && t[|t| - 1] != '/'
    ensures TrimTrailingSeps(p) == t
  {
    var r := TrimTrailingSeps(p);
    assert forall i :: |t| <= i < |p| ==> p[i] == p[|t|..][i - |t|];
    assert p[|t| - 1] != '/';
    assert r == [] || p[|r| - 1] == r[|r| - 1];
  }

  /** `Pathname#join` of a relative path onto a plain base ending in a name is `File.join`. */
  lemma PathnameJoinOfNames(base: string, arg: string)
    requires IsPlainPath(base) && EndsInName(base)
    requires StartsWithName(arg) && '\0' !in arg
    ensures PathnameJoin(base, arg) == Ok(Join(base, arg))
  {
    PlusOfNames(base, arg);
    assert TrimTrailingSeps(base) == base;
  }

  /** Joining a file name onto a plain directory path is `File.join`, and `File.dirname` takes it off again. */
  lemma PathnameJoinChild(base: string, name: string)
    requires IsPlainPath(base) && EndsInName(base)
    requires IsName(name) && '\0' !in name
    ensures PathnameJoin(base, name) == Ok(Join(base, name))
    ensures Dirname(PathnameJoin(base, name).value) == base
  {
    assert NameEnd(name, 0) == |name|;
    assert name[..|name|] == name;
    PathnameJoinOfNames(base, name);
    DirnameOfJoin(base, name);
  }

  /** Onto the empty path, an argument that starts with a name is kept as it is. */
  lemma {:induction false} PathnameJoinOntoEmpty(arg: string)
    requires StartsWithName(arg) && '\0' !in arg
    ensures PathnameJoin("", arg) == Ok(arg)
  {
    FirstComponent(arg);
    var cs := ComponentsFrom(arg, 0);
    assert DropLeading(cs, ".") == cs;
    assert AllSeps("");
    assert ChopBasename("") == None;
    assert PlusLoop("", cs) == Loop("", cs);
    assert forall c :: c in cs ==> c.start <= |arg|;
    assert arg[cs[0].start..] == arg;
    assert Remainder(false, cs, arg) == Some(arg);
    assert PlusFinish("", Some(arg)) == "" + arg;
    assert Plus("", arg) == arg;
  }

  // ---------------------------------------------------------------------
  // `.` and `..` at the start of the argument

  /** `l2` is `l` with every start moved `k` further on. */
  predicate Shifted(l2: seq<Component>, l: seq<Component>, k: nat)
  {
    |l2| == |l| && forall i :: 0 <= i < |l| ==> l2[i] == Component(l[i].start + k, l[i].name)
  }

  /** Names end at the same place after a prefix is put in front. */
  lemma {:induction false} NameEndShift(a: string, b: string, i: nat)
    requires i <= |b|
    ensures NameEnd(a + b, |a| + i) == |a| + NameEnd(b, i)
    decreases |b| - i
  {
    if i < |b| && b[i] != '/' {
      assert (a + b)[|a| + i] == b[i];
      NameEndShift(a, b, i + 1);
    } else if i < |b| {
      assert (a + b)[|a| + i] == b[i];
    }
  }

  /** Components after a prefix are those of the rest, moved by the prefix's length. */
  lemma {:induction false} ComponentsShift(a: string, b: string, i: nat)
    requires i <= |b|
    ensures Shifted(ComponentsFrom(a + b, |a| + i), ComponentsFrom(b, i), |a|)
    decreases |b| - i, 1
  {
    var s := a + b;
    if i < |b| {
      assert s[|a| + i] == b[i];
      if b[i] == '/' {
        ComponentsShift(a, b, i + 1);
        assert ComponentsFrom(s, |a| + i) == ComponentsFrom(s, |a| + i + 1);
      } else {
        NameShift(a, b, i);
      }
    }
  }

  /** The case of `ComponentsShift` where a name starts at `i`. */
  lemma {:induction false} NameShift(a: string, b: string, i: nat)
    requires i < |b| && b[i] != '/'
    ensures Shifted(ComponentsFrom(a + b, |a| + i), ComponentsFrom(b, i), |a|)
    decreases |b| - i, 0
  {
    var s := a + b;
    var j := NameEnd(b, i);
    NameEndShift(a, b, i);
    ComponentsShift(a, b, j);
    SliceShift(a, b, i, j);
    var l2, l := ComponentsFrom(s, |a| + j), ComponentsFrom(b, j);
    var c2, c := Component(|a| + i, b[i..j]), Component(i, b[i..j]);
    FirstName(s, |a| + i);
    FirstName(b, i);
    ShiftedCons(ComponentsFrom(s, |a| + i), c2, l2, ComponentsFrom(b, i), c, l, |a|);
  }

  /** The components from the start of a name begin with that name. */
  lemma FirstName(p: string, i: nat)
    requires i < |p| && p[i] != '/'
    ensures ComponentsFrom(p, i) == [Component(i, p[i..NameEnd(p, i)])] + ComponentsFrom(p, NameEnd(p, i))
  {
  }

  /** A slice of the rest is a slice of the whole, moved by the prefix's length. */
  lemma SliceShift(a: string, b: string, i: nat, j: nat)
    requires i <= j <= |b|
    ensures (a + b)[|a| + i..|a| + j] == b[i..j]
    ensures i < |b| ==> (a + b)[|a| + i] == b[i]
  {
  }

  /** Putting shifted components in front keeps the shift. */
  lemma ShiftedCons(x2: seq<Component>, c2: Component, l2: seq<Component>, x: seq<Component>, c: Component, l: seq<Component>, k: nat)
    requires x2 == [c2] + l2 && x == [c] + l
    requires c2 == Component(c.start + k, c.name) && Shifted(l2, l, k)
    ensures Shifted(x2, x, k)
  {
    forall i | 0 <= i < |x| ensures x2[i] == Component(x[i].start + k, x[i].name) {
      if i > 0 {
        assert x2[i] == l2[i - 1] && x[i] == l[i - 1];
      }
    }
  }

  lemma {:induction false} DropLeadingShift(l2: seq<Component>, l: seq<Component>, k: nat, n: string)
    requires Shifted(l2, l, k)
    ensures Shifted(DropLeading(l2, n), DropLeading(l, n), k)
    decreases |l|
  {
    if l != [] && l[0].name == n {
      assert l2[0].name == n;
      DropLeadingShift(l2[1..], l[1..], k, n);
    }
  }

  /** The loop of `plus` looks only at the names of the argument's components. */
  lemma {:induction false} PlusLoopShift(p: string, l2: seq<Component>, l: seq<Component>, k: nat)
    requires Shifted(l2, l, k)
    ensures PlusLoop(p, l2).prefix == PlusLoop(p, l).prefix
    ensures Shifted(PlusLoop(p, l2).rest, PlusLoop(p, l).rest, k)
    decreases |p|
  {
    var d2, d := DropLeading(l2, "."), DropLeading(l, ".");
    DropLeadingShift(l2, l, k, ".");
    match ChopBasename(p)
    case None =>
    case Some(Chopped(pre, base1)) =>
      if base1 == "." {
        PlusLoopShift(pre, d2, d, k);
      } else if base1 == ".." || d == [] || d[0].name != ".." {
      } else {
        assert Shifted(d2[1..], d[1..], k);
        PlusLoopShift(pre, d2[1..], d[1..], k);
      }
  }

  /** The remainder is the same for an argument with a prefix in front whose components the loop no longer sees. */
  lemma RemainderShift(atRoot: bool, rest2: seq<Component>, rest: seq<Component>, a: string, b: string)
    requires Shifted(rest2, rest, |a|)
    requires forall c :: c in rest ==> c.start <= |b|
    requires forall c :: c in rest2 ==> c.start <= |a + b|
    ensures Remainder(atRoot, rest2, a + b) == Remainder(atRoot, rest, b)
  {
    if atRoot {
      DropLeadingShift(rest2, rest, |a|, "..");
    }
    var r2 := if atRoot then DropLeading(rest2, "..") else rest2;
    var r := if atRoot then DropLeading(rest, "..") else rest;
    assert Shifted(r2, r, |a|);
    if r != [] {
      assert r[0] in rest;
      SuffixAfterPrefix(a, b, r[0].start);
    }
  }

  lemma SuffixAfterPrefix(a: string, b: string, k: nat)
    requires k <= |b|
    ensures (a + b)[|a| + k..] == b[k..]
  {
  }


  /** The components of `./` + `b` are `.` and those of `b`, moved by two. */
  lemma CurrentDirComponents(b: string)
    ensures ComponentsFrom("./" + b, 0) == [Component(0, ".")] + ComponentsFrom("./" + b, 2)
    ensures Shifted(ComponentsFrom("./" + b, 2), ComponentsFrom(b, 0), 2)
  {
    var t := "./" + b;
    assert t[0] == '.' && t[1] == '/';
    assert NameEnd(t, 1) == 1;
    assert NameEnd(t, 0) == 1;
    assert t[0..1] == ".";
    assert ComponentsFrom(t, 1) == ComponentsFrom(t, 2);
    ComponentsShift("./", b, 0);
  }

  /** The components of `../` + `b` are `..` and those of `b`, moved by three. */
  lemma ParentDirComponents(b: string)
    ensures ComponentsFrom("../" + b, 0) == [Component(0, "..")] + ComponentsFrom("../" + b, 3)
    ensures Shifted(ComponentsFrom("../" + b, 3), ComponentsFrom(b, 0), 3)
  {
    var t := "../" + b;
    assert t[0] == '.' && t[1] == '.' && t[2] == '/';
    assert NameEnd(t, 2) == 2;
    assert NameEnd(t, 0) == 2;
    assert t[0..2] == "..";
    assert ComponentsFrom(t, 2) == ComponentsFrom(t, 3);
    ComponentsShift("../", b, 0);
  }

  /** `Plus` sees the same loop for `./` + `b` as for `b`, with the components moved by two. */
  lemma {:induction false} PlusDropsCurrentDir(base: string, arg: string)
    requires !IsAbsolute(arg)
    ensures Plus(base, "./" + arg) == Plus(base, arg)
  {
    var t := "./" + arg;
    assert !IsAbsolute(t);
    CurrentDirComponents(arg);
    var cs, s2, s := ComponentsFrom(t, 0), ComponentsFrom(t, 2), ComponentsFrom(arg, 0);
    assert DropLeading(cs, ".") == DropLeading(s2, ".") by {
      assert cs[0].name == "." && cs[1..] == s2;
    }
    var l2, l := PlusLoop(base, s2), PlusLoop(base, s);
    assert PlusLoop(base, cs) == l2;
    PlusLoopShift(base, s2, s, 2);
    RemainderShift(ChopBasename(l.prefix).None? && l.prefix != [], l2.rest, l.rest, "./", arg);
  }

  /** A leading `./` of the argument makes no difference: `Pathname("").join("./foo")` is `foo`. */
  lemma PathnameJoinDropsCurrentDir(base: string, arg: string)
    requires !IsAbsolute(arg)
    ensures PathnameJoin(base, "./" + arg).Ok? <==> PathnameJoin(base, arg).Ok?
    ensures '\0' !in arg ==> PathnameJoin(base, "./" + arg) == PathnameJoin(base, arg)
  {
    var t := "./" + arg;
    assert '\0' in t <==> '\0' in arg by {
      assert forall i :: 0 <= i < |arg| ==> t[i + 2] == arg[i];
      assert t[0] != '\0' && t[1] != '\0';
    }
    PlusDropsCurrentDir(base, arg);
  }

  /** `Plus` cancels a leading `..` of the argument against the last name of the base. */
  lemma {:induction false} PlusFoldsParent(base: string, arg: string)
    requires EndsInName(base) && !IsAbsolute(arg)
    ensures Plus(base, "../" + arg) == Plus(ChopBasename(base).value.prefix, arg)
  {
    var t := "../" + arg;
    assert !IsAbsolute(t);
    ParentDirComponents(arg);
    var cs, s3, s := ComponentsFrom(t, 0), ComponentsFrom(t, 3), ComponentsFrom(arg, 0);
    assert DropLeading(cs, ".") == cs;
    var pre := ChopBasename(base).value.prefix;
    assert cs[1..] == s3;
    var l3, l := PlusLoop(pre, s3), PlusLoop(pre, s);
    assert PlusLoop(base, cs) == l3;
    PlusLoopShift(pre, s3, s, 3);
    RemainderShift(ChopBasename(l.prefix).None? && l.prefix != [], l3.rest, l.rest, "../", arg);
  }

  /**
   * A leading `../` of the argument cancels the last name of the base:
   * `Pathname("a/b").join("../c")` is `Pathname("a/").join("c")`, that is `a/c`.
   */
  lemma PathnameJoinFoldsParent(base: string, arg: string)
    requires EndsInName(base) && !IsAbsolute(arg)
    ensures PathnameJoin(base, "../" + arg).Ok? <==> PathnameJoin(ChopBasename(base).value.prefix, arg).Ok?
    ensures '\0' !in arg ==> PathnameJoin(base, "../" + arg) == PathnameJoin(ChopBasename(base).value.prefix, arg)
  {
    var t := "../" + arg;
    var pre := ChopBasename(base).value.prefix;
    assert '\0' in t <==> '\0' in arg by {
      assert forall i :: 0 <= i < |arg| ==> t[i + 3] == arg[i];
      assert t[0] != '\0' && t[1] != '\0' && t[2] != '\0';
    }
    if '\0' !in arg {
      PlusFoldsParent(base, arg);
      var a, b := PathnameJoin(base, t), PathnameJoin(pre, arg);
      assert a.Ok? && b.Ok? && a.value == b.value;
    }
  }
}
