/**
 * The parts of Ruby's String behaviour that the accessor and the section
 * helpers rely on: `split` with a one-character separator, `lines`, `chomp`,
 * and `gsub` of one character by another.
 */
module RubyStrings {
  import opened Wrappers
  import Seqs

  /** Index of the first occurrence of `c` in `s`, if any. */
  function IndexOf(s: string, c: char): (r: Option<nat>)
    ensures r.Some? ==> r.value < |s| && s[r.value] == c && c !in s[..r.value]
    ensures r.None? <==> c !in s
    decreases |s|
  {
    if s == [] then None
    else if s[0] == c then Some(0)
    else match IndexOf(s[1..], c)
      case None => None
      case Some(i) =>
        assert s[..i + 1] == [s[0]] + s[1..][..i];
        Some(i + 1)
  }

  /** The part of `s` before the first `c`, or all of `s` when it has no `c`. */
  function PrefixBefore(s: string, c: char): string
  {
    match IndexOf(s, c)
    case None => s
    case Some(i) => s[..i]
  }

  /** `w` occurs in `s` starting at index `k`. */
  predicate OccursAt(s: string, k: int, w: string)
  {
    0 <= k && k + |w| <= |s| && s[k..k + |w|] == w
  }

  /** `w` occurs somewhere in `s` (a regular-expression match of a literal). */
  predicate Contains(s: string, w: string)
  {
    exists k | 0 <= k <= |s| :: OccursAt(s, k, w)
  }

  /** Glues `parts` together with `sep` between neighbours (Ruby's `join`). */
  function JoinWith(parts: seq<string>, sep: char): string
    decreases |parts|
  {
    if parts == [] then ""
    else if |parts| == 1 then parts[0]
    else parts[0] + [sep] + JoinWith(parts[1..], sep)
  }

  /** Every field between two occurrences of `sep`, empty fields included. */
  function Fields(s: string, sep: char): (r: seq<string>)
    ensures |r| >= 1
    ensures forall f :: f in r ==> sep !in f
    ensures JoinWith(r, sep) == s
    decreases |s|
  {
    if s == [] then [""]
    else
      var rest := Fields(s[1..], sep);
      if s[0] == sep then
        assert s == [sep] + s[1..];
        [""] + rest
      else
        var r := [[s[0]] + rest[0]] + rest[1..];
        assert r[1..] == rest[1..];
        assert s == [s[0]] + s[1..];
        r
  }

  /** `fs` with its trailing run of empty strings removed. */
  function DropTrailingEmpty(fs: seq<string>): (r: seq<string>)
    ensures |r| <= |fs| && r == fs[..|r|]
    ensures r == [] || r[|r| - 1] != ""
    ensures r == [] <==> forall f :: f in fs ==> f == ""
    decreases |fs|
  {
    if fs == [] then []
    else if fs[|fs| - 1] == "" then
      var r := DropTrailingEmpty(fs[..|fs| - 1]);
      assert fs == fs[..|fs| - 1] + [fs[|fs| - 1]];
      var init := fs[..|fs| - 1];
      assert forall f :: f in fs <==> f in init || f == fs[|fs| - 1];
      assert (forall f :: f in init ==> f == "") ==> (forall f :: f in fs ==> f == "") by {
        if forall f :: f in init ==> f == "" {
          forall f | f in fs ensures f == "" { assert f in init || f == fs[|fs| - 1]; }
        }
      }
      r
    else
      assert fs[|fs| - 1] in fs;
      fs
  }

  /** Appending one part at the end of a joined sequence. */
  lemma {:induction false} JoinWithSnoc(cs: seq<string>, c: string, sep: char)
    requires cs != []
    ensures JoinWith(cs + [c], sep) == JoinWith(cs, sep) + [sep] + c
    decreases |cs|
  {
    if |cs| > 1 {
      assert (cs + [c])[1..] == cs[1..] + [c];
      JoinWithSnoc(cs[1..], c, sep);
    }
  }
  /** Dropping trailing empty fields keeps a prefix of the joined text and loses only separators. */
  lemma {:induction false} DropTrailingEmptyJoin(fs: seq<string>, sep: char)
    ensures var j, whole := JoinWith(DropTrailingEmpty(fs), sep), JoinWith(fs, sep);
      |j| <= |whole| && whole[..|j|] == j && forall i :: |j| <= i < |whole| ==> whole[i] == sep
    decreases |fs|
  {
    if fs != [] && fs[|fs| - 1] == "" {
      var init := fs[..|fs| - 1];
      DropTrailingEmptyJoin(init, sep);
      assert fs == init + [""];
      if init != [] {
        JoinWithSnoc(init, "", sep);
      }
    }
  }

  /**
   * Ruby's `s.split(sep)` for a one-character separator: the fields between
   * separators, trailing empty fields dropped; joined again they give `s`
   * up to a trailing run of separators.
   */
  function Split(s: string, sep: char): (r: seq<string>)
    ensures forall f :: f in r ==> sep !in f
    ensures r == [] || r[|r| - 1] != ""
    ensures |JoinWith(r, sep)| <= |s| && s[..|JoinWith(r, sep)|] == JoinWith(r, sep)
    ensures forall i :: |JoinWith(r, sep)| <= i < |s| ==> s[i] == sep
  {
    DropTrailingEmptyJoin(Fields(s, sep), sep);
    DropTrailingEmpty(Fields(s, sep))
  }

  /** The first field of `s` equals the part of `s` before its first `sep`. */
  lemma {:induction false} FirstFieldIsPrefix(s: string, sep: char)
    ensures Fields(s, sep)[0] == PrefixBefore(s, sep)
    decreases |s|
  {
    if s != [] && s[0] != sep {
      FirstFieldIsPrefix(s[1..], sep);
    }
  }

  /** Every field is empty exactly when the string consists of separators only. */
  lemma {:induction false} FieldsAllEmpty(s: string, sep: char)
    ensures (forall f :: f in Fields(s, sep) ==> f == "") <==> (forall i :: 0 <= i < |s| ==> s[i] == sep)
    decreases |s|
  {
    if s != [] {
      FieldsAllEmpty(s[1..], sep);
      if s[0] == sep {
        assert Fields(s, sep) == [""] + Fields(s[1..], sep);
        if forall f :: f in Fields(s[1..], sep) ==> f == "" {
          assert forall f :: f in Fields(s, sep) ==> f == "" || f in Fields(s[1..], sep);
        }
        if forall f :: f in Fields(s, sep) ==> f == "" {
          forall f | f in Fields(s[1..], sep) ensures f == "" { assert f in Fields(s, sep); }
        }
        if forall i :: 0 <= i < |s| ==> s[i] == sep {
          forall i | 0 <= i < |s[1..]| ensures s[1..][i] == sep { assert s[1..][i] == s[i + 1]; }
        }
        if forall i :: 0 <= i < |s[1..]| ==> s[1..][i] == sep {
          forall i | 0 <= i < |s| ensures s[i] == sep { if i > 0 { assert s[i] == s[1..][i - 1]; } }
        }
      } else {
        assert Fields(s, sep)[0] != "" && Fields(s, sep)[0] in Fields(s, sep);
      }
    }
  }

  /** Ruby's `s.split(sep).first`: nil when `s` holds nothing but separators, else the part before the first `sep`. */
  lemma SplitFirst(s: string, sep: char)
    ensures Split(s, sep) == [] <==> (forall i :: 0 <= i < |s| ==> s[i] == sep)
    ensures Split(s, sep) != [] ==> Split(s, sep)[0] == PrefixBefore(s, sep)
  {
    FieldsAllEmpty(s, sep);
    FirstFieldIsPrefix(s, sep);
  }

  /** Concatenation of a sequence of strings. */
  function Concat(ls: seq<string>): string
    decreases |ls|
  {
    if ls == [] then "" else ls[0] + Concat(ls[1..])
  }

  /** Ruby's `s.lines`: pieces ending just after each newline; the last piece may lack one. */
  function Lines(s: string): (r: seq<string>)
    ensures Concat(r) == s
    ensures forall i :: 0 <= i < |r| ==> r[i] != "" && '\n' !in r[i][..|r[i]| - 1]
    ensures forall i :: 0 <= i < |r| - 1 ==> r[i][|r[i]| - 1] == '\n'
    decreases |s|
  {
    if s == [] then []
    else match IndexOf(s, '\n')
      case None => [s]
      case Some(i) =>
        var line := s[..i + 1];
        assert line[..|line| - 1] == s[..i];
        assert s == line + s[i + 1..];
        var rest := Lines(s[i + 1..]);
        var r := [line] + rest;
        assert r[0] == line && r[1..] == rest;
        assert forall j :: 1 <= j < |r| ==> r[j] == rest[j - 1];
        r
  }

  /**
   * Ruby's `chomp` without argument: drops one trailing "\r\n", "\n" or
   * "\r", the longest of them that ends the string.
   */
  function Chomp(l: string): (r: string)
    ensures |r| <= |l| && r == l[..|r|]
    ensures var dropped := l[|r|..];
      dropped == "" || dropped == "\n" || dropped == "\r" || dropped == "\r\n"
    ensures |l| >= 2 && l[|l| - 2..] == "\r\n" ==> |r| == |l| - 2
    ensures l != [] && (l[|l| - 1] == '\n' || l[|l| - 1] == '\r') ==> |r| < |l|
  {
    if |l| >= 2 && l[|l| - 2..] == "\r\n" then l[..|l| - 2]
    else if |l| >= 1 && (l[|l| - 1] == '\n' || l[|l| - 1] == '\r') then l[..|l| - 1]
    else l
  }

  /** `output.lines.map(&:chomp)`: the lines of a command's output without their terminators. */
  function ParseLines(output: string): seq<string>
  {
    Seqs.Map(Chomp, Lines(output))
  }

  /** A line a command can print and `chomp` gives back intact: no newline, no trailing carriage return. */
  predicate PrintableLine(p: string)
  {
    '\n' !in p && (p == [] || p[|p| - 1] != '\r')
  }

  /** What a command prints when it writes each of `ps` on a line of its own. */
  function Unlines(ps: seq<string>): string
    decreases |ps|
  {
    if ps == [] then "" else ps[0] + "\n" + Unlines(ps[1..])
  }

  /** Reading back printed lines returns them: `Unlines` and `ParseLines` are inverse. */
  lemma {:induction false} ParseUnlines(ps: seq<string>)
    requires forall p :: p in ps ==> PrintableLine(p)
    ensures ParseLines(Unlines(ps)) == ps
    decreases |ps|
  {
    if ps != [] {
      var p, rest := ps[0], Unlines(ps[1..]);
      var s := p + "\n" + rest;
      assert ps[0] in ps;
      assert s[|p|] == '\n';
      assert s[..|p|] == p;
      assert IndexOf(s, '\n') == Some(|p|);
      assert s[..|p| + 1] == p + "\n";
      assert s[|p| + 1..] == rest;
      assert Lines(s) == [p + "\n"] + Lines(rest);
      assert Chomp(p + "\n") == p by {
        var l := p + "\n";
        assert l[..|l| - 1] == p;
        if |l| >= 2 { assert l[|l| - 2] == p[|p| - 1]; }
      }
      ParseUnlines(ps[1..]);
    }
  }

  /**
   * The leftmost position in `from..n` where `at` holds: where `sub` makes
   * its one replacement when `at` says where its regular expression matches.
   */
  function Leftmost(at: nat -> bool, from: nat, n: nat): (r: Option<nat>)
    ensures r.Some? ==> from <= r.value < n && at(r.value) && forall j :: from <= j < r.value ==> !at(j)
    ensures r.None? ==> forall j :: from <= j < n ==> !at(j)
    decreases n - from
  {
    if from >= n then None
    else if at(from) then Some(from)
    else Leftmost(at, from + 1, n)
  }

  /** Ruby's `s.gsub(from, to)` for two single characters. */
  function ReplaceChar(s: string, from: char, to: char): (r: string)
    ensures |r| == |s|
    ensures from != to ==> from !in r
    ensures from !in s ==> r == s
    ensures forall i :: 0 <= i < |s| ==> r[i] == (if s[i] == from then to else s[i])
  {
    seq(|s|, i requires 0 <= i < |s| => if s[i] == from then to else s[i])
  }
}
