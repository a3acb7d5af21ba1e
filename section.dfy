/**
 * `Bookbinder::Section`: the value describing one section of a book (a
 * repository that is checked out and bound into the output), and the
 * helpers that derive the repository path, the subnav and the paths the
 * preprocessors are configured with.
 */
module Section {
  import opened Wrappers
  import opened Errors
  import opened RubyStrings
  import opened RubyPaths
  import opened RubyPathname

  /**
   * The struct's members, nil being `None`. The preprocessor configuration
   * is a hash from attribute names to paths.
   */
  datatype Section = Section(
    pathToRepository: Option<string>,
    fullName: Option<string>,
    copied: bool,
    destinationDir: Option<string>,
    desiredDirectoryName: Option<string>,
    subnavTempl: Option<string>,
    preprocessorConfig: Option<map<string, string>>)

  /** `requires_preprocessing?`: whether the section has a preprocessor configuration. */
  function RequiresPreprocessing(s: Section): (r: bool)
    ensures r <==> s.preprocessorConfig != None
  {
    !s.preprocessorConfig.None?
  }

  // ---------------------------------------------------------------------
  // Paths

  /**
   * `path_to_repository`: the stored path as a Pathname; a nil member
   * becomes the empty path rather than nil.
   */
  function PathToRepository(s: Section): (r: Result<string, Error>)
    ensures s.pathToRepository == None ==> r == Ok("")
    ensures s.pathToRepository != None ==> r == New(s.pathToRepository.value)
  {
    New(s.pathToRepository.GetOr(""))
  }

  // ---------------------------------------------------------------------
  // Subnav

  /** `^_` matches at `p`: an underscore at the start of a line. */
  predicate UnderscoreAtLineStart(s: string, p: nat)
  {
    p < |s| && s[p] == '_' && (p == 0 || s[p - 1] == '\n')
  }

  /** `\.erb$` matches at `p`: ".erb" at the end of a line or of the string. */
  predicate ErbAtLineEnd(s: string, p: nat)
  {
    p + 4 <= |s| && s[p..p + 4] == ".erb" && (p + 4 == |s| || s[p + 4] == '\n')
  }

  /** `s.sub(/^_/, '')`: the first underscore that starts a line is removed. */
  function StripLineStartUnderscore(s: string): (r: string)
    ensures |s| - 1 <= |r| <= |s|
  {
    match Leftmost((p: nat) => UnderscoreAtLineStart(s, p), 0, |s|)
    case None => s
    case Some(p) => s[..p] + s[p + 1..]
  }

  /** `s.sub(/\.erb$/, '')`: the first ".erb" that ends a line is removed. */
  function StripLineEndErb(s: string): (r: string)
    ensures |s| - 4 <= |r| <= |s|
  {
    match Leftmost((p: nat) => ErbAtLineEnd(s, p), 0, |s|)
    case None => s
    case Some(p) =>
      assert ErbAtLineEnd(s, p);
      s[..p] + s[p + 4..]
  }

  /** `subnav_template`: the template name without its partial `_` and its `.erb`; nil for a nil template. */
  function SubnavTemplate(templ: Option<string>): (r: Option<string>)
    ensures r == None <==> templ == None
    ensures r != None ==> |templ.value| - 5 <= |r.value| <= |templ.value|
  {
    match templ
    case None => None
    case Some(t) => Some(StripLineEndErb(StripLineStartUnderscore(t)))
  }

  /** On one line, `^_` removes the underscore that starts it, if there is one, and nothing else. */
  lemma {:induction false} StripUnderscoreSingleLine(s: string)
    requires '\n' !in s
    ensures StripLineStartUnderscore(s) == if s != [] && s[0] == '_' then s[1..] else s
  {
    var at := (p: nat) => UnderscoreAtLineStart(s, p);
    if s != [] && s[0] == '_' {
      assert at(0);
      assert Leftmost(at, 0, |s|) == Some(0);
    } else {
      forall p: nat | p < |s| ensures !at(p) {
        if p > 0 { assert s[p - 1] in s; }
      }
    }
  }

  /** On one line, `\.erb$` removes the ".erb" that ends it, if there is one, and nothing else. */
  lemma {:induction false} StripErbSingleLine(s: string)
    requires '\n' !in s
    ensures StripLineEndErb(s) == if |s| >= 4 && s[|s| - 4..] == ".erb" then s[..|s| - 4] else s
  {
    var at := (p: nat) => ErbAtLineEnd(s, p);
    forall p: nat | p + 4 < |s| ensures !at(p) {
      assert s[p + 4] in s;
    }
    if |s| >= 4 && s[|s| - 4..] == ".erb" {
      assert at(|s| - 4);
      var m := Leftmost(at, 0, |s|);
      assert m.Some? && m.value == |s| - 4;
      assert s[m.value + 4..] == [];
    } else {
      forall p: nat | p < |s| ensures !at(p) {
        assert p + 4 == |s| ==> s[p..p + 4] == s[|s| - 4..];
      }
    }
  }

  /**
   * For a template name on one line, `subnav_template` strips at most one
   * leading `_`, then at most one trailing ".erb", and keeps the rest.
   */
  lemma SubnavTemplateSingleLine(t: string)
    requires '\n' !in t
    ensures var u := if t != [] && t[0] == '_' then t[1..] else t;
      SubnavTemplate(Some(t)) == Some(if |u| >= 4 && u[|u| - 4..] == ".erb" then u[..|u| - 4] else u)
  {
    StripUnderscoreSingleLine(t);
    var u := if t != [] && t[0] == '_' then t[1..] else t;
    assert '\n' !in u by {
      if t != [] && t[0] == '_' { assert forall i :: 0 <= i < |u| ==> u[i] == t[i + 1]; }
    }
    StripErbSingleLine(u);
  }

  /** A partial's file name loses its `_` and its `.erb`: `_foo.erb` names `foo`, and `_.erb` the empty name. */
  lemma SubnavTemplateOfPartial(n: string)
    requires '\n' !in n
    ensures SubnavTemplate(Some("_" + n + ".erb")) == Some(n)
  {
    var u := n + ".erb";
    var t := "_" + u;
    assert t == "_" + n + ".erb";
    assert '\n' !in u;
    assert '\n' !in t;
    SubnavTemplateSingleLine(t);
    assert t[1..] == u;
    assert u[|u| - 4..] == ".erb" && u[..|u| - 4] == n;
  }

  /** A name with neither a leading `_` nor a trailing `.erb` is kept as it is: `bar` stays `bar`. */
  lemma SubnavTemplateOfPlainName(n: string)
    requires '\n' !in n
    requires n == [] || n[0] != '_'
    requires !(|n| >= 4 && n[|n| - 4..] == ".erb")
    ensures SubnavTemplate(Some(n)) == Some(n)
  {
    SubnavTemplateSingleLine(n);
  }

  /**
   * `subnav`, given the desired directory's text: one entry, keyed by that
   * text with every `/` turned into `_`, holding the subnav template, or
   * "default" when the section has none.
   */
  function Subnav(s: Section, desiredDirectory: string): (r: map<string, string>)
    ensures |r| == 1
    ensures forall k :: k in r ==> '/' !in k && |k| == |desiredDirectory|
    ensures forall k, i :: k in r && 0 <= i < |k| && i < |desiredDirectory| ==>
      k[i] == (if desiredDirectory[i] == '/' then '_' else desiredDirectory[i])
    ensures forall k :: k in r ==> r[k] == SubnavTemplate(s.subnavTempl).GetOr("default")
  {
    var namespace := ReplaceChar(desiredDirectory, '/', '_');
    var template := SubnavTemplate(s.subnavTempl).GetOr("default");
    assert '/' !in namespace by {
      assert forall i :: 0 <= i < |namespace| ==> namespace[i] != '/';
    }
    assert map[namespace := template].Keys == {namespace};
    map[namespace := template]
  }

  /** A desired directory without `/` is its own subnav key. */
  lemma SubnavKeyOfPlainName(s: Section, desiredDirectory: string)
    requires '/' !in desiredDirectory
    ensures desiredDirectory in Subnav(s, desiredDirectory)
  {
    var r := Subnav(s, desiredDirectory);
    var k :| k in r;
    assert k == desiredDirectory by {
      forall i | 0 <= i < |k| ensures k[i] == desiredDirectory[i] {
        assert desiredDirectory[i] in desiredDirectory;
      }
    }
  }

  /** Only a section without a template falls back to "default" (or one whose template is literally named so). */
  lemma SubnavDefault(s: Section, desiredDirectory: string, k: string)
    requires k in Subnav(s, desiredDirectory)
    ensures Subnav(s, desiredDirectory)[k] == "default" <==>
      s.subnavTempl == None || SubnavTemplate(s.subnavTempl) == Some("default")
  {
  }

  // ---------------------------------------------------------------------
  // Preprocessor attributes

  /** The start of the message `path_to_preprocessor_attribute` raises when there is no configuration. */
  const MissingConfigMessage := "path_to_preprocessor_attribute assumes preprocessor_config is available, got nil.\n"

  /**
   * `path_to_preprocessor_attribute(attr)`: nil when the configuration has no
   * such attribute, otherwise the repository path joined with the configured
   * path; without a configuration the lookup on nil is turned into a
   * ProgrammerMistake.
   */
  function PathToPreprocessorAttribute(s: Section, attr: string): (r: Result<Option<string>, Error>)
    ensures s.preprocessorConfig == None ==> r == Err(ProgrammerMistake(MissingConfigMessage))
    ensures s.preprocessorConfig != None && attr !in s.preprocessorConfig.value ==> r == Ok(None)
    ensures s.preprocessorConfig != None && attr in s.preprocessorConfig.value ==>
      match PathToRepository(s)
      case Err(e) => r == Err(e)
      case Ok(repo) =>
        var joined := PathnameJoin(repo, s.preprocessorConfig.value[attr]);
        r == if joined.Ok? then Ok(Some(joined.value)) else Err(joined.error)
  {
    match s.preprocessorConfig
    case None => Err(ProgrammerMistake(MissingConfigMessage))
    case Some(config) =>
      if attr !in config then Ok(None)
      else
        match PathToRepository(s)
        case Err(e) => Err(e)
        case Ok(repo) =>
          match PathnameJoin(repo, config[attr])
          case Err(e) => Err(e)
          case Ok(p) => Ok(Some(p))
  }

  /** The lookup raises a ProgrammerMistake exactly for a section that does not require preprocessing. */
  lemma ProgrammerMistakeIffNoPreprocessing(s: Section, attr: string)
    ensures (PathToPreprocessorAttribute(s, attr).Err? && PathToPreprocessorAttribute(s, attr).error.ProgrammerMistake?)
      <==> !RequiresPreprocessing(s)
  {
  }

  /**
   * Without a repository path, a configured path that starts with a name
   * comes back unchanged, and so does an absolute one whatever the
   * repository path.
   */
  lemma PreprocessorPathWithoutRepository(s: Section, attr: string)
    requires s.preprocessorConfig != None && attr in s.preprocessorConfig.value
    requires '\0' !in s.preprocessorConfig.value[attr]
    requires (s.pathToRepository == None && StartsWithName(s.preprocessorConfig.value[attr]))
      || (IsAbsolute(s.preprocessorConfig.value[attr]) && (s.pathToRepository == None || '\0' !in s.pathToRepository.value))
    ensures PathToPreprocessorAttribute(s, attr) == Ok(Some(s.preprocessorConfig.value[attr]))
  {
    if s.pathToRepository == None && StartsWithName(s.preprocessorConfig.value[attr]) {
      PathnameJoinOntoEmpty(s.preprocessorConfig.value[attr]);
    }
  }

  /**
   * Without a repository path, a configured `./name` comes back as `name`:
   * `Pathname("").join("./foo")` is `foo`, since `+` drops the `.`.
   */
  lemma PreprocessorPathOfCurrentDir(s: Section, attr: string, name: string)
    requires s.pathToRepository == None
    requires s.preprocessorConfig != None && attr in s.preprocessorConfig.value
    requires s.preprocessorConfig.value[attr] == "./" + name
    requires IsName(name) && '\0' !in name
    ensures PathToPreprocessorAttribute(s, attr) == Ok(Some(name))
  {
    assert NameEnd(name, 0) == |name| && name[..|name|] == name;
    PathnameJoinOntoEmpty(name);
    PathnameJoinDropsCurrentDir("", name);
  }
}
