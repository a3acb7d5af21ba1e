# Bookbinder: local filesystem accessor and section values

Bookbinder binds the documentation of several repositories ("sections")
into one book. This project models two parts of its library in Dafny and
proves what they promise.

- `LocalFilesystemAccessor` is the object through which Bookbinder touches
  the disk. The model covers:
  - the extension-agnostic lookup: the stem cut from a logical path, the
    `find -path` pattern built from it, and the reading back of `find`'s
    output;
  - the recursive listing that drops hidden paths and directories;
  - the target paths of `rename_file` and `copy_including_intermediate_dirs`;
  - `write`, `read`, `file_exist?`, `make_directory`, `copy_contents` and
    `rename_file`, as methods of a `Filesystem` class. The class holds a map
    from file paths to contents and a set of directory paths.
- `Section` is the struct describing one section. The model covers its
  helpers: `requires_preprocessing?`, `path_to_repository`,
  `subnav_template`, `subnav` and `path_to_preprocessor_attribute`.

The Ruby library behaviour these rely on is modelled in its own modules:
- `RubyStrings`: `split`, `lines`, `chomp`, `gsub` of one character, and the
  leftmost match `sub` replaces.
- `RubyPaths`: `File.join`, `File.dirname` and `File.expand_path`.
- `RubyPathname`: `Pathname.new` and `Pathname#join` with one argument,
  through the component loop of `Pathname#+`. The `.` components at the
  start of the argument (before its first name, between its leading `..`s
  too) vanish, and its leading `..` components cancel names of the base.
  From the first name on, the argument is kept as it is
  (`Pathname("x") + "a/./b"` is `x/a/./b`).
- `Glob`: the `*` wildcard of `find -path`.
- `Seqs`: order-preserving filtering.
- `Errors`: the exceptions raised.

Files: `wrappers.dfy`, `errors.dfy`, `seqs.dfy`, `ruby_strings.dfy`,
`glob.dfy`, `ruby_paths.dfy`, `ruby_pathname.dfy`,
`local_filesystem_accessor.dfy` and
`section.dfy`. Verify them together with `dafny verify *.dfy`.

## Model

| member | source | states |
|---|---|---|
| LocalFilesystemAccessor.ExtensionlessPattern | lib/bookbinder/local_filesystem_accessor.rb:85 | the stem is a prefix of the pattern and contains no `.` |
| LocalFilesystemAccessor.ExtensionlessPatternIsPrefixBeforeFirstDot | lib/bookbinder/local_filesystem_accessor.rb:85 | the stem is the part of the whole string before its first `.`; `split('.')` is empty (so `.first` is nil, interpolated as "") exactly for an empty or all-dot pattern |
| LocalFilesystemAccessor.ExtensionlessPatternIdempotent | lib/bookbinder/local_filesystem_accessor.rb:85 | cutting the stem of a stem returns it unchanged |
| LocalFilesystemAccessor.ExtensionlessPatternCutsAtFirstDot | lib/bookbinder/local_filesystem_accessor.rb:85 | the cut is at the first dot of the whole path, so a dot in a directory name truncates there (`a/di.r/foo.html` gives `a/di`) |
| LocalFilesystemAccessor.LiteralStarAt | lib/bookbinder/local_filesystem_accessor.rb:87 | a literal followed by `*` matches the rest of a path from `k` exactly when the literal occurs at `k` |
| LocalFilesystemAccessor.StarLiteralStar | lib/bookbinder/local_filesystem_accessor.rb:87 | `*` + literal + `*` matches exactly the paths that contain the literal |
| LocalFilesystemAccessor.SearchPattern | lib/bookbinder/local_filesystem_accessor.rb:87 | for a stem without `*`, a path matches the `-path` pattern `*/stem.*` exactly when it contains `/`, the stem and a `.` in a row |
| LocalFilesystemAccessor.OccurrenceInDirOrName | lib/bookbinder/local_filesystem_accessor.rb:87 | an occurrence of `/stem.` in `dir/name` lies inside `dir` or at the `/` before `name` |
| LocalFilesystemAccessor.SearchPatternInDirectory | lib/bookbinder/local_filesystem_accessor.rb:87 | for a file in a directory, a match means the file name starts with stem + `.` or the directory path itself contains `/stem.` |
| LocalFilesystemAccessor.SearchPatternInCurrentDirectory | lib/bookbinder/local_filesystem_accessor.rb:87 | below `.`, a file matches exactly when its name starts with stem + `.` |
| LocalFilesystemAccessor.StemFindsAnyExtension | lib/bookbinder/local_filesystem_accessor.rb:85-87 | `foo` finds `foo.` followed by any extension, one or several |
| LocalFilesystemAccessor.StemNeedsDotAfterIt | lib/bookbinder/local_filesystem_accessor.rb:85-87 | `foo` never finds a name that continues the stem with anything but `.` (`food.html`) |
| LocalFilesystemAccessor.FindFilesExtensionAgnostically | lib/bookbinder/local_filesystem_accessor.rb:84-91 | for a pattern without `*` or `'` and paths that print as one line each, the result is exactly the visited paths containing `/stem.`, in walk order |
| LocalFilesystemAccessor.IsHidden | lib/bookbinder/local_filesystem_accessor.rb:80 | a path is hidden exactly when some `/` in it is directly followed by a `.` |
| LocalFilesystemAccessor.SlashDotAt | lib/bookbinder/local_filesystem_accessor.rb:80 | `/.` occurs in a path exactly where a `/` is directly followed by a `.` |
| LocalFilesystemAccessor.FindFilesRecursively | lib/bookbinder/local_filesystem_accessor.rb:75-82 | the result is the output lines, in order, that are neither hidden nor directories; a path is in it exactly when it is such a line |
| LocalFilesystemAccessor.FindFilesRecursivelyOfWalk | lib/bookbinder/local_filesystem_accessor.rb:76-81 | for the paths `find` prints, the lines read back are those paths, filtered the same way |
| LocalFilesystemAccessor.RenameTarget | lib/bookbinder/local_filesystem_accessor.rb:61 | the target is absolute, free of empty, `.` and `..` components, and expanding it again changes nothing |
| LocalFilesystemAccessor.ResolveAppend | lib/bookbinder/local_filesystem_accessor.rb:61 | resolving two lists of components one after the other is resolving their concatenation |
| LocalFilesystemAccessor.ExpandAbsolutePath | lib/bookbinder/local_filesystem_accessor.rb:61 | expanding an absolute path of `/`-free components resolves those components from the root |
| LocalFilesystemAccessor.PlainAppend | lib/bookbinder/local_filesystem_accessor.rb:61 | appending `/` and a component that does not end in `/` to a plain path keeps it plain |
| LocalFilesystemAccessor.JoinUpThenName | lib/bookbinder/local_filesystem_accessor.rb:61 | `File.join(File.join(path, '..'), name)` is `path/../name` |
| LocalFilesystemAccessor.RenameJoin | lib/bookbinder/local_filesystem_accessor.rb:61 | `File.join(path, '..', new_name)` on an absolute path of names is that path with `..` and the new name appended |
| LocalFilesystemAccessor.ResolveSibling | lib/bookbinder/local_filesystem_accessor.rb:61 | expanding names, then `..`, then a name replaces the last name by the new one |
| LocalFilesystemAccessor.AbsolutePathIsPlain | lib/bookbinder/local_filesystem_accessor.rb:61 | an absolute path of at least one name joins cleanly |
| LocalFilesystemAccessor.JoinAbsolutePath | lib/bookbinder/local_filesystem_accessor.rb:61 | joining a name onto an absolute path of names gives the absolute path of the longer list |
| LocalFilesystemAccessor.DirnameJoinSibling | lib/bookbinder/local_filesystem_accessor.rb:61 | joining a new name onto the directory of an absolute path of names replaces its last name |
| LocalFilesystemAccessor.RenameTargetSameDirectory | lib/bookbinder/local_filesystem_accessor.rb:60-63 | the expanded `path/../new_name` of an absolute path is `new_name` in the directory of `path` |
| LocalFilesystemAccessor.SiblingComponentsSlashFree | lib/bookbinder/local_filesystem_accessor.rb:61 | the components of `path/../new_name` hold no `/` |
| LocalFilesystemAccessor.IntermediateDirsDestination | lib/bookbinder/local_filesystem_accessor.rb:49-53 | never empty; for a plain `dest` and a relative path, `dest` is a prefix of the directory the file is copied into |
| LocalFilesystemAccessor.IntermediateDirsKeepLayout | lib/bookbinder/local_filesystem_accessor.rb:49-53 | the copy goes into `dest` joined with the directories of the relative path, where the file lands at `dest` joined with the relative path |
| LocalFilesystemAccessor.NestedComponents | lib/bookbinder/local_filesystem_accessor.rb:50-51 | a path of two or more names is its directories joined with its last name |
| LocalFilesystemAccessor.SplitLastComponent | lib/bookbinder/local_filesystem_accessor.rb:50-51 | the joined names split at the last `/` into the leading names and the last one |
| LocalFilesystemAccessor.NestedDestination | lib/bookbinder/local_filesystem_accessor.rb:50-51 | a file at `dirs/name` below `root` is copied into `dest/dirs` |
| LocalFilesystemAccessor.MkdirTargets | lib/bookbinder/local_filesystem_accessor.rb:35-37 | `mkdir_p` makes exactly the path itself and each of its non-empty prefixes that ends before a `/` |
| LocalFilesystemAccessor.BlockedFrom | lib/bookbinder/local_filesystem_accessor.rb:36 | from a given length on, the shortest `mkdir_p` target a file stands on, or none when there is none |
| LocalFilesystemAccessor.MkdirError | lib/bookbinder/local_filesystem_accessor.rb:36 | `mkdir_p` raises exactly for a NUL byte (ArgumentError), the empty path (ENOENT), or a file on one of its targets, and then EEXIST for the shortest such target, where its top-down `mkdir` first fails |
| LocalFilesystemAccessor.Below | lib/bookbinder/local_filesystem_accessor.rb:44-47 | exactly the paths of the set that lie strictly below the root directory |
| LocalFilesystemAccessor.Relocated | lib/bookbinder/local_filesystem_accessor.rb:44-47 | copying `src/.` into `dest` puts each entry below `src` at the same relative place below `dest`, with the same contents, and adds nothing else |
| LocalFilesystemAccessor.RelocatedDirs | lib/bookbinder/local_filesystem_accessor.rb:44-47 | the directories below `src` reappear below `dest` and no others are made |
| LocalFilesystemAccessor.CopyClashes | lib/bookbinder/local_filesystem_accessor.rb:41 | exactly the places where `cp_r` would put a file onto a directory or make a directory where a file stands |
| LocalFilesystemAccessor.CopiedTreeDisjoint | lib/bookbinder/local_filesystem_accessor.rb:44-47 | a copy without clashes leaves no path both a file and a directory |
| LocalFilesystemAccessor.MovedFiles | lib/bookbinder/local_filesystem_accessor.rb:62 | after a directory moves, files outside it stay with their contents and files below it reappear below the target with theirs, and nothing else |
| LocalFilesystemAccessor.MovedDirs | lib/bookbinder/local_filesystem_accessor.rb:62 | after a directory moves, the directories outside it stay, the target is one, and those below it reappear below the target |
| LocalFilesystemAccessor.MovedTreeDisjoint | lib/bookbinder/local_filesystem_accessor.rb:62 | moving a directory onto a fresh or empty place keeps files and directories apart |
| LocalFilesystemAccessor.Filesystem.constructor | lib/bookbinder/local_filesystem_accessor.rb:8 | a filesystem whose paths are non-empty and never both a file and a directory |
| LocalFilesystemAccessor.Filesystem.FileExist | lib/bookbinder/local_filesystem_accessor.rb:9-11 | true exactly for an existing file or directory, never for the empty path; a NUL byte in the path raises ArgumentError |
| LocalFilesystemAccessor.Filesystem.Read | lib/bookbinder/local_filesystem_accessor.rb:23-25 | returns the contents of an existing file; raises ArgumentError for a NUL byte, EISDIR for a directory and ENOENT for a missing path |
| LocalFilesystemAccessor.Filesystem.MakeDirectory | lib/bookbinder/local_filesystem_accessor.rb:35-37 | fails exactly when `MkdirError` names an exception, with that exception, changing nothing; otherwise adds the path and its prefixes as directories; files are untouched |
| LocalFilesystemAccessor.Filesystem.Write | lib/bookbinder/local_filesystem_accessor.rb:13-21 | a NUL byte in `to` raises first; then the parent directories are made (a `mkdir_p` failure is passed on, changing nothing); then `text` is appended after the previous contents (or to an empty file) and `to` returned, except that the empty path raises ENOENT, a directory EISDIR, and a path ending in `/` EISDIR (ENOTDIR when a file stands there), with the parents made and no file written |
| LocalFilesystemAccessor.ChildPath | lib/bookbinder/local_filesystem_accessor.rb:13-21 | a name below a plain directory has no NUL byte or trailing `/`, and is not one of the directories `mkdir_p` makes for its parent |
| LocalFilesystemAccessor.Filesystem.CopyContents | lib/bookbinder/local_filesystem_accessor.rb:44-47 | a NUL byte in `src` raises; a missing source directory raises ProgrammerMistake with the source's message; a `mkdir_p` failure on `dest` is passed on; each changes nothing. With `dest` made, `src` onto itself raises "same file"; otherwise the outcome of `CopyTree` |
| LocalFilesystemAccessor.Filesystem.CopyTree | lib/bookbinder/local_filesystem_accessor.rb:41 | `cp_r "src/.", dest`: copies everything below `src` to the same place below `dest` exactly when nothing clashes; a clash raises EISDIR or EEXIST for a clashing path and changes nothing |
| LocalFilesystemAccessor.Filesystem.MoveFile | lib/bookbinder/local_filesystem_accessor.rb:62 | a file moves onto the target, replacing a file there; a directory there raises EISDIR and changes nothing |
| LocalFilesystemAccessor.Filesystem.MoveDirectory | lib/bookbinder/local_filesystem_accessor.rb:62 | a directory moves with everything below it; a file at the target raises ENOTDIR, a target below the directory EINVAL, a target directory with entries ENOTEMPTY, each changing nothing |
| LocalFilesystemAccessor.Filesystem.RenameFile | lib/bookbinder/local_filesystem_accessor.rb:60-63 | a NUL byte in `path`, then in `new_name`, raises ArgumentError; a missing path raises ENOENT; otherwise renames the file or directory to the expanded `path/../new_name` with the outcomes of `MoveFile` and `MoveDirectory`; every failure changes nothing |
| RubyStrings.Split | lib/bookbinder/local_filesystem_accessor.rb:85 | the fields hold no separator, the last is non-empty, and joined again they give the string up to a trailing run of separators |
| RubyStrings.DropTrailingEmptyJoin | lib/bookbinder/local_filesystem_accessor.rb:85 | dropping trailing empty fields only cuts separators off the end of the joined string |
| RubyStrings.FirstFieldIsPrefix | lib/bookbinder/local_filesystem_accessor.rb:85 | the first field is the part before the first separator |
| RubyStrings.SplitFirst | lib/bookbinder/local_filesystem_accessor.rb:85 | `split(sep)` is empty exactly for a string of separators only; otherwise its first field is the part before the first separator |
| RubyStrings.JoinWithSnoc | lib/bookbinder/local_filesystem_accessor.rb:85 | joining one more field appends the separator and the field |
| RubyStrings.Lines | lib/bookbinder/local_filesystem_accessor.rb:77 | the lines concatenate back to the output; each but the last ends in a newline, none holds an inner one |
| RubyStrings.Chomp | lib/bookbinder/local_filesystem_accessor.rb:78 | keeps a prefix and drops exactly one of "", "\n", "\r", "\r\n"; a trailing "\r\n" goes whole, and any trailing newline or carriage return is removed |
| RubyStrings.ParseUnlines | lib/bookbinder/local_filesystem_accessor.rb:76-78 | reading back printed lines with `lines` and `chomp` returns them |
| RubyStrings.Leftmost | lib/bookbinder/values/section.rb:21 | the first position from `from` where the match holds, or none when it holds nowhere |
| RubyStrings.ReplaceChar | lib/bookbinder/values/section.rb:29 | every occurrence of the character is replaced and nothing else changes; none is left when the two differ |
| RubyPaths.TrimTrailingSeps | lib/bookbinder/local_filesystem_accessor.rb:14 | a prefix of the path that does not end in `/`, with only separators cut off |
| RubyPaths.Join | lib/bookbinder/local_filesystem_accessor.rb:61 | the first part without trailing separators, then separators only, then the second part |
| RubyPaths.Dirname | lib/bookbinder/local_filesystem_accessor.rb:14 | never empty; "." or a slice of the path that starts at its (collapsed) root |
| RubyPaths.DirnameChars | lib/bookbinder/local_filesystem_accessor.rb:14 | `File.dirname` introduces no character but the `.` of "."; so a path without NUL has a directory without NUL |
| RubyPaths.DirnameOfJoin | lib/bookbinder/local_filesystem_accessor.rb:14 | `File.dirname(File.join(dir, name))` is `dir` for a plain directory path and a name |
| RubyPaths.DirnameOfJoinedRelative | lib/bookbinder/local_filesystem_accessor.rb:51 | the directory of a relative path joined onto a plain path starts with that path |
| RubyPaths.ExpandPath | lib/bookbinder/local_filesystem_accessor.rb:61 | the result is absolute, with no empty, `.` or `..` component |
| RubyPaths.ExpandPathIdempotent | lib/bookbinder/local_filesystem_accessor.rb:61 | expanding an expanded path changes nothing |
| RubyPaths.ResolveKeepsNames | lib/bookbinder/local_filesystem_accessor.rb:61 | resolving components onto names leaves names only |
| RubyPaths.AbsolutePathIsExpanded | lib/bookbinder/local_filesystem_accessor.rb:61 | the absolute path of names is in expanded form |
| RubyPaths.DirnameOfAbsolute | lib/bookbinder/local_filesystem_accessor.rb:61 | the directory of an absolute path of names is the path of all names but the last (`/` for one name), and that path joins cleanly |
| Glob.Match | lib/bookbinder/local_filesystem_accessor.rb:87 | a pattern without `*` matches exactly itself |
| Glob.MatchLiteral | lib/bookbinder/local_filesystem_accessor.rb:87 | a wildcard-free start of a pattern is matched character by character |
| Glob.MatchStar | lib/bookbinder/local_filesystem_accessor.rb:87 | a leading `*` in a `-path` pattern matches any prefix, `/` included |
| Seqs.Filter | lib/bookbinder/local_filesystem_accessor.rb:80-81 | `reject` keeps exactly the other elements, in order, each as often as before |
| Seqs.FilterFilter | lib/bookbinder/local_filesystem_accessor.rb:80-81 | two `reject`s in a row are one filter on both conditions |
| Seqs.FilterSame | lib/bookbinder/local_filesystem_accessor.rb:87-90 | filters that agree on every element keep the same elements |
| RubyPathname.New | lib/bookbinder/values/section.rb:17 | a Pathname is any string without a NUL character; one with it raises |
| RubyPathname.AfterLastSep | lib/bookbinder/values/section.rb:35 | the index after the last separator, with none after it |
| RubyPathname.TrimmedHasName | lib/bookbinder/values/section.rb:35 | a path with a name keeps a name at its end once trailing separators go |
| RubyPathname.ChopBasename | lib/bookbinder/values/section.rb:35 | none exactly for a path of separators only; otherwise a non-empty last component without `/`, after a prefix that is empty or ends in `/`, followed only by separators |
| RubyPathname.NameEnd | lib/bookbinder/values/section.rb:35 | the end of the name that starts at an index: no separator before it, a separator or the end at it |
| RubyPathname.ComponentsFrom | lib/bookbinder/values/section.rb:35 | each component lies inside the path and has a non-empty name |
| RubyPathname.DropLeading | lib/bookbinder/values/section.rb:35 | keeps only components of the list, and does not start with the name |
| RubyPathname.PlusLoop | lib/bookbinder/values/section.rb:35 | the argument components the loop leaves are components of the argument |
| RubyPathname.PathnameJoin | lib/bookbinder/values/section.rb:35 | succeeds exactly for an argument without NUL; an absolute argument replaces the base; otherwise the result of `+` |
| RubyPathname.FirstComponent | lib/bookbinder/values/section.rb:35 | a relative path starts with the component at index 0 |
| RubyPathname.PlusOfNames | lib/bookbinder/values/section.rb:35 | `+` of a base ending in a name and an argument starting with one is `File.join` of the trimmed base and the argument |
| RubyPathname.TrimOfNamePrefix | lib/bookbinder/values/section.rb:35 | a path trims to its separator-free start when only separators follow |
| RubyPathname.PathnameJoinOfNames | lib/bookbinder/values/section.rb:35 | `join` of an argument starting with a name onto a plain base ending in one is `File.join` |
| RubyPathname.PathnameJoinChild | lib/bookbinder/values/section.rb:35 | joining a name onto a plain path is `File.join`, and `File.dirname` takes it off again |
| RubyPathname.PathnameJoinOntoEmpty | lib/bookbinder/values/section.rb:16-17 | onto the empty path, an argument starting with a name is kept as it is |
| RubyPathname.NameEndShift | lib/bookbinder/values/section.rb:35 | names end at the same place after a prefix is put in front |
| RubyPathname.ComponentsShift | lib/bookbinder/values/section.rb:35 | the components after a prefix are those of the rest, moved by its length |
| RubyPathname.NameShift | lib/bookbinder/values/section.rb:35 | the same where a name starts |
| RubyPathname.DropLeadingShift | lib/bookbinder/values/section.rb:35 | dropping leading names commutes with moving the components |
| RubyPathname.PlusLoopShift | lib/bookbinder/values/section.rb:35 | the loop of `+` depends only on the names of the components, not their places |
| RubyPathname.RemainderShift | lib/bookbinder/values/section.rb:35 | what is left of the argument is the same with a prefix in front that the loop has consumed |
| RubyPathname.CurrentDirComponents | lib/bookbinder/values/section.rb:35 | the components of `./b` are `.` and those of `b` |
| RubyPathname.ParentDirComponents | lib/bookbinder/values/section.rb:35 | the components of `../b` are `..` and those of `b` |
| RubyPathname.PlusDropsCurrentDir | lib/bookbinder/values/section.rb:35 | `+` gives the same for `./b` as for `b` |
| RubyPathname.PathnameJoinDropsCurrentDir | lib/bookbinder/values/section.rb:35 | a leading `./` of the argument makes no difference to `join` |
| RubyPathname.PlusFoldsParent | lib/bookbinder/values/section.rb:35 | a leading `../` of the argument cancels the last name of the base |
| RubyPathname.PathnameJoinFoldsParent | lib/bookbinder/values/section.rb:35 | `join(base, "../b")` is `join` of the base without its last name and `b` |
| Section.RequiresPreprocessing | lib/bookbinder/values/section.rb:12-14 | true exactly when there is a preprocessor configuration |
| Section.PathToRepository | lib/bookbinder/values/section.rb:16-18 | never nil: a nil repository path becomes the empty path; a path with a NUL raises |
| Section.StripLineStartUnderscore | lib/bookbinder/values/section.rb:21 | `sub(/^_/, '')` removes at most one character |
| Section.StripLineEndErb | lib/bookbinder/values/section.rb:21 | `sub(/\.erb$/, '')` removes at most four characters |
| Section.SubnavTemplate | lib/bookbinder/values/section.rb:20-22 | nil exactly when the stored template is nil; otherwise at most five characters shorter |
| Section.StripUnderscoreSingleLine | lib/bookbinder/values/section.rb:21 | on one line, `^_` removes the leading underscore if there is one, and nothing else |
| Section.StripErbSingleLine | lib/bookbinder/values/section.rb:21 | on one line, `\.erb$` removes a trailing ".erb" if there is one, and nothing else |
| Section.SubnavTemplateSingleLine | lib/bookbinder/values/section.rb:21 | for a one-line name: at most one leading `_`, then at most one trailing `.erb`, are stripped |
| Section.SubnavTemplateOfPartial | lib/bookbinder/values/section.rb:21 | a partial's file name `_` + name + `.erb` gives the name: `_foo.erb` gives `foo`, `_.erb` the empty name |
| Section.SubnavTemplateOfPlainName | lib/bookbinder/values/section.rb:21 | a one-line name without a leading `_` or a trailing `.erb` is kept: `bar` stays `bar` |
| Section.Subnav | lib/bookbinder/values/section.rb:28-32 | exactly one entry; its key is the desired directory with every `/` turned into `_` (so it has no `/`); its value is the template, or "default" without one |
| Section.SubnavKeyOfPlainName | lib/bookbinder/values/section.rb:29 | a desired directory without `/` is its own key |
| Section.SubnavDefault | lib/bookbinder/values/section.rb:30 | the value is "default" only for a section without a template (or one named so) |
| Section.PathToPreprocessorAttribute | lib/bookbinder/values/section.rb:34-41 | no configuration raises ProgrammerMistake; a missing attribute gives nil; otherwise the repository path joined with the configured path |
| Section.ProgrammerMistakeIffNoPreprocessing | lib/bookbinder/values/section.rb:34-41 | the lookup raises ProgrammerMistake exactly for a section that does not require preprocessing |
| Section.PreprocessorPathWithoutRepository | lib/bookbinder/values/section.rb:34-35 | without a repository path a configured path starting with a name comes back unchanged, and an absolute one always does |
| Section.PreprocessorPathOfCurrentDir | lib/bookbinder/values/section.rb:34-35 | without a repository path a configured `./name` comes back as `name` |

## Left out

- The disk itself. `File`, `FileUtils`, `Dir` and `File.rename` are modelled by the abstract `Filesystem` (a path-to-contents map and a set of directories). Permissions, symbolic links, partial failures and aliasing between paths (`a/b` and `a//b` as one file) are not modelled.
- `empty_directory`, `remove_directory`, `copy`, `link_creating_intermediate_dirs` and `find_files_with_ext`: they only pass through to `FileUtils`, `File.symlink` or `Dir[]`, whose behaviour is not modelled. `copy` appears only inside `CopyContents`.
- `copy_including_intermediate_dirs`: only its target directory (`IntermediateDirsDestination`) is modelled; the copy itself is the unmodelled `copy`.
- `relative_path_from` and `File.absolute_path`: `Pathname#relative_path_from` is not modelled; its result is a parameter of `IntermediateDirsDestination`.
- The `find -L` processes: the walk is a parameter (the sequence of paths `find` visits, or its output text). `Pathname#directory?` is a parameter predicate. Symbolic-link following belongs to `find`.
- Glob.Match: models only `*` of `find -path`; `?`, `[...]` and backslash escapes in a pattern are not interpreted.
- LocalFilesystemAccessor.FindFilesExtensionAgnostically: the command line is not modelled as shell text. The stem goes into single quotes, so a `'` in the pattern would end the quoting; `directory` (and `from` in `find_files_recursively`) is interpolated unquoted, so spaces or shell characters in it would change the command. The model treats every character as literal, and its contract is stated only for a pattern without `*` or `'` and for paths without a newline or a trailing carriage return (such lines do not survive `lines` and `chomp` intact). A NUL byte in the command line (an ArgumentError from the backticks) is not modelled.
- RubyPaths.ExpandPath: lexical normalisation against a working-directory parameter; `~` expansion and drive letters are not modelled.
- LocalFilesystemAccessor.RenameTargetSameDirectory: proved for absolute paths made of names only; relative paths go through the working directory.
- RubyPathname.PathnameJoin: `Pathname#join` with one argument only (the section passes one). `Pathname#+` is modelled from its component loop; the lemmas cover arguments that start with a name, `./` or `../`, and the base cases `Section` meets. The Windows alternative separator and `Pathname#cleanpath` are not part of `+` on POSIX and are not modelled.
- LocalFilesystemAccessor.Filesystem.RenameFile: `File.rename` refuses a target whose parent directory is missing (ENOENT); the model does not check the target's parent, which only matters when `new_name` contains a `/`. Whether a target directory is empty is judged by the entries below it in the model.
- LocalFilesystemAccessor.Filesystem.MakeDirectory: `mkdir_p` walks up only to the deepest existing directory before making directories top-down; the model looks at every prefix. The two report the same EEXIST on any state a disk can hold (every prefix of an entry is a directory), which `Valid` does not require.
- LocalFilesystemAccessor.Filesystem.CopyContents: `cp_r` stops at the first clash with part of the tree already copied. The model fails before copying anything below `dest` (only `dest` itself is made), and it does not say which clash is reported first. `cp_r` compares source and destination as files on disk; the model raises "same file" when `src` and `dest` are the same string, and a destination strictly inside the source is not treated specially.
- Section.PathToPreprocessorAttribute: the configuration values are modelled as strings. A value of another type (a `TypeError` in `Pathname.new`) or `false` is not modelled. The ProgrammerMistake message keeps only its fixed first line; the inspected `NoMethodError` and its backtrace are runtime data.
- `desired_directory` builds an `Ingest::DestinationDirectory`; that class is not part of this model. `Subnav` takes the text it converts to as a parameter.
- `write(to: nil, text: nil)`: both keyword arguments are modelled as strings; the nil defaults (a `TypeError` for `to`, an empty append for `text`) are not.
