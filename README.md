# SGIT `clone`: where a clone lands

This project models the decision logic of the `clone` command of SGIT, a
command-line wrapper around git (`src/commands/clone.rs`). The model covers
three things:

- how `extract_repo_name` derives a short repository name from a URL;
- how `determine_repo_dir` picks the directory the clone lands in;
- which argument list `run_clone` passes to git, and the order in which it
  runs git, resolves the directory and changes into it.

Files:

- `rust_str.dfy` (module `RustStr`): the Rust `str` operations the command
  uses, over `seq<char>`. These are `starts_with`, `trim_end_matches` with
  a character and with a string pattern, and the first item of `rsplit`;
  an `EndsWith` predicate is used to state results. The two trimming
  operations and `rsplit` are defined through an index computed by recursion (how much is kept, or
  where the last separator is). For each of them a companion lemma states
  the shape of the result with an explicit offset: a prefix `s[..m]` or a
  tail `s[k..]`. `StartsWith` and `EndsWith` are one-line predicates.
- `paths.dfy` (module `Paths`): `Path::is_absolute` and `PathBuf::join`
  on Unix, with paths as strings.
- `clone.dfy` (module `Clone`): `ScpPiece`, `RepoPiece` and
  `ExtractRepoName` (`extract_repo_name`) with their shape lemmas, `DetermineRepoDir` (`determine_repo_dir`),
  `CloneArgs` (the `args` vector) and `RunClone` (`run_clone`).
- `clone_properties.dfy` (module `CloneProperties`): lemmas about these
  functions, plus the concrete cases.

Points worth noting about the code:

- `trim_end_matches` removes every trailing `/` and every trailing `.git`,
  not just one of each.
- `rsplit(..).next()` always yields an item, so `extract_repo_name` never
  fails. The fallback at clone.rs:67-70 and the error at clone.rs:71 can
  never be reached. The name can even be empty, for `""`, `"/"` or
  `"https://h/.git"`. `ExtractRepoName` is therefore total and returns a
  string.
- `PathBuf::join` does not add a `/` when the base is empty or already
  ends in `/`. So `/` joined with `x` gives `/x`, not `//x`.

`env::current_dir` is passed in as an `Option<string>`; `None` means the call
failed. `DetermineRepoDir` only looks at it on the paths where the code calls
it (clone.rs:36 and :41), so an absolute override still succeeds when the
current directory cannot be read. The exit status of git and the outcome of
`env::set_current_dir` are passed to `RunClone` as booleans.

## Model

| member | source | states |
|---|---|---|
| RustStr.TrimEndChar | src/commands/clone.rs:46 | its own contract only bounds the length (`|r| <= |s|`); its meaning is carried by `TrimEndCharSpec` |
| RustStr.TrimEndCharSpec | src/commands/clone.rs:46 | `trim_end_matches('/')` keeps a prefix `s[..m]` that is empty or does not end in the character, and everything cut off is that character |
| RustStr.TrimEndCharDecompose | src/commands/clone.rs:46 | what `trim_end_matches('/')` removes is a run of slashes: the input is the result followed by some number of them |
| RustStr.TrimEndCharNoop | src/commands/clone.rs:46 | a URL that does not end in `/` is left unchanged |
| RustStr.TrimEndCharAppend | src/commands/clone.rs:46 | characters appended after a string are all removed again when they are all the trimmed character |
| RustStr.TrimEndMatches | src/commands/clone.rs:52 | its own contract only bounds the length (`|r| <= |s|`); its meaning is carried by `TrimEndMatchesSpec` and `TrimEndMatchesDecompose`; the same call is at lines 56, 60 and 64 |
| RustStr.TrimEndMatchesSpec | src/commands/clone.rs:52 | `trim_end_matches(".git")` keeps a prefix `s[..m]` that, for a non-empty pattern, no longer ends in the pattern |
| RustStr.TrimEndMatchesDecompose | src/commands/clone.rs:52 | what `trim_end_matches(".git")` removes is a whole number of copies of the pattern |
| RustStr.TrimEndMatchesNoop | src/commands/clone.rs:52 | a piece that does not end in `.git` is left unchanged |
| RustStr.TrimEndMatchesAppend | src/commands/clone.rs:52 | one more trailing copy of the pattern makes no difference |
| RustStr.RSplitLast | src/commands/clone.rs:49-51 | its own contract only bounds the length (`|r| <= |s|`); its meaning is carried by `RSplitLastSpec`; the same call is at lines 54, 58 and 62 |
| RustStr.RSplitLastSpec | src/commands/clone.rs:49-51 | the first item of `rsplit(c)` always exists; it is a tail `s[k..]` free of `c`, and it is the whole string or is preceded by `c` |
| RustStr.RSplitLastAfter | src/commands/clone.rs:49-51 | for `s + [c] + t` with `t` free of `c`, the first item of `rsplit(c)` is `t` |
| RustStr.RSplitLastAppend | src/commands/clone.rs:49-51 | text free of `c` appended to a string is appended to the first item of `rsplit(c)` |
| RustStr.StartsWithPointwise | src/commands/clone.rs:48 | `starts_with` holds exactly when the pattern is no longer than the string and matches its head character by character (used at lines 48, 53 and 57) |
| Clone.ScpPiece | src/commands/clone.rs:48-51 | its own contract only bounds the length (`|piece| <= |u|`); its meaning is carried by `ScpPieceSpec` |
| Clone.ScpPieceSpec | src/commands/clone.rs:48-51 | for a `git@` URL the piece after the last `:` and then after the last `/` is a tail of the URL with neither character, preceded by one of them unless it is the whole URL |
| Clone.RepoPiece | src/commands/clone.rs:48-65 | its own contract only bounds the length (`|piece| <= |u|`); its meaning is carried by `RepoPieceSpec` |
| Clone.RepoPieceSpec | src/commands/clone.rs:48-65 | the piece chosen by prefix dispatch is a tail of the trimmed URL, holds no `/` (and no `:` for `git@` URLs), and is preceded by `/` or, for `git@` URLs, `:`, unless it is the whole URL |
| Clone.ExtractRepoName | src/commands/clone.rs:45-72 | total (no precondition, no failure case); its own contract bounds the name's length by the URL's; its meaning is carried by `ExtractRepoNameShape` and `CloneProperties.ExtractRepoNameSplitsUrl` |
| Clone.ExtractRepoNameShape | src/commands/clone.rs:45-72 | for every URL (the function has no failure case) the name never holds `/` and never ends in `.git` |
| CloneProperties.PieceOfLastSegment | src/commands/clone.rs:53-64 | the `https://`, `http://`, `ssh://` and fallback branches all keep the last `/`-piece: for a URL `pre/last` not starting with `git@`, with `last` free of `/`, the chosen piece is `last` |
| CloneProperties.ScpNameHasNoColon | src/commands/clone.rs:48-52 | for a URL starting with `git@` the name holds no `:` |
| CloneProperties.TrailingSlashesIgnored | src/commands/clone.rs:46 | appending any number of `/` to a URL leaves its name unchanged |
| CloneProperties.RepoPieceAppendGit | src/commands/clone.rs:48-65 | appending `.git` to a trimmed URL appends it to the chosen piece, in every branch |
| CloneProperties.GitSuffixIgnored | src/commands/clone.rs:46-65 | for a URL that does not end in `/`, appending `.git` leaves its name unchanged |
| CloneProperties.RepoPieceSplits | src/commands/clone.rs:48-65 | the trimmed URL is a head followed by the chosen piece, and the head is empty or ends in `/` (or `:` for `git@`) |
| CloneProperties.ExtractRepoNameSplitsUrl | src/commands/clone.rs:45-65 | every URL is a head ending in `/` (or `:` for `git@`), then the name, then copies of `.git`, then slashes, and the part before the slashes does not end in `/` |
| CloneProperties.NameOfLastPiece | src/commands/clone.rs:53-64 | a URL `pre/last` not starting with `git@`, with `last` non-empty and free of `/`, is named `last` with its trailing `.git` copies removed, whatever the length of `pre` |
| CloneProperties.ShortPathExample | src/commands/clone.rs:61-64 | `ab/c.git` gives `c` |
| CloneProperties.ScpNameOfLastPiece | src/commands/clone.rs:48-52 | a `git@` URL `pre:dir/last`, with `dir` free of `:` and `last` free of `:` and `/`, is named `last` with its trailing `.git` copies removed |
| CloneProperties.GitStem | src/commands/clone.rs:52 | one `.git` after a stem that does not itself end in `.git` is removed, giving the stem back |
| CloneProperties.ScpExample | src/commands/clone.rs:48-52 | `git@host:group/project.git` gives `project` |
| CloneProperties.HttpsExample | src/commands/clone.rs:53-56 | `https://host/group/project` gives `project` |
| CloneProperties.SshExample | src/commands/clone.rs:57-60 | `ssh://host/group/project.git` gives `project` |
| CloneProperties.BarePathExample | src/commands/clone.rs:61-64 | `group/project/` gives `project` |
| CloneProperties.RepeatedGitExample | src/commands/clone.rs:52-56 | `https://h/a.git.git` gives `a`, since every trailing `.git` is removed |
| CloneProperties.EmptyNames | src/commands/clone.rs:46-71 | `""` and `"/"` give the empty name rather than an error |
| CloneProperties.EmptyNameAfterGitOnly | src/commands/clone.rs:53-71 | `https://h/.git` gives the empty name rather than an error |
| Paths.IsAbsolute | src/commands/clone.rs:33 | `is_absolute` on Unix: the path is absolute exactly when it starts with `/` |
| Paths.Join | src/commands/clone.rs:37 | an absolute path replaces the base; otherwise the result is the base, one `/` unless the base is empty or ends in `/`, and the path; joining onto an absolute base gives an absolute path |
| Clone.DetermineRepoDir | src/commands/clone.rs:30-43 | an absolute override is returned verbatim whatever the URL and current directory; a relative override gives the current directory joined with it; no override gives the current directory joined with the repository name; the result is an error exactly when the current directory is unavailable and there is no absolute override, and that error is `NoCurrentDir` |
| CloneProperties.TargetDirIsAbsolute | src/commands/clone.rs:30-43 | with an absolute current directory the target always exists and is absolute |
| CloneProperties.RelativeOverrideUnderCwd | src/commands/clone.rs:36-37 | a relative override gives the join of the current directory and the override, which starts with the former and ends with the latter |
| CloneProperties.DefaultDirIsNamedAfterRepo | src/commands/clone.rs:40-42 | without an override the target is exactly the current directory joined with the repository name; it starts with the current directory, and the text after its last `/` is exactly the name |
| CloneProperties.JoinedNameIsLastPiece | src/commands/clone.rs:42 | joining a name free of `/` onto a directory gives a path that starts with the directory and whose text after the last `/` is the name |
| CloneProperties.NameIsRelative | src/commands/clone.rs:40-42 | `is_absolute` is false for every derived name, so `cwd.join` never replaces the current directory and without an override the clone always lands under it |
| CloneProperties.OverrideExamples | src/commands/clone.rs:31-37 | `x` under `/home/u` gives `/home/u/x`; `/srv/x` is kept even without a current directory; with neither override nor current directory the result is `NoCurrentDir` |
| CloneProperties.DefaultDirExample | src/commands/clone.rs:40-42 | `git@host:group/project.git` under `/home/u` gives `/home/u/project` |
| Clone.CloneArgs | src/commands/clone.rs:11-16 | the git arguments are `clone`, then the URL unchanged, then the directory if and only if one was given (so 2 or 3 of them) |
| Clone.RunClone | src/commands/clone.rs:8-28 | git is run with those arguments; a git failure is returned before anything else; otherwise the result is the error of `determine_repo_dir`, a failure to change directory, or the new working directory |

## Left out

- `println!` output in `run_clone` (clone.rs:9, 25) and the error message texts: console output that does not affect any decision.
- Running git (`run_git_silent`), `env::current_dir` and `env::set_current_dir`: process and filesystem I/O. Their outcomes are parameters of `RunClone` and `DetermineRepoDir`.
- `src/commands/update.rs`: this file only runs `curl` and `sh` as subprocesses. Its one pure step, prefixing `v` to a requested version (update.rs:31-36), is not modelled.
- Windows path prefixes, `..` handling and other platform path rules: paths are modelled as Unix strings.
- UTF-8 encoding: strings are sequences of characters. Every pattern the command looks for is ASCII, so this does not change any result.
