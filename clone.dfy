/** The `clone` command: where a clone lands and which arguments go to the
    external git process. Reading and changing the working directory and
    running git are I/O; the model receives their outcomes as parameters. */
module Clone {
  import opened RustStr
  import opened Paths

  datatype Option<T> = None | Some(value: T)

  /** The failures `run_clone` can report. */
  datatype CloneError =
    | GitFailed      // the git process reported failure
    | NoCurrentDir   // `env::current_dir` failed
    | ChdirFailed    // `env::set_current_dir` failed

  datatype Result<T> = Ok(value: T) | Err(error: CloneError)

  /** The `git@` branch of `extract_repo_name`: the last `/`-piece of the
      last `:`-piece. */
  function ScpPiece(u: string): (piece: string)
    ensures |piece| <= |u|
  {
    RSplitLast(RSplitLast(u, ':'), '/')
  }

  /** The `git@` piece is a tail `u[k..]` free of `/` and `:`, preceded by
      one of them unless it is the whole URL. */
  lemma ScpPieceSpec(u: string) returns (k: nat)
    ensures k <= |u| && ScpPiece(u) == u[k..]
    ensures '/' !in u[k..] && ':' !in u[k..]
    ensures k > 0 ==> u[k - 1] == '/' || u[k - 1] == ':'
  {
    var a := RSplitLast(u, ':');
    var k1 := RSplitLastSpec(u, ':');
    var k2 := RSplitLastSpec(a, '/');
    k := k1 + k2;
    DropDrop(u, k1, k2);
    NotInDrop(u[k1..], k2, ':');
    if k2 > 0 {
      assert a[k2 - 1] == u[k - 1];
    }
  }

  /** The prefix test and the piece selection of `extract_repo_name`, on the
      URL `u` already stripped of trailing `/`: the prefix picks the branch, and the piece kept is the
      last `/`-piece, taken after the last `:`-piece for a `git@` URL. The
      `https://`, `http://`, `ssh://` and fallback branches compute the same
      piece. */
  function RepoPiece(u: string): (piece: string)
    ensures |piece| <= |u|
  {
    if StartsWith(u, "git@") then ScpPiece(u)
    else if StartsWith(u, "https://") || StartsWith(u, "http://") then RSplitLast(u, '/')
    else if StartsWith(u, "ssh://") then RSplitLast(u, '/')
    else RSplitLast(u, '/')
  }

  /** The chosen piece is a tail `u[k..]` without `/` (nor `:` for a `git@`
      URL), preceded by `/`, or by `:` for a `git@` URL, unless it is the
      whole URL. */
  lemma RepoPieceSpec(u: string) returns (k: nat)
    ensures k <= |u| && RepoPiece(u) == u[k..]
    ensures '/' !in u[k..]
    ensures StartsWith(u, "git@") ==> ':' !in u[k..]
    ensures k > 0 ==> u[k - 1] == '/' || (StartsWith(u, "git@") && u[k - 1] == ':')
  {
    if StartsWith(u, "git@") {
      k := ScpPieceSpec(u);
    } else {
      k := RSplitLastSpec(u, '/');
    }
  }

  /** `extract_repo_name`: the short repository name of a URL. Every trailing
      `/` is dropped, the piece is chosen by `RepoPiece`, and every trailing
      `.git` is removed from it. The function has no failure case; the name
      may be empty. */
  function ExtractRepoName(url: string): (name: string)
    ensures |name| <= |url|
  {
    TrimEndMatches(RepoPiece(TrimEndChar(url, '/')), ".git")
  }

  /** The name never holds `/` and never ends in `.git`. */
  lemma ExtractRepoNameShape(url: string)
    ensures '/' !in ExtractRepoName(url)
    ensures !EndsWith(ExtractRepoName(url), ".git")
  {
    var u := TrimEndChar(url, '/');
    var k := RepoPieceSpec(u);
    var m := TrimEndMatchesSpec(u[k..], ".git");
    NotInTake(u[k..], m, '/');
  }

  /** `determine_repo_dir`, with the current directory passed in: `None`
      stands for `env::current_dir` failing. An absolute override is taken
      as it is, without consulting the current directory; a relative one,
      or the name derived from the URL, is joined onto it. */
  function DetermineRepoDir(url: string, directory: Option<string>, cwd: Option<string>)
    : (r: Result<string>)
    ensures directory.Some? && IsAbsolute(directory.value) ==> r == Ok(directory.value)
    ensures directory.Some? && !IsAbsolute(directory.value) && cwd.Some? ==>
      r == Ok(Join(cwd.value, directory.value))
    ensures directory.None? && cwd.Some? ==> r == Ok(Join(cwd.value, ExtractRepoName(url)))
    ensures r.Err? <==> (cwd.None? && !(directory.Some? && IsAbsolute(directory.value)))
    ensures r.Err? ==> r.error == NoCurrentDir
  {
    match directory
    case Some(dir) =>
      if IsAbsolute(dir) then Ok(dir)
      else (match cwd
            case None => Err(NoCurrentDir)
            case Some(c) => Ok(Join(c, dir)))
    case None =>
      var name := ExtractRepoName(url);
      match cwd
      case None => Err(NoCurrentDir)
      case Some(c) => Ok(Join(c, name))
  }

  /** The argument list `run_clone` hands to git: `clone`, the URL, and the
      target directory when one was given. */
  method CloneArgs(url: string, directory: Option<string>) returns (args: seq<string>)
    ensures |args| == (if directory.Some? then 3 else 2)
    ensures args[0] == "clone" && args[1] == url
    ensures directory.Some? ==> args[2] == directory.value
  {
    args := ["clone", url];
    if directory.Some? {
      args := args + [directory.value];
    }
  }

  /** `run_clone`. `cwd` is what `env::current_dir` gives (`None` if it
      fails), `gitSucceeded` the outcome of the git process and
      `chdirSucceeded` that of `env::set_current_dir`. Returns the arguments
      git is run with and either the directory that becomes the new working
      directory or the first error met. */
  method RunClone(url: string, directory: Option<string>, cwd: Option<string>,
                  gitSucceeded: bool, chdirSucceeded: bool)
    returns (gitArgs: seq<string>, outcome: Result<string>)
    ensures |gitArgs| == (if directory.Some? then 3 else 2)
    ensures gitArgs[0] == "clone" && gitArgs[1] == url
    ensures directory.Some? ==> gitArgs[2] == directory.value
    ensures !gitSucceeded ==> outcome == Err(GitFailed)
    ensures gitSucceeded && DetermineRepoDir(url, directory, cwd).Err? ==>
      outcome == DetermineRepoDir(url, directory, cwd)
    ensures gitSucceeded && DetermineRepoDir(url, directory, cwd).Ok? ==>
      outcome == (if chdirSucceeded then DetermineRepoDir(url, directory, cwd) else Err(ChdirFailed))
  {
    gitArgs := CloneArgs(url, directory);
    if !gitSucceeded {
      return gitArgs, Err(GitFailed);
    }
    var repoDir := DetermineRepoDir(url, directory, cwd);
    if repoDir.Err? {
      return gitArgs, repoDir;
    }
    if !chdirSucceeded {
      return gitArgs, Err(ChdirFailed);
    }
    outcome := repoDir;
  }
}
