/** What the clone command's name and directory resolution guarantee. */
module CloneProperties {
  import opened RustStr
  import opened Paths
  import opened Clone

  /** Every element of `Repeat("/", k)` is a `/`. */
  lemma SlashesAt(k: nat)
    ensures forall i :: 0 <= i < |Repeat("/", k)| ==> Repeat("/", k)[i] == '/'
  {
    RepeatOneLength('/', k);
    forall i | 0 <= i < |Repeat("/", k)| ensures Repeat("/", k)[i] == '/' {
      RepeatOneAt('/', k, i);
    }
  }

  /** For a `git@` URL the name holds no `:` either. */
  lemma ScpNameHasNoColon(url: string)
    requires StartsWith(url, "git@")
    ensures ':' !in ExtractRepoName(url)
  {
    TrimEndCharKeepsPrefix(url, "git@", '/');
    ScpNameOfPieceHasNoColon(TrimEndChar(url, '/'));
    NameOfPiece(url);
  }

  /** For a `git@` URL without trailing `/`, the name holds no `:`. */
  lemma ScpNameOfPieceHasNoColon(u: string)
    requires StartsWith(u, "git@")
    ensures ':' !in TrimEndMatches(RepoPiece(u), ".git")
  {
    var k := ScpPieceSpec(u);
    assert RepoPiece(u) == u[k..];
    var m := TrimEndMatchesSpec(u[k..], ".git");
    NotInTake(u[k..], m, ':');
  }

  /** Trailing slashes make no difference, however many there are. */
  lemma TrailingSlashesIgnored(url: string, k: nat)
    ensures ExtractRepoName(url + Repeat("/", k)) == ExtractRepoName(url)
  {
    SlashesAt(k);
    TrimEndCharAppend(url, Repeat("/", k), '/');
  }

  /** `.git` after a URL goes into the chosen piece, whichever branch runs. */
  lemma RepoPieceAppendGit(u: string)
    ensures RepoPiece(u + ".git") == RepoPiece(u) + ".git"
  {
    StartsWithAppend(u, ".git", "git@");
    StartsWithAppend(u, ".git", "https://");
    StartsWithAppend(u, ".git", "http://");
    StartsWithAppend(u, ".git", "ssh://");
    if StartsWith(u, "git@") {
      RSplitLastAppend(u, ".git", ':');
      RSplitLastAppend(RSplitLast(u, ':'), ".git", '/');
    } else {
      RSplitLastAppend(u, ".git", '/');
    }
  }

  /** A `.git` suffix makes no difference to a URL that does not end in `/`
      (after `a/`, a `.git` would itself become the last piece). */
  lemma GitSuffixIgnored(url: string)
    requires url == [] || url[|url| - 1] != '/'
    ensures ExtractRepoName(url + ".git") == ExtractRepoName(url)
  {
    var v := url + ".git";
    assert v[|v| - 1] == 't';
    TrimEndCharNoop(v, '/');
    TrimEndCharNoop(url, '/');
    RepoPieceAppendGit(url);
    TrimEndMatchesAppend(RepoPiece(url), ".git");
  }

  /** Unfolds `ExtractRepoName` once: its ensures is the function's own
      body, so that callers can reason about the pieces separately. */
  lemma NameOfPiece(url: string)
    ensures ExtractRepoName(url) == TrimEndMatches(RepoPiece(TrimEndChar(url, '/')), ".git")
  {
  }

  /** Unfolds `RepoPiece` for a URL not of the `git@` kind: its ensures is
      the function's own non-`git@` branches, so that callers can go on
      with `RSplitLast` alone. */
  lemma NonScpPieceIsLastSegment(u: string)
    requires !StartsWith(u, "git@")
    ensures RepoPiece(u) == RSplitLast(u, '/')
  {
  }

  /** What precedes the chosen piece ends in `/`, or in `:` for `git@`. */
  lemma RepoPieceSplits(u: string) returns (head: string)
    ensures u == head + RepoPiece(u)
    ensures head == [] || head[|head| - 1] == '/' ||
            (head[|head| - 1] == ':' && StartsWith(u, "git@"))
  {
    var k := RepoPieceSpec(u);
    head := u[..k];
    assert u == u[..k] + u[k..];
  }

  /** Regrouping the pieces of a URL. */
  lemma Concat<T>(url: seq<T>, u: seq<T>, head: seq<T>, piece: seq<T>,
                  name: seq<T>, gits: seq<T>, slashes: seq<T>)
    requires url == u + slashes && u == head + piece && piece == name + gits
    ensures url == head + name + gits + slashes && u == head + name + gits
  {
  }

  /** A reference description of the name: the URL is some head ending in
      `/` (or, for a `git@` URL, in `:`), then the name, then some copies of
      `.git`, then some slashes; and the part before the slashes is empty or
      does not end in `/`. */
  lemma ExtractRepoNameSplitsUrl(url: string) returns (head: string, k: nat, j: nat)
    ensures url == head + ExtractRepoName(url) + Repeat(".git", k) + Repeat("/", j)
    ensures head == [] || head[|head| - 1] == '/' ||
            (head[|head| - 1] == ':' && StartsWith(url, "git@"))
    ensures var body := head + ExtractRepoName(url) + Repeat(".git", k);
            body == [] || body[|body| - 1] != '/'
  {
    var u := TrimEndChar(url, '/');
    var m := TrimEndCharSpec(url, '/');
    j := TrimEndCharDecompose(url, '/');
    var piece := RepoPiece(u);
    head := RepoPieceSplits(u);
    NameOfPiece(url);
    k := TrimEndMatchesDecompose(piece, ".git");
    Concat(url, u, head, piece, ExtractRepoName(url), Repeat(".git", k), Repeat("/", j));
    assert head + ExtractRepoName(url) + Repeat(".git", k) == u;
    assert u == [] || u[|u| - 1] != '/';
    if StartsWith(u, "git@") {
      StartsWithOfPrefix(u, url, "git@", m);
    }
  }

  /** The `https://`, `http://`, `ssh://` and fallback branches keep the
      last `/`-piece: for a URL not of the `git@` kind whose last
      `/`-piece is `last`, the chosen piece is `last`. */
  lemma PieceOfLastSegment(pre: string, last: string)
    requires !StartsWith(pre, "git@")
    requires '/' !in last
    ensures RepoPiece(pre + "/" + last) == last
  {
    var url := pre + "/" + last;
    if |pre| >= 4 {
      assert url[..4] == pre[..4];
    } else {
      assert url[|pre|] == '/' != "git@"[|pre|];
    }
    NonScpPieceIsLastSegment(url);
    RSplitLastAfter(pre, last, '/');
  }

  /** `extract_repo_name` of a URL not of the `git@` kind whose last
      `/`-piece is `last`. */
  lemma NameOfLastPiece(pre: string, last: string)
    requires !StartsWith(pre, "git@")
    requires '/' !in last && last != []
    ensures ExtractRepoName(pre + "/" + last) == TrimEndMatches(last, ".git")
  {
    var url := pre + "/" + last;
    assert url[|url| - 1] == last[|last| - 1];
    TrimEndCharNoop(url, '/');
    PieceOfLastSegment(pre, last);
    NameOfPiece(url);
  }

  /** The piece chosen for a `git@` URL whose text after the last `:` is
      `dir + "/" + last`. */
  lemma ScpPieceOfLastSegment(pre: string, dir: string, last: string)
    requires StartsWith(pre, "git@")
    requires ':' !in dir && ':' !in last && '/' !in last
    ensures RepoPiece(pre + ":" + dir + "/" + last) == last
  {
    var rest := dir + "/" + last;
    var u := pre + [':'] + rest;
    assert u == pre + ":" + dir + "/" + last;
    assert u[..4] == pre[..4];
    RSplitLastAfter(pre, rest, ':');
    RSplitLastAfter(dir, last, '/');
  }

  /** `extract_repo_name` of a `git@` URL whose text after the last `:` is
      `dir + "/" + last`. */
  lemma ScpNameOfLastPiece(pre: string, dir: string, last: string)
    requires StartsWith(pre, "git@")
    requires ':' !in dir && ':' !in last && '/' !in last && last != []
    ensures ExtractRepoName(pre + ":" + dir + "/" + last) == TrimEndMatches(last, ".git")
  {
    var url := pre + ":" + dir + "/" + last;
    assert url[|url| - 1] == last[|last| - 1];
    TrimEndCharNoop(url, '/');
    ScpPieceOfLastSegment(pre, dir, last);
    NameOfPiece(url);
  }

  /** One `.git` after a stem that does not itself end in `.git` is removed,
      and nothing more. */
  lemma GitStem(stem: string)
    requires !EndsWith(stem, ".git")
    ensures TrimEndMatches(stem + ".git", ".git") == stem
  {
    TrimEndMatchesAppend(stem, ".git");
    TrimEndMatchesNoop(stem, ".git");
  }

  // The concrete cases the command is meant to handle. Each URL is passed
  // as a parameter equal to the literal, so that the verifier reasons with
  // the lemmas above instead of unfolding every function on the literal.

  lemma ScpExample(url: string)
    requires url == "git@host:group/project.git"
    ensures ExtractRepoName(url) == "project"
  {
    var pre, dir, stem := "git@host", "group", "project";
    assert url == pre + ":" + dir + "/" + (stem + ".git");
    assert pre[..4] == "git@";
    assert stem[|stem| - 4..][0] != ".git"[0];
    ScpNameOfLastPiece(pre, dir, stem + ".git");
    GitStem(stem);
  }

  lemma HttpsExample(url: string)
    requires url == "https://host/group/project"
    ensures ExtractRepoName(url) == "project"
  {
    var pre, last := "https://host/group", "project";
    assert url == pre + "/" + last;
    assert pre[..4][0] != "git@"[0];
    assert last[|last| - 4..][0] != ".git"[0];
    NameOfLastPiece(pre, last);
    TrimEndMatchesNoop(last, ".git");
  }

  lemma SshExample(url: string)
    requires url == "ssh://host/group/project.git"
    ensures ExtractRepoName(url) == "project"
  {
    var pre, stem := "ssh://host/group", "project";
    assert url == pre + "/" + (stem + ".git");
    assert pre[..4][0] != "git@"[0];
    assert stem[|stem| - 4..][0] != ".git"[0];
    NameOfLastPiece(pre, stem + ".git");
    GitStem(stem);
  }

  lemma BarePathExample(url: string)
    requires url == "group/project/"
    ensures ExtractRepoName(url) == "project"
  {
    var base := url[..|url| - 1];
    assert url == base + Repeat("/", 1);
    var pre, last := base[..5], base[6..];
    assert base == pre + "/" + last;
    assert last == "project";
    assert pre[1] == url[1] == 'r';
    assert pre[..4][1] != "git@"[1];
    assert last[|last| - 4..][0] != ".git"[0];
    NameOfLastPiece(pre, last);
    TrimEndMatchesNoop(last, ".git");
    TrailingSlashesIgnored(base, 1);
  }

  lemma ShortPathExample(url: string)
    requires url == "ab/c.git"
    ensures ExtractRepoName(url) == "c"
  {
    var pre, stem := "ab", "c";
    assert url == pre + "/" + (stem + ".git");
    NameOfLastPiece(pre, stem + ".git");
    GitStem(stem);
  }

  lemma RepeatedGitExample(url: string)
    requires url == "https://h/a.git.git"
    ensures ExtractRepoName(url) == "a"
  {
    var pre, stem := "https://h", "a";
    assert url == pre + "/" + (stem + ".git" + ".git");
    assert pre[..4][0] != "git@"[0];
    NameOfLastPiece(pre, stem + ".git" + ".git");
    TrimEndMatchesAppend(stem + ".git", ".git");
    GitStem(stem);
  }

  /** The name can be empty: the function has no failure case. */
  lemma EmptyNames(url: string)
    requires url == "" || url == "/"
    ensures ExtractRepoName(url) == ""
  {
    assert url == "" + Repeat("/", |url|);
    TrailingSlashesIgnored("", |url|);
  }

  lemma EmptyNameAfterGitOnly(url: string)
    requires url == "https://h/.git"
    ensures ExtractRepoName(url) == ""
  {
    var pre, stem := "https://h", "";
    assert url == pre + "/" + (stem + ".git");
    assert pre[..4][0] != "git@"[0];
    NameOfLastPiece(pre, stem + ".git");
    GitStem(stem);
  }

  /** With a current directory that is absolute, the target directory is
      absolute, whichever way it was chosen. */
  lemma TargetDirIsAbsolute(url: string, directory: Option<string>, cwd: string)
    requires IsAbsolute(cwd)
    ensures DetermineRepoDir(url, directory, Some(cwd)).Ok?
    ensures IsAbsolute(DetermineRepoDir(url, directory, Some(cwd)).value)
  {
  }

  /** A relative override lands under the current directory: the result is
      the current directory, one separator if needed, and the override. */
  lemma RelativeOverrideUnderCwd(url: string, dir: string, cwd: string)
    requires !IsAbsolute(dir)
    ensures DetermineRepoDir(url, Some(dir), Some(cwd)) == Ok(Join(cwd, dir))
    ensures var p := DetermineRepoDir(url, Some(dir), Some(cwd)).value;
            StartsWith(p, cwd) && EndsWith(p, dir)
  {
  }

  /** The derived name is never an absolute path, so without an override
      the clone always lands under the current directory. */
  lemma NameIsRelative(url: string)
    ensures !IsAbsolute(ExtractRepoName(url))
  {
    var name := ExtractRepoName(url);
    ExtractRepoNameShape(url);
    if |name| > 0 {
      assert name[0] in name;
    }
  }

  /** Without an override the clone lands at the current directory joined
      with the repository name: it starts with the current directory, and
      the text after its last `/` is exactly the name. */
  lemma DefaultDirIsNamedAfterRepo(url: string, cwd: string)
    ensures DetermineRepoDir(url, None, Some(cwd)) == Ok(Join(cwd, ExtractRepoName(url)))
    ensures var p := DetermineRepoDir(url, None, Some(cwd)).value;
            StartsWith(p, cwd) && RSplitLast(p, '/') == ExtractRepoName(url)
  {
    NameIsRelative(url);
    ExtractRepoNameShape(url);
    JoinedNameIsLastPiece(cwd, ExtractRepoName(url));
  }

  /** Joining a name free of `/` (hence relative) onto a directory: the result
      starts with the directory, and the text after its last `/` is the
      name. */
  lemma JoinedNameIsLastPiece(cwd: string, name: string)
    requires '/' !in name
    ensures StartsWith(Join(cwd, name), cwd)
    ensures RSplitLast(Join(cwd, name), '/') == name
  {
    if |name| > 0 {
      assert name[0] in name;
    }
    var base := if cwd == [] || cwd[|cwd| - 1] == '/' then cwd else cwd + "/";
    assert Join(cwd, name) == base + name;
    assert RSplitLast(base, '/') == [];
    RSplitLastAppend(base, name, '/');
  }

  /** Concrete directories for a current directory of `/home/u`. */
  lemma OverrideExamples(url: string, cwd: string)
    requires cwd == "/home/u"
    ensures DetermineRepoDir(url, Some("x"), Some(cwd)) == Ok("/home/u/x")
    ensures DetermineRepoDir(url, Some("/srv/x"), None) == Ok("/srv/x")
    ensures DetermineRepoDir(url, None, None) == Err(NoCurrentDir)
  {
    assert cwd[|cwd| - 1] == 'u';
    assert cwd + "/" + "x" == "/home/u/x";
  }

  lemma DefaultDirExample(url: string, cwd: string)
    requires url == "git@host:group/project.git" && cwd == "/home/u"
    ensures DetermineRepoDir(url, None, Some(cwd)) == Ok("/home/u/project")
  {
    assert cwd[|cwd| - 1] == 'u';
    assert cwd + "/" + "project" == "/home/u/project";
    ScpExample(url);
  }
}
