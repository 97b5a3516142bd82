/** The few operations of Rust's `str` that the clone command relies on,
    over `seq<char>`. Every pattern used by the command is ASCII, so working
    on characters rather than UTF-8 bytes changes no result. */
module RustStr {

  /** `s.starts_with(p)` */
  predicate StartsWith(s: string, p: string) {
    |p| <= |s| && s[..|p|] == p
  }

  /** `s` ends in `p`. The command itself never calls `ends_with`; this
      predicate only states what the trimming operations give. */
  predicate EndsWith(s: string, p: string) {
    |p| <= |s| && s[|s| - |p|..] == p
  }

  /** `k` copies of `x`, one after the other. */
  function Repeat<T>(x: seq<T>, k: nat): seq<T>
  {
    if k == 0 then [] else Repeat(x, k - 1) + x
  }

  /** How much of `s[..n]` is left once the run of `c` that ends it is cut
      off. */
  function KeptBeforeRun(s: string, c: char, n: nat): (m: nat)
    requires n <= |s|
    ensures m <= n
    decreases n
  {
    if n > 0 && s[n - 1] == c then KeptBeforeRun(s, c, n - 1) else n
  }

  /** What precedes the cut is not `c`, and everything after it is. */
  lemma {:induction false} KeptBeforeRunFacts(s: string, c: char, n: nat)
    requires n <= |s|
    ensures KeptBeforeRun(s, c, n) == 0 || s[KeptBeforeRun(s, c, n) - 1] != c
    ensures forall i :: KeptBeforeRun(s, c, n) <= i < n ==> s[i] == c
    decreases n
  {
    if n > 0 && s[n - 1] == c {
      KeptBeforeRunFacts(s, c, n - 1);
    }
  }

  /** The cut is the only one with those two properties. */
  lemma KeptBeforeRunUnique(s: string, c: char, n: nat, m: nat)
    requires n <= |s| && m <= n
    requires m == 0 || s[m - 1] != c
    requires forall i :: m <= i < n ==> s[i] == c
    ensures KeptBeforeRun(s, c, n) == m
  {
    KeptBeforeRunFacts(s, c, n);
  }

  /** `s.trim_end_matches(c)` for a character pattern: removes EVERY trailing
      occurrence of `c`, not only the last one. */
  function TrimEndChar(s: string, c: char): (r: string)
    ensures |r| <= |s|
  {
    s[..KeptBeforeRun(s, c, |s|)]
  }

  /** `TrimEndChar` keeps a prefix `s[..m]` that does not end in `c`, and
      what it drops is all `c`. */
  lemma TrimEndCharSpec(s: string, c: char) returns (m: nat)
    ensures m <= |s| && TrimEndChar(s, c) == s[..m]
    ensures m == 0 || s[m - 1] != c
    ensures forall i :: m <= i < |s| ==> s[i] == c
  {
    m := KeptBeforeRun(s, c, |s|);
    KeptBeforeRunFacts(s, c, |s|);
  }

  /** A string that does not end in `c` is left as it is. */
  lemma TrimEndCharNoop(s: string, c: char)
    requires s == [] || s[|s| - 1] != c
    ensures TrimEndChar(s, c) == s
  {
    assert KeptBeforeRun(s, c, |s|) == |s|;
    assert s[..|s|] == s;
  }

  /** How much of `s[..n]` is left once the copies of `pat` that end it are
      stripped one after another. */
  function KeptBeforeCopies(s: string, pat: string, n: nat): (m: nat)
    requires n <= |s|
    ensures m <= n
    decreases n
  {
    if pat != [] && |pat| <= n && s[n - |pat|..n] == pat then KeptBeforeCopies(s, pat, n - |pat|)
    else n
  }

  /** What is left does not end in `pat`. */
  lemma {:induction false} KeptBeforeCopiesFacts(s: string, pat: string, n: nat)
    requires n <= |s| && pat != []
    ensures var m := KeptBeforeCopies(s, pat, n);
      !(|pat| <= m && s[m - |pat|..m] == pat)
    decreases n
  {
    if |pat| <= n && s[n - |pat|..n] == pat {
      KeptBeforeCopiesFacts(s, pat, n - |pat|);
    }
  }

  /** `s.trim_end_matches(pat)` for a string pattern: strips `pat` from the
      end as long as `s` still ends with it. An empty pattern changes nothing. */
  function TrimEndMatches(s: string, pat: string): (r: string)
    ensures |r| <= |s|
  {
    s[..KeptBeforeCopies(s, pat, |s|)]
  }

  /** `TrimEndMatches` keeps a prefix `s[..m]`, and that prefix no longer
      ends in a non-empty `pat`. */
  lemma TrimEndMatchesSpec(s: string, pat: string) returns (m: nat)
    ensures m <= |s| && TrimEndMatches(s, pat) == s[..m]
    ensures pat != [] ==> !EndsWith(s[..m], pat)
  {
    m := KeptBeforeCopies(s, pat, |s|);
    if pat != [] {
      KeptBeforeCopiesFacts(s, pat, |s|);
      assert |pat| <= m ==> s[..m][m - |pat|..] == s[m - |pat|..m];
    }
  }

  /** The index of the last `c` in `s[..n]`, or -1 if there is none. */
  function LastIndexBefore(s: string, c: char, n: nat): (i: int)
    requires n <= |s|
    ensures -1 <= i < n
    decreases n
  {
    if n == 0 then -1 else if s[n - 1] == c then n - 1 else LastIndexBefore(s, c, n - 1)
  }

  /** The last index holds `c`, and none of the later ones does. */
  lemma {:induction false} LastIndexBeforeFacts(s: string, c: char, n: nat)
    requires n <= |s|
    ensures LastIndexBefore(s, c, n) >= 0 ==> s[LastIndexBefore(s, c, n)] == c
    ensures forall j :: LastIndexBefore(s, c, n) < j < n ==> s[j] != c
    decreases n
  {
    if n > 0 && s[n - 1] != c {
      LastIndexBeforeFacts(s, c, n - 1);
    }
  }

  /** The last index of `c` is the only index with those two properties. */
  lemma LastIndexBeforeUnique(s: string, c: char, n: nat, i: int)
    requires n <= |s| && -1 <= i < n
    requires i >= 0 ==> s[i] == c
    requires forall j :: i < j < n ==> s[j] != c
    ensures LastIndexBefore(s, c, n) == i
  {
    LastIndexBeforeFacts(s, c, n);
  }

  /** The first item of `s.rsplit(c)`: the text after the last `c`, or the
      whole of `s` when it holds no `c`. The iterator always yields this
      first item, so the function is total. */
  function RSplitLast(s: string, c: char): (r: string)
    ensures |r| <= |s|
  {
    s[LastIndexBefore(s, c, |s|) + 1..]
  }

  /** `RSplitLast` keeps a suffix `s[k..]` free of `c`, preceded by `c`
      unless it is the whole string. */
  lemma RSplitLastSpec(s: string, c: char) returns (k: nat)
    ensures k <= |s| && RSplitLast(s, c) == s[k..]
    ensures c !in s[k..]
    ensures k > 0 ==> s[k - 1] == c
  {
    k := LastIndexBefore(s, c, |s|) + 1;
    LastIndexBeforeFacts(s, c, |s|);
    assert forall j :: 0 <= j < |s[k..]| ==> s[k..][j] == s[k + j];
  }

  /** `KeptBeforeCopies` only looks at the first `n` characters. */
  lemma {:induction false} KeptBeforeCopiesPrefix(a: string, b: string, pat: string, n: nat)
    requires n <= |a| && n <= |b| && a[..n] == b[..n]
    ensures KeptBeforeCopies(a, pat, n) == KeptBeforeCopies(b, pat, n)
    decreases n
  {
    if pat != [] && |pat| <= n {
      assert a[n - |pat|..n] == a[..n][n - |pat|..] == b[..n][n - |pat|..] == b[n - |pat|..n];
      assert a[..n - |pat|] == a[..n][..n - |pat|];
      assert b[..n - |pat|] == b[..n][..n - |pat|];
      KeptBeforeCopiesPrefix(a, b, pat, n - |pat|);
    }
  }

  /** Dropping from a dropped sequence drops the sum. */
  lemma DropDrop<T>(s: seq<T>, k1: nat, k2: nat)
    requires k1 + k2 <= |s|
    ensures s[k1..][k2..] == s[k1 + k2..]
  {
  }

  /** A tail holds only what the whole holds. */
  lemma NotInDrop<T>(s: seq<T>, k: nat, x: T)
    requires k <= |s| && x !in s
    ensures x !in s[k..]
  {
    assert forall i :: 0 <= i < |s| - k ==> s[k..][i] == s[k + i];
  }

  /** A head holds only what the whole holds. */
  lemma NotInTake<T>(s: seq<T>, m: nat, x: T)
    requires m <= |s| && x !in s
    ensures x !in s[..m]
  {
    assert forall i :: 0 <= i < m ==> s[..m][i] == s[i];
  }

  /** `Repeat([c], k)` has `k` elements. */
  lemma {:induction false} RepeatOneLength<T>(c: T, k: nat)
    ensures |Repeat([c], k)| == k
  {
    if k > 0 {
      RepeatOneLength(c, k - 1);
    }
  }

  /** Every element of `Repeat([c], k)` is `c`. */
  lemma {:induction false} RepeatOneAt<T>(c: T, k: nat, i: nat)
    requires i < k
    ensures |Repeat([c], k)| == k && Repeat([c], k)[i] == c
  {
    if i < k - 1 {
      RepeatOneAt(c, k - 1, i);
    } else if k > 1 {
      RepeatOneAt(c, k - 1, 0);
    }
  }

  /** What `TrimEndChar` removes is a run of `c`. */
  lemma TrimEndCharDecompose(s: string, c: char) returns (k: nat)
    ensures s == TrimEndChar(s, c) + Repeat([c], k)
  {
    var m := TrimEndCharSpec(s, c);
    k := |s| - m;
    RepeatOneLength(c, k);
    forall i | 0 <= i < k ensures Repeat([c], k)[i] == s[m..][i] {
      RepeatOneAt(c, k, i);
    }
    assert s[m..] == Repeat([c], k);
    assert s == s[..m] + s[m..];
  }

  /** What `KeptBeforeCopies` strips from `s[..n]` is whole copies of `pat`. */
  lemma {:induction false} KeptBeforeCopiesDecompose(s: string, pat: string, n: nat)
    returns (k: nat)
    requires n <= |s|
    ensures s[..n] == s[..KeptBeforeCopies(s, pat, n)] + Repeat(pat, k)
    decreases n
  {
    if pat != [] && |pat| <= n && s[n - |pat|..n] == pat {
      var n' := n - |pat|;
      var k' := KeptBeforeCopiesDecompose(s, pat, n');
      k := k' + 1;
      var r := s[..KeptBeforeCopies(s, pat, n')];
      assert s[..n] == s[..n'] + s[n'..n];
      assert s[..n] == r + Repeat(pat, k') + pat;
    } else {
      k := 0;
    }
  }

  /** What `TrimEndMatches` removes is a run of whole copies of `pat`. */
  lemma TrimEndMatchesDecompose(s: string, pat: string) returns (k: nat)
    ensures s == TrimEndMatches(s, pat) + Repeat(pat, k)
  {
    k := KeptBeforeCopiesDecompose(s, pat, |s|);
    assert s[..|s|] == s;
  }

  /** Characters appended after a string are removed again if they are all `c`. */
  lemma TrimEndCharAppend(s: string, t: string, c: char)
    requires forall i :: 0 <= i < |t| ==> t[i] == c
    ensures TrimEndChar(s + t, c) == TrimEndChar(s, c)
  {
    var u := s + t;
    var m := KeptBeforeRun(s, c, |s|);
    KeptBeforeRunFacts(s, c, |s|);
    forall i | m <= i < |u| ensures u[i] == c {
      if i >= |s| {
        assert u[i] == t[i - |s|];
      }
    }
    KeptBeforeRunUnique(u, c, |u|, m);
    assert u[..m] == s[..m];
  }

  /** Trimming never cuts into a prefix whose last character is not `c`. */
  lemma TrimEndCharKeepsPrefix(s: string, p: string, c: char)
    requires StartsWith(s, p) && p != [] && p[|p| - 1] != c
    ensures StartsWith(TrimEndChar(s, c), p)
  {
    var m := TrimEndCharSpec(s, c);
    assert s[|p| - 1] == p[|p| - 1];
    assert |p| <= m;
    assert s[..m][..|p|] == s[..|p|];
  }

  /** Text without `c` appended to `s` extends the last `c`-piece of `s`. */
  lemma RSplitLastAppend(s: string, t: string, c: char)
    requires c !in t
    ensures RSplitLast(s + t, c) == RSplitLast(s, c) + t
  {
    LastIndexAppend(s, t, c);
    DropAppend(s, t, LastIndexBefore(s, c, |s|) + 1);
  }

  /** Text without `c` appended to `s` does not move the last `c`. */
  lemma LastIndexAppend(s: string, t: string, c: char)
    requires c !in t
    ensures LastIndexBefore(s + t, c, |s + t|) == LastIndexBefore(s, c, |s|)
  {
    var u := s + t;
    var i := LastIndexBefore(s, c, |s|);
    LastIndexBeforeFacts(s, c, |s|);
    forall j | i < j < |u| ensures u[j] != c {
      if j >= |s| {
        assert u[j] == t[j - |s|];
      }
    }
    LastIndexBeforeUnique(u, c, |u|, i);
  }

  /** Dropping a prefix of `s` from `s + t`. */
  lemma DropAppend<T>(s: seq<T>, t: seq<T>, k: nat)
    requires k <= |s|
    ensures (s + t)[k..] == s[k..] + t
  {
  }

  /** The last `c`-piece of `s + [c] + t`, for `t` free of `c`, is `t`. */
  lemma RSplitLastAfter(s: string, t: string, c: char)
    requires c !in t
    ensures RSplitLast(s + [c] + t, c) == t
  {
    var u := s + [c] + t;
    forall j | |s| < j < |u| ensures u[j] != c {
      assert u[j] == t[j - |s| - 1];
    }
    LastIndexBeforeUnique(u, c, |u|, |s|);
    assert u[|s| + 1..] == t;
  }

  /** A string that does not end in `pat` is left as it is. */
  lemma TrimEndMatchesNoop(s: string, pat: string)
    requires !EndsWith(s, pat)
    ensures TrimEndMatches(s, pat) == s
  {
    assert |pat| <= |s| ==> s[|s| - |pat|..|s|] == s[|s| - |pat|..];
    assert s[..|s|] == s;
  }

  /** A trailing copy of `pat` makes no difference to `TrimEndMatches`. */
  lemma TrimEndMatchesAppend(s: string, pat: string)
    requires pat != []
    ensures TrimEndMatches(s + pat, pat) == TrimEndMatches(s, pat)
  {
    var u := s + pat;
    assert u[|s|..|u|] == pat;
    assert u[..|s|] == s[..|s|];
    KeptBeforeCopiesPrefix(u, s, pat, |s|);
    var m := KeptBeforeCopies(s, pat, |s|);
    assert u[..m] == s[..m];
  }

  /** A string starts with whatever a prefix of it starts with. */
  lemma StartsWithOfPrefix(s: string, t: string, p: string, m: nat)
    requires m <= |t| && s == t[..m] && StartsWith(s, p)
    ensures StartsWith(t, p)
  {
    assert t[..|p|] == s[..|p|];
  }

  /** `starts_with` compares the pattern with the head of `s` character by
      character. */
  lemma StartsWithPointwise(s: string, p: string)
    ensures StartsWith(s, p) <==> |p| <= |s| && forall i :: 0 <= i < |p| ==> s[i] == p[i]
  {
    if |p| <= |s| && forall i :: 0 <= i < |p| ==> s[i] == p[i] {
      assert s[..|p|] == p;
    }
  }

  /** Appending text that begins with a character foreign to `p` cannot make
      a string start with `p`, nor stop it doing so. */
  lemma StartsWithAppend(s: string, t: string, p: string)
    requires t != [] && t[0] !in p
    ensures StartsWith(s + t, p) <==> StartsWith(s, p)
  {
    if |p| <= |s| {
      assert (s + t)[..|p|] == s[..|p|];
    } else if |p| <= |s + t| {
      assert (s + t)[|s|] == t[0] != p[|s|];
    }
  }
}
