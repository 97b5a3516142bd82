/** Unix paths as plain strings: the parts of `std::path::Path` and
    `PathBuf` that the clone command uses. */
module Paths {
  import opened RustStr

  /** `Path::is_absolute` on Unix: the path begins at the root. */
  predicate IsAbsolute(p: string)
    ensures IsAbsolute(p) <==> StartsWith(p, "/")
  {
    |p| > 0 && p[0] == '/'
  }

  /** `PathBuf::join` on Unix. An absolute `p` replaces `base`; otherwise `p`
      is appended, with one `/` in between unless `base` is empty or already
      ends in `/`. */
  function Join(base: string, p: string): (r: string)
    ensures IsAbsolute(p) ==> r == p
    ensures !IsAbsolute(p) ==> StartsWith(r, base) && EndsWith(r, p)
    ensures !IsAbsolute(p) ==>
      |r| == |base| + |p| + (if base == [] || base[|base| - 1] == '/' then 0 else 1)
    ensures !IsAbsolute(p) && |r| > |base| + |p| ==> r[|base|] == '/'
    ensures IsAbsolute(base) ==> IsAbsolute(r)
  {
    if IsAbsolute(p) then p
    else
      var sep := if base == [] || base[|base| - 1] == '/' then "" else "/";
      var r := base + sep + p;
      assert r[..|base|] == base;
      assert r[|r| - |p|..] == p;
      r
  }
}
