/** `get_filename_prefix` (bam_slice/bam_slice.py): the alignment file's name
    without its directory, without a trailing `.gz`, and without one extension.
    Paths are `/`-separated, as `posixpath` treats them. */
module Filename {

  /** `str.rfind` for one character: the last index holding `c`, or -1. */
  function RFind(s: string, c: char): (r: int)
    ensures -1 <= r < |s|
    ensures r >= 0 ==> s[r] == c
    ensures forall k :: r < k < |s| ==> s[k] != c
  {
    if |s| == 0 then -1
    else if s[|s| - 1] == c then |s| - 1
    else RFind(s[..|s| - 1], c)
  }

  /** `fname.endswith('.gz')`, then `fname[:-3]`. */
  function StripGz(fname: string): (r: string)
    ensures |fname| >= 3 && fname[|fname| - 3..] == ".gz" ==> r + ".gz" == fname
    ensures !(|fname| >= 3 && fname[|fname| - 3..] == ".gz") ==> r == fname
  {
    if |fname| >= 3 && fname[|fname| - 3..] == ".gz" then fname[..|fname| - 3] else fname
  }

  /** `os.path.basename`: what follows the last `/`. */
  function Basename(p: string): (r: string)
    ensures forall i :: 0 <= i < |r| ==> r[i] != '/'
    ensures |r| <= |p| && p[|p| - |r|..] == r
    ensures |r| < |p| ==> p[|p| - |r| - 1] == '/'
  {
    p[RFind(p, '/') + 1..]
  }

  /** `os.path.splitext`: splits at the last `.` after the last `/`, unless every
      character between that `/` and that `.` is itself a dot (so `.bashrc` and
      `..` have no extension). */
  function SplitExt(p: string): (r: (string, string))
    ensures r.0 + r.1 == p
    ensures r.1 != [] ==>
              && r.1[0] == '.'
              && (forall i :: 0 < i < |r.1| ==> r.1[i] != '.' && r.1[i] != '/')
              && (exists k :: RFind(p, '/') < k < |r.0| && r.0[k] != '.')
    ensures r.1 == [] ==> forall k :: RFind(p, '/') < k < RFind(p, '.') ==> p[k] == '.'
  {
    var sepIndex := RFind(p, '/');
    var dotIndex := RFind(p, '.');
    if dotIndex > sepIndex && exists k :: sepIndex + 1 <= k < dotIndex && p[k] != '.' then
      (p[..dotIndex], p[dotIndex..])
    else
      (p, [])
  }

  /** `get_filename_prefix`. */
  function FilenamePrefix(fname: string): string
  {
    SplitExt(Basename(StripGz(fname))).0
  }

  /** `r` is `base` with at most one extension dropped, the way `splitext`
      drops it from a single path component: `r` is a prefix of `base` holding
      no `/`; what follows it is a dot and then no other dot; an extension is
      dropped only when some character before its dot is not a dot, and kept
      only when every character before the last dot is a dot. */
  predicate RootOf(base: string, r: string)
  {
    && |r| <= |base| && base[..|r|] == r
    && (forall i :: 0 <= i < |r| ==> r[i] != '/')
    && (|r| < |base| ==>
          && base[|r|] == '.'
          && (forall i :: |r| < i < |base| ==> base[i] != '.')
          && (exists i :: 0 <= i < |r| && r[i] != '.'))
    && (|r| == |base| ==> forall i :: 0 <= i < RFind(base, '.') ==> base[i] == '.')
  }

  /** Within a single path component, `splitext` keeps the root described by
      `RootOf`. */
  lemma SplitExtOfName(base: string)
    requires forall i :: 0 <= i < |base| ==> base[i] != '/'
    ensures RootOf(base, SplitExt(base).0)
  {
    var parts := SplitExt(base);
    var r := parts.0;
    assert RFind(base, '/') == -1;
    assert base[..|r|] == r;
    assert forall i :: 0 <= i < |r| ==> r[i] == base[i];
    if |r| < |base| {
      assert forall i :: |r| <= i < |base| ==> base[i] == parts.1[i - |r|];
    } else {
      assert parts.1 == [];
    }
  }

  /** What `get_filename_prefix` keeps: the base name, after `.gz` is stripped,
      with at most one extension dropped as `RootOf` describes. */
  lemma FilenamePrefixSpec(fname: string)
    ensures RootOf(Basename(StripGz(fname)), FilenamePrefix(fname))
  {
    SplitExtOfName(Basename(StripGz(fname)));
  }
}
