/** POSIX path manipulation as Python's `posixpath` does it: `join`, `basename`,
    `dirname` and `splitext`, on paths written as strings. */
module Paths {

  import opened Wrappers
  import opened Text

  type Path = string

  predicate IsAbsolute(p: Path) {
    |p| > 0 && p[0] == '/'
  }

  /** A directory prefix after which `join` needs no extra `/`. */
  predicate EndsInSeparator(a: Path) {
    a == "" || a[|a| - 1] == '/'
  }

  function Separator(a: Path): string {
    if EndsInSeparator(a) then "" else "/"
  }

  /** `os.path.join(a, b)`: an absolute `b` replaces `a`; otherwise a `/` is put
      between them unless `a` is empty or already ends with one. */
  function Join(a: Path, b: Path): Path {
    if IsAbsolute(b) then b else a + Separator(a) + b
  }

  lemma JoinKeepsLast(a: Path, b: Path)
    requires !IsAbsolute(b) && b != ""
    ensures Separator(Join(a, b)) == Separator(b)
  {
    var j := Join(a, b);
    assert j[|j| - 1] == b[|b| - 1];
  }

  lemma JoinKeepsRelative(a: Path, b: Path)
    requires !IsAbsolute(a) && !IsAbsolute(b)
    ensures !IsAbsolute(Join(a, b))
  {
    if a != "" {
      assert Join(a, b)[0] == a[0];
    }
  }

  lemma ConcatAssociative(x: string, y: string, z: string, w: string, v: string)
    ensures x + y + (z + w + v) == (x + y + z) + w + v
  {
  }

  /** Python evaluates `os.path.join(a, b, c)` as `join(join(a, b), c)`; grouping the
      other way gives the same path, so a relative path returned beside a destination
      can be joined back onto the base directory. */
  lemma JoinAssociative(a: Path, b: Path, c: Path)
    ensures Join(a, Join(b, c)) == Join(Join(a, b), c)
  {
    if IsAbsolute(c) {
    } else if IsAbsolute(b) {
      assert Join(b, c)[0] == '/';
    } else if b == "" {
      assert Join(b, c) == c;
      assert Join(a, b) == a + Separator(a);
      if !EndsInSeparator(a) {
        assert (a + "/")[|a|] == '/';
      }
      assert Separator(a + Separator(a)) == "";
    } else {
      JoinKeepsLast(a, b);
      JoinKeepsRelative(b, c);
      ConcatAssociative(a, Separator(a), b, Separator(b), c);
    }
  }

  /** `os.path.join(*parts)`. */
  function JoinAll(parts: seq<Path>): (r: Path)
    requires |parts| >= 1
    decreases |parts|
  {
    if |parts| == 1 then parts[0]
    else Join(JoinAll(parts[..|parts| - 1]), parts[|parts| - 1])
  }

  /** Joining adds only `/` characters, so joining the pieces of a split on backslash
      leaves no backslash in the path. */
  lemma {:induction false} JoinAllAddsNoBackslash(parts: seq<Path>)
    requires |parts| >= 1
    requires forall i :: 0 <= i < |parts| ==> '\\' !in parts[i]
    ensures '\\' !in JoinAll(parts)
    decreases |parts|
  {
    if |parts| > 1 {
      var init := parts[..|parts| - 1];
      assert forall i :: 0 <= i < |init| ==> init[i] == parts[i];
      JoinAllAddsNoBackslash(init);
      var a, b := JoinAll(init), parts[|parts| - 1];
      assert '\\' !in b;
      if !IsAbsolute(b) {
        var j := a + Separator(a) + b;
        forall k | 0 <= k < |j| ensures j[k] != '\\' {
          if k < |a| {
            assert j[k] == a[k];
          } else if k < |a| + |Separator(a)| {
            assert j[k] == Separator(a)[k - |a|];
          } else {
            assert j[k] == b[k - |a| - |Separator(a)|];
          }
        }
      }
    }
  }

  /** Index of the last `c` in `s`, or -1 when there is none. */
  function LastIndexOfChar(s: string, c: char): (r: int)
    ensures -1 <= r < |s|
    ensures r >= 0 ==> s[r] == c
    ensures forall k :: r < k < |s| ==> s[k] != c
    decreases |s|
  {
    if s == [] then -1
    else if s[|s| - 1] == c then |s| - 1
    else LastIndexOfChar(s[..|s| - 1], c)
  }

  /** Index just after the last `/`, or 0 when there is none. */
  function SlashEnd(p: Path): (i: nat)
    ensures i <= |p|
    ensures i > 0 ==> p[i - 1] == '/'
    ensures forall k :: i <= k < |p| ==> p[k] != '/'
  {
    LastIndexOfChar(p, '/') + 1
  }

  /** `os.path.basename`: the text after the last `/`. */
  function Basename(p: Path): (r: Path)
    ensures EndsWith(p, r)
    ensures '/' !in r
  {
    p[SlashEnd(p)..]
  }

  function StripTrailingSlashes(s: string): (r: string)
    ensures StartsWith(s, r)
    ensures r == "" || r[|r| - 1] != '/'
    decreases |s|
  {
    if s != "" && s[|s| - 1] == '/' then StripTrailingSlashes(s[..|s| - 1]) else s
  }

  predicate AllSlashes(s: string) {
    forall k :: 0 <= k < |s| ==> s[k] == '/'
  }

  /** `os.path.dirname`: the text up to the last `/`, with trailing slashes removed
      unless it consists of slashes only. */
  function Dirname(p: Path): (r: Path)
    ensures StartsWith(p, r)
  {
    var head := p[..SlashEnd(p)];
    if head != "" && !AllSlashes(head) then StripTrailingSlashes(head) else head
  }

  /** `os.path.splitext`: the extension starts at the last dot of the last component,
      provided that component has a non-dot character before that dot. */
  function SplitExt(p: Path): (r: (Path, string))
    ensures r.0 + r.1 == p
    ensures r.1 == "" || (r.1[0] == '.' && '/' !in r.1 && '.' !in r.1[1..])
  {
    var sepIndex := LastIndexOfChar(p, '/');
    var dotIndex := LastIndexOfChar(p, '.');
    if dotIndex > sepIndex && exists k :: sepIndex + 1 <= k < dotIndex && p[k] != '.' then
      var ext := p[dotIndex..];
      assert forall k :: 0 <= k < |ext| ==> ext[k] == p[dotIndex + k];
      assert forall k :: 1 <= k < |ext| ==> ext[1..][k - 1] == ext[k];
      (p[..dotIndex], ext)
    else
      (p, "")
  }

  /** `q` is the path `d` itself or lies somewhere below the directory `d`. */
  predicate Within(q: Path, d: Path) {
    q == d || StartsWith(q, d + "/")
  }
}
