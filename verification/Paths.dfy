/**
 * Path and file-name strings as the finder manipulates them: `rtrim` of
 * separators, the `#/[^/]*$#` strip of the last chunk, `dirname`,
 * `basename`, the extension that `SplFileInfo::getExtension` reports and
 * the ASCII case-insensitive comparison of `strcasecmp`.
 *
 * Paths in the model are canonical: "/" or "/seg/.../seg" with no empty,
 * "." or ".." segment (ValidPath). Ancestry is the Parent chain (IsBelow).
 */
module Paths {

  type Path = string

  // ----- string primitives -----

  /** Index of the last occurrence of `c` in `s`, or -1 when there is none. */
  function LastIndex(s: string, c: char): (r: int)
    ensures -1 <= r < |s|
    ensures r >= 0 ==> s[r] == c
    ensures forall i :: r < i < |s| ==> s[i] != c
  {
    if |s| == 0 then -1
    else if s[|s| - 1] == c then |s| - 1
    else LastIndex(s[..|s| - 1], c)
  }

  /** `rtrim(s, "/")`: every trailing '/' removed, nothing else. */
  function TrimTrailingSlashes(s: string): (r: string)
    ensures |r| <= |s| && r == s[..|r|]
    ensures r == [] || r[|r| - 1] != '/'
    ensures forall i :: |r| <= i < |s| ==> s[i] == '/'
  {
    if |s| > 0 && s[|s| - 1] == '/' then TrimTrailingSlashes(s[..|s| - 1]) else s
  }

  /**
   * `preg_replace('#/[^/]*$#', '', s)`: the last '/' and everything after
   * it are removed; a string without '/' is left as it is.
   */
  function StripLastChunk(s: string): (r: string)
    ensures |r| <= |s|
  {
    var k := LastIndex(s, '/');
    if k < 0 then s else s[..k]
  }

  /** `dirname()` of a canonical path: "/" for a top-level entry and for "/" itself. */
  function Parent(p: Path): (r: Path)
    ensures |p| > 0 && p[0] == '/' ==> |r| > 0 && r[0] == '/'
    ensures |p| > 0 && p[0] == '/' && p != "/" ==> |r| < |p|
  {
    var c := StripLastChunk(p);
    if c == "" then "/" else c
  }

  /** `basename()`: the text after the last '/'. */
  function Basename(p: Path): string {
    p[LastIndex(p, '/') + 1..]
  }

  /** A segment of a canonical path (a basename, so free of '/'). */
  predicate IsName(n: string) {
    n != "" && n != "." && n != ".."
  }

  /** A name that glob's `*` does not match: it starts with '.'. */
  predicate IsDotName(n: string) {
    |n| > 0 && n[0] == '.'
  }

  /** Canonical absolute path: "/" or "/seg/.../seg". */
  predicate ValidPath(p: Path)
    decreases |p|
  {
    p == "/" || (|p| > 1 && p[0] == '/' && IsName(Basename(p)) && ValidPath(Parent(p)))
  }

  /** `a` is a proper ancestor of `p`: `p`'s Parent chain passes through `a`. */
  predicate IsBelow(a: Path, p: Path)
    decreases |p|
  {
    |p| > 0 && p[0] == '/' && p != "/" && (Parent(p) == a || IsBelow(a, Parent(p)))
  }

  predicate IsBelowOrSelf(a: Path, p: Path) {
    p == a || IsBelow(a, p)
  }

  /**
   * Some segment of `p` below `a` starts with '.', so neither the glob of `a`
   * nor the recursion below it ever lists `p`.
   */
  predicate HiddenBelow(a: Path, p: Path)
    decreases |p|
  {
    IsBelow(a, p) && (IsDotName(Basename(p)) || HiddenBelow(a, Parent(p)))
  }

  /** The child of `a` on the way down to `p`. */
  function TopBelow(a: Path, p: Path): (c: Path)
    requires IsBelow(a, p)
    ensures Parent(c) == a && IsBelowOrSelf(c, p)
    ensures |c| > 0 && c[0] == '/' && c != "/"
    decreases |p|
  {
    if Parent(p) == a then p else TopBelow(a, Parent(p))
  }

  // ----- file names -----

  /**
   * `SplFileInfo::getExtension()`: the text after the last '.' of the
   * name, "" when the name holds no '.'.
   */
  function Extension(name: string): (r: string)
    ensures '.' !in r
    ensures '.' !in name ==> r == ""
    ensures '.' in name ==> |r| < |name| && name[|name| - |r| - 1] == '.' && name[|name| - |r|..] == r
  {
    var k := LastIndex(name, '.');
    if k < 0 then "" else name[k + 1..]
  }

  /** The ASCII folding `strcasecmp` applies: only 'A'..'Z' change. */
  function AsciiLower(c: char): (r: char)
    ensures 'A' <= c <= 'Z' ==> 'a' <= r <= 'z'
    ensures !('A' <= c <= 'Z') ==> r == c
  {
    if 'A' <= c <= 'Z' then (c as int + 32) as char else c
  }

  /** `strcasecmp(a, b) == 0`. */
  predicate SameIgnoringCase(a: string, b: string) {
    |a| == |b| && forall i :: 0 <= i < |a| ==> AsciiLower(a[i]) == AsciiLower(b[i])
  }

  // ----- lemmas -----

  /** The strip removes exactly the last '/' and the chunk after it, which holds no '/'. */
  lemma StripLastChunkSpec(s: string)
    ensures '/' !in s ==> StripLastChunk(s) == s
    ensures '/' in s ==> var r := StripLastChunk(s);
      |r| < |s| && s[..|r|] == r && s[|r|] == '/' && '/' !in s[|r| + 1..]
  {
    var k := LastIndex(s, '/');
    if k >= 0 {
      var rest := s[k + 1..];
      forall j | 0 <= j < |rest|
        ensures rest[j] != '/'
      {
        assert rest[j] == s[k + 1 + j];
      }
    }
  }

  /** A path is its dirname-chunk, a '/', and its basename, which holds no '/'. */
  lemma BasenameSpec(p: Path)
    ensures '/' !in Basename(p)
    ensures '/' !in p ==> Basename(p) == p
    ensures '/' in p ==> p == StripLastChunk(p) + "/" + Basename(p)
  {
    StripLastChunkSpec(p);
    var k := LastIndex(p, '/');
    if k >= 0 {
      assert p == p[..k] + [p[k]] + p[k + 1..];
    }
  }

  /** Case-insensitive equality is an equivalence, and it differs from `==` only on ASCII letters. */
  lemma SameIgnoringCaseIsEquivalence(a: string, b: string, c: string)
    ensures SameIgnoringCase(a, a)
    ensures SameIgnoringCase(a, b) ==> SameIgnoringCase(b, a)
    ensures SameIgnoringCase(a, b) && SameIgnoringCase(b, c) ==> SameIgnoringCase(a, c)
  {
  }

  /** Lower-casing a letter is undone only by its own upper case: 'a' matches 'A' and nothing else besides 'a'. */
  lemma AsciiLowerMatches(x: char, y: char)
    ensures AsciiLower(x) == AsciiLower(y) <==>
              (x == y || (x as int - y as int == 32 && 'a' <= x <= 'z') || (y as int - x as int == 32 && 'a' <= y <= 'z'))
  {
  }

  lemma {:induction false} ValidPathParent(p: Path)
    requires ValidPath(p)
    ensures ValidPath(Parent(p))
  {
    if p == "/" {
      assert StripLastChunk(p) == "";
    }
  }

  /** An ancestor is strictly shorter, so no path is its own ancestor. */
  lemma {:induction false} BelowIsLonger(a: Path, p: Path)
    requires IsBelow(a, p)
    ensures |a| < |p|
    decreases |p|
  {
    if Parent(p) != a {
      BelowIsLonger(a, Parent(p));
    }
  }

  /** "/" is below nothing, and everything canonical other than "/" is below "/". */
  lemma {:induction false} RootIsTop(p: Path)
    requires ValidPath(p) && p != "/"
    ensures IsBelow("/", p)
    decreases |p|
  {
    if Parent(p) != "/" {
      RootIsTop(Parent(p));
    }
  }

  lemma {:induction false} BelowTransitive(a: Path, b: Path, c: Path)
    requires IsBelow(a, b) && IsBelow(b, c)
    ensures IsBelow(a, c)
    decreases |c|
  {
    if Parent(c) != b {
      BelowTransitive(a, b, Parent(c));
    }
  }

  /** The ancestors of one path form a chain: any two of them are ordered. */
  lemma {:induction false} AncestorsOrdered(x: Path, y: Path, p: Path)
    requires IsBelowOrSelf(x, p) && IsBelowOrSelf(y, p)
    ensures IsBelowOrSelf(x, y) || IsBelowOrSelf(y, x)
    decreases |p|
  {
    if x != p && y != p {
      AncestorsOrdered(x, y, Parent(p));
    }
  }

  /** Two distinct entries of one directory have disjoint subtrees. */
  lemma SiblingsDisjoint(c1: Path, c2: Path, p: Path)
    requires |c1| > 0 && c1[0] == '/' && c1 != "/" && |c2| > 0 && c2[0] == '/' && c2 != "/"
    requires Parent(c1) == Parent(c2)
    requires IsBelowOrSelf(c1, p) && IsBelowOrSelf(c2, p)
    ensures c1 == c2
  {
    AncestorsOrdered(c1, c2, p);
    if c1 != c2 {
      if IsBelow(c1, c2) {
        BelowIsLonger(c1, c2);
        if Parent(c2) != c1 {
          BelowIsLonger(c1, Parent(c2));
        }
      } else {
        BelowIsLonger(c2, c1);
        if Parent(c1) != c2 {
          BelowIsLonger(c2, Parent(c1));
        }
      }
    }
  }

  /**
   * Below a visible entry `c` of `a`, hiding is the same whether counted
   * from `a` or from `c`: `c`'s own name starts no dot.
   */
  lemma {:induction false} HiddenBelowVisibleChild(a: Path, c: Path, q: Path)
    requires |c| > 0 && c[0] == '/' && c != "/" && Parent(c) == a && !IsDotName(Basename(c))
    requires IsBelow(c, q)
    ensures HiddenBelow(a, q) <==> HiddenBelow(c, q)
    decreases |q|
  {
    assert IsBelow(a, q) by { BelowTransitive(a, c, q); }
    if Parent(q) != c {
      HiddenBelowVisibleChild(a, c, Parent(q));
    } else {
      assert !IsBelow(c, c) by { if IsBelow(c, c) { BelowIsLonger(c, c); } }
      assert !IsBelow(a, a) by { if IsBelow(a, a) { BelowIsLonger(a, a); } }
      assert !HiddenBelow(a, c);
    }
  }

  /** A hidden path hides everything under it too. */
  lemma {:induction false} HiddenBelowInherited(a: Path, p: Path, q: Path)
    requires HiddenBelow(a, p) && IsBelow(p, q)
    ensures HiddenBelow(a, q)
    decreases |q|
  {
    BelowTransitive(a, p, q);
    if Parent(q) != p {
      HiddenBelowInherited(a, p, Parent(q));
    }
  }

  /** Below a root other than "/", the regex strip of the last chunk is `dirname`. */
  lemma StripIsParentBelow(root: Path, p: Path)
    requires root != "/" && IsBelow(root, p)
    ensures StripLastChunk(p) == Parent(p)
    ensures IsBelowOrSelf(root, Parent(p))
  {
  }
}
