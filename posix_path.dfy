/**
 * The parts of CPython's `posixpath` and `str` the resolvers use: `rfind`,
 * `basename`, `dirname`, `splitext` and `rstrip`, on `/`-separated paths.
 */
module PosixPath {

  /** `s.rfind(c)`: the index of the last `c` in `s`, or -1 when there is none. */
  function LastIndexOf(s: string, c: char): (i: int)
    ensures -1 <= i < |s|
    ensures i >= 0 ==> s[i] == c
    ensures forall j | i < j < |s| :: s[j] != c
  {
    if s == [] then -1
    else if s[|s| - 1] == c then |s| - 1
    else LastIndexOf(s[..|s| - 1], c)
  }

  /** `s` holds no `/`. */
  predicate NoSlash(s: string) {
    forall i | 0 <= i < |s| :: s[i] != '/'
  }

  predicate AllSlashes(s: string) {
    forall i | 0 <= i < |s| :: s[i] == '/'
  }

  predicate AllDots(s: string) {
    forall i | 0 <= i < |s| :: s[i] == '.'
  }

  /** `s.rstrip(c)`: `s` without the run of `c` at its end. */
  function RStrip(s: string, c: char): (r: string)
    ensures r <= s
    ensures r == [] || r[|r| - 1] != c
    ensures forall i | |r| <= i < |s| :: s[i] == c
  {
    if s != [] && s[|s| - 1] == c then RStrip(s[..|s| - 1], c) else s
  }

  /** `posixpath.basename(p)`: what follows the last `/`. */
  function Basename(p: string): (b: string)
    ensures |b| <= |p| && b == p[|p| - |b|..]
    ensures NoSlash(b)
    ensures |b| < |p| ==> p[|p| - |b| - 1] == '/'
  {
    p[LastIndexOf(p, '/') + 1..]
  }

  /** The `head` of `posixpath.dirname(p)`: everything up to and including the last `/`. */
  function Head(p: string): (h: string)
    ensures p == h + Basename(p)
    ensures h == [] || h[|h| - 1] == '/'
  {
    p[..LastIndexOf(p, '/') + 1]
  }

  /** `posixpath.dirname(p)`: the head without its trailing slashes, unless the
      head is made of slashes only. */
  function Dirname(p: string): (d: string)
    ensures d <= p
    ensures d == [] <==> NoSlash(p)
    ensures d != [] && d[|d| - 1] == '/' ==> AllSlashes(d)
    ensures d <= Head(p)
    ensures forall i | |d| <= i < |Head(p)| :: Head(p)[i] == '/'
    ensures AllSlashes(Head(p)) ==> d == Head(p)
  {
    var head := Head(p);
    if head != [] && !AllSlashes(head) then RStrip(head, '/') else head
  }

  /** `posixpath.splitext(p)`: `p` cut before its last `.` when that `.` lies in
      the last component and something other than a `.` precedes it there. */
  function SplitExt(p: string): (parts: (string, string))
    ensures parts.0 + parts.1 == p
  {
    var sepIndex := LastIndexOf(p, '/');
    var dotIndex := LastIndexOf(p, '.');
    if dotIndex > sepIndex && !AllDots(p[sepIndex + 1..dotIndex]) then
      SplitAt(p, dotIndex);
      (p[..dotIndex], p[dotIndex..])
    else
      assert p + [] == p;
      (p, [])
  }

  lemma {:induction false} SplitAt(p: string, i: nat)
    requires i <= |p|
    ensures p[..i] + p[i..] == p
  {
  }

  // ---------------------------------------------------------------------------
  // Properties

  /** The three facts that determine `RStrip(s, c)`. */
  lemma {:induction false} RStripUnique(s: string, c: char, r: string)
    requires r <= s
    requires r == [] || r[|r| - 1] != c
    requires forall i | |r| <= i < |s| :: s[i] == c
    ensures RStrip(s, c) == r
  {
    var q := RStrip(s, c);
    assert q[..] == s[..|q|] && r == s[..|r|];
  }

  /** Stripping twice strips nothing more. */
  lemma {:induction false} RStripIdempotent(s: string, c: char)
    ensures RStrip(RStrip(s, c), c) == RStrip(s, c)
  {
    RStripUnique(RStrip(s, c), c, RStrip(s, c));
  }

  lemma {:induction false} ExtensionShape(p: string, sepIndex: int, dotIndex: int)
    requires -1 <= sepIndex < dotIndex < |p| && p[dotIndex] == '.'
    requires forall j | sepIndex < j < |p| :: p[j] != '/'
    requires forall j | dotIndex < j < |p| :: p[j] != '.'
    ensures forall i | 0 <= i < |p[dotIndex..]| :: p[dotIndex..][i] != '/'
    ensures forall i | 1 <= i < |p[dotIndex..]| :: p[dotIndex..][i] != '.'
  {
    assert forall i | 0 <= i < |p| - dotIndex :: p[dotIndex..][i] == p[dotIndex + i];
  }

  /** An extension is empty, or a `.` followed by neither `.` nor `/`; and when
      there is one, the root's last component is not made of dots only. */
  lemma {:induction false} SplitExtShape(p: string)
    ensures var (root, ext) := SplitExt(p);
      && (ext != [] ==> ext[0] == '.' && !AllDots(Basename(root)))
      && (forall i | 0 <= i < |ext| :: ext[i] != '/')
      && (forall i | 1 <= i < |ext| :: ext[i] != '.')
  {
    var sepIndex := LastIndexOf(p, '/');
    var dotIndex := LastIndexOf(p, '.');
    if dotIndex > sepIndex && !AllDots(p[sepIndex + 1..dotIndex]) {
      ExtensionShape(p, sepIndex, dotIndex);
      var root := p[..dotIndex];
      assert LastIndexOf(root, '/') == sepIndex by {
        LastIndexOfPrefix(p, '/', dotIndex);
      }
      assert Basename(root) == p[sepIndex + 1..dotIndex];
    }
  }

  /** Cutting a string after the last `c` does not move the last `c`. */
  lemma {:induction false} LastIndexOfPrefix(p: string, c: char, k: nat)
    requires LastIndexOf(p, c) < k <= |p|
    ensures LastIndexOf(p[..k], c) == LastIndexOf(p, c)
  {
    assert forall m | 0 <= m < k :: p[..k][m] == p[m];
  }

  /** For a file name (no `/`), an extension is split off exactly when some `.`
      in the name has a character other than `.` before it. */
  lemma {:induction false} SplitExtName(name: string)
    requires NoSlash(name)
    ensures SplitExt(name).1 != [] <==>
      exists k, j | 0 <= k < j < |name| :: name[k] != '.' && name[j] == '.'
  {
    var dotIndex := LastIndexOf(name, '.');
    assert LastIndexOf(name, '/') == -1;
    if exists k, j | 0 <= k < j < |name| :: name[k] != '.' && name[j] == '.' {
      var k, j :| 0 <= k < j < |name| && name[k] != '.' && name[j] == '.';
      assert name[0..dotIndex][k] == name[k];
    }
    if SplitExt(name).1 != [] {
      var k :| 0 <= k < dotIndex && name[0..dotIndex][k] != '.';
      assert name[k] != '.' && name[dotIndex] == '.';
    }
  }

  /** The last `c` in a suffix of `p` is the last `c` of `p`, shifted. */
  lemma {:induction false} LastIndexOfSuffix(p: string, c: char, off: nat)
    requires off <= |p|
    ensures LastIndexOf(p[off..], c) ==
      (if LastIndexOf(p, c) >= off then LastIndexOf(p, c) - off else -1)
  {
    var i := LastIndexOf(p, c);
    var q := p[off..];
    var j := LastIndexOf(q, c);
    if j >= 0 {
      assert p[off + j] == q[j];
    }
    if i >= off {
      assert q[i - off] == c;
    }
  }

  /** `splitext` of a whole path splits the same extension off its basename. */
  lemma {:induction false} SplitExtOfPath(p: string)
    ensures SplitExt(p).1 == SplitExt(Basename(p)).1
    ensures SplitExt(p).0 == Head(p) + SplitExt(Basename(p)).0
  {
    var sepIndex := LastIndexOf(p, '/');
    var dotIndex := LastIndexOf(p, '.');
    var off := sepIndex + 1;
    var b := p[off..];
    LastIndexOfSuffix(p, '/', off);
    LastIndexOfSuffix(p, '.', off);
    var bDot := LastIndexOf(b, '.');
    if dotIndex > sepIndex {
      SplitExtOfPathCut(p, off, dotIndex);
    }
  }

  lemma {:induction false} SplitExtOfPathCut(p: string, off: nat, dotIndex: nat)
    requires off <= dotIndex < |p|
    ensures p[off..][0..dotIndex - off] == p[off..dotIndex]
    ensures p[..dotIndex] == p[..off] + p[off..][..dotIndex - off]
    ensures p[dotIndex..] == p[off..][dotIndex - off..]
  {
  }

  /** The last component of `x + "/" + y` is `y`, and its head is `x + "/"`. */
  lemma {:induction false} JoinedBasename(x: string, y: string)
    requires NoSlash(y)
    ensures Basename(x + "/" + y) == y
    ensures Head(x + "/" + y) == x + "/"
  {
    var p := x + "/" + y;
    var i := LastIndexOf(p, '/');
    assert p[|x|] == '/';
    assert forall j | |x| < j < |p| :: p[j] == y[j - |x| - 1];
    assert i == |x|;
    assert p[i + 1..] == y;
  }

  /** `rfind` is pinned down by an occurrence with none after it. */
  lemma {:induction false} LastIndexOfAt(s: string, c: char, i: int)
    requires -1 <= i < |s| && (i >= 0 ==> s[i] == c)
    requires forall j | i < j < |s| :: s[j] != c
    ensures LastIndexOf(s, c) == i
  {
  }

  /** When the head ends in a single `/`, `dirname` is the head without that
      slash, and stripping it again changes nothing. */
  lemma {:induction false} DirnameSingleSlash(p: string)
    requires var h := Head(p); h != [] && (|h| < 2 || h[|h| - 2] != '/')
    ensures var h := Head(p); Dirname(p) != [] && RStrip(Dirname(p), '/') == h[..|h| - 1]
  {
    var h := Head(p);
    var d := h[..|h| - 1];
    assert h == d + "/";
    assert RStrip(h, '/') == d by {
      RStripUnique(h, '/', d);
    }
    assert p[|h| - 1] == '/' by {
      assert p == h + Basename(p);
    }
    if AllSlashes(h) {
      assert d == [];
      assert Dirname(p) == h;
    } else {
      RStripIdempotent(h, '/');
    }
  }

  /** `dirname` and the head strip to the same folder, and both are empty
      exactly when the path holds no `/`. */
  lemma {:induction false} DirnameStripsHead(p: string)
    ensures Dirname(p) == [] <==> Head(p) == []
    ensures RStrip(Dirname(p), '/') == RStrip(Head(p), '/')
  {
    var h := Head(p);
    if h != [] && !AllSlashes(h) {
      RStripIdempotent(h, '/');
    }
  }
}
