/** The `os.path` operations the scanner uses, on POSIX paths (`/` is the only separator). */
module Paths {
  import opened Strings
  import opened Seqs

  /** `s.rfind(c, 0, k)`: the last index below `k` holding `c`, or -1 when there is none. */
  function RFindBelow(s: string, c: char, k: nat): (r: int)
    requires k <= |s|
    ensures -1 <= r < k
  {
    if k == 0 then -1
    else if s[k - 1] == c then k - 1
    else RFindBelow(s, c, k - 1)
  }

  /** `s.rfind(c)`: the last index holding `c`, or -1 when there is none. */
  function RFind(s: string, c: char): (r: int)
    ensures -1 <= r < |s|
  {
    RFindBelow(s, c, |s|)
  }

  /** `rfind` finds a `c`, when it finds anything, and there is no `c` after it (below the bound). */
  lemma {:induction false} RFindBelowSpec(s: string, c: char, k: nat)
    requires k <= |s|
    ensures RFindBelow(s, c, k) >= 0 ==> s[RFindBelow(s, c, k)] == c
    ensures forall i :: RFindBelow(s, c, k) < i < k ==> s[i] != c
  {
    if k > 0 && s[k - 1] != c {
      RFindBelowSpec(s, c, k - 1);
    }
  }

  /** The index of a `c` with no `c` after it (below the bound) is what `rfind` returns. */
  lemma {:induction false} RFindBelowIsLast(s: string, c: char, k: nat, j: nat)
    requires j < k <= |s| && s[j] == c
    requires forall i :: j < i < k ==> s[i] != c
    ensures RFindBelow(s, c, k) == j
  {
    if j < k - 1 {
      RFindBelowIsLast(s, c, k - 1, j);
    }
  }

  /** When no `c` occurs from index `j` up to the bound, `rfind` lands before `j`. */
  lemma {:induction false} RFindBelowBefore(s: string, c: char, k: nat, j: nat)
    requires j <= k <= |s|
    requires forall i :: j <= i < k ==> s[i] != c
    ensures RFindBelow(s, c, k) < j
  {
    if j < k {
      RFindBelowBefore(s, c, k - 1, j);
    }
  }

  /** Some character of `p[lo..hi]` is not a dot. */
  predicate HasNonDot(p: string, lo: int, hi: int)
    requires 0 <= lo && hi <= |p|
    decreases hi
  {
    lo < hi && (p[hi - 1] != '.' || HasNonDot(p, lo, hi - 1))
  }

  lemma {:induction false} HasNonDotMeans(p: string, lo: int, hi: int)
    requires 0 <= lo && hi <= |p|
    ensures HasNonDot(p, lo, hi) <==> exists i :: lo <= i < hi && p[i] != '.'
    decreases hi
  {
    if lo < hi {
      HasNonDotMeans(p, lo, hi - 1);
    }
  }

  /**
   * The extension `os.path.splitext` splits off: from the last dot to the end, provided that
   * dot lies in the last path component and is preceded there by some character other than a
   * dot (so `.jpg` and `dir/..jpg` have no extension); otherwise empty.
   */
  function Ext(p: string): string {
    var sep := RFind(p, '/');
    var dot := RFind(p, '.');
    if dot > sep && HasNonDot(p, sep + 1, dot) then p[dot..] else []
  }

  /** An extension is empty or a tail of the path that starts with its only dot and holds no separator. */
  lemma ExtIsPlainTail(p: string)
    ensures var e := Ext(p); e == [] || (e[0] == '.' && EndsWith(p, e) && '.' !in e[1..] && '/' !in e)
  {
    RFindBelowSpec(p, '.', |p|);
    RFindBelowSpec(p, '/', |p|);
  }

  /** When a path ends in a dot followed by `n - 1` characters that are neither dots nor separators,
      and some non-dot character of the last component precedes that dot, that tail is the extension. */
  lemma ExtOfPlainTail(p: string, n: nat)
    requires 1 <= n <= |p| && p[|p| - n] == '.'
    requires forall i :: |p| - n < i < |p| ==> p[i] != '.' && p[i] != '/'
    requires exists i :: RFind(p, '/') + 1 <= i < |p| - n && p[i] != '.'
    ensures Ext(p) == p[|p| - n..]
  {
    RFindBelowIsLast(p, '.', |p|, |p| - n);
    RFindBelowBefore(p, '/', |p|, |p| - n);
    HasNonDotMeans(p, RFind(p, '/') + 1, |p| - n);
  }

  /** A file whose name is a dot followed by plain characters (a "hidden" file such as `.jpg`) has no extension. */
  lemma HiddenNameHasNoExt(dir: string, name: string)
    requires |name| >= 1 && name[0] == '.'
    requires forall i :: 0 < i < |name| ==> name[i] != '.' && name[i] != '/'
    ensures Ext(dir + "/" + name) == []
  {
    var p := dir + "/" + name;
    assert p[|dir|] == '/';
    assert forall i :: |dir| < i < |p| ==> p[i] == name[i - |dir| - 1];
    RFindBelowIsLast(p, '/', |p|, |dir|);
    RFindBelowIsLast(p, '.', |p|, |dir| + 1);
  }

  /** `os.path.basename`: everything after the last separator. */
  function Basename(p: string): (b: string)
    ensures '/' !in b && EndsWith(p, b)
  {
    RFindBelowSpec(p, '/', |p|);
    p[RFind(p, '/') + 1..]
  }

  /** `os.path.join(root, name)`: an absolute `name` replaces `root`; otherwise a separator is put
      between them unless `root` is empty or already ends with one. */
  function PathJoin(root: string, name: string): (r: string)
    ensures EndsWith(r, name)
  {
    if |name| > 0 && name[0] == '/' then name
    else if root == [] || root[|root| - 1] == '/' then root + name
    else root + "/" + name
  }

  /** A plain file name joined to its directory is the joined path's basename again. */
  lemma BasenameOfJoin(root: string, name: string)
    requires |name| > 0 && '/' !in name
    ensures Basename(PathJoin(root, name)) == name
  {
    var r := PathJoin(root, name);
    if root == [] {
      assert r == name;
      RFindBelowBefore(r, '/', |r|, 0);
    } else {
      var dir := if root[|root| - 1] == '/' then root else root + "/";
      assert r == dir + name;
      AppendSplit(dir, name);
      forall i | |dir| <= i < |r| ensures r[i] != '/' {
        assert r[i] == name[i - |dir|];
      }
      RFindBelowIsLast(r, '/', |r|, |dir| - 1);
    }
  }

  /** `shutil.copy(path, os.path.join('exposed', os.path.basename(path)))`, with the `exposed`
      directory seen as a map from the copy's name to the file it was copied from: a second file
      with the same basename overwrites the first copy. */
  function CopyToExposed(exposed: map<string, string>, path: string): (r: map<string, string>)
    ensures r.Keys == exposed.Keys + {Basename(path)}
    ensures r[Basename(path)] == path
    ensures forall name :: name in exposed && name != Basename(path) ==> r[name] == exposed[name]
  {
    exposed[Basename(path) := path]
  }
}
