/**
 * Filesystem paths and the abstract filesystem that the catalog reads and the
 * deletion engine changes.
 *
 * A path is the sequence of its components from the filesystem root.  Text is
 * turned into components the way Python's pathlib does it: empty components and
 * "." are dropped, ".." is kept as an ordinary component, and joining an
 * absolute text to a path discards the path.
 */
module Paths {
  import opened Wrappers

  type Path = seq<string>

  /** Length of the first component of `s`: the number of characters before the first '/'. */
  function SegmentLength(s: string): (n: nat)
    ensures n <= |s|
    ensures forall i :: 0 <= i < n ==> s[i] != '/'
    ensures n < |s| ==> s[n] == '/'
  {
    if s == [] || s[0] == '/' then 0 else 1 + SegmentLength(s[1..])
  }

  /** The components of `s` (pathlib's parsing of a path text). */
  function Split(s: string): (r: seq<string>)
    ensures forall i :: 0 <= i < |r| ==> r[i] != "" && r[i] != "." && '/' !in r[i]
    decreases |s|
  {
    if s == [] then []
    else
      var n := SegmentLength(s);
      var rest := if n < |s| then Split(s[n + 1..]) else [];
      if n == 0 || s[..n] == "." then rest else [s[..n]] + rest
  }

  /** A text with no '/' is a single component, unless it is empty or ".". */
  lemma SplitSegment(w: string)
    requires '/' !in w
    ensures Split(w) == if w == "" || w == "." then [] else [w]
  {
    if w != [] {
      assert w[..|w|] == w;
    }
  }

  /** Texts joined by '/' have the components of the first followed by those of the second. */
  lemma {:induction false} SplitSlash(a: string, b: string)
    ensures Split(a + "/" + b) == Split(a) + Split(b)
    decreases |a|
  {
    var s := a + "/" + b;
    var n := SegmentLength(s);
    var k := SegmentLength(a);
    assert forall i :: 0 <= i < |a| ==> s[i] == a[i];
    assert s[|a|] == '/';
    assert n == k;
    if k < |a| {
      assert s[..n] == a[..k];
      assert s[n + 1..] == a[k + 1..] + "/" + b;
      SplitSlash(a[k + 1..], b);
    } else {
      assert s[..n] == a;
      assert s[n + 1..] == b;
      SplitSegment(a);
    }
  }

  /** True when `s` is an absolute path text. */
  predicate IsAbsolute(s: string) {
    |s| > 0 && s[0] == '/'
  }

  /** `base / s` in pathlib: an absolute `s` replaces `base`. */
  function Join(base: Path, s: string): (r: Path)
    ensures !IsAbsolute(s) ==> r == base + Split(s)
    ensures IsAbsolute(s) ==> r == Split(s)
  {
    if IsAbsolute(s) then Split(s) else base + Split(s)
  }

  /** `base / a / b == base / (a + "/" + b)` for a non-empty `a` and a relative `b`. */
  lemma JoinJoin(base: Path, a: string, b: string)
    requires a != "" && !IsAbsolute(b)
    ensures Join(Join(base, a), b) == Join(base, a + "/" + b)
  {
    var s := a + "/" + b;
    assert IsAbsolute(s) == IsAbsolute(a) by {
      assert s[0] == a[0];
    }
    assert Split(s) == Split(a) + Split(b) by {
      SplitSlash(a, b);
    }
    if !IsAbsolute(a) {
      assert (base + Split(a)) + Split(b) == base + (Split(a) + Split(b));
    }
  }

  /** Path(s) for a path text read from a configuration file. */
  function PathOf(s: string): Path {
    Split(s)
  }

  /** An entry of the filesystem: a file with its size and, when it can be read as text, its contents. */
  datatype Node = File(size: nat, text: Option<string>) | Dir

  /** The filesystem: every existing path and what is there. */
  type Fs = map<Path, Node>

  /** Path.read_text(): the contents of a readable file; None where reading raises. */
  function ReadText(fs: Fs, p: Path): (r: Option<string>)
    ensures p in fs && fs[p].File? ==> r == fs[p].text
    ensures !(p in fs && fs[p].File?) ==> r == None
  {
    if p in fs && fs[p].File? then fs[p].text else None
  }

  /** The entries directly inside `dir` (Path.iterdir()). */
  function Children(fs: Fs, dir: Path): (r: set<Path>)
    ensures forall q :: q in r <==> q in fs && |q| == |dir| + 1 && dir < q
  {
    set q | q in fs.Keys && |q| == |dir| + 1 && dir < q
  }

  /** Every existing entry strictly beneath `dir` (Path.rglob("*")). */
  function Descendants(fs: Fs, dir: Path): (r: set<Path>)
    ensures forall q :: q in r <==> q in fs && dir < q
  {
    set q | q in fs.Keys && dir < q
  }

  /** Every prefix of an existing path exists: each entry's directories are entries too. */
  predicate PrefixClosed(fs: Fs) {
    forall q, k :: q in fs && 0 <= k <= |q| ==> q[..k] in fs
  }

  /** The entries of a directory are exactly the existing paths whose parent it is. */
  lemma ChildrenParent(fs: Fs, dir: Path, q: Path)
    ensures q in Children(fs, dir) <==> q in fs && q != [] && q[..|q| - 1] == dir
  {
  }

  /** What rglob finds is what iterdir finds, plus what rglob finds beneath each of those entries. */
  lemma DescendantsStep(fs: Fs, dir: Path, q: Path)
    requires PrefixClosed(fs)
    ensures q in Descendants(fs, dir) <==> q in Children(fs, dir) || exists c :: c in Children(fs, dir) && q in Descendants(fs, c)
  {
    if q in Descendants(fs, dir) && q !in Children(fs, dir) {
      var c := q[..|dir| + 1];
      assert c in fs;
      assert c in Children(fs, dir) && q in Descendants(fs, c);
    }
  }
}
