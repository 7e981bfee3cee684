/**
 * The parts of Rust's `std::path` that the file server uses, on Unix, over path
 * strings: `Path::join`, `Path::file_name`, `Path::extension` and
 * `Path::with_extension`.
 */
module Paths {
  import opened Wrappers
  import opened Text

  /**
   * `Path::join`: a component that starts with `/` replaces the base; otherwise a
   * `/` is inserted when the base is non-empty and does not already end with one.
   */
  function Join(base: string, rel: string): (r: string)
    ensures !StartsWith(rel, "/") ==>
              |base| + |rel| <= |r| <= |base| + 1 + |rel| &&
              r[..|base|] == base && r[|r| - |rel|..] == rel
    ensures StartsWith(rel, "/") ==> r == rel
    ensures !StartsWith(rel, "/") ==>
              (|r| == |base| + 1 + |rel| <==> |base| > 0 && base[|base| - 1] != '/')
    ensures !StartsWith(rel, "/") && |r| == |base| + 1 + |rel| ==> r[|base|] == '/'
  {
    if StartsWith(rel, "/") then rel
    else if |base| > 0 && base[|base| - 1] != '/' then base + "/" + rel
    else base + rel
  }

  /** Index of the last occurrence of `c` in `s[..end]`. */
  function LastIndex(s: string, c: char, end: nat): (r: Option<nat>)
    requires end <= |s|
    ensures r.Some? ==> r.value < end && s[r.value] == c
    ensures r.Some? ==> forall k :: r.value < k < end ==> s[k] != c
    ensures r.None? ==> forall k :: 0 <= k < end ==> s[k] != c
    decreases end
  {
    if end == 0 then None
    else if s[end - 1] == c then Some(end - 1)
    else LastIndex(s, c, end - 1)
  }

  /** The start of the `/`-separated segment of `p` that ends at `end`. */
  function SegmentStart(p: string, end: nat): (r: nat)
    requires end <= |p|
    ensures r <= end
    ensures r > 0 ==> p[r - 1] == '/'
    ensures forall k :: r <= k < end ==> p[k] != '/'
  {
    match LastIndex(p, '/', end)
    case None => 0
    case Some(i) => i + 1
  }

  /**
   * The span of the last component of `p[..end]`, skipping empty segments and
   * `.` segments as `Path::components` does; `None` when nothing is left.
   */
  function LastComponent(p: string, end: nat): (r: Option<(nat, nat)>)
    requires end <= |p|
    ensures r.Some? ==> r.value.0 < r.value.1 <= end
    decreases end
  {
    var start := SegmentStart(p, end);
    if start == end then
      if end == 0 then None else LastComponent(p, end - 1)
    else if p[start..end] == "." then
      if start == 0 then None else LastComponent(p, start - 1)
    else Some((start, end))
  }

  /** `Path::file_name`: the last component, unless it is `..` or there is none. */
  function FileName(p: string): (r: Option<string>)
  {
    match LastComponent(p, |p|)
    case None => None
    case Some(span) =>
      var name := p[span.0..span.1];
      if name == ".." then None else Some(name)
  }

  /**
   * The extension part of a file name as `Path::extension` splits it: the text
   * after the last `.`, unless there is no `.` or the only split point is a
   * leading `.` (so `.x` has none and `foo.` has the empty extension).
   */
  function NameExtension(name: string): (r: Option<string>)
  {
    if name == ".." then None
    else match LastIndex(name, '.', |name|)
      case None => None
      case Some(i) => if i == 0 then None else Some(name[i + 1..])
  }

  /** `Path::extension`. */
  function Extension(p: string): (r: Option<string>)
  {
    match FileName(p)
    case None => None
    case Some(name) => NameExtension(name)
  }

  /** Length of the file stem of a file name (`Path::file_stem`). */
  function StemLength(name: string): (n: nat)
    ensures n <= |name|
  {
    match LastIndex(name, '.', |name|)
    case None => |name|
    case Some(i) => if i == 0 then |name| else i
  }

  /**
   * `Path::with_extension(ext)` for a non-empty `ext`: everything after the file
   * stem is cut off and `.ext` appended; a path with no file name is unchanged.
   */
  function WithExtension(p: string, ext: string): (r: string)
    requires |ext| > 0
  {
    match LastComponent(p, |p|)
    case None => p
    case Some(span) =>
      var name := p[span.0..span.1];
      if name == ".." then p else p[..span.0] + (name[..StemLength(name)] + "." + ext)
  }

  /** `SegmentStart` is determined by the three properties its contract states. */
  lemma SegmentStartUnique(p: string, end: nat, s: nat)
    requires s <= end <= |p|
    requires s > 0 ==> p[s - 1] == '/'
    requires forall k :: s <= k < end ==> p[k] != '/'
    ensures SegmentStart(p, end) == s
  {
  }

  /** A file name `a.b` whose part `b` holds no `.` splits at that last `.`. */
  lemma LastDotOfSuffix(a: string, b: string)
    requires forall k :: 0 <= k < |b| ==> b[k] != '.'
    ensures LastIndex(a + "." + b, '.', |a + "." + b|) == Some(|a|)
  {
    var s := a + "." + b;
    assert s[|a|] == '.';
    assert forall k :: |a| < k < |s| ==> s[k] == b[k - |a| - 1];
  }

  /**
   * A path that has a file name gets, from `with_extension(ext)`, a path whose
   * extension is `ext`: the fallback to the `.html` sibling really looks up an
   * `.html` file.
   */
  lemma WithExtensionHasExtension(p: string, ext: string)
    requires |ext| > 0
    requires forall k :: 0 <= k < |ext| ==> ext[k] != '.' && ext[k] != '/'
    requires FileName(p).Some?
    ensures Extension(WithExtension(p, ext)) == Some(ext)
  {
    var span := LastComponent(p, |p|).value;
    var name := p[span.0..span.1];
    LastComponentSpan(p, |p|);
    var n := StemLength(name);
    var dir, stem := p[..span.0], name[..n];
    assert n > 0 by { assert |name| > 0; }
    assert forall j :: 0 <= j < |stem| ==> stem[j] != '/' by {
      assert forall j :: 0 <= j < |stem| ==> stem[j] == p[span.0 + j];
    }
    ExtensionOfAppended(dir, stem, ext);
  }


  /** `dir/stem.ext` has the extension `ext`. */
  lemma ExtensionOfAppended(dir: string, stem: string, ext: string)
    requires |dir| > 0 ==> dir[|dir| - 1] == '/'
    requires |stem| > 0 && |ext| > 0
    requires forall j :: 0 <= j < |stem| ==> stem[j] != '/'
    requires forall k :: 0 <= k < |ext| ==> ext[k] != '.' && ext[k] != '/'
    ensures Extension(dir + (stem + "." + ext)) == Some(ext)
  {
    var comp := stem + "." + ext;
    assert forall j :: 0 <= j < |comp| ==> comp[j] != '/' by {
      assert forall j :: |stem| < j < |comp| ==> comp[j] == ext[j - |stem| - 1];
    }
    FinalComponent(dir, comp);
    assert (dir + comp)[|dir|..|dir + comp|] == comp;
    assert comp != ".." by { assert comp[|comp| - 1] == ext[|ext| - 1]; }
    assert FileName(dir + comp) == Some(comp);
    LastDotOfSuffix(stem, ext);
    assert comp[|stem| + 1..] == ext;
  }

  /**
   * Appending a component without `/` (and other than `.`) to a path that is
   * empty or ends in `/` makes that component the file name.
   */
  lemma FinalComponent(dir: string, comp: string)
    requires |dir| > 0 ==> dir[|dir| - 1] == '/'
    requires |comp| > 0 && comp != "."
    requires forall j :: 0 <= j < |comp| ==> comp[j] != '/'
    ensures LastComponent(dir + comp, |dir + comp|) == Some((|dir|, |dir + comp|))
  {
    var q := dir + comp;
    assert forall j :: |dir| <= j < |q| ==> q[j] == comp[j - |dir|];
    SegmentStartUnique(q, |q|, |dir|);
    assert q[|dir|..|q|] == comp;
  }

  /** The span `LastComponent` reports is a whole `/`-separated segment. */
  lemma {:induction false} LastComponentSpan(p: string, end: nat)
    requires end <= |p|
    requires LastComponent(p, end).Some?
    ensures SegmentStart(p, LastComponent(p, end).value.1) == LastComponent(p, end).value.0
    decreases end
  {
    var start := SegmentStart(p, end);
    if start == end {
      LastComponentSpan(p, end - 1);
    } else if p[start..end] == "." {
      LastComponentSpan(p, start - 1);
    }
  }

  /**
   * What `Path::extension` returns, characterised without the scan: an
   * extension `x` means the file name is `stem.x` with a non-empty stem and no
   * `.` in `x`; no extension means the file name has no `.` past its first
   * character (or there is no file name).
   */
  lemma ExtensionMeaning(p: string)
    ensures Extension(p).Some? ==>
              FileName(p).Some? &&
              var name, x := FileName(p).value, Extension(p).value;
              |x| + 1 < |name| && name[|name| - |x| - 1] == '.' && name[|name| - |x|..] == x &&
              forall k :: 0 <= k < |x| ==> x[k] != '.'
    ensures Extension(p).None? && FileName(p).Some? ==>
              var name := FileName(p).value;
              forall k :: 0 < k < |name| ==> name[k] != '.'
  {
  }

  /** The edge cases of `Path::extension`: `foo.`, `.x`, `..` and a plain name. */
  lemma ExtensionEdgeCases()
    ensures NameExtension("foo.") == Some("")
    ensures NameExtension(".x") == None
    ensures NameExtension("..") == None
    ensures NameExtension("index.html") == Some("html")
    ensures NameExtension("archive.tar.gz") == Some("gz")
    ensures NameExtension("README") == None
  {
    assert LastIndex("foo.", '.', 4) == Some(3);
    assert "foo."[4..] == "";
    assert LastIndex(".x", '.', 2) == Some(0);
    assert LastIndex("index.html", '.', 10) == Some(5);
    assert LastIndex("archive.tar.gz", '.', 14) == Some(11);
    assert LastIndex("README", '.', 6) == None;
  }
}
