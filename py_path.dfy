/** The parts of `pathlib` and of the file system the core looks at: a file name's
    `suffix` and `stem`, a path's `parent` and `str()`, and directory entries. */
module PyPath {
  import opened PyCore
  import opened PyStr

  /** `name.rfind('.')`: the index of the last dot, or -1. */
  function RFindDot(name: string): (i: int)
    ensures -1 <= i < |name|
    ensures i >= 0 ==> name[i] == '.'
    ensures forall j :: i < j < |name| ==> name[j] != '.'
  {
    if name == [] then -1
    else if name[|name| - 1] == '.' then |name| - 1
    else RFindDot(name[..|name| - 1])
  }

  /** `PurePath(name).suffix`: from the last dot on, when that dot is neither the first
      nor the last character; otherwise empty. */
  function Suffix(name: string): (s: string)
    ensures s == [] || (|s| >= 2 && s[0] == '.' && '.' !in s[1..])
    ensures EndsWith(name, s)
  {
    var i := RFindDot(name);
    if 0 < i < |name| - 1 then name[i..] else ""
  }

  /** `PurePath(name).stem`: the name without its suffix. */
  function Stem(name: string): (s: string)
    ensures Stem(name) + Suffix(name) == name
  {
    var i := RFindDot(name);
    if 0 < i < |name| - 1 then name[..i] else name
  }

  /** A name of the form `<stem><ext>` where `ext` is a dot followed by dot-free characters
      and the stem is non-empty has exactly that suffix and stem. */
  lemma SuffixOf(name: string, n: nat)
    requires 0 < n < |name| - 1 && name[n] == '.' && '.' !in name[n + 1..]
    ensures Suffix(name) == name[n..] && Stem(name) == name[..n]
  {
    var i := RFindDot(name);
    assert i >= n;
  }

  /** Case mapping keeps every dot where it is, so names equal up to case have their last
      dot at the same place. */
  lemma {:induction false} RFindDotIgnoresCase(a: string, b: string)
    requires SameUpToCase(a, b)
    ensures RFindDot(a) == RFindDot(b)
  {
    SameUpToCaseMeaning(a, b);
    if a != [] {
      var n := |a| - 1;
      UpperSlice(a, 0, n);
      UpperSlice(b, 0, n);
      RFindDotIgnoresCase(a[..n], b[..n]);
    }
  }

  /** Names equal up to case have suffixes and stems equal up to case. */
  lemma SuffixStemIgnoreCase(a: string, b: string)
    requires SameUpToCase(a, b)
    ensures SameUpToCase(Suffix(a), Suffix(b)) && SameUpToCase(Stem(a), Stem(b))
  {
    RFindDotIgnoresCase(a, b);
    assert |a| == |b| by {
      SameUpToCaseMeaning(a, b);
    }
    SuffixIgnoresCase(a, b);
    StemIgnoresCase(a, b);
  }

  lemma SuffixIgnoresCase(a: string, b: string)
    requires SameUpToCase(a, b) && |a| == |b| && RFindDot(a) == RFindDot(b)
    ensures SameUpToCase(Suffix(a), Suffix(b))
  {
    var i := RFindDot(a);
    if 0 < i < |a| - 1 {
      var sa, sb := a[i..], b[i..];
      assert Suffix(a) == sa && Suffix(b) == sb;
      UpperSlice(a, i, |a|);
      UpperSlice(b, i, |b|);
      assert a[i..|a|] == sa && b[i..|b|] == sb;
      assert Upper(sa) == Upper(a)[i..] == Upper(b)[i..] == Upper(sb);
    }
  }

  lemma StemIgnoresCase(a: string, b: string)
    requires SameUpToCase(a, b) && |a| == |b| && RFindDot(a) == RFindDot(b)
    ensures SameUpToCase(Stem(a), Stem(b))
  {
    var i := RFindDot(a);
    if 0 < i < |a| - 1 {
      assert Stem(a) == a[0..i] && Stem(b) == b[0..i];
      SliceIgnoresCase(a, b, 0, i);
    }
  }

  lemma SliceIgnoresCase(a: string, b: string, i: nat, j: nat)
    requires SameUpToCase(a, b) && |a| == |b| && i <= j <= |a|
    ensures SameUpToCase(a[i..j], b[i..j])
  {
    UpperSlice(a, i, j);
    UpperSlice(b, i, j);
  }

  /** A `pathlib.Path`: absolute or relative, with its components. */
  datatype Path = Path(absolute: bool, parts: seq<string>)

  /** `path.parent`: the path without its last component; the root and `.` are their own
      parents. */
  function Parent(p: Path): (q: Path)
    ensures q.absolute == p.absolute
    ensures p.parts == [] ==> q == p
    ensures p.parts != [] ==> q.parts + [p.parts[|p.parts| - 1]] == p.parts
  {
    if p.parts == [] then p else Path(p.absolute, p.parts[..|p.parts| - 1])
  }

  /** `str(path)` */
  function PathString(p: Path): string {
    if p.absolute then "/" + Join("/", p.parts)
    else if p.parts == [] then "."
    else Join("/", p.parts)
  }

  /** What `is_file()` / `is_dir()` say about an existing path. */
  datatype Kind = RegularFile | Directory | Special

  /** A directory entry as `iterdir()` yields it: its name, its kind, what reading it as
      UTF-8 text gives, and (for a directory) its own entries in listing order. */
  datatype Entry = Entry(name: string, kind: Kind, content: Outcome<string>, children: seq<Entry>)

  /** The file system as far as `exists()` and `is_dir()` see it. */
  type FileSystem = map<Path, Kind>
}
