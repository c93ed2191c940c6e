/** Paths, file extensions, the order `PathBuf` sorts in, and the directory walk the
    rule loaders consume.

    A path is the sequence of its normal components (`/etc/ananicy.d/games/x.rules` is
    `["etc", "ananicy.d", "games", "x.rules"]`); the root, `.` and `..` components do
    not occur in the paths a directory walk yields and are not represented. */
module Paths {
  import opened Wrappers

  type Path = seq<string>

  /** `Path::file_name`: the last component, if any. */
  function FileName(p: Path): Option<string> {
    if p == [] then None else Some(p[|p| - 1])
  }

  /** Position of the last occurrence of `c` in `s`. */
  function LastIndexOf(s: string, c: char): (r: Option<nat>)
    ensures r.Some? ==> r.value < |s| && s[r.value] == c && forall k :: r.value < k < |s| ==> s[k] != c
    ensures r.None? ==> c !in s
    decreases |s|
  {
    if s == [] then None
    else if s[|s| - 1] == c then Some(|s| - 1)
    else LastIndexOf(s[..|s| - 1], c)
  }

  /** `Path::extension` on a file name: the text after the last dot, unless the name is
      `..` or that dot is its first character (so `.rules` has no extension). */
  function ExtensionOf(name: string): Option<string> {
    if name == ".." then None
    else
      match LastIndexOf(name, '.')
      case None => None
      case Some(i) => if i == 0 then None else Some(name[i + 1..])
  }

  function Extension(p: Path): Option<string> {
    match FileName(p)
    case None => None
    case Some(name) => ExtensionOf(name)
  }

  /** The loaders' filter: `entry.path().extension() == Some("rules")`. */
  predicate IsRulesFile(p: Path) {
    Extension(p) == Some("rules")
  }

  /** A name has extension `e` exactly when it is a non-empty stem, a dot and a
      dot-free `e` (the name `..` aside). */
  lemma ExtensionOfShape(name: string, e: string)
    ensures ExtensionOf(name) == Some(e) <==>
            (name != ".." && exists stem :: stem != [] && name == stem + "." + e && '.' !in e)
  {
    if ExtensionOf(name) == Some(e) {
      var i := LastIndexOf(name, '.').value;
      assert name == name[..i] + "." + e;
    }
    if name != ".." && exists stem :: stem != [] && name == stem + "." + e && '.' !in e {
      var stem :| stem != [] && name == stem + "." + e && '.' !in e;
      assert name[|stem|] == '.';
      var r := LastIndexOf(name, '.');
      assert r.Some?;
      var i := r.value;
      assert forall k :: |stem| < k < |name| ==> name[k] == e[k - |stem| - 1];
      assert i == |stem|;
      assert name[i + 1..] == e;
    }
  }

  // ---------------------------------------------------------------------------
  // Ordering
  // ---------------------------------------------------------------------------

  /** Lexicographic order of strings by character code, which is the byte order of their
      UTF-8 encodings (the order `OsStr` compares in). */
  predicate StrLe(a: string, b: string)
    decreases |a|
  {
    if a == [] then true
    else if b == [] then false
    else if a[0] != b[0] then a[0] < b[0]
    else StrLe(a[1..], b[1..])
  }

  /** The order of `Path`: component by component, a proper prefix first. */
  predicate PathLe(a: Path, b: Path)
    decreases |a|
  {
    if a == [] then true
    else if b == [] then false
    else if a[0] != b[0] then StrLe(a[0], b[0])
    else PathLe(a[1..], b[1..])
  }

  lemma {:induction false} StrLeTotal(a: string, b: string)
    ensures StrLe(a, b) || StrLe(b, a)
    decreases |a|
  {
    if a != [] && b != [] && a[0] == b[0] {
      StrLeTotal(a[1..], b[1..]);
    }
  }

  lemma {:induction false} StrLeAntisymmetric(a: string, b: string)
    requires StrLe(a, b) && StrLe(b, a)
    ensures a == b
    decreases |a|
  {
    if a != [] {
      StrLeAntisymmetric(a[1..], b[1..]);
      assert a == [a[0]] + a[1..] && b == [b[0]] + b[1..];
    }
  }

  lemma {:induction false} StrLeTransitive(a: string, b: string, c: string)
    requires StrLe(a, b) && StrLe(b, c)
    ensures StrLe(a, c)
    decreases |a|
  {
    if a != [] && b != [] && c != [] && a[0] == b[0] && b[0] == c[0] {
      StrLeTransitive(a[1..], b[1..], c[1..]);
    }
  }

  lemma {:induction false} PathLeReflexive(a: Path)
    ensures PathLe(a, a)
    decreases |a|
  {
    if a != [] {
      PathLeReflexive(a[1..]);
    }
  }

  lemma {:induction false} PathLeTotal(a: Path, b: Path)
    ensures PathLe(a, b) || PathLe(b, a)
    decreases |a|
  {
    if a != [] && b != [] {
      if a[0] == b[0] {
        PathLeTotal(a[1..], b[1..]);
      } else {
        StrLeTotal(a[0], b[0]);
      }
    }
  }

  lemma {:induction false} PathLeAntisymmetric(a: Path, b: Path)
    requires PathLe(a, b) && PathLe(b, a)
    ensures a == b
    decreases |a|
  {
    if a != [] {
      if a[0] == b[0] {
        PathLeAntisymmetric(a[1..], b[1..]);
        assert a == [a[0]] + a[1..] && b == [b[0]] + b[1..];
      } else {
        StrLeAntisymmetric(a[0], b[0]);
      }
    }
  }

  lemma {:induction false} PathLeTransitive(a: Path, b: Path, c: Path)
    requires PathLe(a, b) && PathLe(b, c)
    ensures PathLe(a, c)
    decreases |a|
  {
    if a != [] && b != [] && c != [] {
      if a[0] == b[0] && b[0] == c[0] {
        PathLeTransitive(a[1..], b[1..], c[1..]);
      } else if a[0] == b[0] {
        assert StrLe(b[0], c[0]);
      } else if b[0] == c[0] {
        assert StrLe(a[0], b[0]);
      } else {
        StrLeTransitive(a[0], b[0], c[0]);
        if a[0] == c[0] {
          StrLeAntisymmetric(a[0], b[0]);
        }
      }
    }
  }

  // ---------------------------------------------------------------------------
  // Directory walks
  // ---------------------------------------------------------------------------

  /** One entry a directory walk yields, with what reading it as UTF-8 text gives
      (`None` for a directory or a file that cannot be read). */
  datatype FileEntry = FileEntry(path: Path, content: Option<string>)

  /** The file system as the loaders see it: each existing base path mapped to the
      entries its walk yields, in walk order. A path that is not a key does not exist. */
  type FileTree = map<Path, seq<FileEntry>>

  /** `path.exists()` followed by the walk. */
  function Walk(tree: FileTree, base: Path): Option<seq<FileEntry>> {
    if base in tree then Some(tree[base]) else None
  }

  predicate SortedByPath(es: seq<FileEntry>) {
    forall i, j :: 0 <= i < j < |es| ==> PathLe(es[i].path, es[j].path)
  }

  /** Places `e` after every entry whose path is not greater than its own. */
  function Insert(e: FileEntry, s: seq<FileEntry>): (r: seq<FileEntry>)
    requires SortedByPath(s)
    ensures SortedByPath(r)
    ensures multiset(r) == multiset(s) + multiset{e}
    decreases |s|
  {
    if s == [] || PathLe(s[|s| - 1].path, e.path) then
      SortedBelowLast(s, e.path);
      SortedSnoc(s, e);
      s + [e]
    else
      var last := s[|s| - 1];
      var front := s[..|s| - 1];
      assert s == front + [last];
      PathLeTotal(last.path, e.path);
      var r := Insert(e, front);
      SortedBelowLast(front, last.path);
      MultisetBelow(r, front, e, last.path);
      SortedSnoc(r, last);
      r + [last]
  }

  /** In a sorted sequence every entry is below a path the last entry is below. */
  lemma SortedBelowLast(s: seq<FileEntry>, p: Path)
    requires SortedByPath(s)
    requires s != [] ==> PathLe(s[|s| - 1].path, p)
    ensures forall x :: x in s ==> PathLe(x.path, p)
  {
    forall x | x in s ensures PathLe(x.path, p) {
      var i :| 0 <= i < |s| && s[i] == x;
      if i < |s| - 1 {
        PathLeTransitive(s[i].path, s[|s| - 1].path, p);
      }
    }
  }

  /** A bound on the entries of `s` and on `e` bounds every entry of a sequence that
      holds exactly them. */
  lemma MultisetBelow(r: seq<FileEntry>, s: seq<FileEntry>, e: FileEntry, p: Path)
    requires multiset(r) == multiset(s) + multiset{e}
    requires forall x :: x in s ==> PathLe(x.path, p)
    requires PathLe(e.path, p)
    ensures forall x :: x in r ==> PathLe(x.path, p)
  {
    forall x | x in r ensures PathLe(x.path, p) {
      assert x in multiset(r);
      if x != e {
        assert x in multiset(s);
      }
    }
  }

  /** Appending an entry not smaller than any other keeps the order. */
  lemma SortedSnoc(s: seq<FileEntry>, e: FileEntry)
    requires SortedByPath(s)
    requires forall x :: x in s ==> PathLe(x.path, e.path)
    ensures SortedByPath(s + [e])
  {
    forall i, j | 0 <= i < j < |s + [e]| ensures PathLe((s + [e])[i].path, (s + [e])[j].path) {
      assert (s + [e])[i] == s[i];
      if j == |s| {
        assert s[i] in s;
      } else {
        assert (s + [e])[j] == s[j];
      }
    }
  }

  /** `sort_by_key(|e| e.path())`: the entries in ascending path order (a stable
      insertion sort). */
  function SortByPath(es: seq<FileEntry>): (r: seq<FileEntry>)
    ensures SortedByPath(r)
    ensures multiset(r) == multiset(es)
    decreases |es|
  {
    if es == [] then []
    else
      assert es == es[..|es| - 1] + [es[|es| - 1]];
      Insert(es[|es| - 1], SortByPath(es[..|es| - 1]))
  }

  /** No two different entries share a path (a walk yields each path once). */
  predicate PathDeterminesEntry(es: seq<FileEntry>) {
    forall x, y :: x in es && y in es && x.path == y.path ==> x == y
  }

  /** The first entry of a sorted sequence is not greater than any entry in it. */
  lemma SortedFirstIsLeast(a: seq<FileEntry>, x: FileEntry)
    requires SortedByPath(a) && x in a
    ensures PathLe(a[0].path, x.path)
  {
    var m :| 0 <= m < |a| && a[m] == x;
    if m == 0 {
      PathLeReflexive(x.path);
    }
  }

  lemma Tail(a: seq<FileEntry>)
    requires a != []
    ensures multiset(a[1..]) == multiset(a) - multiset{a[0]}
    ensures SortedByPath(a) ==> SortedByPath(a[1..])
    ensures PathDeterminesEntry(a) ==> PathDeterminesEntry(a[1..])
    ensures a == [a[0]] + a[1..]
  {
    assert a == [a[0]] + a[1..];
    assert forall x :: x in a[1..] ==> x in a;
  }

  /** A sorted arrangement of entries whose paths tell them apart is unique: two
      sorted sequences holding the same entries are equal. */
  lemma {:induction false} SortedUnique(a: seq<FileEntry>, b: seq<FileEntry>)
    requires SortedByPath(a) && SortedByPath(b)
    requires PathDeterminesEntry(a)
    requires multiset(a) == multiset(b)
    ensures a == b
    decreases |a|
  {
    if a == [] {
      assert |b| == |multiset(b)| == 0;
    } else {
      assert |b| == |multiset(b)| == |multiset(a)| == |a|;
      assert a[0] in multiset(b) && b[0] in multiset(a);
      SortedFirstIsLeast(a, b[0]);
      SortedFirstIsLeast(b, a[0]);
      PathLeAntisymmetric(a[0].path, b[0].path);
      assert b[0] == a[0];
      Tail(a);
      Tail(b);
      SortedUnique(a[1..], b[1..]);
    }
  }

  /** Sorting does not depend on the order the walk yielded the entries in. */
  lemma SortIgnoresWalkOrder(w1: seq<FileEntry>, w2: seq<FileEntry>)
    requires multiset(w1) == multiset(w2)
    requires PathDeterminesEntry(w1)
    ensures SortByPath(w1) == SortByPath(w2)
  {
    var s1, s2 := SortByPath(w1), SortByPath(w2);
    forall x, y | x in s1 && y in s1 && x.path == y.path ensures x == y {
      assert x in multiset(s1) && y in multiset(s1);
      assert x in w1 && y in w1;
    }
    SortedUnique(s1, s2);
  }
}
