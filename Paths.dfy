/** std::filesystem::path, reduced to what the pipeline uses: a path is the
    sequence of its names, rendered with the Windows separator '\'. */
module Paths {
  import opened Wrappers
  import opened Strings

  type Path = seq<string>

  const PATH_SEPARATOR := "\\"

  /** path::string() */
  function Render(p: Path): string
  {
    Join(p, PATH_SEPARATOR)
  }

  /** path::parent_path() */
  function Parent(p: Path): Path
  {
    if |p| == 0 then [] else p[..|p| - 1]
  }

  /** path::filename() */
  function FileName(p: Path): string
  {
    if |p| == 0 then "" else p[|p| - 1]
  }

  /** operator/ : the entry `name` inside directory `dir`. */
  function Child(dir: Path, name: string): (p: Path)
    ensures Parent(p) == dir && FileName(p) == name
  {
    dir + [name]
  }

  function LastIndexOf(s: string, c: char): (r: Option<nat>)
    ensures r.Some? ==> r.value < |s| && s[r.value] == c
    decreases |s|
  {
    if |s| == 0 then None
    else if s[|s| - 1] == c then Some(|s| - 1)
    else LastIndexOf(s[..|s| - 1], c)
  }

  /** The index found is the last occurrence, and none is found only when
      the character does not occur. */
  lemma {:induction false} LastIndexOfIsLast(s: string, c: char)
    ensures var r := LastIndexOf(s, c);
      (r.Some? ==> forall j :: r.value < j < |s| ==> s[j] != c)
      && (r.None? ==> forall j :: 0 <= j < |s| ==> s[j] != c)
    decreases |s|
  {
    if |s| > 0 && s[|s| - 1] != c {
      LastIndexOfIsLast(s[..|s| - 1], c);
    }
  }

  /** Index of the dot that starts the extension of a file name: the last
      dot, unless it is the first character or the name is "." or "..". */
  function ExtensionDot(name: string): Option<nat>
  {
    if name == "." || name == ".." then None
    else match LastIndexOf(name, '.')
      case Some(i) => if i == 0 then None else Some(i)
      case None => None
  }

  function StemOf(name: string): string
  {
    match ExtensionDot(name)
    case Some(i) => name[..i]
    case None => name
  }

  function ExtensionOf(name: string): string
  {
    match ExtensionDot(name)
    case Some(i) => name[i..]
    case None => ""
  }

  /** The stem and the extension split the file name, and a non-empty
      extension is a dot followed by a text without dots. */
  lemma StemAndExtension(name: string)
    ensures StemOf(name) + ExtensionOf(name) == name
    ensures ExtensionOf(name) != "" ==>
      ExtensionOf(name)[0] == '.' && '.' !in ExtensionOf(name)[1..] && StemOf(name) != ""
  {
    LastIndexOfIsLast(name, '.');
    match ExtensionDot(name)
    case Some(i) =>
      assert name[..i] + name[i..] == name;
      var e := name[i..];
      forall k | 0 <= k < |e[1..]| ensures e[1..][k] != '.' {
        assert e[1..][k] == name[i + 1 + k];
      }
    case None =>
  }

  /** path::stem() */
  function Stem(p: Path): string
  {
    StemOf(FileName(p))
  }

  /** path::extension() */
  function Extension(p: Path): string
  {
    ExtensionOf(FileName(p))
  }

  /** Lexicographic order of names by character code, the order of
      std::set<std::filesystem::path> for entries of one directory. */
  predicate Less(a: string, b: string)
    decreases |a|
  {
    if |a| == 0 then |b| > 0
    else |b| > 0 && (a[0] < b[0] || (a[0] == b[0] && Less(a[1..], b[1..])))
  }

  lemma {:induction false} LessIrreflexive(a: string)
    ensures !Less(a, a)
    decreases |a|
  {
    if |a| > 0 {
      LessIrreflexive(a[1..]);
    }
  }

  lemma {:induction false} LessTransitive(a: string, b: string, c: string)
    requires Less(a, b) && Less(b, c)
    ensures Less(a, c)
    decreases |a|
  {
    if |a| > 0 && a[0] == b[0] && b[0] == c[0] {
      LessTransitive(a[1..], b[1..], c[1..]);
    }
  }

  lemma {:induction false} LessTotal(a: string, b: string)
    ensures a == b || Less(a, b) || Less(b, a)
    decreases |a|
  {
    if |a| > 0 && |b| > 0 && a[0] == b[0] {
      LessTotal(a[1..], b[1..]);
      if a[1..] == b[1..] {
        assert a == [a[0]] + a[1..] && b == [b[0]] + b[1..];
      }
    }
  }

  lemma LessAsymmetric(a: string, b: string)
    requires Less(a, b)
    ensures !Less(b, a) && a != b
  {
    if Less(b, a) {
      LessTransitive(a, b, a);
      LessIrreflexive(a);
    }
    if a == b {
      LessIrreflexive(a);
    }
  }

  predicate StrictlySorted(s: seq<string>)
  {
    forall i, j :: 0 <= i < j < |s| ==> Less(s[i], s[j])
  }

  /** std::set::insert on a set kept as a strictly sorted sequence. */
  function Insert(s: seq<string>, x: string): seq<string>
    decreases |s|
  {
    if s == [] then [x]
    else if x == s[0] then s
    else if Less(x, s[0]) then [x] + s
    else [s[0]] + Insert(s[1..], x)
  }

  lemma {:induction false} InsertSorted(s: seq<string>, x: string)
    requires StrictlySorted(s)
    ensures StrictlySorted(Insert(s, x))
    ensures forall y :: y in Insert(s, x) <==> y in s || y == x
    decreases |s|
  {
    if s == [] {
    } else if x == s[0] {
    } else if Less(x, s[0]) {
      var r := [x] + s;
      forall i, j | 0 <= i < j < |r| ensures Less(r[i], r[j]) {
        if i == 0 && j > 1 {
          LessTransitive(x, s[0], s[j - 1]);
        }
      }
    } else {
      var tail := Insert(s[1..], x);
      InsertSorted(s[1..], x);
      LessTotal(x, s[0]);
      var r := [s[0]] + tail;
      forall i, j | 0 <= i < j < |r| ensures Less(r[i], r[j]) {
        if i == 0 {
          assert r[j] in tail;
          if r[j] != x {
            var k :| 1 <= k < |s| && s[k] == r[j];
          }
        } else {
          assert r[i] == tail[i - 1] && r[j] == tail[j - 1];
        }
      }
      assert forall y :: y in s <==> y == s[0] || y in s[1..];
    }
  }

  /** The content of a std::set after inserting `names` one by one. */
  function SortedSet(names: seq<string>): seq<string>
    decreases |names|
  {
    if names == [] then [] else Insert(SortedSet(names[..|names| - 1]), names[|names| - 1])
  }

  /** The set holds every name once, in increasing order. */
  lemma {:induction false} SortedSetSpec(names: seq<string>)
    ensures StrictlySorted(SortedSet(names))
    ensures forall y :: y in SortedSet(names) <==> y in names
    decreases |names|
  {
    if names != [] {
      var init := names[..|names| - 1];
      SortedSetSpec(init);
      InsertSorted(SortedSet(init), names[|names| - 1]);
      assert names == init + [names[|names| - 1]];
    }
  }

  lemma LessAntisymmetric(a: string, b: string)
    ensures !(Less(a, b) && Less(b, a))
  {
    if Less(a, b) && Less(b, a) {
      LessTransitive(a, b, a);
      LessIrreflexive(a);
    }
  }

  /** The head of a strictly sorted sequence is below all its other elements. */
  lemma SortedHead(s: seq<string>, y: string)
    requires StrictlySorted(s) && y in s
    ensures y == s[0] || Less(s[0], y)
  {
  }

  /** Two strictly sorted sequences with the same elements are equal, so
      SortedSet is the only ordering a std::set can have. */
  lemma {:induction false} SortedUnique(s: seq<string>, t: seq<string>)
    requires StrictlySorted(s) && StrictlySorted(t)
    requires forall y :: y in s <==> y in t
    ensures s == t
    decreases |s|
  {
    if s != [] { assert s[0] in t; }
    if t != [] { assert t[0] in s; }
    if s != [] && t != [] {
      SortedHead(s, t[0]);
      SortedHead(t, s[0]);
      LessAntisymmetric(s[0], t[0]);
      assert s[0] == t[0];
      forall y ensures y in s[1..] <==> y in t[1..] {
        if y in s[1..] {
          var i :| 1 <= i < |s| && s[i] == y;
          LessAsymmetric(s[0], y);
          assert y in t;
        }
        if y in t[1..] {
          var i :| 1 <= i < |t| && t[i] == y;
          LessAsymmetric(t[0], y);
          assert y in s;
        }
      }
      SortedUnique(s[1..], t[1..]);
      assert s == [s[0]] + s[1..] && t == [t[0]] + t[1..];
    }
  }
}
