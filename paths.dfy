/**
 * The part of Python's POSIX `pathlib` the program relies on: building a
 * path from text, `str(path)`, `path / name`, `.name`, `.parent`, the
 * ordering used by `sorted`, and the program's own `ensure_path`.
 *
 * A path is a root ("", "/" or the POSIX-reserved "//") and a tail of
 * components; no component is empty, equal to "." or holds a '/'.
 */
module Paths {
  import opened Strings

  datatype Parsed = Parsed(root: string, tail: seq<string>)

  /** A single path component as `pathlib` keeps it. */
  predicate IsPart(c: string) {
    c != "" && c != "." && '/' !in c
  }

  predicate IsRoot(r: string) {
    r == "" || r == "/" || r == "//"
  }

  predicate AllParts(parts: seq<string>) {
    forall i :: 0 <= i < |parts| ==> IsPart(parts[i])
  }

  /** No field of a split holds the separator. */
  predicate NoSeps(fields: seq<string>) {
    forall i :: 0 <= i < |fields| ==> '/' !in fields[i]
  }

  predicate WellFormed(p: Parsed) {
    IsRoot(p.root) && AllParts(p.tail)
  }

  /** Every value of this type is one `pathlib` can produce. */
  type Path = p: Parsed | WellFormed(p) witness Parsed("", [])

  /** The `PathLike` union: text, or an already-built path. */
  datatype PathLike = Text(text: string) | Structured(path: Path)

  // ---------------------------------------------------------------------
  // Text to path

  /** `posixpath.splitroot` without the drive: a leading "//" is kept, one or three and more slashes become "/". */
  function SplitRoot(s: string): (r: (string, string))
    ensures IsRoot(r.0) && s == r.0 + r.1
  {
    if |s| == 0 || s[0] != '/' then ("", s)
    else if |s| == 1 || s[1] != '/' || (|s| > 2 && s[2] == '/') then ("/", s[1..])
    else ("//", s[2..])
  }

  /** `s.split('/')` with `cur` the part of the current field already read. */
  function SplitFrom(s: string, cur: string): (r: seq<string>)
    requires '/' !in cur
    ensures |r| >= 1 && NoSeps(r)
    decreases |s|
  {
    if s == [] then [cur]
    else if s[0] == '/' then [cur] + SplitFrom(s[1..], "")
    else SplitFrom(s[1..], cur + [s[0]])
  }

  /** Python's `s.split('/')`. */
  function Split(s: string): seq<string> {
    SplitFrom(s, "")
  }

  /** `[x for x in fields if x and x != '.']`. */
  function KeepParts(fields: seq<string>): (r: seq<string>)
    requires NoSeps(fields)
    ensures AllParts(r)
  {
    if fields == [] then []
    else if fields[0] == "" || fields[0] == "." then KeepParts(fields[1..])
    else [fields[0]] + KeepParts(fields[1..])
  }

  /** `Path(s)`: split off the root, split the rest on '/', drop empty and "." fields. */
  function Parse(s: string): Path {
    var (root, rel) := SplitRoot(s);
    Parsed(root, KeepParts(Split(rel)))
  }

  // ---------------------------------------------------------------------
  // Path to text, and the operations on paths

  /** `'/'.join(parts)`. */
  function JoinParts(parts: seq<string>): string {
    if parts == [] then ""
    else if |parts| == 1 then parts[0]
    else parts[0] + "/" + JoinParts(parts[1..])
  }

  /** `str(p)`: the root followed by the joined tail, or "." for the empty relative path. */
  function Format(p: Path): string {
    if p.root == "" && p.tail == [] then "." else p.root + JoinParts(p.tail)
  }

  /** `os.path.join(a, b)` on POSIX for two texts. */
  function PosixJoin(a: string, b: string): string {
    if |b| > 0 && b[0] == '/' then b
    else if a == "" || a[|a| - 1] == '/' then a + b
    else a + "/" + b
  }

  /** The text `pathlib` keeps for a `PathLike` and joins on: the string itself, or `str(path)`. */
  function RawText(x: PathLike): string {
    match x
    case Text(s) => s
    case Structured(p) => Format(p)
  }

  /** `p.name`: the last component, or "" when there is none. */
  function Name(p: Path): string {
    if p.tail == [] then "" else p.tail[|p.tail| - 1]
  }

  /** `p.parent` of a path that has a last component. */
  function Parent(p: Path): Path
    requires p.tail != []
  {
    Parsed(p.root, p.tail[..|p.tail| - 1])
  }

  /** The path one component below `p`, built directly. */
  function Child(p: Path, c: string): (r: Path)
    requires IsPart(c)
    ensures r.tail != [] && Parent(r) == p && Name(r) == c
  {
    Parsed(p.root, p.tail + [c])
  }

  /** A path with a last component is that component below its parent. */
  lemma ParentChild(p: Path)
    requires p.tail != []
    ensures p == Child(Parent(p), Name(p))
  {
    assert p.tail == p.tail[..|p.tail| - 1] + [p.tail[|p.tail| - 1]];
  }

  /** `p / c` for a single component `c`: `pathlib` parses `os.path.join` of `p`'s text and `c`. */
  function Slash(p: PathLike, c: string): Path {
    Parse(PosixJoin(RawText(p), c))
  }

  /**
   * `ensure_path`: text is turned into a path, a path is returned unchanged.
   * `EnsurePathIdempotent` states what this means for a path's text.
   */
  function EnsurePath(x: PathLike): (r: Path)
    ensures x.Structured? ==> r == x.path
    ensures x.Text? ==> r == Parse(x.text)
  {
    match x
    case Text(s) =>
      Parse(s)
    case Structured(p) => p
  }

  /** The key `sorted` compares paths by: `str(p).split('/')`. */
  function Key(p: Path): seq<string> {
    Split(Format(p))
  }

  /** `p <= q` for two paths. */
  predicate PathLe(p: Path, q: Path) {
    ListLe(Key(p), Key(q))
  }

  // ---------------------------------------------------------------------
  // Splitting and joining text

  lemma {:induction false} SplitFromNoSep(c: string, cur: string)
    requires '/' !in c && '/' !in cur
    ensures SplitFrom(c, cur) == [cur + c]
    decreases |c|
  {
    if c == [] {
      assert cur + c == cur;
    } else {
      assert c[0] in c;
      SplitFromNoSep(c[1..], cur + [c[0]]);
      assert cur + [c[0]] + c[1..] == cur + c;
    }
  }

  /** Splitting at a separator splits each side on its own. */
  lemma {:induction false} SplitFromSep(a: string, b: string, cur: string)
    requires '/' !in cur
    ensures SplitFrom(a + "/" + b, cur) == SplitFrom(a, cur) + Split(b)
    decreases |a|
  {
    if a == [] {
      assert a + "/" + b == "/" + b;
      assert ("/" + b)[1..] == b;
    } else {
      assert (a + "/" + b)[0] == a[0];
      assert (a + "/" + b)[1..] == a[1..] + "/" + b;
      if a[0] == '/' {
        SplitFromSep(a[1..], b, "");
      } else {
        SplitFromSep(a[1..], b, cur + [a[0]]);
      }
    }
  }

  lemma {:induction false} KeepPartsAppend(xs: seq<string>, ys: seq<string>)
    requires NoSeps(xs) && NoSeps(ys)
    ensures NoSeps(xs + ys)
    ensures KeepParts(xs + ys) == KeepParts(xs) + KeepParts(ys)
  {
    if xs == [] {
      assert xs + ys == ys;
    } else {
      assert (xs + ys)[0] == xs[0];
      assert (xs + ys)[1..] == xs[1..] + ys;
      KeepPartsAppend(xs[1..], ys);
    }
  }

  lemma {:induction false} KeepPartsOfParts(parts: seq<string>)
    requires AllParts(parts)
    ensures NoSeps(parts) && KeepParts(parts) == parts
  {
    if parts != [] {
      KeepPartsOfParts(parts[1..]);
    }
  }

  lemma {:induction false} SplitJoinParts(parts: seq<string>)
    requires parts != [] && AllParts(parts)
    ensures Split(JoinParts(parts)) == parts
  {
    assert IsPart(parts[0]);
    SplitFromNoSep(parts[0], "");
    assert "" + parts[0] == parts[0];
    if |parts| > 1 {
      SplitJoinParts(parts[1..]);
      SplitFromSep(parts[0], JoinParts(parts[1..]), "");
      assert parts == [parts[0]] + parts[1..];
    }
  }

  lemma {:induction false} JoinPartsSnoc(parts: seq<string>, c: string)
    requires parts != []
    ensures JoinParts(parts + [c]) == JoinParts(parts) + "/" + c
  {
    if |parts| > 1 {
      assert (parts + [c])[1..] == parts[1..] + [c];
      JoinPartsSnoc(parts[1..], c);
    }
  }

  /** The joined tail of a well-formed path never starts with a separator. */
  lemma JoinPartsHead(parts: seq<string>)
    requires parts != [] && AllParts(parts)
    ensures |JoinParts(parts)| > 0 && JoinParts(parts)[0] != '/'
  {
    assert IsPart(parts[0]);
    assert parts[0][0] in parts[0];
  }

  /** A root followed by text that does not start with a separator splits back into the two. */
  lemma SplitRootOfRoot(root: string, rel: string)
    requires IsRoot(root) && (rel == "" || rel[0] != '/')
    ensures SplitRoot(root + rel) == (root, rel)
  {
    if root == "/" {
      assert (root + rel)[1..] == rel;
    } else if root == "//" {
      assert (root + rel)[2..] == rel;
    } else {
      assert root + rel == rel;
    }
  }

  /** Appending text after a root that is already decided leaves the root where it was. */
  lemma SplitRootAppend(s: string, t: string)
    requires s != []
    requires !(s[|s| - 1] == '/' && |t| > 0 && t[0] == '/')
    ensures SplitRoot(s + t) == (SplitRoot(s).0, SplitRoot(s).1 + t)
  {
    var u := s + t;
    assert u[0] == s[0];
    assert u[1..] == s[1..] + t;
    if |s| >= 2 { assert u[1] == s[1]; assert u[2..] == s[2..] + t; }
    if |s| >= 3 { assert u[2] == s[2]; }
  }

  // ---------------------------------------------------------------------
  // Properties of the path operations

  /** `Path(str(p)) == p`: printing a path and parsing the text gives the path back. */
  lemma ParseFormat(p: Path)
    ensures Parse(Format(p)) == p
  {
    if p.tail == [] {
      if p.root == "" {
        SplitFromNoSep(".", "");
        assert "" + "." == ".";
      } else {
        SplitRootOfRoot(p.root, "");
        assert p.root + "" == p.root;
      }
    } else {
      var j := JoinParts(p.tail);
      JoinPartsHead(p.tail);
      assert Format(p) == p.root + j;
      SplitRootOfRoot(p.root, j);
      SplitJoinParts(p.tail);
      KeepPartsOfParts(p.tail);
    }
  }

  /** A single component parses to itself. */
  lemma SplitPart(c: string)
    requires IsPart(c)
    ensures Split(c) == [c] && KeepParts([c]) == [c]
  {
    SplitFromNoSep(c, "");
    assert "" + c == c;
  }

  lemma SplitLeadingSep(t: string)
    ensures Split("/" + t) == [""] + Split(t)
  {
    assert ("/" + t)[1..] == t;
  }

  /** `Path(c)` for a single component `c` is the relative path holding just `c`. */
  lemma ParseSingleName(c: string)
    requires IsPart(c)
    ensures Parse(c) == Parsed("", [c])
  {
    SplitPart(c);
    assert c[0] in c;
    SplitRootOfRoot("", c);
    assert "" + c == c;
  }

  /** A trailing separator is dropped: `Path(c + "/")` is `Path(c)`. */
  lemma ParseTrailingSep(c: string)
    requires IsPart(c)
    ensures Parse(c + "/") == Parsed("", [c])
  {
    SplitPart(c);
    assert c[0] in c;
    assert (c + "/")[0] == c[0];
    assert SplitRoot(c + "/") == ("", c + "/");
    assert c + "/" == c + "/" + "";
    SplitFromSep(c, "", "");
    assert Split("") == [""];
    KeepPartsAppend([c], [""]);
  }

  /** Joining onto a text that ends in a separator. */
  lemma SlashAfterSep(s: string, c: string)
    requires IsPart(c) && s != [] && s[|s| - 1] == '/'
    ensures Parse(s + c) == Child(Parse(s), c)
  {
    SplitPart(c);
    SplitRootAppend(s, c);
    var rel := SplitRoot(s).1;
    if rel == "" {
      assert rel + c == c;
      assert Split(rel) == [""];
    } else {
      var r' := rel[..|rel| - 1];
      assert rel == r' + "/" + "";
      assert rel + c == r' + "/" + c;
      SplitFromSep(r', "", "");
      SplitFromSep(r', c, "");
      assert Split("") == [""];
      KeepPartsAppend(Split(r'), [""]);
      KeepPartsAppend(Split(r'), [c]);
    }
  }

  /** Joining onto a non-empty text that does not end in a separator. */
  lemma SlashAddSep(s: string, c: string)
    requires IsPart(c) && s != [] && s[|s| - 1] != '/'
    ensures Parse(s + "/" + c) == Child(Parse(s), c)
  {
    SplitPart(c);
    assert s + "/" + c == s + ("/" + c);
    SplitRootAppend(s, "/" + c);
    var rel := SplitRoot(s).1;
    assert rel + ("/" + c) == rel + "/" + c;
    SplitFromSep(rel, c, "");
    KeepPartsAppend(Split(rel), [c]);
  }

  /**
   * `p / c` is the path one component below `p`, whatever text `p` was
   * built from: `Path(os.path.join(s, c)) == Path(s).joinpath(c)`.
   */
  lemma SlashIsChild(s: string, c: string)
    requires IsPart(c)
    ensures Parse(PosixJoin(s, c)) == Child(Parse(s), c)
  {
    assert c[0] in c;
    if s == "" {
      SplitPart(c);
      assert PosixJoin(s, c) == c;
      SplitRootOfRoot("", c);
      assert "" + c == c;
      assert Split("") == [""];
    } else if s[|s| - 1] == '/' {
      SlashAfterSep(s, c);
    } else {
      SlashAddSep(s, c);
    }
  }

  /**
   * Text and path arguments agree: `ensure_path(x)` is what parsing the text
   * of `x` gives, so `ensure_path` is idempotent, also through the text
   * form: `ensure_path(str(ensure_path(x))) == ensure_path(x)`.
   */
  lemma EnsurePathIdempotent(x: PathLike)
    ensures Parse(RawText(x)) == EnsurePath(x)
    ensures EnsurePath(Structured(EnsurePath(x))) == EnsurePath(x)
    ensures EnsurePath(Text(Format(EnsurePath(x)))) == EnsurePath(x)
  {
    ParseFormat(EnsurePath(x));
  }

  /** `p / c` on a `PathLike` is the child of `ensure_path(p)`. */
  lemma SlashOfPathLike(x: PathLike, c: string)
    requires IsPart(c)
    ensures Slash(x, c) == Child(EnsurePath(x), c)
  {
    SlashIsChild(RawText(x), c);
    EnsurePathIdempotent(x);
  }

  /** The part of a child's sort key that comes from its parent. */
  function DirKey(d: Path): seq<string> {
    if d.tail != [] then Key(d)
    else if d.root == "" then []
    else if d.root == "/" then [""]
    else ["", ""]
  }

  lemma ChildKeyOfRelative(a: string)
    requires IsPart(a)
    ensures Key(Child(Parsed("", []), a)) == [a]
  {
    SplitPart(a);
    assert JoinParts([a]) == a;
    assert Format(Child(Parsed("", []), a)) == a;
  }

  lemma ChildKeyOfSlash(a: string)
    requires IsPart(a)
    ensures Key(Child(Parsed("/", []), a)) == [""] + [a]
  {
    SplitPart(a);
    assert JoinParts([a]) == a;
    assert Format(Child(Parsed("/", []), a)) == "/" + a;
    SplitLeadingSep(a);
  }

  lemma ChildKeyOfDoubleSlash(a: string)
    requires IsPart(a)
    ensures Key(Child(Parsed("//", []), a)) == ["", ""] + [a]
  {
    SplitPart(a);
    assert JoinParts([a]) == a;
    assert Format(Child(Parsed("//", []), a)) == "//" + a == "/" + ("/" + a);
    SplitLeadingSep("/" + a);
    SplitLeadingSep(a);
    assert [""] + ([""] + [a]) == ["", ""] + [a];
  }

  lemma ChildKeyOfNested(d: Path, a: string)
    requires IsPart(a) && d.tail != []
    ensures Key(Child(d, a)) == Key(d) + [a]
  {
    SplitPart(a);
    JoinPartsSnoc(d.tail, a);
    assert Format(Child(d, a)) == Format(d) + "/" + a;
    SplitFromSep(Format(d), a, "");
  }

  /** The sort key of a child is its parent's part followed by the child's name. */
  lemma ChildKey(d: Path, a: string)
    requires IsPart(a)
    ensures Key(Child(d, a)) == DirKey(d) + [a]
  {
    if d.tail != [] {
      ChildKeyOfNested(d, a);
    } else if d.root == "" {
      ChildKeyOfRelative(a);
      assert [] + [a] == [a];
    } else if d.root == "/" {
      ChildKeyOfSlash(a);
    } else {
      assert d == Parsed("//", []);
      ChildKeyOfDoubleSlash(a);
    }
  }

  /** Two entries of the same directory are ordered as their names are. */
  lemma SiblingOrder(d: Path, a: string, b: string)
    requires IsPart(a) && IsPart(b)
    ensures PathLe(Child(d, a), Child(d, b)) <==> Le(a, b)
  {
    ChildKey(d, a);
    ChildKey(d, b);
    ListLeCommonPrefix(DirKey(d), a, b);
  }
}
