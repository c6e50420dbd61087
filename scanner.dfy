/**
 * `get_input_files`: the entries of a directory whose lower-cased suffix is
 * one of the accepted extensions, as paths below that directory, sorted
 * ascending. The directory listing (`iterdir`) is given as the list of
 * entry names in whatever order the file system yields them.
 */
module Scanner {
  import opened Strings
  import opened Paths

  /** The accepted extensions, compared against the lower-cased suffix. */
  const ValidExtensions: seq<string> := [".png", ".jpeg", ".jpg", ".pdf"]

  /**
   * `PurePath.suffix` of a name: the text from the last '.', unless that dot
   * is the first or the last character of the name (then there is none).
   * What it yields is stated by `SuffixShape` and `SuffixAtLastDot`.
   */
  function Suffix(name: string): string {
    var i := LastIndexOf(name, '.');
    if 0 < i < |name| - 1 then name[i..] else ""
  }

  /**
   * A suffix found is a proper ending of the name that starts with a '.'
   * and holds no other '.', so it starts at the name's last '.'.
   */
  lemma SuffixShape(name: string)
    ensures Suffix(name) != "" ==> 2 <= |Suffix(name)| < |name| && Suffix(name) == name[|name| - |Suffix(name)|..]
    ensures Suffix(name) != "" ==> Suffix(name)[0] == '.' && '.' !in Suffix(name)[1..]
  {
    LastIndexOfIsLast(name, '.');
    var r := Suffix(name);
    if r != "" {
      var i := LastIndexOf(name, '.');
      forall k | 0 <= k < |r[1..]| ensures r[1..][k] != '.' {
        assert r[1..][k] == name[i + 1 + k];
      }
    }
  }

  /** The suffix of a name whose last '.' lies strictly inside it runs from that dot. */
  lemma SuffixAtLastDot(name: string, i: nat)
    requires 0 < i < |name| - 1 && name[i] == '.'
    requires forall j :: i < j < |name| ==> name[j] != '.'
    ensures Suffix(name) == name[i..]
  {
    LastIndexOfIsLast(name, '.');
  }

  /** The name ends in `ext`, ignoring case, with at least one character before it. */
  predicate EndsWithIgnoringCase(name: string, ext: string) {
    |name| > |ext| && Lower(name[|name| - |ext|..]) == ext
  }

  /**
   * For an extension written as a '.' and then characters other than '.',
   * the lower-cased suffix is that extension exactly when the name ends in
   * it, ignoring case, after at least one other character.
   */
  lemma SuffixIsExtension(name: string, ext: string)
    requires |ext| >= 2 && ext[0] == '.' && '.' !in ext[1..]
    ensures Lower(Suffix(name)) == ext <==> EndsWithIgnoringCase(name, ext)
  {
    var k := |name| - |ext|;
    SuffixShape(name);
    if Lower(Suffix(name)) == ext {
      assert |Suffix(name)| == |ext|;
    }
    if EndsWithIgnoringCase(name, ext) {
      var t := name[k..];
      assert LowerChar(t[0]) == '.';
      forall j | k < j < |name| ensures name[j] != '.' {
        assert LowerChar(t[j - k]) == ext[j - k] == ext[1..][j - k - 1];
      }
      SuffixAtLastDot(name, k);
    }
  }

  /**
   * Whether `get_input_files` keeps an entry of this name: exactly when the
   * name ends, ignoring case, in one of the accepted extensions after at
   * least one other character.
   */
  predicate IsSelected(name: string)
    ensures IsSelected(name) <==>
      EndsWithIgnoringCase(name, ".png") || EndsWithIgnoringCase(name, ".jpeg") ||
      EndsWithIgnoringCase(name, ".jpg") || EndsWithIgnoringCase(name, ".pdf")
  {
    SuffixIsExtension(name, ".png");
    SuffixIsExtension(name, ".jpeg");
    SuffixIsExtension(name, ".jpg");
    SuffixIsExtension(name, ".pdf");
    Lower(Suffix(name)) in ValidExtensions
  }

  /**
   * Whether the assembler reads the file as a PDF rather than as an image:
   * exactly when the name ends in ".pdf", ignoring case, after at least one
   * other character. Every such file is a selected one.
   */
  predicate IsPdf(name: string)
    ensures IsPdf(name) <==> EndsWithIgnoringCase(name, ".pdf")
    ensures IsPdf(name) ==> IsSelected(name)
  {
    SuffixIsExtension(name, ".pdf");
    Lower(Suffix(name)) == ".pdf"
  }

  // ---------------------------------------------------------------------
  // Suffixes and case

  lemma {:induction false} LastIndexOfLower(s: string)
    ensures LastIndexOf(Lower(s), '.') == LastIndexOf(s, '.')
    decreases |s|
  {
    if s != [] {
      assert Lower(s)[..|s| - 1] == Lower(s[..|s| - 1]);
      LastIndexOfLower(s[..|s| - 1]);
    }
  }

  /** Lower-casing a name and then taking its suffix is taking the suffix and lower-casing it. */
  lemma SuffixOfLower(name: string)
    ensures Suffix(Lower(name)) == Lower(Suffix(name))
  {
    LastIndexOfLower(name);
  }

  /**
   * Selection and the PDF test ignore case: two names that differ only in
   * the case of their letters are treated alike.
   */
  lemma CaseInsensitive(a: string, b: string)
    requires Lower(a) == Lower(b)
    ensures IsSelected(a) <==> IsSelected(b)
    ensures IsPdf(a) <==> IsPdf(b)
  {
    SuffixOfLower(a);
    SuffixOfLower(b);
    LowerIdempotent(Suffix(a));
    LowerIdempotent(Suffix(b));
  }

  /** Accepted names, whatever the case of their extension. */
  lemma SelectedExamples()
    ensures IsSelected("a.PNG") && IsSelected("b.Pdf") && IsSelected("c.JPG")
    ensures IsPdf("b.Pdf") && !IsPdf("a.PNG")
  {
    assert "a.PNG"[1..] == ".PNG" && Lower(".PNG") == ".png";
    assert "b.Pdf"[1..] == ".Pdf" && Lower(".Pdf") == ".pdf";
    assert "c.JPG"[1..] == ".JPG" && Lower(".JPG") == ".jpg";
  }

  /** Rejected names: another extension, and no extension at all. */
  lemma RejectedExamples()
    ensures !IsSelected("d.gif") && !IsSelected("README")
  {
    assert "d.gif"[1..] == ".gif" && Lower(".gif") == ".gif";
    assert "d.gif"[0..] == "d.gif" && Lower("d.gif")[0] == 'd';
    assert "README"[2..] == "ADME" && Lower("ADME")[0] == 'a';
    assert "README"[1..] == "EADME" && Lower("EADME")[0] == 'e';
  }

  /** Rejected names: a hidden file called ".pdf", and ".pdf" followed by another extension. */
  lemma RejectedLookalikes()
    ensures !IsSelected(".pdf") && !IsSelected("notes.pdf.txt")
  {
    assert "notes.pdf.txt"[9..] == ".txt" && Lower(".txt") == ".txt";
    assert "notes.pdf.txt"[8..] == "f.txt" && Lower("f.txt")[0] == 'f';
  }

  // ---------------------------------------------------------------------
  // Filtering

  /** The entries of the listing that are selected, in listing order. */
  function Filter(listing: seq<string>): (r: seq<string>)
    ensures forall x :: multiset(r)[x] == if IsSelected(x) then multiset(listing)[x] else 0
  {
    if listing == [] then []
    else
      assert listing == [listing[0]] + listing[1..];
      if IsSelected(listing[0]) then [listing[0]] + Filter(listing[1..])
      else Filter(listing[1..])
  }

  /** Filtering depends on which names the listing holds and how often, not on their order. */
  lemma FilterOfPermutation(l1: seq<string>, l2: seq<string>)
    requires multiset(l1) == multiset(l2)
    ensures multiset(Filter(l1)) == multiset(Filter(l2))
  {
    assert forall x :: multiset(Filter(l1))[x] == multiset(Filter(l2))[x];
  }

  // ---------------------------------------------------------------------
  // Sorting

  predicate Sorted(s: seq<string>) {
    forall i, j :: 0 <= i < j < |s| ==> Le(s[i], s[j])
  }

  /** Every element of `s` is at least `x`. */
  predicate AllAtLeast(x: string, s: seq<string>) {
    forall j :: 0 <= j < |s| ==> Le(x, s[j])
  }

  /** A sorted list stays sorted with a name in front that is at most all its elements. */
  lemma ConsSorted(h: string, t: seq<string>)
    requires Sorted(t) && AllAtLeast(h, t)
    ensures Sorted([h] + t)
  {
    var r := [h] + t;
    forall i, j | 0 <= i < j < |r| ensures Le(r[i], r[j]) {
      assert r[j] == t[j - 1];
      if i > 0 {
        assert r[i] == t[i - 1];
      }
    }
  }

  lemma InsertFront(x: string, s: seq<string>)
    requires Sorted(s) && s != [] && Le(x, s[0])
    ensures Sorted([x] + s)
  {
    forall j | 0 <= j < |s| ensures Le(x, s[j]) {
      if j > 0 {
        LeTransitive(x, s[0], s[j]);
      }
    }
    ConsSorted(x, s);
  }

  lemma InsertBehind(x: string, s: seq<string>, t: seq<string>)
    requires Sorted(s) && s != [] && Le(s[0], x)
    requires Sorted(t) && multiset(t) == multiset(s[1..]) + multiset{x}
    ensures Sorted([s[0]] + t)
  {
    forall j | 0 <= j < |t| ensures Le(s[0], t[j]) {
      assert t[j] in multiset(t);
      if t[j] != x {
        assert t[j] in multiset(s[1..]);
        var k :| 0 <= k < |s[1..]| && s[1..][k] == t[j];
        assert s[k + 1] == t[j];
      }
    }
    ConsSorted(s[0], t);
  }

  /** Inserting into a sorted list gives a sorted list with the name added. */
  function Insert(x: string, s: seq<string>): (r: seq<string>)
    requires Sorted(s)
    ensures Sorted(r) && multiset(r) == multiset(s) + multiset{x}
    decreases |s|
  {
    if s == [] then [x]
    else
      assert s == [s[0]] + s[1..];
      if Le(x, s[0]) then
        InsertFront(x, s);
        [x] + s
      else
        LeTotal(x, s[0]);
        SortedTail(s);
        var t := Insert(x, s[1..]);
        InsertBehind(x, s, t);
        [s[0]] + t
  }

  /** `sorted`: the ascending arrangement of the names. */
  function SortAscending(s: seq<string>): (r: seq<string>)
    ensures Sorted(r) && multiset(r) == multiset(s)
  {
    if s == [] then []
    else
      assert s == [s[0]] + s[1..];
      Insert(s[0], SortAscending(s[1..]))
  }

  lemma SortedTail(s: seq<string>)
    requires Sorted(s) && s != []
    ensures Sorted(s[1..])
  {
    forall i, j | 0 <= i < j < |s| - 1 ensures Le(s[1..][i], s[1..][j]) {
      assert s[1..][i] == s[i + 1] && s[1..][j] == s[j + 1];
    }
  }

  /** The head of a sorted list is at most any of its elements. */
  lemma SortedHeadIsLeast(s: seq<string>, x: string)
    requires Sorted(s) && x in multiset(s)
    ensures Le(s[0], x)
  {
    assert x in s;
    var k :| 0 <= k < |s| && s[k] == x;
    if k == 0 {
      LeReflexive(x);
    }
  }

  lemma MultisetOfTail(s: seq<string>)
    requires s != []
    ensures multiset(s[1..]) == multiset(s) - multiset{s[0]}
  {
    assert s == [s[0]] + s[1..];
  }

  /** Two sorted arrangements of the same names start with the same name. */
  lemma SortedHeadsAgree(a: seq<string>, b: seq<string>)
    requires Sorted(a) && Sorted(b) && multiset(a) == multiset(b) && a != []
    ensures b != [] && a[0] == b[0]
  {
    assert a[0] in multiset(a);
    assert b != [];
    assert b[0] in multiset(b);
    SortedHeadIsLeast(a, b[0]);
    SortedHeadIsLeast(b, a[0]);
    LeAntisymmetric(a[0], b[0]);
  }

  /** There is only one ascending arrangement of a collection of names. */
  lemma {:induction false} SortedUnique(a: seq<string>, b: seq<string>)
    requires Sorted(a) && Sorted(b) && multiset(a) == multiset(b)
    ensures a == b
    decreases |a|
  {
    if a == [] {
      assert |multiset(b)| == 0;
    } else {
      SortedHeadsAgree(a, b);
      MultisetOfTail(a);
      MultisetOfTail(b);
      SortedTail(a);
      SortedTail(b);
      SortedUnique(a[1..], b[1..]);
      assert a == [a[0]] + a[1..];
      assert b == [b[0]] + b[1..];
    }
  }

  // ---------------------------------------------------------------------
  // get_input_files

  /** The names of the selected entries, sorted. */
  function SelectedNames(listing: seq<string>): seq<string> {
    SortAscending(Filter(listing))
  }

  function Children(d: Path, names: seq<string>): (r: seq<Path>)
    requires AllParts(names)
    ensures |r| == |names|
    ensures forall i :: 0 <= i < |r| ==> r[i] == Child(d, names[i])
  {
    seq(|names|, i requires 0 <= i < |names| => Child(d, names[i]))
  }

  function Names(paths: seq<Path>): (r: seq<string>)
    ensures |r| == |paths|
    ensures forall i :: 0 <= i < |r| ==> r[i] == Name(paths[i])
  {
    seq(|paths|, i requires 0 <= i < |paths| => Name(paths[i]))
  }

  lemma FilterKeepsParts(listing: seq<string>)
    requires AllParts(listing)
    ensures AllParts(SelectedNames(listing))
  {
    var r := SelectedNames(listing);
    forall i | 0 <= i < |r| ensures IsPart(r[i]) {
      assert r[i] in multiset(r);
      assert r[i] in multiset(listing);
    }
  }

  lemma ChildrenSorted(d: Path, names: seq<string>)
    requires AllParts(names) && Sorted(names)
    ensures forall i, j :: 0 <= i < j < |names| ==> PathLe(Children(d, names)[i], Children(d, names)[j])
  {
    forall i, j | 0 <= i < j < |names|
      ensures PathLe(Children(d, names)[i], Children(d, names)[j])
    {
      SiblingOrder(d, names[i], names[j]);
    }
  }

  /**
   * `get_input_files(directory)`: every returned path is an entry of the
   * directory whose name is selected; every selected entry is returned as
   * often as the listing holds it; the paths come in ascending order.
   */
  function GetInputFiles(directory: PathLike, listing: seq<string>): (r: seq<Path>)
    requires AllParts(listing)
    ensures forall i :: 0 <= i < |r| ==> r[i].tail != [] && Parent(r[i]) == EnsurePath(directory) && IsSelected(Name(r[i]))
    ensures forall x :: multiset(Names(r))[x] == if IsSelected(x) then multiset(listing)[x] else 0
    ensures forall i, j :: 0 <= i < j < |r| ==> PathLe(r[i], r[j])
  {
    var d := EnsurePath(directory);
    var names := SelectedNames(listing);
    FilterKeepsParts(listing);
    SelectedNamesContents(listing);
    ChildrenSorted(d, names);
    var r := Children(d, names);
    assert Names(r) == names;
    r
  }

  lemma SelectedNamesContents(listing: seq<string>)
    ensures forall i :: 0 <= i < |SelectedNames(listing)| ==> IsSelected(SelectedNames(listing)[i])
    ensures forall x :: multiset(SelectedNames(listing))[x] == if IsSelected(x) then multiset(listing)[x] else 0
  {
    var names := SelectedNames(listing);
    forall i | 0 <= i < |names| ensures IsSelected(names[i]) {
      assert names[i] in multiset(names);
    }
  }

  lemma InputFilesAreChildren(directory: PathLike, listing: seq<string>)
    requires AllParts(listing)
    ensures AllParts(SelectedNames(listing))
    ensures GetInputFiles(directory, listing) == Children(EnsurePath(directory), SelectedNames(listing))
  {
    FilterKeepsParts(listing);
  }

  /**
   * The result does not depend on the order in which the file system lists
   * the entries: two listings holding the same names give the same paths.
   */
  lemma ListingOrderIrrelevant(directory: PathLike, l1: seq<string>, l2: seq<string>)
    requires AllParts(l1) && AllParts(l2)
    requires multiset(l1) == multiset(l2)
    ensures GetInputFiles(directory, l1) == GetInputFiles(directory, l2)
  {
    FilterOfPermutation(l1, l2);
    SortedUnique(SelectedNames(l1), SelectedNames(l2));
  }

  /** As many paths come back as the listing holds selected entries. */
  lemma InputFilesCount(directory: PathLike, listing: seq<string>)
    requires AllParts(listing)
    ensures |GetInputFiles(directory, listing)| == |Filter(listing)|
  {
    var r := GetInputFiles(directory, listing);
    assert multiset(Names(r)) == multiset(Filter(listing));
    assert |multiset(Names(r))| == |multiset(Filter(listing))|;
  }

  /** A listing with exactly one accepted name gives exactly that entry. */
  lemma OneSelected(directory: PathLike, listing: seq<string>, name: string)
    requires AllParts(listing) && IsPart(name)
    requires multiset(Filter(listing)) == multiset{name}
    ensures GetInputFiles(directory, listing) == [Child(EnsurePath(directory), name)]
  {
    var names := SelectedNames(listing);
    assert multiset(names) == multiset{name};
    SortedUnique(names, [name]);
    InputFilesAreChildren(directory, listing);
    assert Children(EnsurePath(directory), [name])[0] == Child(EnsurePath(directory), name);
  }

  /** Selecting over a listing with no accepted names gives no files. */
  lemma NothingSelected(directory: PathLike, listing: seq<string>)
    requires AllParts(listing)
    requires forall i :: 0 <= i < |listing| ==> !IsSelected(listing[i])
    ensures GetInputFiles(directory, listing) == []
  {
    var r := GetInputFiles(directory, listing);
    assert forall x :: x in multiset(listing) ==> !IsSelected(x);
    assert multiset(Names(r)) == multiset{};
  }
}
