/**
 * `convert_files_to_pdf`: resolve where the combined document goes, walk the
 * sorted input files appending every page of each PDF and the one page made
 * from each image to a writer, and write the writer out once at the end.
 *
 * What the program asks of the file system and of its PDF and image
 * libraries is given as a `World`: whether the save path is a directory,
 * the directory listing, the pages a PDF reader finds in a file, the page
 * an image becomes, and whether the output file can be opened for writing.
 * Each of these can fail; a failure is an `Err` and ends the run.
 */
module Assembler {
  import opened Wrappers
  import opened Strings
  import opened Paths
  import opened Scanner

  /** The text that follows the input directory's name in the default output file name. */
  const OutputNameTail := "_combined_output.pdf"

  /** The image resolution used when the caller gives none. */
  const DefaultDpi := 300

  /**
   * `DEFAULT_OUTPUT_FILENAME.format(name)`: the directory's name followed by
   * a fixed tail. The result is a single path component whenever the name
   * is one, and it is a name the scanner reads as a PDF: written into the
   * input directory, it is picked up by the next run.
   */
  function DefaultOutputFilename(directoryName: string): (r: string)
    ensures |r| > |directoryName| && r[..|directoryName|] == directoryName
    ensures '/' !in directoryName ==> IsPart(r)
    ensures IsPdf(r) && IsSelected(r)
  {
    var r := directoryName + OutputNameTail;
    var n := |directoryName|;
    assert r[n..] == OutputNameTail;
    assert r[|r| - 4..] == OutputNameTail[16..] == ".pdf";
    assert Lower(".pdf") == ".pdf";
    assert '/' !in directoryName ==> '/' !in r by {
      if '/' !in directoryName {
        forall k | 0 <= k < |r| ensures r[k] != '/' {
          if k >= n {
            assert r[k] == OutputNameTail[k - n];
          }
        }
      }
    }
    r
  }

  /** The PDF and image libraries, as far as the program uses them. */
  datatype Decoders<Page> = Decoders(
    readPdf: Path -> Option<seq<Page>>,       // the pages of PdfReader(str(file)), None when it raises
    rasterize: (Path, int) -> Option<Page>)   // page 0 of the one-page PDF made from an image, None when it raises

  datatype World<Page> = World(
    saveIsDir: bool,                          // save_path.is_dir()
    listing: Option<seq<string>>,             // the entry names iterdir yields, None when it raises
    decoders: Decoders<Page>,
    writable: Path -> bool)                   // whether save_path.open("wb") succeeds

  /** Directory entries are single path components. */
  predicate ValidWorld<Page>(w: World<Page>) {
    w.listing.Some? ==> AllParts(w.listing.value)
  }

  datatype Error =
    | ListError(directory: Path)   // the input directory cannot be listed
    | PdfReadError(file: Path)     // a PDF cannot be read
    | ImageError(file: Path)       // an image cannot be decoded or converted
    | WriteError(path: Path)       // the output file cannot be opened

  /** The one write the program makes: the pages, serialised to the path. */
  datatype Output<Page> = Output(path: Path, pages: seq<Page>)

  // ---------------------------------------------------------------------
  // Where the output goes

  lemma NameHasNoSep(p: Path)
    ensures '/' !in Name(p)
  {
    if p.tail != [] {
      assert IsPart(p.tail[|p.tail| - 1]);
    }
  }

  /**
   * The save path once `convert_files_to_pdf` has checked
   * `save_path.is_dir()`: below the save path, named after the input
   * directory, when the save path is an existing directory; the save path
   * itself otherwise.
   */
  function ResolveSavePath(directory: PathLike, savePath: PathLike, saveIsDir: bool): (r: Path)
    ensures saveIsDir ==> r.tail != [] && Parent(r) == EnsurePath(savePath)
    ensures saveIsDir ==> Name(r) == Name(EnsurePath(directory)) + "_combined_output.pdf"
    ensures !saveIsDir ==> r == EnsurePath(savePath)
  {
    if saveIsDir then
      var dirName := Name(EnsurePath(directory));
      NameHasNoSep(EnsurePath(directory));
      SlashOfPathLike(savePath, DefaultOutputFilename(dirName));
      Slash(savePath, DefaultOutputFilename(dirName))
    else
      EnsurePath(savePath)
  }

  /** Saving into an existing directory `o/` while combining directory `d` writes `o/d_combined_output.pdf`. */
  lemma ResolveIntoDirectory(d: string, o: string)
    requires IsPart(d) && IsPart(o)
    ensures ResolveSavePath(Text(d), Text(o + "/"), true) == Parsed("", [o, DefaultOutputFilename(d)])
  {
    ParseSingleName(d);
    ParseTrailingSep(o);
    var r := ResolveSavePath(Text(d), Text(o + "/"), true);
    assert Parent(r) == Parsed("", [o]);
    assert Name(r) == DefaultOutputFilename(d);
    ParentChild(r);
    assert [o] + [DefaultOutputFilename(d)] == [o, DefaultOutputFilename(d)];
  }

  lemma ResolveExample()
    ensures ResolveSavePath(Text("photos"), Text("out/"), true) == Parsed("", ["out", "photos_combined_output.pdf"])
  {
    var d, o := "photos", "out";
    ExampleNames();
    assert o + "/" == "out/";
    ResolveIntoDirectory(d, o);
  }

  lemma ExampleNames()
    ensures IsPart("photos") && IsPart("out")
    ensures DefaultOutputFilename("photos") == "photos_combined_output.pdf"
  {
    assert "photos" + OutputNameTail == "photos_combined_output.pdf";
  }

  // ---------------------------------------------------------------------
  // The pages of the run

  /**
   * The library call that handles the file succeeds: the PDF reader for a
   * file read as a PDF, the image conversion for any other.
   */
  predicate Readable<Page>(file: Path, dpi: int, lib: Decoders<Page>) {
    if IsPdf(Name(file)) then lib.readPdf(file).Some? else lib.rasterize(file, dpi).Some?
  }

  /**
   * The pages one input file contributes: all pages of a PDF, in the PDF's
   * own order, and the single page of an image. A failure is reported
   * against the file, as a PDF or an image failure by the same test that
   * chose the branch.
   */
  function FilePages<Page>(file: Path, dpi: int, lib: Decoders<Page>): (r: Result<seq<Page>, Error>)
    ensures r.Ok? <==> Readable(file, dpi, lib)
    ensures r.Err? ==> r.error == if IsPdf(Name(file)) then PdfReadError(file) else ImageError(file)
    ensures r.Ok? && IsPdf(Name(file)) ==> lib.readPdf(file) == Some(r.value)
    ensures r.Ok? && !IsPdf(Name(file)) ==> |r.value| == 1 && lib.rasterize(file, dpi) == Some(r.value[0])
  {
    if IsPdf(Name(file)) then
      match lib.readPdf(file)
      case None => Err(PdfReadError(file))
      case Some(pages) => Ok(pages)
    else
      match lib.rasterize(file, dpi)
      case None => Err(ImageError(file))
      case Some(page) => Ok([page])
  }

  /** Sequencing two steps: the first error, or both page lists in order. */
  function Then<Page>(first: Result<seq<Page>, Error>, second: Result<seq<Page>, Error>): Result<seq<Page>, Error> {
    match first
    case Err(e) => Err(e)
    case Ok(ps) =>
      match second
      case Err(e) => Err(e)
      case Ok(qs) => Ok(ps + qs)
  }

  /** What the loop body does with one file, as a function of the file. */
  function PagesOf<Page>(dpi: int, lib: Decoders<Page>): Path -> Result<seq<Page>, Error> {
    (file: Path) => FilePages(file, dpi, lib)
  }

  /**
   * The writer's pages after all files: each file's pages in turn, or the
   * first file's failure. It succeeds exactly when every file's step does.
   */
  function Assemble<Page>(files: seq<Path>, step: Path -> Result<seq<Page>, Error>): (r: Result<seq<Page>, Error>)
    ensures r.Ok? <==> forall i :: 0 <= i < |files| ==> step(files[i]).Ok?
  {
    if files == [] then Ok([])
    else
      assert forall i :: 0 < i < |files| ==> files[i] == files[1..][i - 1];
      Then(step(files[0]), Assemble(files[1..], step))
  }

  /**
   * The whole run: the document written and where, or the error that
   * stopped it. The document is written only when the listing, every
   * selected file and the opening of the output succeed; it goes to the
   * resolved save path and holds the assembled pages.
   */
  function Convert<Page>(directory: PathLike, savePath: PathLike, dpi: int, w: World<Page>): (r: Result<Output<Page>, Error>)
    requires ValidWorld(w)
    ensures r.Ok? <==>
      && w.listing.Some?
      && (forall i :: 0 <= i < |GetInputFiles(directory, w.listing.value)| ==>
            FilePages(GetInputFiles(directory, w.listing.value)[i], dpi, w.decoders).Ok?)
      && w.writable(ResolveSavePath(directory, savePath, w.saveIsDir))
    ensures r.Ok? ==>
      && r.value.path == ResolveSavePath(directory, savePath, w.saveIsDir)
      && Assemble(GetInputFiles(directory, w.listing.value), PagesOf(dpi, w.decoders)) == Ok(r.value.pages)
  {
    var save := ResolveSavePath(directory, savePath, w.saveIsDir);
    if w.listing.None? then Err(ListError(EnsurePath(directory)))
    else
      match Assemble(GetInputFiles(directory, w.listing.value), PagesOf(dpi, w.decoders))
      case Err(e) => Err(e)
      case Ok(pages) => if w.writable(save) then Ok(Output(save, pages)) else Err(WriteError(save))
  }

  // ---------------------------------------------------------------------
  // Properties of assembly

  /** Processing two runs of files one after the other is processing them together. */
  lemma {:induction false} AssembleAppend<Page>(a: seq<Path>, b: seq<Path>, step: Path -> Result<seq<Page>, Error>)
    ensures Assemble(a + b, step) == Then(Assemble(a, step), Assemble(b, step))
  {
    if a == [] {
      assert a + b == b;
      match Assemble(b, step)
      case Err(e) =>
      case Ok(qs) => assert [] + qs == qs;
    } else {
      assert (a + b)[0] == a[0];
      assert (a + b)[1..] == a[1..] + b;
      AssembleAppend(a[1..], b, step);
      match step(a[0])
      case Err(e) =>
      case Ok(ps) =>
        match Assemble(a[1..], step)
        case Err(e) =>
        case Ok(qs) =>
          match Assemble(b, step)
          case Err(e) =>
          case Ok(rs) => assert ps + (qs + rs) == (ps + qs) + rs;
    }
  }

  /** After a prefix that succeeded, a file that fails is the run's error. */
  lemma AssembleStopsAt<Page>(files: seq<Path>, i: nat, step: Path -> Result<seq<Page>, Error>)
    requires i < |files|
    requires Assemble(files[..i], step).Ok?
    requires step(files[i]).Err?
    ensures Assemble(files, step) == Err(step(files[i]).error)
  {
    var done, here, rest := files[..i], [files[i]], files[i + 1..];
    var e := step(files[i]).error;
    assert Assemble(here, step) == Err(e) by {
      assert here[0] == files[i] && here[1..] == [];
    }
    AssembleAppend(done, here, step);
    assert Assemble(done + here, step) == Err(e);
    AssembleAppend(done + here, rest, step);
    assert files == (done + here) + rest;
  }

  /** One more file that succeeded extends the writer by its pages. */
  lemma AssembleExtend<Page>(files: seq<Path>, i: nat, step: Path -> Result<seq<Page>, Error>, done: seq<Page>, added: seq<Page>)
    requires i < |files|
    requires Assemble(files[..i], step) == Ok(done)
    requires step(files[i]) == Ok(added)
    ensures Assemble(files[..i + 1], step) == Ok(done + added)
  {
    var here := [files[i]];
    assert Assemble(here, step) == Ok(added) by {
      assert here[0] == files[i] && here[1..] == [];
      assert added + [] == added;
    }
    AssembleAppend(files[..i], here, step);
    assert files[..i + 1] == files[..i] + here;
  }

  /** The error reported is that of the first file that fails; nothing after it is looked at. */
  lemma {:induction false} AssembleFirstError<Page>(files: seq<Path>, k: nat, step: Path -> Result<seq<Page>, Error>)
    requires k < |files| && step(files[k]).Err?
    requires forall i :: 0 <= i < k ==> step(files[i]).Ok?
    ensures Assemble(files, step) == Err(step(files[k]).error)
  {
    if k > 0 {
      AssembleFirstError(files[1..], k - 1, step);
    }
  }

  /** The total number of pages in the PDFs among the files (a PDF that cannot be read counts none). */
  function PdfPageTotal<Page>(files: seq<Path>, lib: Decoders<Page>): nat {
    if files == [] then 0
    else
      var here := if IsPdf(Name(files[0])) && lib.readPdf(files[0]).Some? then |lib.readPdf(files[0]).value| else 0;
      here + PdfPageTotal(files[1..], lib)
  }

  /** The number of files read as images. */
  function ImageCount(files: seq<Path>): nat {
    if files == [] then 0
    else (if IsPdf(Name(files[0])) then 0 else 1) + ImageCount(files[1..])
  }

  /** A successful run has as many pages as its PDFs hold, plus one per image. */
  lemma {:induction false} PageCount<Page>(files: seq<Path>, dpi: int, lib: Decoders<Page>)
    requires Assemble(files, PagesOf(dpi, lib)).Ok?
    ensures |Assemble(files, PagesOf(dpi, lib)).value| == PdfPageTotal(files, lib) + ImageCount(files)
  {
    if files != [] {
      PageCount(files[1..], dpi, lib);
    }
  }

  // ---------------------------------------------------------------------
  // Properties of the whole run

  /** A directory with nothing to convert yields a document with no pages, not an error. */
  lemma EmptySelection<Page>(directory: PathLike, savePath: PathLike, dpi: int, w: World<Page>)
    requires ValidWorld(w) && w.listing.Some?
    requires forall i :: 0 <= i < |w.listing.value| ==> !IsSelected(w.listing.value[i])
    requires w.writable(ResolveSavePath(directory, savePath, w.saveIsDir))
    ensures Convert(directory, savePath, dpi, w) == Ok(Output(ResolveSavePath(directory, savePath, w.saveIsDir), []))
  {
    NothingSelected(directory, w.listing.value);
  }

  /** A successful run's page count, in terms of the selected files. */
  lemma ConvertPageCount<Page>(directory: PathLike, savePath: PathLike, dpi: int, w: World<Page>)
    requires ValidWorld(w)
    requires Convert(directory, savePath, dpi, w).Ok?
    ensures |Convert(directory, savePath, dpi, w).value.pages| ==
      PdfPageTotal(GetInputFiles(directory, w.listing.value), w.decoders) + ImageCount(GetInputFiles(directory, w.listing.value))
  {
    PageCount(GetInputFiles(directory, w.listing.value), dpi, w.decoders);
  }

  /** Converting a directory whose only accepted entry is an N-page PDF writes exactly those N pages. */
  lemma SinglePdf<Page>(directory: PathLike, savePath: PathLike, dpi: int, w: World<Page>, name: string, pages: seq<Page>)
    requires ValidWorld(w) && w.listing.Some?
    requires multiset(Filter(w.listing.value)) == multiset{name}
    requires IsPart(name) && IsPdf(name)
    requires w.decoders.readPdf(Child(EnsurePath(directory), name)) == Some(pages)
    requires w.writable(ResolveSavePath(directory, savePath, w.saveIsDir))
    ensures Convert(directory, savePath, dpi, w) == Ok(Output(ResolveSavePath(directory, savePath, w.saveIsDir), pages))
  {
    var file := Child(EnsurePath(directory), name);
    OneSelected(directory, w.listing.value, name);
    var files := [file];
    assert FilePages(file, dpi, w.decoders) == Ok(pages);
    assert Assemble(files, PagesOf(dpi, w.decoders)) == Ok(pages) by {
      assert files[1..] == [];
      assert pages + [] == pages;
    }
  }

  /**
   * A run writes its document exactly when the directory can be listed,
   * the library can read every selected file, and the output can be opened.
   */
  lemma ConvertSucceeds<Page>(directory: PathLike, savePath: PathLike, dpi: int, w: World<Page>)
    requires ValidWorld(w)
    ensures Convert(directory, savePath, dpi, w).Ok? <==>
      && w.listing.Some?
      && (forall file :: file in GetInputFiles(directory, w.listing.value) ==> Readable(file, dpi, w.decoders))
      && w.writable(ResolveSavePath(directory, savePath, w.saveIsDir))
  {
    if w.listing.Some? {
      AllFilesReadable(GetInputFiles(directory, w.listing.value), dpi, w.decoders);
    }
  }

  /** Every file's step succeeds exactly when the library can read every file. */
  lemma AllFilesReadable<Page>(files: seq<Path>, dpi: int, lib: Decoders<Page>)
    ensures (forall i :: 0 <= i < |files| ==> FilePages(files[i], dpi, lib).Ok?) <==>
      (forall file :: file in files ==> Readable(file, dpi, lib))
  {
  }

  /** The order in which the file system lists the entries does not change what is written. */
  lemma ConvertListingOrderIrrelevant<Page>(directory: PathLike, savePath: PathLike, dpi: int, w: World<Page>, other: seq<string>)
    requires ValidWorld(w) && w.listing.Some?
    requires AllParts(other) && multiset(other) == multiset(w.listing.value)
    ensures Convert(directory, savePath, dpi, w) == Convert(directory, savePath, dpi, w.(listing := Some(other)))
  {
    ListingOrderIrrelevant(directory, w.listing.value, other);
  }

  // ---------------------------------------------------------------------
  // The program's loop

  /** The inner loop: every page of a PDF, in its own order, added to the writer. */
  method AddPages<Page>(writer: seq<Page>, pages: seq<Page>) returns (r: seq<Page>)
    ensures r == writer + pages
  {
    r := writer;
    for j := 0 to |pages|
      invariant r == writer + pages[..j]
    {
      r := r + [pages[j]];
    }
    assert pages[..|pages|] == pages;
  }

  /**
   * One pass of the outer loop: a PDF adds all its pages, any other file the
   * one page its image becomes; a file that cannot be read is the error.
   */
  method AddFile<Page>(writer: seq<Page>, file: Path, dpi: int, lib: Decoders<Page>) returns (r: Result<seq<Page>, Error>)
    ensures r == Then(Ok(writer), FilePages(file, dpi, lib))
  {
    if IsPdf(Name(file)) {
      var reader := lib.readPdf(file);
      if reader.None? {
        return Err(PdfReadError(file));
      }
      var added := AddPages(writer, reader.value);
      return Ok(added);
    } else {
      var image := lib.rasterize(file, dpi);
      if image.None? {
        return Err(ImageError(file));
      }
      return Ok(writer + [image.value]);
    }
  }

  /**
   * The loop of `convert_files_to_pdf`: the files' pages are added to the
   * writer file after file; the first file that cannot be read ends the loop.
   */
  method CollectPages<Page>(files: seq<Path>, dpi: int, lib: Decoders<Page>) returns (r: Result<seq<Page>, Error>)
    ensures r == Assemble(files, PagesOf(dpi, lib))
  {
    var writer: seq<Page> := [];
    ghost var step := PagesOf(dpi, lib);
    for i := 0 to |files|
      invariant Assemble(files[..i], step) == Ok(writer)
    {
      var next := AddFile(writer, files[i], dpi, lib);
      assert step(files[i]) == FilePages(files[i], dpi, lib);
      if next.Err? {
        AssembleStopsAt(files, i, step);
        return next;
      }
      AssembleExtend(files, i, step, writer, step(files[i]).value);
      writer := next.value;
    }
    assert files[..|files|] == files;
    return Ok(writer);
  }

  /**
   * `convert_files_to_pdf(directory, save_path, image_dpi)`: the result is
   * the run `Convert` describes.
   */
  method ConvertFilesToPdf<Page>(w: World<Page>, directory: PathLike, savePath: PathLike, dpi: int := DefaultDpi)
    returns (r: Result<Output<Page>, Error>)
    requires ValidWorld(w)
    ensures r == Convert(directory, savePath, dpi, w)
  {
    var dir := EnsurePath(directory);
    var save := EnsurePath(savePath);
    if w.saveIsDir {
      NameHasNoSep(dir);
      save := Slash(savePath, DefaultOutputFilename(Name(dir)));
    }
    if w.listing.None? {
      return Err(ListError(dir));
    }
    var files := GetInputFiles(directory, w.listing.value);
    var pages := CollectPages(files, dpi, w.decoders);
    if pages.Err? {
      return Err(pages.error);
    }
    if !w.writable(save) {
      return Err(WriteError(save));
    }
    return Ok(Output(save, pages.value));
  }
}
