# Image and PDF combiner, modelled in Dafny

`combine_files.py` merges the images and PDFs of one directory into a single
PDF. The model covers its core:

- `ensure_path`, which turns text into a path and leaves a path alone.
- `get_input_files`, which keeps the directory entries whose lower-cased
  suffix is `.png`, `.jpeg`, `.jpg` or `.pdf` and sorts them.
- The body of `convert_files_to_pdf`:
  - It resolves the save path. An existing directory gets
    `<input-dir-name>_combined_output.pdf` appended
    (`DEFAULT_OUTPUT_FILENAME`).
  - It walks the sorted files. Each PDF adds all of its pages and each image
    adds one page.
  - It writes the collected pages once, after the loop.

Modules:

- `Wrappers`: `Option` and `Result`.
- `Strings`: Python's `str.lower()` (ASCII letters), `str.rfind` and the
  string ordering `sorted` uses. The ordering is lexicographic on code points
  and extends to lists of strings.
- `Paths`: the POSIX behaviour of Python 3.12/3.13 `pathlib` that the program
  depends on.
  - A path is a root (`""`, `"/"` or `"//"`) and a list of components.
  - `Path(text)` splits off the root, splits on `/` and drops empty and `.`
    fields.
  - `str(path)`, `path / name`, `.name` and `.parent` are modelled.
  - Paths are ordered by `str(path).split('/')`, compared as lists.
  - `ensure_path` is `EnsurePath`.
- `Scanner`: `PurePath.suffix`, the extension filter, an insertion sort
  standing for `sorted`, and `get_input_files`.
- `Assembler`: save-path resolution, the pages each file contributes and
  the whole run.
  - `Convert` is the specification function of a run.
  - The method `ConvertFilesToPdf` reassigns the save path as the program
    does.
  - The method `CollectPages` holds the program's outer loop. `AddFile` is
    one pass of it, and `AddPages` is the inner loop over a PDF's pages. All
    three append to a `seq<Page>` writer.

The program's contact with the outside world is an input value, a `World`:

- whether the save path is a directory;
- the names `iterdir` yields, or `None` when the directory cannot be listed;
- the pages a PDF reader finds in a file, or `None` when it raises;
- the page an image turns into at a given DPI, or `None` when decoding or
  conversion raises;
- whether the output file can be opened for writing.

Every failure the model covers is an `Err` carrying the path involved. A run either returns
`Ok(Output(path, pages))`, the single write the program makes, or an error
and no write at all.

Three things the code does that a reader might not expect, all of which the
model follows:

- Selection is by name only. There is no "is a file" check, so a
  subdirectory named `x.pdf` is selected and then fails in the PDF reader.
- The files are sorted by the component lists of their paths, not by the
  raw path text. For entries of one directory the two orders agree
  (`Paths.SiblingOrder`).
- The DPI is passed through without being checked to be positive.

## Model

| member | source | states |
|---|---|---|
| Strings.LowerIdempotent | combine_files.py:40 | lower-casing a second time changes nothing |
| Strings.LastIndexOfIsLast | combine_files.py:40 | `rfind('.')` returns an index holding '.' with no '.' after it, or -1 when there is no '.' |
| Strings.LeReflexive | combine_files.py:39 | the string order `sorted` uses is reflexive |
| Strings.LeTotal | combine_files.py:39 | any two strings are comparable |
| Strings.LeAntisymmetric | combine_files.py:39 | two strings each at most the other are equal |
| Strings.LeTransitive | combine_files.py:39 | the string order is transitive |
| Strings.ListLeCommonPrefix | combine_files.py:39 | two lists that share a prefix and then hold one string each compare as those two strings |
| Paths.SplitRoot | combine_files.py:26 | the root split off is "", "/" or "//", and root followed by the rest is the original text |
| Paths.KeepParts | combine_files.py:26 | the fields kept after splitting are all proper path components |
| Paths.Child | combine_files.py:76 | the path one component below `p` has parent `p` and name `c` |
| Paths.ParseFormat | combine_files.py:26 | `Path(str(p)) == p` for every path |
| Paths.EnsurePath | combine_files.py:18-26 | a path is returned unchanged; text is parsed into a path |
| Paths.EnsurePathIdempotent | combine_files.py:18-26 | `ensure_path` equals parsing the argument's text, and applying it again, directly or through `str`, changes nothing |
| Paths.SlashIsChild | combine_files.py:76 | `Path(s) / c`, built by re-parsing the joined text, is the child of `Path(s)` named `c`, for any text `s` |
| Paths.SlashOfPathLike | combine_files.py:76 | `save_path / name` on text or a path is the child of `ensure_path(save_path)` |
| Paths.ChildKey | combine_files.py:39 | a child's sort key is its parent's part of the key followed by its name; that part (`DirKey`) is the parent's own key when the parent has components, and `[]`, `[""]` or `["", ""]` for a parent that is only the root `""`, `"/"` or `"//"` |
| Paths.SiblingOrder | combine_files.py:39-41 | two entries of one directory compare exactly as their names do, in both directions |
| Scanner.SuffixShape | combine_files.py:40 | a non-empty suffix is a proper ending of the name, starts with its last '.', has no other '.', and is at least two characters long |
| Scanner.SuffixAtLastDot | combine_files.py:40 | when the name's last '.' lies strictly inside it, the suffix is the text from that '.' on |
| Scanner.SuffixIsExtension | combine_files.py:40 | for an extension made of '.' and then characters other than '.', the lower-cased suffix is that extension exactly when the name ends in it, ignoring case, after at least one other character |
| Scanner.IsSelected | combine_files.py:38-40 | an entry is kept exactly when its name ends, ignoring case, in `.png`, `.jpeg`, `.jpg` or `.pdf` after at least one other character |
| Scanner.IsPdf | combine_files.py:81 | a file is read as a PDF exactly when its name ends in `.pdf`, ignoring case, after at least one other character; every such file is a selected one |
| Scanner.SuffixOfLower | combine_files.py:40 | taking the suffix commutes with lower-casing |
| Scanner.CaseInsensitive | combine_files.py:40 | names equal up to letter case are selected alike and are read as PDF alike |
| Scanner.SelectedExamples | combine_files.py:38-40 | `a.PNG`, `b.Pdf` and `c.JPG` are selected; `b.Pdf` is read as a PDF and `a.PNG` is not |
| Scanner.RejectedExamples | combine_files.py:38-40 | `d.gif` and `README` are not selected |
| Scanner.RejectedLookalikes | combine_files.py:38-40 | the hidden file `.pdf` and `notes.pdf.txt` are not selected |
| Scanner.Filter | combine_files.py:40 | each name occurs in the result as often as in the listing when selected, and not at all otherwise |
| Scanner.FilterOfPermutation | combine_files.py:40 | listings holding the same names give filtered results holding the same names |
| Scanner.Insert | combine_files.py:39 | inserting into a sorted list gives a sorted list with that name added |
| Scanner.SortAscending | combine_files.py:39 | the result is sorted and a permutation of the input |
| Scanner.SortedUnique | combine_files.py:39 | two sorted permutations of the same names are equal, so `sorted` has a single possible result |
| Scanner.ChildrenSorted | combine_files.py:39-41 | the children of one directory, built from sorted names, are in path order |
| Scanner.GetInputFiles | combine_files.py:29-41 | every returned path lies directly in `ensure_path(directory)` with a selected name; each selected entry is returned exactly as often as listed and nothing else; the paths are in ascending path order |
| Scanner.ListingOrderIrrelevant | combine_files.py:39-41 | two listings that are permutations of each other give the same files |
| Scanner.InputFilesCount | combine_files.py:39-41 | the number of files returned is the number of selected entries |
| Scanner.OneSelected | combine_files.py:39-41 | a listing with exactly one selected entry gives exactly that entry's path |
| Scanner.NothingSelected | combine_files.py:39-41 | a listing with no selected entry gives no files |
| Assembler.DefaultOutputFilename | combine_files.py:15 | the default file name starts with the directory name, is a single path component when that name holds no '/', and is read as a PDF, so a later run would select it as input |
| Assembler.ResolveSavePath | combine_files.py:73-76 | for an existing directory, the save path is a child of `ensure_path(save_path)` named `<directory name>_combined_output.pdf`; otherwise it is `ensure_path(save_path)` |
| Assembler.ResolveIntoDirectory | combine_files.py:73-76 | saving into the directory text `o/` while combining directory `d` gives the relative path `o/d_combined_output.pdf` |
| Assembler.ResolveExample | combine_files.py:73-76 | `out/` and `photos` resolve to `out/photos_combined_output.pdf` |
| Assembler.FilePages | combine_files.py:81-88 | a file's step succeeds exactly when the library call of its branch succeeds (the PDF reader for a file read as a PDF, the image conversion otherwise); a success holds the reader's pages or the one page the image becomes; a failure is reported against the file, as a PDF failure or an image failure by the same test |
| Assembler.Assemble | combine_files.py:80-88 | processing the files succeeds exactly when every file's step succeeds |
| Assembler.AssembleAppend | combine_files.py:80-88 | processing two runs of files in turn is processing their concatenation |
| Assembler.AssembleFirstError | combine_files.py:80-88 | the error reported is the first failing file's; later files are never looked at |
| Assembler.PageCount | combine_files.py:78-88 | a successful assembly holds the PDFs' pages plus one page per image |
| Assembler.Convert | combine_files.py:61-92 | a run writes if and only if the listing, every selected file and the output open succeed; the write goes to the resolved save path and holds the assembled pages |
| Assembler.ConvertSucceeds | combine_files.py:61-92 | a run writes its document exactly when the directory can be listed, the library reads every selected file, and the output can be opened |
| Assembler.EmptySelection | combine_files.py:78-92 | a directory with nothing selected writes a document with no pages, not an error |
| Assembler.ConvertPageCount | combine_files.py:78-92 | the written document has the PDFs' pages plus one page per image among the selected files |
| Assembler.SinglePdf | combine_files.py:78-92 | a directory whose only selected entry is an N-page PDF writes exactly those N pages in their order |
| Assembler.ConvertListingOrderIrrelevant | combine_files.py:61-92 | the order in which the directory is listed does not change what is written |
| Assembler.AddPages | combine_files.py:83-84 | after the inner loop the writer is its old pages followed by every page of the PDF, in the PDF's order |
| Assembler.AddFile | combine_files.py:81-88 | one pass of the outer loop extends the writer by the file's contribution (all pages of a PDF, the single page of an image), or is that file's read error |
| Assembler.CollectPages | combine_files.py:78-88 | the outer loop leaves in the writer each file's pages in turn, or stops with the first file's error; the result equals `Assemble` |
| Assembler.ConvertFilesToPdf | combine_files.py:61-92 | with the DPI defaulting to 300, the method's result is the run `Convert` describes: the resolved save path and the collected pages, or the first error |

## Left out

- `main` (combine_files.py:95-118) is left out. It covers argument parsing, prompts, printing and the catch-all error message, all console I/O.
- The internals of `convert_image_to_pdf` (combine_files.py:44-58) are left out, because they are image-library calls. An image becomes an opaque function from a path and a DPI to one page, or a failure.
- The internals of the PDF reader and writer are left out. That covers byte serialisation, and an image PDF with no page 0, which counts as an image failure. Pages are an opaque type parameter, and the writer is a `seq<Page>`.
- A `save_path.is_dir()` that raises (combine_files.py:75) is not modelled: under Python 3.12 it re-raises errors such as a denied permission and ends the run before anything is listed, while the model treats the test as a plain yes or no.
- The file system is left out. `is_dir`, `iterdir` and `open("wb")` are inputs. A failure part-way through the final write, which can leave a damaged file, is not modelled.
- File names that are not valid Unicode are not modelled. The listing is names, each a single path component.
- `Strings.Lower`: only ASCII letters are lower-cased. No other character lower-cases to one of the letters of the four extensions, so selection is unaffected.
- `Paths` models POSIX paths only. Windows drives and case-folding in path comparison are not modelled.
- Resource handling inside the loop (closing each reader before the next file) is not modelled.
