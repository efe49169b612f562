# Image inspector: a verified model of its scanning and row-handling logic

The application is a small Tkinter desktop tool. The user picks a folder and
presses "Scan". The tool walks the folder tree, keeps every file whose
lower-cased name ends with a supported image suffix, and opens each kept file
with an imaging library. For each file that opens, it adds one row to a table:

- Filename;
- Dimensions;
- Resolution;
- Color Depth;
- Compression.

It also remembers which file each row came from. A double click on a row
opens that file.

This project models the logic behind those steps and proves its properties.

- `text.dfy` (module `Text`): the Python string behaviour the application
  relies on.
  - ASCII `str.lower`.
  - `str.endswith` with a tuple of suffixes.
  - The decimal rendering of integers inside f-strings, with the
    read-back function that is its inverse.
- `paths.dfy` (module `Paths`): POSIX `os.path.join` of a walked directory
  and a file name, and `os.path.basename`. It proves that the basename of a
  joined path is the joined name.
- `selection.dfy` (module `Selection`): the suffix filter and the list of
  selected paths, built from a walk given as a sequence of
  (directory, file names) steps.
- `rows.dfy` (module `Rows`): the five cells of a row, built from what the
  decoder reports, with the defaults for missing `dpi` and `compression`
  entries and the colour-depth table. It also holds the outcome of the
  per-file loop: a row for each file that decodes, nothing for a file that
  fails, and the loop carrying on either way.
- `inspector.dfy` (module `Inspector`): the application state as a class.
  - It holds the table's rows, the dictionary from row handle to file path,
    and the counter that hands out row handles.
  - Its methods are the scan request (which clears both, deleting rows one at
    a time), the processing loop, and the double-click lookup.
  - The class invariant `Valid` says three things:
    - the dictionary's keys are exactly the row handles;
    - handles are increasing and fresh;
    - each row's Filename cell is the basename of the path its handle opens.

The decoder is an input: a map from path to the decoded image (width,
height, pixel mode, info entries). A path missing from the map is a file
that fails to open. The walk is an input too.

## Model

| member | source | states |
|---|---|---|
| Text.Lower | main.py:106 | Lower-casing turns each ASCII letter 'A'-'Z' into its lower-case letter and keeps every other character |
| Text.LowerNoUpper | main.py:106 | A text without upper-case ASCII letters is its own lower-cased form |
| Text.LowerOfUpper | main.py:106 | Lower-casing after upper-casing gives the same text as lower-casing alone, so the case of a name cannot change the filter's answer |
| Text.EndsWithAnyIff | main.py:106 | `endswith` with a tuple holds exactly when the text ends with at least one of the suffixes |
| Text.NatStr | main.py:116 | A natural number is written as a non-empty run of decimal digits without a leading zero |
| Text.DecimalRoundTrip | main.py:116 | Reading the digits of a rendered number back gives the number |
| Text.NatStrInjective | main.py:116 | Distinct numbers render as distinct texts |
| Text.IntStr | main.py:118 | An integer renders without blanks, and its first character is a digit exactly when it is not negative |
| Text.IntStrInjective | main.py:118 | Distinct integers render as distinct texts |
| Paths.DirPrefix | main.py:104 | Before a joined relative name, a directory that is empty or already ends in a separator is kept as it is; any other directory gets one separator added |
| Paths.BasenameIsSuffix | main.py:115 | The basename is a suffix of the path |
| Paths.BasenameHasNoSep | main.py:115 | The basename holds no separator |
| Paths.BasenameAfterLastSep | main.py:115 | The basename is preceded by a separator unless it is the whole path, so it is the part after the last separator |
| Paths.BasenameAfterSep | main.py:115 | After a separator, a separator-free name is its own basename |
| Paths.BasenameOfJoin | main.py:104-115 | The basename of a joined path is the file name that was joined |
| Selection.ImageNameIff | main.py:103-106 | A name is selected exactly when its lower-cased form ends with one of `.jpg .jpeg .gif .tif .tiff .bmp .png` |
| Selection.ImageNameAccepts | main.py:103-106 | `A.JPG`, `scan.Tiff` and `.png` are selected |
| Selection.ImageNameRejects | main.py:103-106 | `photo.jpg.txt` and `png` are not selected |
| Selection.ImageNameCaseInsensitive | main.py:106 | Changing the case of a name does not change whether it is selected |
| Selection.SelectIn | main.py:104-106 | One directory selects at most as many paths as it has files |
| Selection.SelectInCount | main.py:104-106 | One directory selects exactly as many paths as it has image names |
| Selection.SelectImagesCount | main.py:104-106 | The selected list has one path per image name in the walk |
| Selection.SelectInAppend | main.py:104-106 | Within one directory the selected paths keep the order of its file names |
| Selection.SelectImagesAppend | main.py:104-105 | Selection keeps walk order: a walk split in two selects the first part's paths, then the second part's |
| Selection.SelectInMember | main.py:104-106 | A path is selected from one directory exactly when some image file of it joins to that path |
| Selection.SelectImagesMember | main.py:104-106 | A path is selected exactly when some image file of some walk step joins to it |
| Selection.SelectedAreImages | main.py:104-106 | Every selected path's basename passes the suffix test |
| Selection.NonImageNeverSelected | main.py:104-106 | A file whose name fails the test is never selected, whatever directory it is in |
| Selection.NoImagesFound | main.py:104-110 | The selection is empty exactly when no file of the walk has an image name, which is when the "No Images Found" message appears |
| Selection.SelectExample | main.py:103-106 | A folder holding `a.png` and `b.txt` selects only `/photos/a.png` |
| Rows.ColorDepth | main.py:130-135 | The colour depth always ends in " bits" |
| Rows.ColorDepthUnknownIff | main.py:130-135 | The depth is "Unknown bits" exactly for the modes missing from the table |
| Rows.ColorDepthReadsBack | main.py:130-135 | For a mode in the table, the number before " bits" reads back as that mode's bit count |
| Rows.ColorDepthExamples | main.py:130-135 | "RGB" gives "24 bits", "1" gives "1 bits", and "LA" gives "Unknown bits" |
| Rows.ByCellInjective | main.py:116-118 | A "a x b" cell whose first half has no blank splits back into its halves |
| Rows.DimensionsInjective | main.py:116 | The Dimensions cell determines the width and the height |
| Rows.MakeRowFailsIff | main.py:117-118 | Building a row fails exactly when a `dpi` entry is present with fewer than two items, since indexing it raises |
| Rows.MakeRowDefaults | main.py:117-120 | With no `dpi` entry the row is built and its resolution is "0 x 0"; compression is the `compression` entry, or "None" when there is none |
| Rows.MakeRowUsesDpi | main.py:117-118 | With a two-number `dpi` entry the row is built and its Resolution cell is "<x> x <y>" |
| Rows.MakeRowResolution | main.py:117-118 | The two numbers of a `dpi` entry can be read back from the Resolution cell |
| Rows.MakeRowNamesFile | main.py:104-115 | A row built for a joined path is named by the joined file name |
| Rows.MakeRowExample | main.py:115-120 | A 100 by 50 RGB image with no info entries gives the row ("a.png", "100 x 50", "0 x 0", "24 bits", "None") |
| Rows.Emit | main.py:113-128 | One file adds at most one row |
| Rows.Collect | main.py:112-128 | The loop adds at most one row per file |
| Rows.CollectAppend | main.py:112 | The loop's outcome over two runs of files is the two outcomes one after the other |
| Rows.FailureIsolated | main.py:127-128 | A file that fails adds nothing, and the files after it are processed as if it were absent |
| Rows.CollectMember | main.py:112-125 | A row is added for a path exactly when the path is among the files and decoding it gives that row |
| Rows.CollectAllSucceed | main.py:112-125 | When every file decodes, there is one row per file, in file order |
| Rows.CollectStep | main.py:112 | After one more file, the outcome is the previous outcome plus that file's row, if any |
| Rows.DecodedStep | main.py:112-128 | The same step for the application's decoder |
| Rows.DecodeExample | main.py:112-125 | Processing that PNG adds exactly that one row |
| Inspector.IdsMember | main.py:123-125 | A handle is among the rows' handles exactly when some row carries it |
| Inspector.RemoveAbsent | main.py:96 | Deleting a handle no row has leaves the table as it is |
| Inspector.RemoveHead | main.py:95-96 | Deleting the first row's handle removes exactly the first row |
| Inspector.RemoveId | main.py:96 | Deleting never lengthens the table |
| Inspector.Items | main.py:123-124 | Processing adds one row per decoded file |
| Inspector.AppendNamed | main.py:115-125 | A row appended under a new handle, and recorded with the path it was built from, keeps every row named by its file |
| Inspector.PathMapKeys | main.py:123-125 | The handles of the added rows are exactly the added dictionary keys |
| Inspector.ItemsAt | main.py:123-125 | Added row `k` has handle `start + k` and the cells of the `k`-th decoded file, and that handle maps to the file's path |
| Inspector.ItemsAppend | main.py:112-125 | The rows and entries added by two runs are those of the first run, then those of the second under the next handles |
| Inspector.AppendConsistent | main.py:123-125 | Inserting a row under the counter's handle, recording its path under that handle and advancing the counter keeps the dictionary's keys equal to the row handles, handles fresh, and rows named by their files |
| Inspector.StepState | main.py:112-125 | Adding one file's outcome to the state after the first files gives the state after one more file |
| Inspector.ImageInspector.constructor | main.py:81 | The application starts with no rows and an empty dictionary, and the invariant holds |
| Inspector.ImageInspector.Insert | main.py:123-124 | Inserting appends a row under the counter's handle and advances the counter |
| Inspector.ImageInspector.Delete | main.py:96 | Deleting removes the rows with that handle |
| Inspector.ImageInspector.ScanImages | main.py:88-97 | An empty folder field changes nothing; otherwise every row is deleted and the dictionary is cleared, keeping the invariant |
| Inspector.ImageInspector.ProcessImages | main.py:102-128 | Reports "found" exactly when the selection is non-empty; the new rows and entries are those of the decoded selected files, in order and under fresh handles; the invariant is kept |
| Inspector.ImageInspector.ProcessFiles | main.py:112-128 | The loop adds the rows and dictionary entries of the decoded files, in order, under consecutive handles, keeping the invariant |
| Inspector.ImageInspector.ProcessFile | main.py:113-128 | One file adds its row and entry when it decodes, and leaves the state unchanged when it does not |
| Inspector.ImageInspector.Record | main.py:123-125 | A decoded file's row is appended and its path recorded under the new row's handle, keeping the invariant |
| Inspector.ImageInspector.Activate | main.py:137-141 | An open request comes back exactly when a row is focused and its handle maps to a non-empty path; the request carries that path, and the focused row's Filename cell is that path's basename |

## Left out

- Window construction, styles, scrollbars and event binding (main.py:12-81): user interface only.
- The folder dialog (main.py:83-86) and the message boxes (main.py:91, 109, 150, 152): user interface side effects. The warnings and the "No Images Found" message are modelled as the returned flags of `ScanImages` and `ProcessImages`.
- The worker thread (main.py:100): processing is modelled as one sequential call that follows the scan request. Interleaving with user actions is not modelled.
- `os.walk` and the imaging library's `Image.open` (main.py:104-105, 114) are inputs. The walk is a sequence of (directory, file names) steps. The decoder is a map from path to decoded image, and a path missing from it fails to open.
- Decoder values are limited to what the row uses. A `dpi` entry is either a sequence of integers or a text, and a `compression` entry is kept as that value. Floating-point `dpi` values, and how Tk turns a cell value into text, are not modelled.
- Opening the file through the platform's launcher (main.py:142-152): the model stops at the open request carrying the path.
- The error print (main.py:128): a failing file only adds nothing.
- Lower-casing is ASCII only; Python's full Unicode `str.lower` is not modelled.
- Paths follow POSIX rules; Windows drive letters and back-slashes are not modelled.
- Tk row handles are strings such as "I001"; the model uses the never-reset counter behind them as a natural number, and an empty focus as `None`.
- Inspector.ImageInspector.Activate: requires the class invariant; the source has no such check, but every state the other methods reach satisfies it.

The "No Images Found" message (main.py:108-110) depends on whether any file was selected,
not on whether any selected file decoded: when every selected file fails,
the table stays empty and no message is shown (`ProcessImages` returns true).
