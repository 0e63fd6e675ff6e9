# ImageToPDF image list, in Dafny

ImageToPDF is a desktop tool. The user picks a folder of pictures and
reorders them by dragging rows of a list box. Clicking "Exclude Selected
Image" flips a row between included (green) and excluded (red). The tool
then writes the included pictures, in list order, into one PDF.

All of that state lives in the `ImageToPdfApp` controller of
`ImageToPDF/Code/image_to_pdf_app.py`. This project models that controller
as a Dafny class, `App.ImageToPdfApp`, with these fields:

- the image folder and the PDF save path;
- `imageFiles`, the page order;
- `imageStatus`, the included flag of each path;
- `draggedItem`, the row a drag is on;
- the count label ("Images detected: N (Included: K)").

Two ghost fields record what the list box widget shows: the row texts and
the row backgrounds. Each event handler is a method that changes these
fields as the Python code does. `Valid()` is the invariant every handler
keeps:

- no path is listed twice;
- there is exactly one flag per listed path;
- row k of the list box shows the basename of path k, in the colour of its flag;
- once something has been loaded, the count label tells the truth.

The value-level meaning of each step is defined by functions and proved
about in lemmas:

- `Paths`: `os.path.splitext`, `join` and `basename` on POSIX paths, and
  `str.lower` on the extension.
- `Ordering`: Python's string order (code-point lexicographic) and
  `list.sort`.
- `ImageList`: what a load collects, the pop-and-insert drag move, the
  flag flip and the included count, the included subsequence passed to the
  encoder, and the list box rows and colours.
- `Scenarios`: small concrete runs, among them a whole
  load / exclude / generate sequence through the class.

Some behaviour of the code worth knowing when reading the model:

- `exclude_image` never looks a path up. It flips the flag of the first
  selected row, whose path is always in `image_files`. A path without an
  entry in `image_status` counts as included (`dict.get(p, True)`).
- `on_listbox_drag` has no range check. Its indices come from the list
  box (`nearest`), so the model states them as preconditions.
- `generate_pdf` has two separate empty-list messages, "no images found"
  (line 318) and "no images selected" (line 325), and `GenerateError`
  keeps both.
- The comment at line 189 says "Swap", but the code moves the element
  (pop, then insert); `Scenarios.DragIsNotSwap` shows the difference.

## Model

| member | source | states |
|---|---|---|
| Paths.Lower | ImageToPDF/Code/image_to_pdf_app.py:155 | lowering keeps the length of the extension |
| Paths.LastDot | ImageToPDF/Code/image_to_pdf_app.py:155 | finds the last '.' of a name: that position holds a dot and no dot follows; None exactly when the name has no dot |
| Paths.Extension | ImageToPDF/Code/image_to_pdf_app.py:155 | splitext's extension is a suffix of the name that starts with its only dot and is preceded by some non-dot; it is empty for a dotted name only when every character before the last dot is a dot |
| Paths.IsImageName | ImageToPDF/Code/image_to_pdf_app.py:155-156 | the test of line 156 (lowered extension among .jpg, .jpeg, .png, .bmp, .gif); a name it accepts has an extension of at least four characters that is shorter than the name; Scenarios.UpperCaseExtension and the scenarios below it pin it on examples |
| Paths.Join | ImageToPDF/Code/image_to_pdf_app.py:157 | os.path.join on POSIX paths: the joined path ends with the name, and starts with the folder unless the name is absolute; BasenameOfJoin and JoinInjective state its meaning for listed names |
| Paths.Basename | ImageToPDF/Code/image_to_pdf_app.py:174 | os.path.basename: the result is no longer than the path and holds no separator; BasenameIsSuffix and BasenameAfterLastSep pin it to what follows the last separator |
| Paths.BasenameIsSuffix | ImageToPDF/Code/image_to_pdf_app.py:174 | basename is a suffix of the path that contains no separator |
| Paths.BasenameAfterLastSep | ImageToPDF/Code/image_to_pdf_app.py:174 | basename is the whole path or starts right after a separator, so it is what follows the last one |
| Paths.BasenameAfterSep | ImageToPDF/Code/image_to_pdf_app.py:157 | a separator-free name placed after a folder that ends in a separator (or is empty) is its own basename |
| Paths.BasenameOfJoin | ImageToPDF/Code/image_to_pdf_app.py:157-174 | the basename of join(folder, name) is the entry name back, so the list box row names the file that was listed |
| Paths.JoinInjective | ImageToPDF/Code/image_to_pdf_app.py:157 | two entry names give the same joined path in a folder exactly when they are equal |
| Ordering.LexLeReflexive | ImageToPDF/Code/image_to_pdf_app.py:160 | the string order used by sort is reflexive |
| Ordering.LexLeTotal | ImageToPDF/Code/image_to_pdf_app.py:160 | any two strings are comparable |
| Ordering.LexLeAntisymmetric | ImageToPDF/Code/image_to_pdf_app.py:160 | strings ordered both ways are equal |
| Ordering.LexLeTransitive | ImageToPDF/Code/image_to_pdf_app.py:160 | the order is transitive |
| Ordering.DistinctIndices | ImageToPDF/Code/image_to_pdf_app.py:153-165 | a repeat-free list has different entries at any two different positions |
| Ordering.DistinctFront | ImageToPDF/Code/image_to_pdf_app.py:154 | dropping the last entry of a repeat-free list leaves a repeat-free list without that entry |
| Ordering.InsertSorted | ImageToPDF/Code/image_to_pdf_app.py:160 | inserting adds exactly the one element to the list's multiset |
| Ordering.InsertSortedSorted | ImageToPDF/Code/image_to_pdf_app.py:160 | inserting into an ascending list keeps it ascending |
| Ordering.Sort | ImageToPDF/Code/image_to_pdf_app.py:160 | sort returns a permutation of its input |
| Ordering.SortSorted | ImageToPDF/Code/image_to_pdf_app.py:160 | the result of sort is ascending |
| Ordering.SortedPermutationUnique | ImageToPDF/Code/image_to_pdf_app.py:160 | two ascending permutations of one list are equal, so any correct sort, Python's included, gives the modelled order |
| Ordering.SortedDistinctStrict | ImageToPDF/Code/image_to_pdf_app.py:153-160 | a sorted list without repeats is strictly ascending |
| Ordering.DistinctByMultiset | ImageToPDF/Code/image_to_pdf_app.py:160 | reordering (same multiset) keeps a list repeat-free |
| Ordering.DistinctCounts | ImageToPDF/Code/image_to_pdf_app.py:160 | every element of a repeat-free list occurs once |
| Ordering.CountsDistinct | ImageToPDF/Code/image_to_pdf_app.py:160 | a list whose elements each occur at most once is repeat-free |
| ImageList.Candidates | ImageToPDF/Code/image_to_pdf_app.py:153-157 | the append loop collects at most one path per listed name |
| ImageList.CandidatesMembers | ImageToPDF/Code/image_to_pdf_app.py:153-157 | a path is collected exactly when it is the folder joined to a listed name with a supported extension |
| ImageList.Loaded | ImageToPDF/Code/image_to_pdf_app.py:153-160 | image_files after load_images: a permutation of the collected paths, as many as were collected; LoadedContents, LoadedDistinct and LoadedCount state its meaning |
| ImageList.LoadedContents | ImageToPDF/Code/image_to_pdf_app.py:153-160 | after loading, image_files is ascending, is a permutation of the collected paths, and holds exactly the folder joined to each supported listed name |
| ImageList.ListingFront | ImageToPDF/Code/image_to_pdf_app.py:154 | a listing without its last name is a listing that does not contain that name |
| ImageList.CandidatesDistinct | ImageToPDF/Code/image_to_pdf_app.py:154-157 | distinct listed names give distinct collected paths |
| ImageList.DistinctSnoc | ImageToPDF/Code/image_to_pdf_app.py:157 | appending a path not yet present keeps the list repeat-free |
| ImageList.LoadedDistinct | ImageToPDF/Code/image_to_pdf_app.py:153-160 | load_images never lists a path twice |
| ImageList.ImageNamesSnoc | ImageToPDF/Code/image_to_pdf_app.py:154-156 | the supported names of a longer listing are those of its front plus the last name when supported |
| ImageList.CandidatesCount | ImageToPDF/Code/image_to_pdf_app.py:153-157 | the loop collects one path per supported name |
| ImageList.LoadedCount | ImageToPDF/Code/image_to_pdf_app.py:153-169 | the detected count equals the number of supported names in the folder |
| ImageList.Included | ImageToPDF/Code/image_to_pdf_app.py:214 | image_status.get(p, True): a path is excluded exactly when it has an entry set to false; IncludedImages, Flip and RowColors are built on it |
| ImageList.AllIncluded | ImageToPDF/Code/image_to_pdf_app.py:163-165 | after a load the flags cover exactly the loaded paths and are all true |
| ImageList.Flip | ImageToPDF/Code/image_to_pdf_app.py:291-293 | the selected path's flag (true when absent) is negated, the path gains an entry, and every other flag is unchanged |
| ImageList.FlipTwice | ImageToPDF/Code/image_to_pdf_app.py:291-293 | toggling twice restores the flag, and the whole map when the path had an entry |
| ImageList.IncludedCount | ImageToPDF/Code/image_to_pdf_app.py:168 | the included number of the count label: never more than the number of flags; IncludedLengthIsCount ties it to the pages passed to the encoder and FlipCount to a toggle |
| ImageList.FlipCount | ImageToPDF/Code/image_to_pdf_app.py:291-305 | toggling a flagged path moves the included count down by one when it was included and up by one when it was not |
| ImageList.IncludedImages | ImageToPDF/Code/image_to_pdf_app.py:322 | the included list is no longer than image_files and holds exactly the listed paths whose flag (true when absent) is true |
| ImageList.IncludedIsSubsequence | ImageToPDF/Code/image_to_pdf_app.py:322 | the included list keeps the order of image_files |
| ImageList.IncludedWhenAllIncluded | ImageToPDF/Code/image_to_pdf_app.py:322 | when every listed path is included the list passed on is image_files itself |
| ImageList.IncludedLength | ImageToPDF/Code/image_to_pdf_app.py:322 | for a repeat-free list the included list is as long as the set of included listed paths |
| ImageList.IncludedLengthIsCount | ImageToPDF/Code/image_to_pdf_app.py:304-322 | with one flag per listed path the label's included number is the number of pages passed to the encoder |
| ImageList.AllIncludedCount | ImageToPDF/Code/image_to_pdf_app.py:163-169 | right after a load the included number equals the detected number |
| ImageList.Pop | ImageToPDF/Code/image_to_pdf_app.py:196 | list.pop(i) shortens the list by one and removes exactly that element from its multiset |
| ImageList.PopAt | ImageToPDF/Code/image_to_pdf_app.py:196 | pop keeps the entries before i and shifts the later ones down one place |
| ImageList.Insert | ImageToPDF/Code/image_to_pdf_app.py:197 | list.insert(i, x) puts x at i and adds exactly x to the multiset |
| ImageList.InsertAt | ImageToPDF/Code/image_to_pdf_app.py:197 | insert keeps the entries before i and shifts the others up one place |
| ImageList.Move | ImageToPDF/Code/image_to_pdf_app.py:195-197 | one drag step (pop at from, insert at to): same length, same multiset, the dragged element at the target; MoveShifts, MoveKeepsOthers and MoveInverse state the rest |
| ImageList.MoveShifts | ImageToPDF/Code/image_to_pdf_app.py:195-197 | a drag step is a permutation that puts the dragged element at the target; entries between the two positions shift by one and all others stay |
| ImageList.MoveKeepsOthers | ImageToPDF/Code/image_to_pdf_app.py:195-197 | apart from the dragged element the relative order is unchanged |
| ImageList.InsertPopped | ImageToPDF/Code/image_to_pdf_app.py:196-197 | inserting a popped element back where it was restores the list |
| ImageList.MoveInverse | ImageToPDF/Code/image_to_pdf_app.py:195-197 | dragging back to the start position undoes a drag step |
| ImageList.MoveDistinct | ImageToPDF/Code/image_to_pdf_app.py:195-197 | a drag step never introduces a repeated path |
| ImageList.MapSeq | ImageToPDF/Code/image_to_pdf_app.py:173-175 | one list box row per path |
| ImageList.MapPop | ImageToPDF/Code/image_to_pdf_app.py:190-191 | deleting a row then taking basenames equals taking basenames then deleting |
| ImageList.MapInsert | ImageToPDF/Code/image_to_pdf_app.py:192 | inserting a row commutes with taking basenames |
| ImageList.Basenames | ImageToPDF/Code/image_to_pdf_app.py:173-175 | the list box rows: one row per path; BasenamesOfMove keeps them in step with a drag |
| ImageList.BasenamesOfMove | ImageToPDF/Code/image_to_pdf_app.py:190-197 | moving the list box rows as the handler does keeps them the basenames of the moved paths |
| ImageList.RowColor | ImageToPDF/Code/image_to_pdf_app.py:215-220 | the row background: light green exactly when included, light red exactly when not |
| ImageList.RowColors | ImageToPDF/Code/image_to_pdf_app.py:211-220 | update_listbox_colors gives one background per path |
| ImageList.RecolorAfterFlip | ImageToPDF/Code/image_to_pdf_app.py:295-301 | recolouring only the selected row gives the colours of the new flags, since no other row shows that path |
| App.LoadConsistent | ImageToPDF/Code/image_to_pdf_app.py:153-178 | a fresh load is consistent: every row is green and the label shows the detected number twice |
| App.DragConsistent | ImageToPDF/Code/image_to_pdf_app.py:188-203 | a drag step keeps the state consistent, the rows moving with the paths |
| App.DragStep | ImageToPDF/Code/image_to_pdf_app.py:190-203 | moving the rows and the paths by the same drag step and recolouring all rows leaves the state consistent |
| App.ToggleConsistent | ImageToPDF/Code/image_to_pdf_app.py:291-305 | a toggle with one-row recolouring and a recount keeps the state consistent, and the count moves by one |
| App.CollectImages | ImageToPDF/Code/image_to_pdf_app.py:153-157 | the append loop yields the collected paths of the listing |
| App.MarkAllIncluded | ImageToPDF/Code/image_to_pdf_app.py:163-165 | the status loop yields a true flag for exactly the loaded paths |
| App.ImageToPdfApp.constructor | ImageToPDF/Code/image_to_pdf_app.py:30-34 | a new controller has no folder, no save path, no images, no drag, no flags, and a valid state |
| App.ImageToPdfApp.SelectImageFolder | ImageToPDF/Code/image_to_pdf_app.py:133-138 | a cancelled dialog changes nothing; a chosen folder is stored and loaded |
| App.ImageToPdfApp.SelectPdfSavePath | ImageToPDF/Code/image_to_pdf_app.py:140-146 | a chosen save path is stored; a cancelled dialog keeps the old one |
| App.ImageToPdfApp.LoadImages | ImageToPDF/Code/image_to_pdf_app.py:148-178 | image_files becomes the sorted supported paths of the listing; every flag is true; the label shows the length twice; every row is green; the state is valid |
| App.ImageToPdfApp.OnListboxClick | ImageToPDF/Code/image_to_pdf_app.py:180-183 | a press starts a drag on the row under the pointer |
| App.ImageToPdfApp.OnListboxDrag | ImageToPDF/Code/image_to_pdf_app.py:185-203 | over a new row the dragged path and its row move there and the drag follows; over the same row nothing changes; the flags and label are outside its frame |
| App.ImageToPdfApp.OnListboxRelease | ImageToPDF/Code/image_to_pdf_app.py:205-209 | the drag ends and recolouring changes no row |
| App.ImageToPdfApp.ExcludeImage | ImageToPDF/Code/image_to_pdf_app.py:281-305 | no selection changes nothing; otherwise only the first selected path's flag flips, the list and rows stay, and the label's included number moves by one to the true count |
| App.ImageToPdfApp.GeneratePdf | ImageToPDF/Code/image_to_pdf_app.py:307-326 | the checks run in order (folder, save path, images found, images selected); on success the encoder gets the non-empty, order-preserving included subsequence, as long as the label's included number |
| Scenarios.UpperCaseExtension | ImageToPDF/Code/image_to_pdf_app.py:155-156 | "PHOTO.JPG" is accepted: the extension is lowered before the test |
| Scenarios.HiddenFileHasNoExtension | ImageToPDF/Code/image_to_pdf_app.py:155-156 | ".png" has no extension and is skipped |
| Scenarios.LastDotCounts | ImageToPDF/Code/image_to_pdf_app.py:155-156 | "photo.png.txt" has extension ".txt" and is skipped |
| Scenarios.JoinExamples | ImageToPDF/Code/image_to_pdf_app.py:157-174 | join adds one separator, none after a trailing one, and basename gives the name back |
| Scenarios.DragIsNotSwap | ImageToPDF/Code/image_to_pdf_app.py:189-197 | dragging row 0 of [a, b, c] onto row 2 gives [b, c, a], not the swap [c, b, a] |
| Scenarios.JpgIsImage | ImageToPDF/Code/image_to_pdf_app.py:155-156 | "a.jpg" is accepted |
| Scenarios.TextIsNotImage | ImageToPDF/Code/image_to_pdf_app.py:155-156 | "notes.txt" is skipped |
| Scenarios.LoadOnePicture | ImageToPDF/Code/image_to_pdf_app.py:153-160 | a folder with a.jpg and notes.txt loads ["/pics/a.jpg"] |
| Scenarios.TextOnlyFolderLoadsNothing | ImageToPDF/Code/image_to_pdf_app.py:153-160 | a folder with only notes.txt loads nothing |
| Scenarios.SortThreePaths | ImageToPDF/Code/image_to_pdf_app.py:160 | three paths collected as b.png, a.jpg, c.gif are sorted to a.jpg, b.png, c.gif |
| Scenarios.TextOnlyFolderCannotGenerate | ImageToPDF/Code/image_to_pdf_app.py:309-319 | with a text-only folder and a save path chosen, generation fails with "no images found" |
| Scenarios.TwoEntryListing | ImageToPDF/Code/image_to_pdf_app.py:154 | the two-name listing used above is a valid listing |
| Scenarios.OnePictureToggles | ImageToPDF/Code/image_to_pdf_app.py:291-293 | in the one-picture folder, one toggle leaves nothing to encode and a second brings the picture back |
| Scenarios.ExcludeOnlyImage | ImageToPDF/Code/image_to_pdf_app.py:281-326 | with its only picture excluded, generation fails with "no images selected"; excluding it again makes generation pass that one path |

## Left out

- Widget construction, layout, styling and hover effects (lines 39-131 and 229-279) are not modelled, because they are display only.
- on_listbox_select (lines 222-227) is not modelled: it only enables the exclude button.
- The row backgrounds are ghost state. The itemconfig calls are modelled only as the colour each row ends up with.
- The folder and save dialogs (lines 133-146) are inputs. The picked string is a parameter, and "" stands for a cancelled dialog.
- messagebox calls are not modelled. GeneratePdf returns the error kind instead of showing it.
- os.listdir is an input: a listing of distinct, non-empty, separator-free names.
- A folder that cannot be listed is not modelled. In the code, os.listdir raises after image_files has already been emptied (line 153). The exception is not caught, so the flags, label and list box keep their old contents.
- img2pdf.convert, the file write and the exception handler (lines 328-335) are not modelled. They are a foreign library and file I/O. GeneratePdf stops at the list it would pass to the encoder.
- The output file is opened (and so truncated) before the encoder runs. A failing encode therefore leaves an empty file. This is file I/O and outside the model.
- Paths.Lower: lowers ASCII letters only. Python's str.lower also lowers other Unicode letters, but none occur in the supported extensions.
- Paths.Join and Paths.Basename model POSIX paths only (separator '/'), not the Windows variants of os.path.
- App.ImageToPdfApp.OnListboxDrag: requires dragged_item to be set and in range whenever the pointer is over a row. A drag with dragged_item None would raise at line 190. Tk sends motion events only between a press and a release, so this does not happen.
- App.ImageToPdfApp.OnListboxDrag, OnListboxRelease, LoadImages and SelectImageFolder: that the untouched fields (image_status, the label, the folder, the save path, dragged_item) stay the same is stated by their modifies clauses, not by ensures.
- The unused PIL import and the main loop (lines 6 and 337-340) are not modelled.
