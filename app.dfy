/** The ImageToPdfApp controller: the fields that the list operations read
    and write, and one method per event handler that touches them. */
module App {
  import opened Wrappers
  import opened Paths
  import opened Ordering
  import opened ImageList

  /** The text of the image count label. */
  datatype CountLabel =
    | NoneDetected                          // "Images detected: 0", as the window is built
    | Counts(detected: nat, included: nat)  // "Images detected: N (Included: K)"

  /** The checks generate_pdf makes before it calls the encoder, each with
      its own error message. */
  datatype GenerateError =
    | NoFolder          // "Please select an image folder"
    | NoSavePath        // "Please select a PDF save path"
    | NoImagesFound     // "No images found in the selected folder"
    | NoImagesSelected  // "No images selected for PDF generation"

  /** One flag per listed path, and none for anything else. */
  ghost predicate FlagsMatch(files: seq<string>, status: map<string, bool>) {
    forall p :: p in status <==> p in files
  }

  /** What the handlers keep true between events: no path twice, one flag
      per listed path, the listbox showing each path's basename in list
      order with the colour of its flag, and the count label telling the
      truth once something has been loaded. */
  ghost predicate Consistent(files: seq<string>, status: map<string, bool>,
                             rows: seq<string>, colors: seq<string>, shown: CountLabel) {
    && Distinct(files)
    && FlagsMatch(files, status)
    && rows == Basenames(files)
    && colors == RowColors(files, status)
    && (shown.NoneDetected? ==> files == [])
    && (shown.Counts? ==> shown == Counts(|files|, IncludedCount(status)))
  }

  /** A fresh load is consistent, with every row green and both numbers of
      the shown equal. */
  lemma LoadConsistent(folder: string, listing: seq<string>)
    requires IsListing(listing)
    ensures var files := Loaded(folder, listing);
      && IncludedCount(AllIncluded(files)) == |files|
      && (forall k :: 0 <= k < |files| ==> RowColors(files, AllIncluded(files))[k] == IncludedColor)
      && Consistent(files, AllIncluded(files), Basenames(files), RowColors(files, AllIncluded(files)),
                    Counts(|files|, |files|))
  {
    var files := Loaded(folder, listing);
    LoadedDistinct(folder, listing);
    AllIncludedCount(files);
  }

  /** A drag step keeps the state consistent, the rows moving with the paths. */
  lemma DragConsistent(files: seq<string>, status: map<string, bool>, shown: CountLabel,
                       from: nat, to: nat)
    requires from < |files| && to < |files|
    requires Consistent(files, status, Basenames(files), RowColors(files, status), shown)
    ensures var moved := Move(files, from, to);
      && Move(Basenames(files), from, to) == Basenames(moved)
      && Consistent(moved, status, Basenames(moved), RowColors(moved, status), shown)
  {
    var moved := Move(files, from, to);
    MoveShifts(files, from, to);
    MoveDistinct(files, from, to);
    BasenamesOfMove(files, from, to);
    forall p ensures p in moved <==> p in files {
      assert p in moved <==> p in multiset(moved);
      assert p in files <==> p in multiset(files);
    }
  }

  /** The two pop-and-insert steps of on_listbox_drag, on the listbox rows
      and on the paths, are the same move, and the state stays consistent
      once the rows are recoloured. */
  lemma DragStep(files: seq<string>, status: map<string, bool>, rows: seq<string>,
                 colors: seq<string>, shown: CountLabel, from: nat, to: nat)
    requires from < |files| && to < |files|
    requires Consistent(files, status, rows, colors, shown)
    ensures Consistent(Move(files, from, to), status, Move(rows, from, to),
                       RowColors(Move(files, from, to), status), shown)
  {
    DragConsistent(files, status, shown, from, to);
  }

  /** Toggling the flag of row i, recolouring that row only and recounting
      keeps the state consistent; the count moves by one. */
  lemma ToggleConsistent(files: seq<string>, status: map<string, bool>, shown: CountLabel, i: nat)
    requires i < |files|
    requires Consistent(files, status, Basenames(files), RowColors(files, status), shown)
    ensures var flipped := Flip(status, files[i]);
      && Consistent(files, flipped, Basenames(files),
                    RowColors(files, status)[i := RowColor(!Included(status, files[i]))],
                    Counts(|files|, IncludedCount(flipped)))
      && IncludedCount(flipped) == (if Included(status, files[i]) then IncludedCount(status) - 1
                                    else IncludedCount(status) + 1)
  {
    RecolorAfterFlip(files, status, i);
    FlipCount(status, files[i]);
  }

  /** The append loop of load_images (lines 153-157): each listed name whose
      lowered extension is supported, joined to the folder, in listing order. */
  method CollectImages(folder: string, listing: seq<string>) returns (files: seq<string>)
    ensures files == Candidates(folder, listing)
  {
    files := [];
    var i := 0;
    while i < |listing|
      invariant 0 <= i <= |listing|
      invariant files == Candidates(folder, listing[..i])
    {
      var file := listing[i];
      var ext := Lower(Extension(file));
      if ext in ImageExtensions {
        files := files + [Join(folder, file)];
      }
      assert listing[..i + 1][..i] == listing[..i];
      i := i + 1;
    }
    assert listing[..i] == listing;
  }

  /** The status loop of load_images (lines 163-165): a true flag for every path. */
  method MarkAllIncluded(files: seq<string>) returns (status: map<string, bool>)
    ensures status == AllIncluded(files)
  {
    status := map[];
    var j := 0;
    while j < |files|
      invariant 0 <= j <= |files|
      invariant status == AllIncluded(files[..j])
    {
      assert files[..j + 1] == files[..j] + [files[j]];
      status := status[files[j] := true];
      j := j + 1;
    }
    assert files[..j] == files;
  }

  class ImageToPdfApp {
    var imageFolder: string
    var pdfSavePath: string
    /** The page order. */
    var imageFiles: seq<string>
    /** The row a drag started on or has reached; None when no drag is in progress. */
    var draggedItem: Option<int>
    /** Included flags by path. */
    var imageStatus: map<string, bool>
    var countLabel: CountLabel
    /** The rows of the listbox widget and their backgrounds. */
    ghost var listboxRows: seq<string>
    ghost var rowColors: seq<string>

    ghost predicate Valid()
      reads this
    {
      Consistent(imageFiles, imageStatus, listboxRows, rowColors, countLabel)
    }

    constructor ()
      ensures Valid()
      ensures imageFolder == "" && pdfSavePath == "" && imageFiles == []
      ensures draggedItem == None && imageStatus == map[] && countLabel == NoneDetected
    {
      imageFolder := "";
      pdfSavePath := "";
      imageFiles := [];
      draggedItem := None;
      imageStatus := map[];
      countLabel := NoneDetected;
      listboxRows := [];
      rowColors := [];
    }

    /** select_image_folder: `picked` is the folder dialog's answer ("" when
        cancelled) and `listing` the entry names os.listdir reports for it. */
    method SelectImageFolder(picked: string, listing: seq<string>)
      requires Valid() && IsListing(listing)
      modifies this`imageFolder, this`imageFiles, this`imageStatus, this`countLabel,
               this`listboxRows, this`rowColors
      ensures Valid()
      ensures picked == "" ==> unchanged(this)
      ensures picked != "" ==>
        && imageFolder == picked
        && imageFiles == Loaded(picked, listing)
        && imageStatus == AllIncluded(imageFiles)
        && countLabel == Counts(|imageFiles|, |imageFiles|)
    {
      if picked != "" {
        imageFolder := picked;
        LoadImages(listing);
      }
    }

    /** select_pdf_save_path: `picked` is the save dialog's answer ("" when cancelled). */
    method SelectPdfSavePath(picked: string)
      requires Valid()
      modifies this`pdfSavePath
      ensures Valid()
      ensures pdfSavePath == if picked == "" then old(pdfSavePath) else picked
    {
      if picked != "" {
        pdfSavePath := picked;
      }
    }

    /** load_images: rebuild the list from the folder's listing, sort it,
        mark every path included, refresh the count shown and the listbox. */
    method LoadImages(listing: seq<string>)
      requires IsListing(listing)
      modifies this`imageFiles, this`imageStatus, this`countLabel, this`listboxRows, this`rowColors
      ensures Valid()
      ensures imageFiles == Loaded(old(imageFolder), listing)
      ensures imageStatus == AllIncluded(imageFiles)
      ensures countLabel == Counts(|imageFiles|, |imageFiles|)
      ensures forall k :: 0 <= k < |rowColors| ==> rowColors[k] == IncludedColor
    {
      var folder := imageFolder;
      LoadConsistent(folder, listing);
      var files := CollectImages(folder, listing);
      files := Sort(files);
      assert files == Loaded(folder, listing);
      var status := MarkAllIncluded(files);
      imageFiles, imageStatus := files, status;
      countLabel := Counts(|files|, IncludedCount(status));
      listboxRows, rowColors := Basenames(files), RowColors(files, status);
    }

    /** on_listbox_click: a press on row `index` (the listbox's nearest row)
        starts a drag there. */
    method OnListboxClick(index: int)
      requires Valid()
      modifies this`draggedItem
      ensures Valid()
      ensures draggedItem == Some(index)
    {
      draggedItem := Some(index);
    }

    /** on_listbox_drag: with the pointer over row `index`, the dragged path
        (and its listbox row) is popped and reinserted there. The listbox
        reports -1 only when it is empty. */
    method OnListboxDrag(index: int)
      requires Valid()
      requires index < |imageFiles|
      requires 0 <= index ==> draggedItem.Some? && 0 <= draggedItem.value < |imageFiles|
      modifies this`imageFiles, this`listboxRows, this`draggedItem, this`rowColors
      ensures Valid()
      ensures 0 <= index && old(draggedItem) != Some(index) ==>
        && imageFiles == Move(old(imageFiles), old(draggedItem).value, index)
        && listboxRows == Move(old(listboxRows), old(draggedItem).value, index)
        && draggedItem == Some(index)
      ensures !(0 <= index && old(draggedItem) != Some(index)) ==>
        imageFiles == old(imageFiles) && listboxRows == old(listboxRows) && draggedItem == old(draggedItem)
    {
      if draggedItem != Some(index) && index >= 0 {
        var from := draggedItem.value;
        // the listbox row is moved first, then the path
        ghost var rows := Insert(Pop(listboxRows, from), index, listboxRows[from]);
        var img := imageFiles[from];
        var files := Insert(Pop(imageFiles, from), index, img);
        DragStep(imageFiles, imageStatus, listboxRows, rowColors, countLabel, from, index);
        imageFiles, listboxRows := files, rows;
        draggedItem := Some(index);
        rowColors := RowColors(files, imageStatus);
      }
    }

    /** on_listbox_release: the drag ends; the colours are reapplied. */
    method OnListboxRelease()
      requires Valid()
      modifies this`draggedItem, this`rowColors
      ensures Valid()
      ensures draggedItem == None
      ensures rowColors == old(rowColors)
    {
      draggedItem := None;
      rowColors := RowColors(imageFiles, imageStatus);
    }

    /** exclude_image: `selected` is the listbox's current selection. The
        first selected path has its flag flipped (a path without a flag
        counts as included), its row recoloured and the shown recounted. */
    method ExcludeImage(selected: seq<int>)
      requires Valid()
      requires selected != [] ==> 0 <= selected[0] < |imageFiles|
      modifies this
      ensures Valid()
      ensures imageFiles == old(imageFiles) && listboxRows == old(listboxRows)
      ensures draggedItem == old(draggedItem)
      ensures imageFolder == old(imageFolder) && pdfSavePath == old(pdfSavePath)
      ensures selected == [] ==>
        imageStatus == old(imageStatus) && countLabel == old(countLabel) && rowColors == old(rowColors)
      ensures selected != [] ==>
        var p := imageFiles[selected[0]];
        && imageStatus == Flip(old(imageStatus), p)
        && countLabel == Counts(|imageFiles|, IncludedCount(imageStatus))
        && countLabel.included == (if Included(old(imageStatus), p)
                                   then IncludedCount(old(imageStatus)) - 1
                                   else IncludedCount(old(imageStatus)) + 1)
    {
      if selected == [] {
        return;
      }
      var index := selected[0];
      var imgPath := imageFiles[index];
      var currentStatus := Included(imageStatus, imgPath);
      var newStatus := !currentStatus;
      ghost var oldStatus := imageStatus;
      imageStatus := imageStatus[imgPath := newStatus];
      rowColors := rowColors[index := RowColor(newStatus)];
      countLabel := Counts(|imageFiles|, IncludedCount(imageStatus));

      ToggleConsistent(imageFiles, oldStatus, old(countLabel), index);
    }

    /** The checks of generate_pdf, in its order, and the list it passes to
        the encoder when all of them pass. */
    method GeneratePdf() returns (r: Result<seq<string>, GenerateError>)
      ensures imageFolder == "" ==> r == Failure(NoFolder)
      ensures imageFolder != "" && pdfSavePath == "" ==> r == Failure(NoSavePath)
      ensures imageFolder != "" && pdfSavePath != "" && imageFiles == [] ==> r == Failure(NoImagesFound)
      ensures imageFolder != "" && pdfSavePath != "" && imageFiles != [] ==>
        r == (if IncludedImages(imageFiles, imageStatus) == [] then Failure(NoImagesSelected)
              else Success(IncludedImages(imageFiles, imageStatus)))
      ensures r.Success? ==>
        && r.value != []
        && IsSubsequence(r.value, imageFiles)
        && (forall p :: p in r.value <==> p in imageFiles && Included(imageStatus, p))
      ensures r.Success? && Valid() ==> |r.value| == countLabel.included
    {
      if imageFolder == "" {
        return Failure(NoFolder);
      }
      if pdfSavePath == "" {
        return Failure(NoSavePath);
      }
      if |imageFiles| == 0 {
        return Failure(NoImagesFound);
      }
      var includedImages := IncludedImages(imageFiles, imageStatus);
      if |includedImages| == 0 {
        return Failure(NoImagesSelected);
      }
      IncludedIsSubsequence(imageFiles, imageStatus);
      if Valid() {
        IncludedLengthIsCount(imageFiles, imageStatus);
      }
      return Success(includedImages);
    }
  }
}
