/** Concrete runs of the model on small inputs. */
module Scenarios {
  import opened Wrappers
  import opened Paths
  import opened Ordering
  import opened ImageList
  import opened App

  /** Extensions are compared after lowering. */
  lemma UpperCaseExtension()
    ensures IsImageName("PHOTO.JPG")
  {
    var n := "PHOTO.JPG";
    assert n[..8] == "PHOTO.JP" && n[..7] == "PHOTO.J" && n[..6] == "PHOTO.";
    assert LastDot(n) == Some(5);
    assert n[0] != '.';
    assert Extension(n) == ".JPG";
    assert Lower(".JPG") == ".jpg";
  }

  /** A name whose only dot is its first character has no extension. */
  lemma HiddenFileHasNoExtension()
    ensures !IsImageName(".png")
  {
    var n := ".png";
    assert n[..3] == ".pn" && n[..2] == ".p" && n[..1] == ".";
    assert LastDot(n) == Some(0);
    assert Extension(n) == "";
  }

  /** Only the last dot counts. */
  lemma LastDotCounts()
    ensures !IsImageName("photo.png.txt")
  {
    var n := "photo.png.txt";
    assert n[..12] == "photo.png.tx" && n[..11] == "photo.png.t" && n[..10] == "photo.png.";
    assert LastDot(n) == Some(9);
    assert n[0] != '.';
    assert Extension(n) == ".txt";
    assert Lower(".txt") == ".txt";
  }

  /** Joining inserts one separator, and none after a folder that ends in
      one; the listbox shows the name back. */
  lemma JoinExamples()
    ensures Join("/pics", "a.jpg") == "/pics/a.jpg"
    ensures Join("/pics/", "a.jpg") == "/pics/a.jpg"
    ensures Basename("/pics/a.jpg") == "a.jpg"
  {
    BasenameOfJoin("/pics", "a.jpg");
  }

  /** Dragging the first of three rows onto the last moves it there and
      shifts the other two up: it is not a swap. */
  lemma DragIsNotSwap()
    ensures Move(["a", "b", "c"], 0, 2) == ["b", "c", "a"]
    ensures Move(["a", "b", "c"], 0, 2) != ["c", "b", "a"]
  {
    var s := ["a", "b", "c"];
    assert s[..0] == [] && s[1..] == ["b", "c"];
    assert Pop(s, 0) == ["b", "c"];
    var t := ["b", "c"];
    assert t[..2] == t && t[2..] == [];
    assert Insert(t, 2, "a") == ["b", "c", "a"];
  }

  lemma JpgIsImage()
    ensures IsImageName("a.jpg")
  {
    var n := "a.jpg";
    assert n[..4] == "a.jp" && n[..3] == "a.j" && n[..2] == "a.";
    assert LastDot(n) == Some(1) && n[0] != '.';
    assert Extension(n) == ".jpg" && Lower(".jpg") == ".jpg";
  }

  lemma TextIsNotImage()
    ensures !IsImageName("notes.txt")
  {
    var t := "notes.txt";
    assert t[..8] == "notes.tx" && t[..7] == "notes.t" && t[..6] == "notes.";
    assert LastDot(t) == Some(5) && t[0] != '.';
    assert Extension(t) == ".txt" && Lower(".txt") == ".txt";
  }

  /** A folder holding one picture and one text file loads the picture only. */
  lemma LoadOnePicture()
    ensures Loaded("/pics", ["a.jpg", "notes.txt"]) == ["/pics/a.jpg"]
  {
    JpgIsImage();
    TextIsNotImage();
    var listing := ["a.jpg", "notes.txt"];
    assert listing[..1] == ["a.jpg"] && listing[..1][..0] == [];
    JoinExamples();
    assert Candidates("/pics", ["a.jpg"]) == ["/pics/a.jpg"];
    assert Candidates("/pics", listing) == ["/pics/a.jpg"];
  }

  /** A folder holding only a text file loads nothing. */
  lemma TextOnlyFolderLoadsNothing()
    ensures Loaded("/docs", ["notes.txt"]) == []
  {
    TextIsNotImage();
    assert ["notes.txt"][..0] == [];
  }

  /** Strings that share a prefix compare as what follows it. */
  lemma {:induction false} LexLeSharedPrefix(pre: string, x: string, y: string)
    ensures LexLe(pre + x, pre + y) <==> LexLe(x, y)
  {
    if pre != [] {
      assert (pre + x)[0] == (pre + y)[0];
      assert (pre + x)[1..] == pre[1..] + x && (pre + y)[1..] == pre[1..] + y;
      LexLeSharedPrefix(pre[1..], x, y);
    } else {
      assert pre + x == x && pre + y == y;
    }
  }

  /** How the three paths of SortThreePaths compare. */
  lemma ThreePathsOrder()
    ensures LexLe("/p/a.jpg", "/p/c.gif") && !LexLe("/p/b.png", "/p/a.jpg")
    ensures LexLe("/p/b.png", "/p/c.gif")
  {
    assert "/p/a.jpg" == "/p/" + "a.jpg" && "/p/b.png" == "/p/" + "b.png";
    assert "/p/c.gif" == "/p/" + "c.gif";
    LexLeSharedPrefix("/p/", "a.jpg", "c.gif");
    LexLeSharedPrefix("/p/", "b.png", "a.jpg");
    LexLeSharedPrefix("/p/", "b.png", "c.gif");
  }

  /** Three pictures listed out of order are loaded in name order. */
  lemma SortThreePaths()
    ensures Sort(["/p/b.png", "/p/a.jpg", "/p/c.gif"]) == ["/p/a.jpg", "/p/b.png", "/p/c.gif"]
  {
    var a, b, c := "/p/a.jpg", "/p/b.png", "/p/c.gif";
    ThreePathsOrder();
    var s := [b, a, c];
    assert s[1..] == [a, c] && [a, c][1..] == [c] && [c][1..] == [];
    assert Sort([c]) == [c];
    assert Sort([a, c]) == [a, c];
    assert InsertSorted(b, [c]) == [b, c];
    assert InsertSorted(b, [a, c]) == [a, b, c];
  }

  lemma OneEntryListing()
    ensures IsListing(["notes.txt"])
  {
    var l := ["notes.txt"];
    assert l[1..] == [];
  }

  /** A folder with no pictures: generating reports that no images were found. */
  method TextOnlyFolderCannotGenerate() returns (r: Result<seq<string>, GenerateError>)
    ensures r == Failure(NoImagesFound)
  {
    var app := new ImageToPdfApp();
    TextOnlyFolderLoadsNothing();
    OneEntryListing();
    app.SelectImageFolder("/docs", ["notes.txt"]);
    app.SelectPdfSavePath("/out.pdf");
    r := app.GeneratePdf();
  }

  lemma TwoEntryListing()
    ensures IsListing(["a.jpg", "notes.txt"])
  {
    var l := ["a.jpg", "notes.txt"];
    assert l[1..] == ["notes.txt"] && l[1..][1..] == [];
    assert l[0] != l[1];
  }

  /** The flags of the one-picture folder after one and after two toggles. */
  lemma OnePictureToggles(status: map<string, bool>)
    requires status == AllIncluded(["/pics/a.jpg"])
    ensures IncludedImages(["/pics/a.jpg"], Flip(status, "/pics/a.jpg")) == []
    ensures IncludedImages(["/pics/a.jpg"], Flip(Flip(status, "/pics/a.jpg"), "/pics/a.jpg"))
            == ["/pics/a.jpg"]
  {
    var p := "/pics/a.jpg";
    assert !Included(Flip(status, p), p);
    FlipTwice(status, p);
    IncludedWhenAllIncluded([p], Flip(Flip(status, p), p));
  }

  /** A new controller with the one-picture folder chosen. */
  method OnePictureApp() returns (app: ImageToPdfApp)
    ensures fresh(app) && app.Valid()
    ensures app.imageFolder == "/pics"
    ensures app.imageFiles == ["/pics/a.jpg"] && app.imageStatus == AllIncluded(["/pics/a.jpg"])
  {
    app := new ImageToPdfApp();
    LoadOnePicture();
    TwoEntryListing();
    app.SelectImageFolder("/pics", ["a.jpg", "notes.txt"]);
  }

  /** One picture, excluded: generating reports that nothing is selected;
      excluding it again brings it back. */
  method ExcludeOnlyImage() returns (first: Result<seq<string>, GenerateError>,
                                     second: Result<seq<string>, GenerateError>)
    ensures first == Failure(NoImagesSelected)
    ensures second == Success(["/pics/a.jpg"])
  {
    var app := OnePictureApp();
    app.SelectPdfSavePath("/out.pdf");
    OnePictureToggles(app.imageStatus);
    app.ExcludeImage([0]);
    first := app.GeneratePdf();
    app.ExcludeImage([0]);
    second := app.GeneratePdf();
  }
}
