/** The ordered, filterable image list held by the controller, as values:
    the paths load_images collects, the pop/insert move of a drag step, the
    per-path included flags, the included subsequence handed to the PDF
    encoder, and what the listbox shows for each row. */
module ImageList {
  import opened Paths
  import opened Ordering

  // ---------------------------------------------------------------- loading

  /** The paths the append loop of load_images collects, in listing order:
      each entry whose lowered extension is supported, joined to the folder. */
  function Candidates(folder: string, listing: seq<string>): (r: seq<string>)
    ensures |r| <= |listing|
  {
    if listing == [] then []
    else
      var last := listing[|listing| - 1];
      Candidates(folder, listing[..|listing| - 1])
        + (if IsImageName(last) then [Join(folder, last)] else [])
  }

  /** p is the folder joined to a supported entry of the listing. */
  ghost predicate IsCandidate(folder: string, listing: seq<string>, p: string) {
    exists n :: n in listing && IsImageName(n) && p == Join(folder, n)
  }

  lemma {:induction false} CandidatesMembers(folder: string, listing: seq<string>)
    ensures forall p :: p in Candidates(folder, listing) <==> IsCandidate(folder, listing, p)
  {
    if listing != [] {
      var front := listing[..|listing| - 1];
      var last := listing[|listing| - 1];
      CandidatesMembers(folder, front);
      assert listing == front + [last];
      forall p ensures p in Candidates(folder, listing) <==> IsCandidate(folder, listing, p) {
        if IsCandidate(folder, listing, p) {
          var n :| n in listing && IsImageName(n) && p == Join(folder, n);
          if n != last { assert n in front; assert IsCandidate(folder, front, p); }
        }
        if IsCandidate(folder, front, p) {
          var n :| n in front && IsImageName(n) && p == Join(folder, n);
          assert n in listing;
        }
      }
    }
  }

  /** image_files after load_images: the candidates, sorted. */
  function Loaded(folder: string, listing: seq<string>): (files: seq<string>)
    ensures multiset(files) == multiset(Candidates(folder, listing))
    ensures |files| == |Candidates(folder, listing)|
  {
    Sort(Candidates(folder, listing))
  }

  /** After loading, image_files holds exactly the joined supported entries, ascending. */
  lemma LoadedContents(folder: string, listing: seq<string>)
    ensures Sorted(Loaded(folder, listing))
    ensures multiset(Loaded(folder, listing)) == multiset(Candidates(folder, listing))
    ensures forall p :: p in Loaded(folder, listing) <==> IsCandidate(folder, listing, p)
  {
    var c := Candidates(folder, listing);
    var l := Loaded(folder, listing);
    SortSorted(c);
    CandidatesMembers(folder, listing);
    forall p ensures p in l <==> p in c {
      assert p in l <==> p in multiset(l);
      assert p in c <==> p in multiset(c);
    }
  }

  /** A listing without its last entry is still a listing, and that entry is
      not among the others. */
  lemma ListingFront(listing: seq<string>)
    requires IsListing(listing) && listing != []
    ensures IsListing(listing[..|listing| - 1])
    ensures listing[|listing| - 1] !in listing[..|listing| - 1]
    ensures listing == listing[..|listing| - 1] + [listing[|listing| - 1]]
  {
    var front := listing[..|listing| - 1];
    DistinctFront(listing);
    assert forall k :: 0 <= k < |front| ==> front[k] == listing[k];
  }

  /** Entries of one listing give pairwise different candidate paths. */
  lemma {:induction false} CandidatesDistinct(folder: string, listing: seq<string>)
    requires IsListing(listing)
    ensures Distinct(Candidates(folder, listing))
  {
    if listing != [] {
      var front := listing[..|listing| - 1];
      var last := listing[|listing| - 1];
      ListingFront(listing);
      CandidatesDistinct(folder, front);
      CandidatesMembers(folder, front);
      var c := Candidates(folder, front);
      if IsImageName(last) {
        var x := Join(folder, last);
        forall q | q in c ensures q != x {
          assert IsCandidate(folder, front, q);
          var n :| n in front && IsImageName(n) && q == Join(folder, n);
          JoinInjective(folder, n, last);
        }
        DistinctSnoc(c, x);
      } else {
        assert Candidates(folder, listing) == c + [];
        assert c + [] == c;
      }
    }
  }

  /** Appending an element that is not there yet keeps a list repeat-free. */
  lemma {:induction false} DistinctSnoc(s: seq<string>, x: string)
    requires Distinct(s) && x !in s
    ensures Distinct(s + [x])
  {
    if s != [] {
      assert (s + [x])[1..] == s[1..] + [x];
      DistinctSnoc(s[1..], x);
    }
  }

  /** load_images never lists a path twice. */
  lemma LoadedDistinct(folder: string, listing: seq<string>)
    requires IsListing(listing)
    ensures Distinct(Loaded(folder, listing))
  {
    CandidatesDistinct(folder, listing);
    DistinctByMultiset(Candidates(folder, listing), Loaded(folder, listing));
  }

  /** The supported entry names of a listing. */
  ghost function ImageNames(listing: seq<string>): set<string> {
    set n | n in listing && IsImageName(n)
  }

  lemma ImageNamesSnoc(front: seq<string>, last: string)
    ensures ImageNames(front + [last])
         == ImageNames(front) + (if IsImageName(last) then {last} else {})
  {
    assert forall n :: n in front + [last] <==> n in front || n == last;
  }

  lemma {:induction false} CandidatesCount(folder: string, listing: seq<string>)
    requires IsListing(listing)
    ensures |Candidates(folder, listing)| == |ImageNames(listing)|
  {
    if listing != [] {
      var front := listing[..|listing| - 1];
      var last := listing[|listing| - 1];
      ListingFront(listing);
      CandidatesCount(folder, front);
      ImageNamesSnoc(front, last);
      assert last !in ImageNames(front);
    } else {
      assert ImageNames(listing) == {};
    }
  }

  /** The number of images detected equals the number of supported entries. */
  lemma LoadedCount(folder: string, listing: seq<string>)
    requires IsListing(listing)
    ensures |Loaded(folder, listing)| == |ImageNames(listing)|
  {
    CandidatesCount(folder, listing);
    var c := Candidates(folder, listing);
    assert |multiset(Loaded(folder, listing))| == |multiset(c)|;
  }

  // ------------------------------------------------------- inclusion flags

  /** image_status.get(p, True): a path without an entry counts as included. */
  function Included(status: map<string, bool>, p: string): (b: bool)
    ensures !b <==> p in status && !status[p]
  {
    if p in status then status[p] else true
  }

  /** The image_status that load_images builds: every path included. */
  function AllIncluded(files: seq<string>): (status: map<string, bool>)
    ensures forall p :: p in status <==> p in files
    ensures forall p :: p in status ==> status[p]
  {
    map p | p in files :: true
  }

  /** exclude_image's update of image_status for the selected path. */
  function Flip(status: map<string, bool>, p: string): (r: map<string, bool>)
    ensures Included(r, p) == !Included(status, p)
    ensures r.Keys == status.Keys + {p}
    ensures forall q :: q in status && q != p ==> r[q] == status[q]
  {
    status[p := !Included(status, p)]
  }

  /** Toggling the same path twice restores its flag, and the whole map when
      the path already had an entry. */
  lemma FlipTwice(status: map<string, bool>, p: string)
    ensures Included(Flip(Flip(status, p), p), p) == Included(status, p)
    ensures p in status ==> Flip(Flip(status, p), p) == status
  {
  }

  /** The "Included" number of the count label: how many flags are true. */
  function IncludedCount(status: map<string, bool>): (n: nat)
    ensures n <= |status|
  {
    var included := set p | p in status && status[p];
    var rest := status.Keys - included;
    assert status.Keys == included + rest && included * rest == {};
    |included|
  }

  /** Toggling a path that has an entry moves the included count by exactly one. */
  lemma FlipCount(status: map<string, bool>, p: string)
    requires p in status
    ensures status[p] ==> IncludedCount(Flip(status, p)) == IncludedCount(status) - 1
    ensures !status[p] ==> IncludedCount(Flip(status, p)) == IncludedCount(status) + 1
  {
    var before := set q | q in status && status[q];
    var after := set q | q in Flip(status, p) && Flip(status, p)[q];
    if status[p] {
      assert after == before - {p};
    } else {
      assert after == before + {p};
    }
  }

  // ---------------------------------------------------- included subsequence

  /** The list comprehension of generate_pdf: the included paths, in list order. */
  function IncludedImages(files: seq<string>, status: map<string, bool>): (r: seq<string>)
    ensures |r| <= |files|
    ensures forall p :: p in r <==> p in files && Included(status, p)
  {
    if files == [] then []
    else
      var rest := IncludedImages(files[1..], status);
      assert forall p :: p in files <==> p == files[0] || p in files[1..];
      if Included(status, files[0]) then [files[0]] + rest else rest
  }

  /** r can be obtained from s by deleting elements: the order of s is kept. */
  ghost predicate IsSubsequence(r: seq<string>, s: seq<string>) {
    if r == [] then true
    else if s == [] then false
    else (r[0] == s[0] && IsSubsequence(r[1..], s[1..])) || IsSubsequence(r, s[1..])
  }

  /** The included list keeps the order of image_files. */
  lemma {:induction false} IncludedIsSubsequence(files: seq<string>, status: map<string, bool>)
    ensures IsSubsequence(IncludedImages(files, status), files)
  {
    if files != [] {
      IncludedIsSubsequence(files[1..], status);
      var r := IncludedImages(files, status);
      if Included(status, files[0]) {
        assert r[1..] == IncludedImages(files[1..], status);
      }
    }
  }

  /** When every path is included, the included list is image_files itself. */
  lemma {:induction false} IncludedWhenAllIncluded(files: seq<string>, status: map<string, bool>)
    requires forall p :: p in files ==> Included(status, p)
    ensures IncludedImages(files, status) == files
  {
    if files != [] {
      IncludedWhenAllIncluded(files[1..], status);
      assert files == [files[0]] + files[1..];
    }
  }

  lemma {:induction false} IncludedLength(files: seq<string>, status: map<string, bool>)
    requires Distinct(files)
    ensures |IncludedImages(files, status)| == |set p | p in files && Included(status, p)|
  {
    if files == [] {
      assert (set p | p in files && Included(status, p)) == {};
    } else {
      var rest := files[1..];
      IncludedLength(rest, status);
      var a := set p | p in files && Included(status, p);
      var b := set p | p in rest && Included(status, p);
      assert files[0] !in rest;
      if Included(status, files[0]) {
        assert a == b + {files[0]};
      } else {
        assert a == b;
      }
    }
  }

  /** With one flag per listed path, the count label's included number is the
      length of the list given to the encoder. */
  lemma IncludedLengthIsCount(files: seq<string>, status: map<string, bool>)
    requires Distinct(files)
    requires forall p :: p in status <==> p in files
    ensures |IncludedImages(files, status)| == IncludedCount(status)
  {
    IncludedLength(files, status);
    assert (set p | p in files && Included(status, p)) == (set p | p in status && status[p]);
  }

  /** After a load, the count label shows the same number twice. */
  lemma AllIncludedCount(files: seq<string>)
    requires Distinct(files)
    ensures IncludedCount(AllIncluded(files)) == |files|
  {
    IncludedWhenAllIncluded(files, AllIncluded(files));
    IncludedLengthIsCount(files, AllIncluded(files));
  }

  // ------------------------------------------------------------- drag move

  /** list.pop(i). */
  function Pop<T>(s: seq<T>, i: nat): (r: seq<T>)
    requires i < |s|
    ensures |r| == |s| - 1
    ensures multiset(r) + multiset{s[i]} == multiset(s)
  {
    assert s == s[..i] + [s[i]] + s[i + 1..];
    s[..i] + s[i + 1..]
  }

  /** Popping keeps the entries before i and shifts the later ones down by one. */
  lemma PopAt<T>(s: seq<T>, i: nat)
    requires i < |s|
    ensures forall k :: 0 <= k < i ==> Pop(s, i)[k] == s[k]
    ensures forall k :: i <= k < |s| - 1 ==> Pop(s, i)[k] == s[k + 1]
  {
  }

  /** list.insert(i, x) for a position inside the list or just past its end. */
  function Insert<T>(s: seq<T>, i: nat, x: T): (r: seq<T>)
    requires i <= |s|
    ensures |r| == |s| + 1 && r[i] == x
    ensures multiset(r) == multiset(s) + multiset{x}
  {
    assert s == s[..i] + s[i..];
    s[..i] + [x] + s[i..]
  }

  /** Inserting keeps the entries before i and shifts the others up by one. */
  lemma InsertAt<T>(s: seq<T>, i: nat, x: T)
    requires i <= |s|
    ensures forall k :: 0 <= k < i ==> Insert(s, i, x)[k] == s[k]
    ensures forall k :: i < k <= |s| ==> Insert(s, i, x)[k] == s[k - 1]
  {
  }

  /** One drag step: the element at `from` is popped and reinserted at `to`. */
  function Move<T>(s: seq<T>, from: nat, to: nat): (r: seq<T>)
    requires from < |s| && to < |s|
    ensures |r| == |s| && r[to] == s[from]
    ensures multiset(r) == multiset(s)
  {
    Insert(Pop(s, from), to, s[from])
  }

  /** A move is a permutation that puts the dragged element at the target;
      the entries between the two positions shift by one, the rest stay. */
  lemma MoveShifts<T>(s: seq<T>, from: nat, to: nat)
    requires from < |s| && to < |s|
    ensures multiset(Move(s, from, to)) == multiset(s)
    ensures |Move(s, from, to)| == |s| && Move(s, from, to)[to] == s[from]
    ensures forall k :: 0 <= k < |s| && k < from && k < to ==> Move(s, from, to)[k] == s[k]
    ensures forall k :: 0 <= k < |s| && k > from && k > to ==> Move(s, from, to)[k] == s[k]
    ensures forall k :: from <= k < to ==> Move(s, from, to)[k] == s[k + 1]
    ensures forall k :: to < k <= from ==> Move(s, from, to)[k] == s[k - 1]
  {
    PopAt(s, from);
    InsertAt(Pop(s, from), to, s[from]);
  }

  /** Apart from the dragged element, the order is unchanged: removing it
      from the result gives what removing it from the input gives. */
  lemma MoveKeepsOthers<T>(s: seq<T>, from: nat, to: nat)
    requires from < |s| && to < |s|
    ensures Pop(Move(s, from, to), to) == Pop(s, from)
  {
    var p := Pop(s, from);
    var a := Pop(Move(s, from, to), to);
    PopAt(Move(s, from, to), to);
    InsertAt(p, to, s[from]);
    forall k | 0 <= k < |a| ensures a[k] == p[k] {
      if k < to {
        assert a[k] == Insert(p, to, s[from])[k];
      } else {
        assert a[k] == Insert(p, to, s[from])[k + 1];
      }
    }
  }

  /** Reinserting a popped element where it was restores the list. */
  lemma InsertPopped<T>(s: seq<T>, i: nat)
    requires i < |s|
    ensures Insert(Pop(s, i), i, s[i]) == s
  {
    var p := Pop(s, i);
    assert p[..i] == s[..i];
    assert p[i..] == s[i + 1..];
    assert s == s[..i] + [s[i]] + s[i + 1..];
  }

  /** Dragging back undoes a drag step. */
  lemma MoveInverse<T>(s: seq<T>, from: nat, to: nat)
    requires from < |s| && to < |s|
    ensures Move(Move(s, from, to), to, from) == s
  {
    MoveKeepsOthers(s, from, to);
    InsertPopped(s, from);
  }

  /** A drag step never introduces a repeated path. */
  lemma MoveDistinct(s: seq<string>, from: nat, to: nat)
    requires from < |s| && to < |s|
    requires Distinct(s)
    ensures Distinct(Move(s, from, to))
  {
    MoveShifts(s, from, to);
    DistinctByMultiset(s, Move(s, from, to));
  }

  // ---------------------------------------------------------- listbox rows

  /** f applied to each element, in order. */
  function MapSeq<A, B>(f: A -> B, s: seq<A>): (r: seq<B>)
    ensures |r| == |s|
  {
    seq(|s|, i requires 0 <= i < |s| => f(s[i]))
  }

  lemma MapPop<A, B>(f: A -> B, s: seq<A>, i: nat)
    requires i < |s|
    ensures MapSeq(f, Pop(s, i)) == Pop(MapSeq(f, s), i)
  {
    PopAt(s, i);
    PopAt(MapSeq(f, s), i);
  }

  lemma MapInsert<A, B>(f: A -> B, s: seq<A>, i: nat, x: A)
    requires i <= |s|
    ensures MapSeq(f, Insert(s, i, x)) == Insert(MapSeq(f, s), i, f(x))
  {
    InsertAt(s, i, x);
    InsertAt(MapSeq(f, s), i, f(x));
  }

  /** The listbox rows: the basename of each path, in list order. */
  function Basenames(files: seq<string>): (rows: seq<string>)
    ensures |rows| == |files|
  {
    MapSeq(Basename, files)
  }

  /** Moving the rows of the listbox as the drag handler does keeps them the
      basenames of the moved path list. */
  lemma BasenamesOfMove(files: seq<string>, from: nat, to: nat)
    requires from < |files| && to < |files|
    ensures Basenames(Move(files, from, to)) == Move(Basenames(files), from, to)
  {
    MapPop(Basename, files, from);
    MapInsert(Basename, Pop(files, from), to, files[from]);
  }

  const IncludedColor: string := "#e6ffe6"
  const ExcludedColor: string := "#ffe6e6"

  /** Row background for a flag: light green when included, light red when not. */
  function RowColor(included: bool): (c: string)
    ensures c == IncludedColor <==> included
    ensures c == ExcludedColor <==> !included
  {
    if included then IncludedColor else ExcludedColor
  }

  /** The backgrounds update_listbox_colors gives the rows. */
  function RowColors(files: seq<string>, status: map<string, bool>): (colors: seq<string>)
    ensures |colors| == |files|
  {
    seq(|files|, i requires 0 <= i < |files| => RowColor(Included(status, files[i])))
  }

  /** exclude_image recolours only the selected row; since no path is listed
      twice, that is all the rows whose colour changes. */
  lemma RecolorAfterFlip(files: seq<string>, status: map<string, bool>, i: nat)
    requires Distinct(files) && i < |files|
    ensures RowColors(files, Flip(status, files[i]))
         == RowColors(files, status)[i := RowColor(!Included(status, files[i]))]
  {
    DistinctIndices(files);
  }
}
