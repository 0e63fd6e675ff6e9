/** The parts of Python's posixpath that load_images and the listbox use:
    splitext (extension of a file name), join, basename, and str.lower on
    the extension. Paths are strings; '/' is the only separator. */
module Paths {
  import opened Wrappers
  import opened Ordering

  const Sep: char := '/'

  /** The file extensions load_images accepts (compared after lowering). */
  const ImageExtensions: seq<string> := [".jpg", ".jpeg", ".png", ".bmp", ".gif"]

  /** A directory entry as os.listdir reports it: a non-empty name without a separator. */
  predicate IsEntryName(name: string) {
    name != [] && Sep !in name
  }

  /** The names of one directory listing: entry names, no name twice. */
  ghost predicate IsListing(listing: seq<string>) {
    && (forall k :: 0 <= k < |listing| ==> IsEntryName(listing[k]))
    && Distinct(listing)
  }

  /** str.lower restricted to ASCII letters. */
  function LowerChar(c: char): char {
    if 'A' <= c <= 'Z' then (c as int - 'A' as int + 'a' as int) as char else c
  }

  function Lower(s: string): (r: string)
    ensures |r| == |s|
  {
    seq(|s|, i requires 0 <= i < |s| => LowerChar(s[i]))
  }

  /** Position of the last '.' in s, if there is one. */
  function LastDot(s: string): (r: Option<nat>)
    ensures r.None? ==> '.' !in s
    ensures r.Some? ==> r.value < |s| && s[r.value] == '.' && '.' !in s[r.value + 1..]
  {
    if s == [] then None
    else if s[|s| - 1] == '.' then Some(|s| - 1)
    else
      var r := LastDot(s[..|s| - 1]);
      assert s == s[..|s| - 1] + [s[|s| - 1]];
      r
  }

  /** os.path.splitext(name)[1] for a name without separators: from the last
      dot to the end, unless every character before that dot is itself a dot
      (".png" and "..gif" have no extension). */
  function Extension(name: string): (ext: string)
    ensures |ext| <= |name| && ext == name[|name| - |ext|..]
    ensures ext != [] ==> ext[0] == '.' && '.' !in ext[1..]
    ensures ext != [] ==> exists i :: 0 <= i < |name| - |ext| && name[i] != '.'
    ensures ext == [] && '.' in name ==>
      forall i :: 0 <= i < LastDot(name).value ==> name[i] == '.'
  {
    match LastDot(name)
    case None => ""
    case Some(d) =>
      if exists i :: 0 <= i < d && name[i] != '.' then name[d..] else ""
  }

  /** The test at line 156: the lowered extension is one of ImageExtensions. */
  predicate IsImageName(name: string): (r: bool)
    ensures r ==> 4 <= |Extension(name)| < |name|
  {
    Lower(Extension(name)) in ImageExtensions
  }

  /** os.path.join(folder, name): a name that starts with the separator
      replaces the folder; otherwise a separator is inserted unless the
      folder is empty or already ends with one. */
  function Join(folder: string, name: string): (p: string)
    ensures |name| <= |p| && p[|p| - |name|..] == name
    ensures (name == [] || name[0] != Sep) ==> |folder| <= |p| && p[..|folder|] == folder
  {
    if name != [] && name[0] == Sep then name
    else if folder == [] || folder[|folder| - 1] == Sep then folder + name
    else folder + [Sep] + name
  }

  /** os.path.basename(p): everything after the last separator. */
  function Basename(p: string): (b: string)
    ensures |b| <= |p| && Sep !in b
  {
    if p == [] || p[|p| - 1] == Sep then []
    else Basename(p[..|p| - 1]) + [p[|p| - 1]]
  }

  /** The basename is a suffix of p without a separator. */
  lemma {:induction false} BasenameIsSuffix(p: string)
    ensures |Basename(p)| <= |p| && Basename(p) == p[|p| - |Basename(p)|..]
    ensures Sep !in Basename(p)
  {
    if p != [] && p[|p| - 1] != Sep {
      var q := p[..|p| - 1];
      var c := Basename(q);
      BasenameIsSuffix(q);
      assert q[|q| - |c|..] == p[|p| - 1 - |c|..|p| - 1];
      assert p[|p| - |c| - 1..] == p[|p| - 1 - |c|..|p| - 1] + [p[|p| - 1]];
    }
  }

  /** The basename is all of p or starts right after a separator: it is the
      part after the last one. */
  lemma {:induction false} BasenameAfterLastSep(p: string)
    ensures |Basename(p)| < |p| ==> p[|p| - |Basename(p)| - 1] == Sep
  {
    if p != [] && p[|p| - 1] != Sep {
      var q := p[..|p| - 1];
      var c := Basename(q);
      BasenameAfterLastSep(q);
      if |c| < |q| {
        assert p[|p| - |c| - 2] == q[|q| - |c| - 1];
      }
    }
  }

  /** Basename of a directory prefix followed by a separator-free name. */
  lemma {:induction false} BasenameAfterSep(pre: string, name: string)
    requires pre == [] || pre[|pre| - 1] == Sep
    requires Sep !in name
    ensures Basename(pre + name) == name
  {
    if name != [] {
      var p := pre + name;
      var last := |name| - 1;
      assert p[|p| - 1] == name[last] && name[last] != Sep;
      assert p[..|p| - 1] == pre + name[..last];
      assert Sep !in name[..last] by {
        assert forall c :: c in name[..last] ==> c in name;
      }
      BasenameAfterSep(pre, name[..last]);
      assert name == name[..last] + [name[last]];
    } else {
      assert pre + name == pre;
    }
  }

  /** The listbox shows the entry name back: basename undoes join. */
  lemma BasenameOfJoin(folder: string, name: string)
    requires IsEntryName(name)
    ensures Basename(Join(folder, name)) == name
  {
    if folder == [] || folder[|folder| - 1] == Sep {
      BasenameAfterSep(folder, name);
    } else {
      assert folder + [Sep] + name == (folder + [Sep]) + name;
      BasenameAfterSep(folder + [Sep], name);
    }
  }

  /** Distinct entry names give distinct paths in one folder. */
  lemma JoinInjective(folder: string, n1: string, n2: string)
    requires IsEntryName(n1) && IsEntryName(n2)
    ensures Join(folder, n1) == Join(folder, n2) <==> n1 == n2
  {
    BasenameOfJoin(folder, n1);
    BasenameOfJoin(folder, n2);
  }
}
