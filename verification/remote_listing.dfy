/** The recursive remote listings of `SftpUtils`: `GetAllFileInfoRecursive`
    collects every file below a directory, `GetAllDirInfoRecursive` every
    directory, both skipping the "." and ".." entries a listing contains.

    The remote tree is finite: an entry that is a directory carries the
    listing `ListDirectoryAsync(entry.FullName)` would return. */
module RemoteListing {

  datatype Node = Node(name: string, isDir: bool, listing: seq<Node>)

  /** "." or "..": skipped by both walks. */
  predicate IsDot(n: Node) {
    n.name == "." || n.name == ".."
  }

  /** `GetAllFileInfoRecursive(files, dir)` given `dir`'s listing: files in
      listing order, a directory's files at the directory's place. */
  function AllFiles(entries: seq<Node>): (r: seq<Node>)
    ensures forall k :: 0 <= k < |r| ==> !r[k].isDir && !IsDot(r[k])
    decreases entries
  {
    if |entries| == 0 then []
    else
      var e := entries[0];
      var here := if IsDot(e) then [] else if e.isDir then AllFiles(e.listing) else [e];
      here + AllFiles(entries[1..])
  }

  /** `GetAllDirInfoRecursive(files, dir)` given `dir`'s listing: every
      directory after the directories below it. */
  function AllDirs(entries: seq<Node>): (r: seq<Node>)
    ensures forall k :: 0 <= k < |r| ==> r[k].isDir && !IsDot(r[k])
    decreases entries
  {
    if |entries| == 0 then []
    else
      var e := entries[0];
      var here := if IsDot(e) || !e.isDir then [] else AllDirs(e.listing) + [e];
      here + AllDirs(entries[1..])
  }

  /** The entries reachable from a listing without passing "." or "..":
      an independent account of what the walks visit. */
  predicate Reaches(entries: seq<Node>, x: Node)
    decreases entries
  {
    exists k :: 0 <= k < |entries| && !IsDot(entries[k]) &&
      (entries[k] == x || (entries[k].isDir && Reaches(entries[k].listing, x)))
  }

  /** The file walk returns exactly the reachable files. */
  lemma {:induction false} AllFilesAreReachableFiles(entries: seq<Node>, x: Node)
    ensures x in AllFiles(entries) <==> Reaches(entries, x) && !x.isDir
    decreases entries
  {
    if |entries| > 0 {
      var e := entries[0];
      var rest := entries[1..];
      AllFilesAreReachableFiles(rest, x);
      if !IsDot(e) && e.isDir {
        AllFilesAreReachableFiles(e.listing, x);
      }
      ReachesCons(entries, x);
    }
  }

  /** The directory walk returns exactly the reachable directories. */
  lemma {:induction false} AllDirsAreReachableDirs(entries: seq<Node>, x: Node)
    ensures x in AllDirs(entries) <==> Reaches(entries, x) && x.isDir
    decreases entries
  {
    if |entries| > 0 {
      var e := entries[0];
      var rest := entries[1..];
      AllDirsAreReachableDirs(rest, x);
      if !IsDot(e) && e.isDir {
        AllDirsAreReachableDirs(e.listing, x);
      }
      ReachesCons(entries, x);
    }
  }

  /** Reaching from a listing is reaching from its head or from the rest. */
  lemma ReachesCons(entries: seq<Node>, x: Node)
    requires |entries| > 0
    ensures Reaches(entries, x) <==>
              (!IsDot(entries[0]) && (entries[0] == x || (entries[0].isDir && Reaches(entries[0].listing, x))))
              || Reaches(entries[1..], x)
  {
    if Reaches(entries, x) {
      var k :| 0 <= k < |entries| && !IsDot(entries[k]) &&
        (entries[k] == x || (entries[k].isDir && Reaches(entries[k].listing, x)));
      if k > 0 {
        assert entries[1..][k - 1] == entries[k];
      }
    }
    if Reaches(entries[1..], x) {
      var k :| 0 <= k < |entries[1..]| && !IsDot(entries[1..][k]) &&
        (entries[1..][k] == x || (entries[1..][k].isDir && Reaches(entries[1..][k].listing, x)));
      assert entries[k + 1] == entries[1..][k];
    }
  }

  /** Post-order: every directory below a listed directory is listed
      before it. */
  lemma {:induction false} SubdirsFirst(entries: seq<Node>, i: nat, x: Node)
    requires i < |AllDirs(entries)|
    requires Reaches(AllDirs(entries)[i].listing, x) && x.isDir
    ensures x in AllDirs(entries)[..i]
    decreases entries
  {
    var e := entries[0];
    var rest := entries[1..];
    var here := if IsDot(e) || !e.isDir then [] else AllDirs(e.listing) + [e];
    var all := AllDirs(entries);
    assert all == here + AllDirs(rest);
    if i < |here| {
      var below := AllDirs(e.listing);
      if i == |below| {
        AllDirsAreReachableDirs(e.listing, x);
        assert all[..i] == below;
      } else {
        assert all[i] == below[i];
        SubdirsFirst(e.listing, i, x);
        assert below[..i] == all[..i];
      }
    } else {
      var j := i - |here|;
      assert all[i] == AllDirs(rest)[j];
      SubdirsFirst(rest, j, x);
      assert all[..i] == here + AllDirs(rest)[..j];
    }
  }
}
