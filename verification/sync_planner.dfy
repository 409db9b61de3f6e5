/** The planning half of the sync pipeline in `SftpUtils`: which local files
    a differential upload sends (`DiffLocalAndRemoteFile`), which remote
    directories are created before an upload (`ServerDirSafeCheck`), and
    the recursive remote listings.

    The local tree is a map from full path to byte length (what
    `Directory.GetFiles` and `FileInfo.Length` give); the remote side is the
    listing `ListDirectoryAsync` returns, in order, or a set of paths that
    exist. Paths use '/' as the separator. */
module SyncPlanner {
  import opened Base
  import opened Text
  import opened SftpIgnore

  /** One entry of a remote listing (`SftpFile`). */
  datatype RemoteEntry = RemoteEntry(fullName: string, length: int, isDir: bool)

  /** Why the diff cannot run: `Replace` with an empty pattern throws, and
      so does `Directory.GetFiles("")`. */
  datatype DiffResult =
    | DiffFailed
    | DiffOk(files: set<string>, total: nat, ignored: nat)

  // ---------------------------------------------------------------------
  // Keys

  /** The key a path is compared under: every occurrence of `root` removed,
      then, when the remainder starts with '/', all leading '/' trimmed. */
  function RelKey(path: string, root: string): (k: string)
    requires |root| > 0
    ensures |k| > 0 ==> k[0] != '/'
  {
    var p := RemoveAll(path, root);
    if StartsWithSlash(p) then TrimStart(p, '/') else p
  }

  /** A file `root/rel` whose relative part does not mention `root` and
      does not start with '/' is keyed by `rel`, on either side. */
  lemma RelKeyOfNested(root: string, rel: string)
    requires |root| > 0 && Absent("/" + rel, root) && !StartsWithSlash(rel)
    ensures RelKey(root + "/" + rel, root) == rel
  {
    var s := root + "/" + rel;
    assert s[..|root|] == root;
    assert s[|root|..] == "/" + rel;
    RemoveAllAbsent("/" + rel, root);
    assert RemoveAll(s, root) == "/" + rel;
    assert ("/" + rel)[1..] == rel;
  }

  // ---------------------------------------------------------------------
  // The remote index

  /** `remote_files[path] = file` over the listing: a later entry with the
      same key replaces an earlier one. */
  function Index(listing: seq<RemoteEntry>, root: string): (m: map<string, RemoteEntry>)
    requires |root| > 0
    ensures |m| <= |listing|
    decreases |listing|
  {
    if |listing| == 0 then map[]
    else
      var last := listing[|listing| - 1];
      Index(listing[..|listing| - 1], root)[RelKey(last.fullName, root) := last]
  }

  /** Every listed entry's key is in the index. */
  lemma {:induction false} IndexHasKey(listing: seq<RemoteEntry>, root: string, i: nat)
    requires |root| > 0 && i < |listing|
    ensures RelKey(listing[i].fullName, root) in Index(listing, root)
    decreases |listing|
  {
    if i < |listing| - 1 {
      var init := listing[..|listing| - 1];
      assert init[i] == listing[i];
      IndexHasKey(init, root, i);
    }
  }

  /** Every key in the index is the key of a listed entry. */
  lemma {:induction false} IndexKeyListed(listing: seq<RemoteEntry>, root: string, k: string)
    requires |root| > 0 && k in Index(listing, root)
    ensures exists i :: 0 <= i < |listing| && RelKey(listing[i].fullName, root) == k
    decreases |listing|
  {
    var last := listing[|listing| - 1];
    var init := listing[..|listing| - 1];
    if k != RelKey(last.fullName, root) {
      IndexKeyListed(init, root, k);
      var i :| 0 <= i < |init| && RelKey(init[i].fullName, root) == k;
      assert init[i] == listing[i];
    }
  }

  /** The entry an index keeps for a key is the last listed one with it. */
  lemma {:induction false} IndexKeepsLast(listing: seq<RemoteEntry>, root: string, i: nat)
    requires |root| > 0 && i < |listing|
    requires forall j :: i < j < |listing| ==>
               RelKey(listing[j].fullName, root) != RelKey(listing[i].fullName, root)
    ensures RelKey(listing[i].fullName, root) in Index(listing, root) &&
            Index(listing, root)[RelKey(listing[i].fullName, root)] == listing[i]
    decreases |listing|
  {
    IndexHasKey(listing, root, i);
    if i < |listing| - 1 {
      var init := listing[..|listing| - 1];
      assert init[i] == listing[i];
      IndexKeepsLast(init, root, i);
    }
  }

  // ---------------------------------------------------------------------
  // The diff

  /** A local file goes into the diff: its name is not ignored, and no
      remote entry under the same key has the same length. */
  predicate NeedsUpload(path: string, length: nat, localDir: string, index: map<string, RemoteEntry>, cfg: IgnoreConfig)
    requires |localDir| > 0
  {
    && !IsIgnore(cfg, FileName(path))
    && !(RelKey(path, localDir) in index && index[RelKey(path, localDir)].length == length)
  }

  /** The files among `paths` whose names are ignored. */
  function IgnoredIn(paths: set<string>, cfg: IgnoreConfig): set<string> {
    set p | p in paths && IsIgnore(cfg, FileName(p))
  }

  /** Adding one file adds one to the ignored count exactly when its name is
      ignored. */
  lemma IgnoredInAdd(paths: set<string>, p: string, cfg: IgnoreConfig)
    requires p !in paths
    ensures |IgnoredIn(paths + {p}, cfg)| == |IgnoredIn(paths, cfg)| + (if IsIgnore(cfg, FileName(p)) then 1 else 0)
  {
    if IsIgnore(cfg, FileName(p)) {
      assert IgnoredIn(paths + {p}, cfg) == IgnoredIn(paths, cfg) + {p};
    } else {
      assert IgnoredIn(paths + {p}, cfg) == IgnoredIn(paths, cfg);
    }
  }

  /** `DiffLocalAndRemoteFile(local_dir, remote_dir)`: the files to upload,
      the number of local files (ignored ones included) and the number of
      ignored ones. */
  method Diff(localDir: string, remoteDir: string, local: map<string, nat>,
              listing: seq<RemoteEntry>, cfg: IgnoreConfig)
    returns (r: DiffResult)
    ensures r.DiffFailed? <==> localDir == "" || (remoteDir == "" && |listing| > 0)
    ensures r.DiffOk? ==> r.total == |local.Keys|
    ensures r.DiffOk? ==> r.ignored == |IgnoredIn(local.Keys, cfg)|
    ensures r.DiffOk? ==> r.files <= local.Keys
    ensures r.DiffOk? ==> forall p :: p in r.files <==>
              p in local && NeedsUpload(p, local[p], localDir, Index(listing, if remoteDir == "" then "/" else remoteDir), cfg)
  {
    if localDir == "" || (remoteDir == "" && |listing| > 0) {
      return DiffFailed;
    }
    // An empty listing never reaches `Replace`; any root indexes it the same.
    var root := if remoteDir == "" then "/" else remoteDir;
    var index := Index(listing, root);
    var ignored := 0;
    var files: set<string> := {};
    var todo := local.Keys;
    ghost var done: set<string> := {};
    while todo != {}
      invariant todo + done == local.Keys && todo * done == {}
      invariant files <= done
      invariant forall p :: p in files <==> p in done && NeedsUpload(p, local[p], localDir, index, cfg)
      invariant ignored == |IgnoredIn(done, cfg)|
      decreases |todo|
    {
      var p :| p in todo;
      IgnoredInAdd(done, p, cfg);
      var skip, upload := Classify(p, local[p], localDir, index, cfg);
      if skip {
        ignored := ignored + 1;
      } else if upload {
        files := files + {p};
      }
      MoveOne(todo, done, p);
      todo := todo - {p};
      done := done + {p};
    }
    assert done == local.Keys;
    return DiffOk(files, |local.Keys|, ignored);
  }

  /** Moving one path from the files still to visit to the visited ones
      keeps the two apart and their union whole. */
  lemma MoveOne(todo: set<string>, done: set<string>, p: string)
    requires p in todo && todo * done == {}
    ensures (todo - {p}) + (done + {p}) == todo + done
    ensures (todo - {p}) * (done + {p}) == {}
    ensures |todo - {p}| < |todo|
  {
  }

  /** One local file of the diff: whether its name is ignored, and
      otherwise whether it is sent. */
  method Classify(p: string, length: nat, localDir: string, index: map<string, RemoteEntry>, cfg: IgnoreConfig)
    returns (skip: bool, upload: bool)
    requires |localDir| > 0
    ensures skip <==> IsIgnore(cfg, FileName(p))
    ensures upload <==> NeedsUpload(p, length, localDir, index, cfg)
    ensures skip ==> !upload
  {
    skip := IsIgnore(cfg, FileName(p));
    upload := false;
    if !skip {
      var key := RelKey(p, localDir);
      upload := !(key in index && index[key].length == length);
    }
  }

  /** A file already on the server under the same key with the same length
      is not uploaded again; every other non-ignored file is. The entry
      that decides is the last one of the listing under that key. */
  lemma UpToDateIsSkipped(localDir: string, rel: string, length: nat, listing: seq<RemoteEntry>, i: nat,
                          remoteDir: string, cfg: IgnoreConfig)
    requires |localDir| > 0 && |remoteDir| > 0 && !StartsWithSlash(rel)
    requires Absent("/" + rel, localDir) && Absent("/" + rel, remoteDir)
    requires i < |listing| && listing[i].fullName == remoteDir + "/" + rel
    requires forall j :: i < j < |listing| ==> RelKey(listing[j].fullName, remoteDir) != rel
    ensures var index := Index(listing, remoteDir);
            NeedsUpload(localDir + "/" + rel, length, localDir, index, cfg) <==>
            !IsIgnore(cfg, FileName(localDir + "/" + rel)) && listing[i].length != length
  {
    RelKeyOfNested(localDir, rel);
    RelKeyOfNested(remoteDir, rel);
    IndexKeepsLast(listing, remoteDir, i);
  }

  // ---------------------------------------------------------------------
  // Creating parent directories

  /** The prefixes `path[..i]` for `1 <= i < n` with `path[i] == '/'`,
      shortest first: the directories above a file at `path`. */
  function DirPrefixes(path: string, n: nat): (r: seq<string>)
    ensures forall k :: 0 <= k < |r| ==> 1 <= |r[k]| < n && |r[k]| < |path|
    ensures forall a, b :: 0 <= a < b < |r| ==> |r[a]| < |r[b]|
  {
    if n == 0 then []
    else
      var i := n - 1;
      DirPrefixes(path, i) + (if 1 <= i < |path| && path[i] == '/' then [path[..i]] else [])
  }

  /** Each listed entry is the part of `path` before one of its '/'. */
  lemma {:induction false} DirPrefixesSound(path: string, n: nat)
    ensures forall k :: 0 <= k < |DirPrefixes(path, n)| ==>
              var q := DirPrefixes(path, n)[k];
              q == path[..|q|] && path[|q|] == '/'
  {
    if n > 0 {
      DirPrefixesSound(path, n - 1);
    }
  }

  /** Every directory above the file is listed. */
  lemma {:induction false} DirPrefixesComplete(path: string, n: nat, i: nat)
    requires 1 <= i < n && i < |path| && path[i] == '/'
    ensures path[..i] in DirPrefixes(path, n)
  {
    if i < n - 1 {
      DirPrefixesComplete(path, n - 1, i);
    }
  }

  /** The entries of `ps` not in `existing`, in order. */
  function Missing(ps: seq<string>, existing: set<string>): (r: seq<string>)
    ensures |r| <= |ps|
  {
    if |ps| == 0 then []
    else
      var init := ps[..|ps| - 1];
      var last := ps[|ps| - 1];
      assert ps == init + [last];
      Missing(init, existing) + (if last !in existing then [last] else [])
  }

  /** The elements of a sequence of paths, as a set. */
  function PathSet(ps: seq<string>): (s: set<string>)
    ensures forall q :: q in s <==> q in ps
  {
    set q | q in ps
  }

  /** `ServerDirSafeCheck(client, path)`: walk the positions from 1 on and,
      before every '/', create the prefix unless it exists. Returns what was
      created, in order, and the paths that exist afterwards. */
  method ServerDirSafeCheck(existing: set<string>, path: string) returns (created: seq<string>, after: set<string>)
    ensures created == Missing(DirPrefixes(path, |path|), existing)
    ensures after == existing + PathSet(DirPrefixes(path, |path|))
    ensures forall a, b :: 0 <= a < b < |created| ==> |created[a]| < |created[b]|
    ensures path !in created
  {
    created, after := [], existing;
    var index := 1;
    while index < |path|
      invariant 1 <= index && (index <= |path| || |path| == 0)
      invariant created == Missing(DirPrefixes(path, index), existing)
      invariant after == existing + PathSet(DirPrefixes(path, index))
    {
      if path[index] == '/' {
        WalkSlash(existing, path, index, created, after);
        var prefix := path[..index];
        if prefix !in after {
          created := created + [prefix];
          after := after + {prefix};
        }
      } else {
        PrefixSkip(path, index);
      }
      index := index + 1;
    }
    if |path| == 0 {
      PrefixSkip(path, 0);
    }
    MissingMembers(DirPrefixes(path, |path|), existing);
    MissingKeepsOrder(DirPrefixes(path, |path|), existing);
  }

  /** A '/' at `index`: creating the prefix before it, if it does not
      exist yet, keeps the loop's account of what was created and what
      exists. */
  lemma WalkSlash(existing: set<string>, path: string, index: nat, created: seq<string>, after: set<string>)
    requires 1 <= index < |path| && path[index] == '/'
    requires created == Missing(DirPrefixes(path, index), existing)
    requires after == existing + PathSet(DirPrefixes(path, index))
    ensures path[..index] !in after ==>
              && created + [path[..index]] == Missing(DirPrefixes(path, index + 1), existing)
              && after + {path[..index]} == existing + PathSet(DirPrefixes(path, index + 1))
    ensures path[..index] in after ==>
              && created == Missing(DirPrefixes(path, index + 1), existing)
              && after == existing + PathSet(DirPrefixes(path, index + 1))
  {
    PrefixStep(path, index);
    MissingSnoc(DirPrefixes(path, index), path[..index], existing, created, after);
  }

  /** Listing one more path, not listed before, adds it to what is missing
      exactly when it does not exist. */
  lemma MissingSnoc(ps: seq<string>, q: string, existing: set<string>, created: seq<string>, after: set<string>)
    requires q !in ps
    requires created == Missing(ps, existing) && after == existing + PathSet(ps)
    ensures q !in after ==> created + [q] == Missing(ps + [q], existing) && after + {q} == existing + PathSet(ps + [q])
    ensures q in after ==> created == Missing(ps + [q], existing) && after == existing + PathSet(ps + [q])
  {
    assert (ps + [q])[..|ps|] == ps;
    assert PathSet(ps + [q]) == PathSet(ps) + {q};
  }

  /** What is missing is exactly what is listed and does not exist. */
  lemma {:induction false} MissingMembers(ps: seq<string>, existing: set<string>)
    ensures forall q :: q in Missing(ps, existing) <==> q in ps && q !in existing
    decreases |ps|
  {
    if |ps| > 0 {
      var init := ps[..|ps| - 1];
      MissingMembers(init, existing);
      assert ps == init + [ps[|ps| - 1]];
    }
  }

  /** Filtering keeps a shortest-first order. */
  lemma {:induction false} MissingKeepsOrder(ps: seq<string>, existing: set<string>)
    requires forall a, b :: 0 <= a < b < |ps| ==> |ps[a]| < |ps[b]|
    ensures forall a, b :: 0 <= a < b < |Missing(ps, existing)| ==>
              |Missing(ps, existing)[a]| < |Missing(ps, existing)[b]|
    decreases |ps|
  {
    if |ps| > 0 {
      var init := ps[..|ps| - 1];
      var last := ps[|ps| - 1];
      MissingKeepsOrder(init, existing);
      MissingMembers(init, existing);
      var m := Missing(init, existing);
      forall k | 0 <= k < |m| ensures |m[k]| < |last| {
        assert m[k] in init;
      }
    }
  }

  /** One more position of the walk: the prefix before a '/' there is new,
      so it is missing exactly when it did not exist to begin with. */
  lemma PrefixStep(path: string, index: nat)
    requires 1 <= index < |path| && path[index] == '/'
    ensures DirPrefixes(path, index + 1) == DirPrefixes(path, index) + [path[..index]]
    ensures path[..index] !in DirPrefixes(path, index)
  {
  }

  /** A position without a '/' adds no prefix. */
  lemma PrefixSkip(path: string, index: nat)
    requires index >= |path| || path[index] != '/'
    ensures DirPrefixes(path, index + 1) == DirPrefixes(path, index)
  {
  }

  /** Directories are created parent first: every directory above a
      created one already existed or was created before it. */
  lemma ParentsFirst(existing: set<string>, path: string, k: nat, q: string)
    requires k < |Missing(DirPrefixes(path, |path|), existing)|
    requires q in DirPrefixes(path, |path|) && |q| < |Missing(DirPrefixes(path, |path|), existing)[k]|
    ensures q in existing || q in Missing(DirPrefixes(path, |path|), existing)[..k]
  {
    var ps := DirPrefixes(path, |path|);
    MissingKeepsOrder(ps, existing);
    ShorterFirst(ps, existing, k, q);
  }

  lemma ShorterFirst(ps: seq<string>, existing: set<string>, k: nat, q: string)
    requires forall a, b :: 0 <= a < b < |Missing(ps, existing)| ==>
               |Missing(ps, existing)[a]| < |Missing(ps, existing)[b]|
    requires k < |Missing(ps, existing)| && q in ps && |q| < |Missing(ps, existing)[k]|
    ensures q in existing || q in Missing(ps, existing)[..k]
  {
    var created := Missing(ps, existing);
    MissingMembers(ps, existing);
    if q !in existing {
      var j :| 0 <= j < |created| && created[j] == q;
      assert j < k;
      assert created[..k][j] == q;
    }
  }

  /** A second check of the same path creates nothing. */
  lemma RerunCreatesNothing(existing: set<string>, path: string)
    ensures Missing(DirPrefixes(path, |path|), existing + PathSet(DirPrefixes(path, |path|))) == []
  {
    NothingMissing(DirPrefixes(path, |path|), existing + PathSet(DirPrefixes(path, |path|)));
  }

  lemma {:induction false} NothingMissing(ps: seq<string>, existing: set<string>)
    requires forall k :: 0 <= k < |ps| ==> ps[k] in existing
    ensures Missing(ps, existing) == []
    decreases |ps|
  {
    if |ps| > 0 {
      NothingMissing(ps[..|ps| - 1], existing);
    }
  }
}
