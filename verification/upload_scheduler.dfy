/** The uploading half of the sync pipeline in `SftpUtils`: admission and
    counting in `UploadFiles`, and the whole-batch retry of
    `DiffUploadWithProgress`.

    Uploads run concurrently in the source. Here each submitted upload is a
    task numbered in submission order, and the scheduler is a sequential
    state machine: whenever it waits (`Task.WhenAny`) the script `rounds`
    says which in-flight tasks have completed by then; a round that names
    none of them stands for all of them completing. `faulted` holds the
    tasks whose upload throws. */
module UploadScheduler {
  import opened Text
  import opened SftpIgnore

  /** The remote path a file is uploaded to: `Path.Combine(server_path,
      info.Name)` with every '\' turned into '/'. */
  function Target(serverDir: string, name: string): (r: string)
    ensures |r| >= |name|
  {
    ReplaceChar(Combine(serverDir, name), '\\', '/')
  }

  /** A relative name ends up at the end of its target, with its
      separators normalised. */
  lemma TargetEndsWithName(serverDir: string, name: string)
    requires !StartsWithSlash(name)
    ensures var r := Target(serverDir, name);
            r[|r| - |name|..] == ReplaceChar(name, '\\', '/')
  {
    var c := Combine(serverDir, name);
    var prefix := c[..|c| - |name|];
    assert c == prefix + name;
    ReplaceCharAppend(prefix, name, '\\', '/');
    var r := ReplaceChar(prefix, '\\', '/') + ReplaceChar(name, '\\', '/');
    assert r[|ReplaceChar(prefix, '\\', '/')|..] == ReplaceChar(name, '\\', '/');
  }

  /** The number of ignored names among the first `n` files. */
  function IgnoredCount(cfg: IgnoreConfig, files: seq<string>, n: nat): (c: nat)
    requires n <= |files|
    ensures c <= n
  {
    if n == 0 then 0
    else IgnoredCount(cfg, files, n - 1) + (if IsIgnore(cfg, FileName(files[n - 1])) then 1 else 0)
  }

  /** The names of the first `n` files that are not ignored, in order. */
  function Kept(cfg: IgnoreConfig, files: seq<string>, n: nat): (r: seq<string>)
    requires n <= |files|
    ensures |r| + IgnoredCount(cfg, files, n) == n
  {
    if n == 0 then []
    else
      var name := FileName(files[n - 1]);
      Kept(cfg, files, n - 1) + (if IsIgnore(cfg, name) then [] else [name])
  }

  /** A name is kept exactly when one of the first `n` files has it and it
      is not ignored. */
  lemma {:induction false} KeptMembers(cfg: IgnoreConfig, files: seq<string>, n: nat, x: string)
    requires n <= |files|
    ensures x in Kept(cfg, files, n) <==>
              !IsIgnore(cfg, x) && exists k :: 0 <= k < n && FileName(files[k]) == x
    decreases n
  {
    if n > 0 {
      KeptMembers(cfg, files, n - 1, x);
      var here := !IsIgnore(cfg, x) && FileName(files[n - 1]) == x;
      assert x in Kept(cfg, files, n) <==> x in Kept(cfg, files, n - 1) || here;
      if exists k :: 0 <= k < n && FileName(files[k]) == x {
        var k :| 0 <= k < n && FileName(files[k]) == x;
        assert k < n - 1 || FileName(files[n - 1]) == x;
      }
    }
  }

  /** The task numbers below `n`. */
  function Below(n: nat): (s: set<nat>)
    ensures |s| == n
    ensures forall k: nat :: k in s <==> k < n
  {
    if n == 0 then {} else
      var s := Below(n - 1);
      assert n - 1 !in s;
      s + {n - 1}
  }

  /** The tasks found complete at the `w`-th wait: never none while some
      are in flight, never one that is not in flight. */
  function Completes(rounds: seq<set<nat>>, w: nat, inflight: set<nat>): (done: set<nat>)
    ensures done <= inflight
    ensures inflight != {} ==> done != {}
  {
    var named := if w < |rounds| then rounds[w] * inflight else {};
    if named == {} then inflight else named
  }

  /** Counting a batch of newly completed tasks, apart from those counted
      already: the faulted ones add to `failed`, the others to `success`. */
  lemma CountBatch(counted: set<nat>, done: set<nat>, faulted: set<nat>)
    requires counted * done == {}
    ensures |(counted + done) - faulted| == |counted - faulted| + |done - faulted|
    ensures |(counted + done) * faulted| == |counted * faulted| + |done * faulted|
    ensures |done - faulted| + |done * faulted| == |done|
  {
    assert (counted + done) - faulted == (counted - faulted) + (done - faulted);
    assert (counted - faulted) * (done - faulted) == {};
    assert (counted + done) * faulted == (counted * faulted) + (done * faulted);
    assert (counted * faulted) * (done * faulted) == {};
    assert done == (done - faulted) + (done * faulted);
    assert (done - faulted) * (done * faulted) == {};
  }

  /** The admission bound in effect: the source waits as soon as the
      in-flight count reaches `max_upload_client`, so a bound below 1 acts
      as 1. */
  function Bound(limit: int): (b: nat)
    ensures b >= 1 && (limit >= 1 ==> b == limit) && (limit < 1 ==> b == 1)
  {
    if limit >= 1 then limit else 1
  }

  /** With at least one task in flight, the source's test against
      `max_upload_client` and the test against the bound agree. */
  lemma BoundIsAdmission(limit: int, inflight: nat)
    requires inflight >= 1
    ensures inflight >= limit <==> inflight >= Bound(limit)
  {
  }

  /** The scheduler's counters and task sets: tasks counted so far, tasks
      in flight, the largest in-flight count seen and the waits done. */
  datatype Sched = Sched(success: nat, failed: nat, counted: set<nat>, inflight: set<nat>, peak: nat, waits: nat)

  /** After `n` submissions every task is counted or in flight, never
      both, and the tallies split the counted ones by fault. */
  predicate Tallied(s: Sched, n: nat, faulted: set<nat>) {
    && s.success == |s.counted - faulted| && s.failed == |s.counted * faulted|
    && s.counted * s.inflight == {} && s.counted + s.inflight == Below(n)
    && s.success + s.failed == |s.counted|
  }

  /** Between files, besides: the in-flight set never went above the bound
      and is below it now. */
  predicate Accounted(s: Sched, n: nat, faulted: set<nat>, limit: int) {
    Tallied(s, n, faulted) && s.peak <= Bound(limit) && |s.inflight| < Bound(limit)
  }

  /** Task `n` joins the in-flight set. */
  function Enter(s: Sched, n: nat, ghost faulted: set<nat>, ghost limit: int): (r: Sched)
    requires Accounted(s, n, faulted, limit)
    ensures Tallied(r, n + 1, faulted) && r.counted == s.counted
    ensures 1 <= |r.inflight| <= Bound(limit) && r.peak <= Bound(limit) && |r.inflight| <= r.peak
  {
    var inflight := s.inflight + {n};
    JoinBelow(s.counted, s.inflight, n);
    Sched(s.success, s.failed, s.counted, inflight, if |inflight| > s.peak then |inflight| else s.peak, s.waits)
  }

  /** A new task number joins the in-flight set without touching the
      counted ones. */
  lemma JoinBelow(counted: set<nat>, inflight: set<nat>, n: nat)
    requires counted * inflight == {} && counted + inflight == Below(n)
    ensures counted * (inflight + {n}) == {} && counted + (inflight + {n}) == Below(n + 1)
    ensures |inflight + {n}| == |inflight| + 1
  {
    assert n !in counted + inflight;
    assert Below(n + 1) == Below(n) + {n};
  }

  /** `Task.WhenAny`, then count and drop every task found complete. */
  function Wait(s: Sched, n: nat, limit: int, rounds: seq<set<nat>>, faulted: set<nat>): (r: Sched)
    requires Tallied(s, n, faulted) && 1 <= |s.inflight| <= Bound(limit) && s.peak <= Bound(limit)
    ensures Accounted(r, n, faulted, limit)
    ensures s.counted < r.counted && r.inflight < s.inflight
  {
    var done := Completes(rounds, s.waits, s.inflight);
    CountBatch(s.counted, done, faulted);
    assert s.counted + done + (s.inflight - done) == Below(n);
    Sched(s.success + |done - faulted|, s.failed + |done * faulted|,
          s.counted + done, s.inflight - done, s.peak, s.waits + 1)
  }

  /** Submit task `n`: it joins the in-flight set; once the set has reached
      `max_upload_client`, wait. */
  method Submit(s: Sched, n: nat, limit: int, rounds: seq<set<nat>>, faulted: set<nat>) returns (r: Sched)
    requires Accounted(s, n, faulted, limit)
    ensures Accounted(r, n + 1, faulted, limit)
    ensures s.counted <= r.counted
    ensures s.counted == {} && n + 1 < limit ==> r.counted == {}
  {
    r := Enter(s, n, faulted, limit);
    if |r.inflight| >= limit {
      r := Wait(r, n + 1, limit, rounds, faulted);
    }
  }

  /** `UploadFiles(files, server_path)`: returns (success, ignored, failed)
      as the source does, and, for the statement of what happened, the
      upload targets in submission order, the tasks that were counted, the
      tasks still in flight when the loop ended (awaited, never counted),
      and the largest number in flight at once. Task `k` uploads to
      `targets[k]`. `threw` says that the final `Task.WhenAll` rethrows
      because a leftover task faulted: the caller then receives no counts
      at all, the exception does. With fewer files than
      `max_upload_client` the loop never waits, so nothing is counted and
      every failure surfaces as that exception. */
  method UploadFiles(files: seq<string>, serverDir: string, cfg: IgnoreConfig, limit: int,
                     rounds: seq<set<nat>>, faulted: set<nat>)
    returns (success: nat, ignored: nat, failed: nat,
             targets: seq<string>, counted: set<nat>, leftover: set<nat>, peak: nat, threw: bool)
    ensures ignored == IgnoredCount(cfg, files, |files|)
    ensures |targets| == |Kept(cfg, files, |files|)|
    ensures forall k :: 0 <= k < |targets| ==> targets[k] == Target(serverDir, Kept(cfg, files, |files|)[k])
    ensures success == |counted - faulted| && failed == |counted * faulted|
    ensures counted * leftover == {} && counted + leftover == Below(|targets|)
    ensures success + failed + |leftover| == |targets|
    ensures success + failed <= |files| - ignored
    ensures peak <= Bound(limit) && |leftover| < Bound(limit)
    ensures threw <==> leftover * faulted != {}
    ensures |targets| < limit ==> success == 0 && failed == 0 && leftover == Below(|targets|)
  {
    var names;
    ignored, names := ListNames(files, cfg);
    targets := ToTargets(serverDir, names);
    var s := Schedule(|targets|, limit, rounds, faulted);
    Settled(s, |targets|, faulted, limit);
    success, failed, counted, leftover, peak := s.success, s.failed, s.counted, s.inflight, s.peak;
    threw := leftover * faulted != {};
  }

  /** The first upload, under a limit of at least 2, is submitted without
      a wait: if it faults, nothing is counted for it and it is still in
      flight, so with a single file the fault can only come out of the
      final `Task.WhenAll`. */
  lemma FirstFaultIsNotCounted(faulted: set<nat>, limit: int)
    requires limit >= 2 && 0 in faulted
    ensures var s := Enter(Sched(0, 0, {}, {}, 0, 0), 0, faulted, limit);
            && |s.inflight| < limit && s.success == 0 && s.failed == 0
            && 0 in s.inflight * faulted
  {
    Idle(faulted, limit);
    JoinBelow({}, {}, 0);
  }

  /** `UploadFiles` as its counters and the retry built on them evidently
      mean it: the tasks still in flight at the end are awaited and counted
      like the others instead of letting one fault escape. Every faulted
      upload is then a failure and every other one a success. */
  method UploadFilesCounted(files: seq<string>, serverDir: string, cfg: IgnoreConfig, limit: int,
                            rounds: seq<set<nat>>, faulted: set<nat>)
    returns (success: nat, ignored: nat, failed: nat, targets: seq<string>)
    ensures ignored == IgnoredCount(cfg, files, |files|)
    ensures |targets| == |Kept(cfg, files, |files|)|
    ensures forall k :: 0 <= k < |targets| ==> targets[k] == Target(serverDir, Kept(cfg, files, |files|)[k])
    ensures success == |Below(|targets|) - faulted| && failed == |Below(|targets|) * faulted|
    ensures success + failed + ignored == |files|
    ensures failed == 0 <==> Below(|targets|) * faulted == {}
  {
    var counted, leftover, peak, threw;
    success, ignored, failed, targets, counted, leftover, peak, threw :=
      UploadFiles(files, serverDir, cfg, limit, rounds, faulted);
    CountBatch(counted, leftover, faulted);
    success, failed := success + |leftover - faulted|, failed + |leftover * faulted|;
  }

  /** The file pass of `UploadFiles`: the ignored names are counted and
      the others kept. An ignored file never reaches the scheduler, so the
      scheduler sees exactly the kept files, in order. */
  method ListNames(files: seq<string>, cfg: IgnoreConfig) returns (ignored: nat, names: seq<string>)
    ensures ignored == IgnoredCount(cfg, files, |files|) && names == Kept(cfg, files, |files|)
  {
    ignored, names := 0, [];
    var i := 0;
    while i < |files|
      invariant 0 <= i <= |files|
      invariant ignored == IgnoredCount(cfg, files, i) && names == Kept(cfg, files, i)
    {
      var name := FileName(files[i]);
      if IsIgnore(cfg, name) {
        ignored := ignored + 1;
      } else {
        names := names + [name];
      }
      i := i + 1;
    }
  }

  /** The remote path of every kept name, in order. */
  method ToTargets(serverDir: string, names: seq<string>) returns (targets: seq<string>)
    ensures |targets| == |names|
    ensures forall k :: 0 <= k < |names| ==> targets[k] == Target(serverDir, names[k])
  {
    targets := [];
    var i := 0;
    while i < |names|
      invariant i <= |names| && |targets| == i
      invariant forall k :: 0 <= k < i ==> targets[k] == Target(serverDir, names[k])
    {
      targets := targets + [Target(serverDir, names[i])];
      i := i + 1;
    }
  }

  /** The admission loop of `UploadFiles` over `count` submitted tasks. */
  method Schedule(count: nat, limit: int, rounds: seq<set<nat>>, faulted: set<nat>) returns (s: Sched)
    ensures Accounted(s, count, faulted, limit)
    ensures count < limit ==> s.counted == {}
  {
    s := Sched(0, 0, {}, {}, 0, 0);
    Idle(faulted, limit);
    var n := 0;
    while n < count
      invariant n <= count && Accounted(s, n, faulted, limit)
      invariant count < limit ==> s.counted == {}
    {
      s := Submit(s, n, limit, rounds, faulted);
      n := n + 1;
    }
  }

  /** Nothing submitted, nothing counted. */
  lemma Idle(faulted: set<nat>, limit: int)
    ensures Accounted(Sched(0, 0, {}, {}, 0, 0), 0, faulted, limit)
  {
    assert {} - faulted == {};
  }

  /** What the loop's account says once all files are submitted. */
  lemma Settled(s: Sched, n: nat, faulted: set<nat>, limit: int)
    requires Accounted(s, n, faulted, limit)
    ensures s.success == |s.counted - faulted| && s.failed == |s.counted * faulted|
    ensures s.counted * s.inflight == {} && s.counted + s.inflight == Below(n)
    ensures s.success + s.failed + |s.inflight| == n
    ensures s.peak <= Bound(limit) && |s.inflight| < Bound(limit)
  {
    assert |s.counted + s.inflight| == n;
  }

  // ---------------------------------------------------------------------
  // Retry

  /** How one upload pass ends for its caller: it returns its `failed`
      count, or the exception of `UploadFiles` escapes. */
  datatype Pass = Returned(failed: int) | Threw

  /** How the retry loop ends: synchronised, out of retries, or cut short
      by an exception. */
  datatype RetryEnd = Synced | GaveUp | Raised

  /** The outcome of pass `k`; a pass beyond the script fails nothing. */
  function PassAt(results: seq<Pass>, k: nat): Pass {
    if k < |results| then results[k] else Returned(0)
  }

  /** A pass after which the loop does not go on: a clean one
      (`failed <= 0`) or one that threw. */
  predicate Stops(p: Pass) {
    p.Threw? || p.failed <= 0
  }

  /** The first pass after which the loop does not go on. */
  function FirstStop(results: seq<Pass>): (k: nat)
    ensures k <= |results| && Stops(PassAt(results, k))
    ensures forall j :: 0 <= j < k ==> !Stops(results[j])
  {
    if |results| == 0 || Stops(results[0]) then 0
    else
      var k := FirstStop(results[1..]);
      assert forall j :: 0 < j < |results| ==> results[j] == results[1..][j - 1];
      1 + k
  }

  /** `DiffUploadWithProgress` after the diff: nothing when the diff is
      empty; otherwise upload the same set again until a pass fails
      nothing, a pass throws, or three retries are spent. Returns what each
      pass uploaded and how the loop ended. */
  method RetryUpload(diff: set<string>, results: seq<Pass>)
    returns (passes: seq<set<string>>, end: RetryEnd)
    ensures diff == {} ==> passes == [] && end == Synced
    ensures diff != {} ==> |passes| == (if FirstStop(results) < 4 then FirstStop(results) + 1 else 4)
    ensures forall k :: 0 <= k < |passes| ==> passes[k] == diff
    ensures diff != {} ==> (end == Raised <==> PassAt(results, |passes| - 1).Threw?)
    ensures diff != {} ==> (end == Synced <==> PassAt(results, |passes| - 1).Returned? && PassAt(results, |passes| - 1).failed <= 0)
  {
    if |diff| <= 0 {
      return [], Synced;
    }
    passes := [];
    var retry := 3;
    while true
      invariant 0 <= retry <= 3 && |passes| == 3 - retry
      invariant forall k :: 0 <= k < |passes| ==> passes[k] == diff && !Stops(PassAt(results, k))
      decreases retry
    {
      var k := |passes|;
      passes := passes + [diff];
      var result := PassAt(results, k);
      if result.Threw? {
        end := Raised;
        break;
      }
      if result.failed <= 0 {
        end := Synced;
        break;
      }
      if retry <= 0 {
        end := GaveUp;
        break;
      }
      retry := retry - 1;
    }
    NoStopBefore(results, |passes| - 1);
  }

  /** A pass that went on, with all earlier ones going on too, sits before
      the first pass that stops the loop. */
  lemma NoStopBefore(results: seq<Pass>, n: nat)
    requires forall k :: 0 <= k < n ==> !Stops(PassAt(results, k))
    ensures n <= FirstStop(results)
  {
  }
}
