/** The `cli` command: run a comma-separated list of menus without the
    interactive walk, each with ci-excluded menus refused.

    A null argument and an empty one are both written "". The multi-select
    prompt, asked when no listed path is usable, is an input: a mask over
    the offered choices, read in the order the choices are offered. */
module CliCommand {
  import opened Base
  import opened Text
  import opened MenuRegistry

  /** The pieces that name a menu runnable in ci mode, in order, duplicates
      kept, untrimmed. */
  function Keep(reg: Registry, pieces: seq<string>): (r: seq<string>)
    ensures |r| <= |pieces|
    decreases |pieces|
  {
    if |pieces| == 0 then []
    else (if IsMenuExist(reg, pieces[0], true) then [pieces[0]] else []) + Keep(reg, pieces[1..])
  }

  /** Each runnable piece is kept as often as it occurs, any other never. */
  lemma {:induction false} KeepCounts(reg: Registry, pieces: seq<string>)
    ensures forall x :: multiset(Keep(reg, pieces))[x] ==
              (if IsMenuExist(reg, x, true) then multiset(pieces)[x] else 0)
    decreases |pieces|
  {
    if |pieces| > 0 {
      KeepCounts(reg, pieces[1..]);
      assert pieces == [pieces[0]] + pieces[1..];
    }
  }

  /** Filtering distributes over concatenation, so the kept pieces keep the
      argument's order. */
  lemma {:induction false} KeepAppend(reg: Registry, a: seq<string>, b: seq<string>)
    ensures Keep(reg, a + b) == Keep(reg, a) + Keep(reg, b)
    decreases |a|
  {
    if |a| == 0 {
      assert a + b == b;
    } else {
      assert (a + b)[0] == a[0];
      assert (a + b)[1..] == a[1..] + b;
      KeepAppend(reg, a[1..], b);
    }
  }

  /** The choices whose mask entry is set, in the order offered. */
  function Picked(choices: seq<string>, mask: seq<bool>): (r: seq<string>)
    ensures |r| <= |choices|
    ensures forall x :: x in r ==> x in choices
    decreases |choices|
  {
    if |choices| == 0 then []
    else
      var rest := Picked(choices[1..], if |mask| > 0 then mask[1..] else []);
      if |mask| > 0 && mask[0] then [choices[0]] + rest else rest
  }

  /** `_AskPath(path)`. */
  function AskPath(reg: Registry, arg: string, mask: seq<bool>): (r: seq<string>)
    ensures arg != "" && Keep(reg, Split(arg, ',')) != [] ==> r == Keep(reg, Split(arg, ','))
    ensures arg == "" || Keep(reg, Split(arg, ',')) == [] ==>
              r == Picked(GetAllMenuPath(reg.menus, true), mask)
  {
    var kept := if arg == "" then [] else Keep(reg, Split(arg, ','));
    if kept != [] then kept else Picked(GetAllMenuPath(reg.menus, true), mask)
  }

  /** In a well-formed registry every path `_AskPath` returns, typed or
      chosen, is one `MenuExecute(path, true)` will run. */
  lemma AskPathRunnable(reg: Registry, arg: string, mask: seq<bool>)
    requires Wf(reg)
    ensures forall p :: p in AskPath(reg, arg, mask) ==> IsMenuExist(reg, p, true)
  {
    var r := AskPath(reg, arg, mask);
    forall p | p in r ensures IsMenuExist(reg, p, true) {
      if arg != "" && Keep(reg, Split(arg, ',')) != [] {
        KeepCounts(reg, Split(arg, ','));
        assert multiset(r)[p] > 0;
      } else {
        AllMenuPathIffExists(reg, p, true);
      }
    }
  }

  /** `_ExecuteAsync`: every chosen path goes to `MenuExecute(path, true)`
      in order; the exit code is 0. The second component lists what each
      call started. */
  method CliExecute(reg: Registry, arg: string, mask: seq<bool>)
    returns (code: int, ran: seq<Option<MenuAttr>>)
    ensures code == 0
    ensures |ran| == |AskPath(reg, arg, mask)|
    ensures forall k :: 0 <= k < |ran| ==> ran[k] == MenuExecute(reg, AskPath(reg, arg, mask)[k], true)
    ensures Wf(reg) ==> forall k :: 0 <= k < |ran| ==>
              ran[k].Some? && ran[k].value.path == AskPath(reg, arg, mask)[k] && !ran[k].value.noCi
  {
    var paths := AskPath(reg, arg, mask);
    ran := ExecuteAll(reg, paths);
    if Wf(reg) {
      AskPathRunnable(reg, arg, mask);
      forall k | 0 <= k < |ran| ensures ran[k].Some? && ran[k].value.path == paths[k] && !ran[k].value.noCi {
        assert paths[k] in paths;
      }
    }
    code := 0;
  }

  /** `MenuExecute(path, true)` on every path, in order. */
  method ExecuteAll(reg: Registry, paths: seq<string>) returns (ran: seq<Option<MenuAttr>>)
    ensures |ran| == |paths|
    ensures forall k :: 0 <= k < |ran| ==> ran[k] == MenuExecute(reg, paths[k], true)
  {
    ran := [];
    var i := 0;
    while i < |paths|
      invariant 0 <= i <= |paths|
      invariant |ran| == i
      invariant forall k :: 0 <= k < i ==> ran[k] == MenuExecute(reg, paths[k], true)
    {
      ran := ran + [MenuExecute(reg, paths[i], true)];
      i := i + 1;
    }
  }
}
