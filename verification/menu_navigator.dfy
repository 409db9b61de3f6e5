/** The interactive walk of `MenuUtils.ShowMenu`: a stack of chosen segments
    (`_SELECTED`), the path rebuilt from it (`_GenCachedPath`), the menu
    transitions (`_ShowMenuTable`) and the live entry hooks.

    The user's typed index, the exit confirmation and the cancellation
    token are inputs, one per loop iteration. */
module MenuNavigator {
  import opened Base
  import opened Text
  import opened MenuTrie
  import opened MenuRegistry

  // ---------------------------------------------------------------------
  // Path rebuilding

  /** "/s1/s2/.../sn", built one segment at a time. */
  function Slashed(stack: seq<string>): string {
    if |stack| == 0 then "" else Slashed(stack[..|stack| - 1]) + "/" + stack[|stack| - 1]
  }

  /** `_GenCachedPath`: the stack joined with '/', leading slashes trimmed. */
  function GenCachedPath(stack: seq<string>): string {
    TrimStart(Slashed(stack), '/')
  }

  lemma {:induction false} SlashedJoin(stack: seq<string>)
    requires |stack| >= 1
    ensures Slashed(stack) == "/" + Join(stack, '/')
    decreases |stack|
  {
    if |stack| > 1 {
      var init := stack[..|stack| - 1];
      SlashedJoin(init);
      JoinSnoc(init, stack[|stack| - 1]);
      assert init + [stack[|stack| - 1]] == stack;
    }
  }

  lemma {:induction false} JoinSnoc(parts: seq<string>, x: string)
    requires |parts| >= 1
    ensures Join(parts + [x], '/') == Join(parts, '/') + "/" + x
    decreases |parts|
  {
    assert (parts + [x])[1..] == parts[1..] + [x];
    if |parts| > 1 {
      JoinSnoc(parts[1..], x);
    }
  }

  /** An empty stack is the root, "". A stack of non-empty, '/'-free names
      becomes their '/'-join, and splitting that path on '/' gives the stack
      back, so the path the loop resolves names exactly the chosen chain. */
  lemma GenCachedPathRoundTrip(stack: seq<string>)
    requires forall k :: 0 <= k < |stack| ==> stack[k] != "" && '/' !in stack[k]
    ensures stack == [] ==> GenCachedPath(stack) == ""
    ensures stack != [] ==> GenCachedPath(stack) == Join(stack, '/')
    ensures stack != [] ==> Split(GenCachedPath(stack), '/') == stack
  {
    if stack != [] {
      SlashedJoin(stack);
      var j := Join(stack, '/');
      JoinHead(stack);
      assert TrimStart("/" + j, '/') == TrimStart(j, '/');
      SplitJoin(stack, '/');
    }
  }

  lemma {:induction false} JoinHead(parts: seq<string>)
    requires |parts| >= 1 && parts[0] != "" && '/' !in parts[0]
    ensures |Join(parts, '/')| > 0 && Join(parts, '/')[0] == parts[0][0]
  {
    assert parts[0][0] in parts[0];
  }

  /** The rebuilt path is empty only for an empty stack, as long as no chosen
      name is made of slashes alone. */
  lemma GenCachedPathEmpty(stack: seq<string>)
    ensures GenCachedPath([]) == ""
    ensures stack != [] && stack[0] != "" && stack[0][0] != '/' ==> GenCachedPath(stack) != ""
  {
    if stack != [] && stack[0] != "" && stack[0][0] != '/' {
      SlashedPrefix(stack);
      var s := Slashed(stack);
      assert s[1] == stack[0][0];
      var r := TrimStart(s, '/');
      assert |s| - |r| <= 1;
    }
  }

  lemma {:induction false} SlashedPrefix(stack: seq<string>)
    requires |stack| >= 1
    ensures |Slashed(stack)| == 1 + |stack[0]| + |Slashed(stack[1..])|
    ensures Slashed(stack)[..1 + |stack[0]|] == "/" + stack[0]
    decreases |stack|
  {
    if |stack| > 1 {
      var init := stack[..|stack| - 1];
      SlashedPrefix(init);
      assert init[0] == stack[0];
      assert init[1..] == stack[1..][..|stack[1..]| - 1];
    }
  }

  // ---------------------------------------------------------------------
  // One menu screen

  /** `_ShowMenuTable`: the typed 1-based index, converted to 0-based, picks
      a transition on the stack. The boolean is false only when the user
      confirms leaving the root menu. */
  function ShowMenuTable(trie: Trie, path: string, stack: seq<string>, typed: int, confirmExit: bool)
    : (r: (bool, seq<string>))
    ensures typed < 1 || typed > 1 + |Resolve(trie, path).kids| ==> r == (true, stack)
    ensures typed == 1 && stack == [] ==> r == (!confirmExit, stack)
    ensures typed == 1 && stack != [] ==> r == (true, stack[..|stack| - 1])
    ensures 1 < typed <= 1 + |Resolve(trie, path).kids| ==>
              r == (true, stack + [Resolve(trie, path).kids[typed - 2].name])
  {
    var selections := GetSelection(trie, path);
    var index := typed - 1;
    if index >= |selections| || index < 0 then (true, stack)
    else if index == 0 then
      if |stack| <= 0 then (!confirmExit, stack) else (true, stack[..|stack| - 1])
    else
      (true, stack + [selections[index]])
  }

  // ---------------------------------------------------------------------
  // One iteration of the loop

  /** What the user and the environment supply to one iteration. */
  datatype Input = Input(cancelled: bool, typed: int, confirmExit: bool)

  /** The loop's state: current path, `_SELECTED`, and the live hooks. */
  datatype Nav = Nav(path: string, stack: seq<string>, hooks: map<string, seq<Hook>>)

  /** What happened at the current path: a menu was shown, or a leaf was
      handed to `MenuExecute`, which started `menu` (None: nothing ran). */
  datatype Visit = Shown | Executed(menu: Option<MenuAttr>)

  datatype Outcome =
    | Continue(nav: Nav, fired: seq<Hook>, visit: Visit)
    | Exited(fired: seq<Hook>)
    | Cancelled
      /** `_SELECTED.RemoveAt(-1)` after running a leaf with an empty stack. */
    | Faulted(fired: seq<Hook>, menu: Option<MenuAttr>)

  predicate AnyOnce(hooks: seq<Hook>) {
    exists k :: 0 <= k < |hooks| && hooks[k].attr.executeOnce
  }

  /** The hooks that fire on entering `path`: all of them, in order. */
  function LiveHooks(hooks: map<string, seq<Hook>>, path: string): seq<Hook> {
    if path in hooks then hooks[path] else []
  }

  /** One pass of `ShowMenu`'s `while(true)`. */
  function Step(reg: Registry, nav: Nav, input: Input): (r: Outcome)
    ensures r.Cancelled? <==> input.cancelled
    ensures !r.Cancelled? ==> r.fired == LiveHooks(nav.hooks, nav.path)
    ensures r.Continue? ==> r.nav.path == GenCachedPath(r.nav.stack)
    ensures r.Continue? ==>
              r.nav.hooks == (if AnyOnce(r.fired) then nav.hooks - {nav.path} else nav.hooks)
    ensures (r.Continue? && r.visit.Shown?) || r.Exited? ==>
              ShowMenuTable(reg.trie, nav.path, nav.stack, input.typed, input.confirmExit) ==
              (r.Continue?, if r.Continue? then r.nav.stack else nav.stack)
    ensures (r.Continue? && r.visit.Executed?) || r.Faulted? <==>
              !input.cancelled && nav.path != "" && IsEnd(reg.trie, nav.path)
    ensures r.Continue? && r.visit.Executed? ==>
              && |nav.stack| > 0
              && r.nav.stack == nav.stack[..|nav.stack| - 1]
              && r.visit.menu == MenuExecute(reg, nav.path, false)
  {
    if input.cancelled then Cancelled
    else
      var fired := LiveHooks(nav.hooks, nav.path);
      var hooks := if AnyOnce(fired) then nav.hooks - {nav.path} else nav.hooks;
      if nav.path == "" || !IsEnd(reg.trie, nav.path) then
        var (go, stack) := ShowMenuTable(reg.trie, nav.path, nav.stack, input.typed, input.confirmExit);
        if go then Continue(Nav(GenCachedPath(stack), stack, hooks), fired, Shown) else Exited(fired)
      else
        var ran := MenuExecute(reg, nav.path, false);
        if |nav.stack| == 0 then Faulted(fired, ran)
        else
          var stack := nav.stack[..|nav.stack| - 1];
          Continue(Nav(GenCachedPath(stack), stack, hooks), fired, Executed(ran))
  }

  // ---------------------------------------------------------------------
  // The whole loop over a finite script of inputs

  datatype Status = AwaitingInput | UserExit | Stopped | Crashed

  /** Where the loop stands after a script: the state, why it stopped, the
      hooks fired and the menus started, in order. */
  datatype Trace = Trace(nav: Nav, status: Status, fired: seq<Hook>, executed: seq<Option<MenuAttr>>)

  function Run(reg: Registry, nav: Nav, inputs: seq<Input>): Trace
    decreases |inputs|
  {
    if |inputs| == 0 then Trace(nav, AwaitingInput, [], [])
    else
      match Step(reg, nav, inputs[0])
      case Cancelled => Trace(nav, Stopped, [], [])
      case Exited(f) => Trace(nav, UserExit, f, [])
      case Faulted(f, m) => Trace(nav, Crashed, f, [m])
      case Continue(next, f, visit) =>
        var rest := Run(reg, next, inputs[1..]);
        Trace(rest.nav, rest.status, f + rest.fired,
              (if visit.Executed? then [visit.menu] else []) + rest.executed)
  }

  /** `ShowMenu(token)`: the walk starts at the root with an empty stack and
      the hooks as registered. */
  function Start(reg: Registry): Nav {
    Nav("", [], reg.hooks)
  }

  /** The loop's own invariant: the path is the one rebuilt from the stack. */
  predicate PathMatches(nav: Nav) {
    nav.path == GenCachedPath(nav.stack)
  }

  /** From a state whose path was rebuilt from its stack, an iteration never
      pops an empty stack, and the next state is of the same kind. */
  lemma StepNeverFaults(reg: Registry, nav: Nav, input: Input)
    requires PathMatches(nav)
    ensures !Step(reg, nav, input).Faulted?
    ensures Step(reg, nav, input).Continue? ==> PathMatches(Step(reg, nav, input).nav)
  {
    GenCachedPathEmpty(nav.stack);
  }

  /** `ShowMenu` never crashes on `RemoveAt`, whatever the user types. */
  lemma {:induction false} RunNeverCrashes(reg: Registry, nav: Nav, inputs: seq<Input>)
    requires PathMatches(nav)
    ensures Run(reg, nav, inputs).status != Crashed
    decreases |inputs|
  {
    if |inputs| > 0 {
      StepNeverFaults(reg, nav, inputs[0]);
      var r := Step(reg, nav, inputs[0]);
      if r.Continue? {
        RunNeverCrashes(reg, r.nav, inputs[1..]);
      }
    }
  }

  lemma ShowMenuNeverCrashes(reg: Registry, inputs: seq<Input>)
    ensures Run(reg, Start(reg), inputs).status != Crashed
  {
    RunNeverCrashes(reg, Start(reg), inputs);
  }

  /** Cancellation seen at the top of an iteration ends the walk there:
      no hook fires and no menu runs. */
  lemma CancelStopsAtOnce(reg: Registry, nav: Nav, inputs: seq<Input>)
    requires |inputs| > 0 && inputs[0].cancelled
    ensures Run(reg, nav, inputs) == Trace(nav, Stopped, [], [])
  {
  }

  /** The live hooks only ever lose whole paths: every path still live at
      the end was live at the start with the same hooks. */
  lemma {:induction false} HooksOnlyShrink(reg: Registry, nav: Nav, inputs: seq<Input>)
    ensures forall p :: p in Run(reg, nav, inputs).nav.hooks ==>
                          p in nav.hooks && Run(reg, nav, inputs).nav.hooks[p] == nav.hooks[p]
    decreases |inputs|
  {
    if |inputs| > 0 {
      var r := Step(reg, nav, inputs[0]);
      if r.Continue? {
        HooksOnlyShrink(reg, r.nav, inputs[1..]);
      }
    }
  }

  /** Each path's hooks carry that path, as registration files them. */
  predicate Wired(hooks: map<string, seq<Hook>>) {
    forall q :: q in hooks ==> forall k :: 0 <= k < |hooks[q]| ==> hooks[q][k].attr.path == q
  }

  /** A path whose hooks are gone (removed after an execute-once hook ran,
      or never registered) never fires a hook again. */
  lemma {:induction false} RemovedHooksStaySilent(reg: Registry, nav: Nav, inputs: seq<Input>, p: string)
    requires Wired(nav.hooks) && p !in nav.hooks
    ensures forall k :: 0 <= k < |Run(reg, nav, inputs).fired| ==>
                          Run(reg, nav, inputs).fired[k].attr.path != p
    decreases |inputs|
  {
    if |inputs| > 0 {
      var r := Step(reg, nav, inputs[0]);
      StepSilent(reg, nav, inputs[0], p);
      if r.Continue? {
        var rest := Run(reg, r.nav, inputs[1..]);
        RemovedHooksStaySilent(reg, r.nav, inputs[1..], p);
        assert Run(reg, nav, inputs).fired == r.fired + rest.fired;
        SilentAppend(r.fired, rest.fired, p);
      }
    }
  }

  /** One iteration fires only the current path's hooks, and keeps a
      removed path removed. */
  lemma StepSilent(reg: Registry, nav: Nav, input: Input, p: string)
    requires Wired(nav.hooks) && p !in nav.hooks
    ensures var r := Step(reg, nav, input);
            && (!r.Cancelled? ==> forall k :: 0 <= k < |r.fired| ==> r.fired[k].attr.path != p)
            && (r.Continue? ==> Wired(r.nav.hooks) && p !in r.nav.hooks)
  {
    var r := Step(reg, nav, input);
    if !r.Cancelled? && nav.path in nav.hooks {
      assert r.fired == nav.hooks[nav.path];
    }
  }

  /** A hook declared with `[MenuEnter(path)]` alone runs once: it fires on
      the first entry to its path, and from the next iteration on no hook of
      that path fires again, whatever the user does. */
  lemma DefaultHookFiresOnce(reg: Registry, nav: Nav, input: Input, later: seq<Input>, h: Hook)
    requires Wired(nav.hooks) && !input.cancelled
    requires h in LiveHooks(nav.hooks, nav.path) && h.attr == EnterAt(nav.path)
    ensures h in Step(reg, nav, input).fired
    ensures Step(reg, nav, input).Continue? ==>
              var rest := Run(reg, Step(reg, nav, input).nav, later);
              forall k :: 0 <= k < |rest.fired| ==> rest.fired[k].attr.path != nav.path
  {
    var r := Step(reg, nav, input);
    var fired := LiveHooks(nav.hooks, nav.path);
    var k :| 0 <= k < |fired| && fired[k] == h;
    assert fired[k].attr.executeOnce;
    if r.Continue? {
      assert r.nav.hooks == nav.hooks - {nav.path};
      assert Wired(r.nav.hooks);
      RemovedHooksStaySilent(reg, r.nav, later, nav.path);
    }
  }

  lemma SilentAppend(a: seq<Hook>, b: seq<Hook>, p: string)
    requires forall k :: 0 <= k < |a| ==> a[k].attr.path != p
    requires forall k :: 0 <= k < |b| ==> b[k].attr.path != p
    ensures forall k :: 0 <= k < |a + b| ==> (a + b)[k].attr.path != p
  {
  }

  /** An iteration at a menu applies `_ShowMenuTable`'s transition. */
  lemma MenuStep(reg: Registry, nav: Nav, input: Input)
    requires !input.cancelled && (nav.path == "" || !IsEnd(reg.trie, nav.path))
    ensures ShowMenuTable(reg.trie, nav.path, nav.stack, input.typed, input.confirmExit).0 ==>
              && Step(reg, nav, input).Continue?
              && Step(reg, nav, input).nav.stack ==
                 ShowMenuTable(reg.trie, nav.path, nav.stack, input.typed, input.confirmExit).1
  {
  }

  /** Choosing a child and then "back" returns to the same stack: either the
      child is a leaf, which runs and pops itself, or its menu pops on 1. */
  lemma SelectThenBack(reg: Registry, nav: Nav, select: Input, back: Input)
    requires PathMatches(nav)
    requires !select.cancelled && !back.cancelled && back.typed == 1
    requires nav.path == "" || !IsEnd(reg.trie, nav.path)
    requires 1 < select.typed <= 1 + |Resolve(reg.trie, nav.path).kids|
    ensures Step(reg, nav, select).Continue?
    ensures Step(reg, Step(reg, nav, select).nav, back).Continue?
    ensures Step(reg, Step(reg, nav, select).nav, back).nav.stack == nav.stack
  {
    var x := Resolve(reg.trie, nav.path).kids[select.typed - 2].name;
    var t := ShowMenuTable(reg.trie, nav.path, nav.stack, select.typed, select.confirmExit);
    assert t == (true, nav.stack + [x]);
    MenuStep(reg, nav, select);
    var next := Step(reg, nav, select).nav;
    assert next.stack == nav.stack + [x];
    assert next.stack[..|next.stack| - 1] == nav.stack;
    if next.path == "" || !IsEnd(reg.trie, next.path) {
      MenuStep(reg, next, back);
    } else {
      LeafStep(reg, next, back);
    }
  }

  /** An iteration at a leaf with a non-empty stack runs it and pops. */
  lemma LeafStep(reg: Registry, nav: Nav, input: Input)
    requires !input.cancelled && nav.path != "" && IsEnd(reg.trie, nav.path) && nav.stack != []
    ensures Step(reg, nav, input).Continue?
    ensures Step(reg, nav, input).nav.stack == nav.stack[..|nav.stack| - 1]
  {
  }

  /** With '/'-free menu names the stack always spells a chain of the trie,
      so it never grows beyond the trie's height. */
  lemma StepStaysInTrie(reg: Registry, nav: Nav, input: Input)
    requires Valid(reg.trie) && SlashFree(reg.trie)
    requires PathMatches(nav) && Contains(reg.trie, nav.stack)
    ensures Step(reg, nav, input).Continue? ==> Contains(reg.trie, Step(reg, nav, input).nav.stack)
    ensures |nav.stack| <= Height(reg.trie)
  {
    ContainsBound(reg.trie, nav.stack);
    var r := Step(reg, nav, input);
    if r.Continue? {
      if r.visit.Executed? {
        ContainsInit(reg.trie, nav.stack);
      } else {
        TableStaysInTrie(reg.trie, nav.path, nav.stack, input.typed, input.confirmExit);
      }
    }
  }

  /** Over a whole script the stack stays a chain of the trie, so the walk
      never sits deeper than the trie is high. */
  lemma {:induction false} RunStaysInTrie(reg: Registry, nav: Nav, inputs: seq<Input>)
    requires Valid(reg.trie) && SlashFree(reg.trie)
    requires PathMatches(nav) && Contains(reg.trie, nav.stack)
    ensures Contains(reg.trie, Run(reg, nav, inputs).nav.stack)
    ensures |Run(reg, nav, inputs).nav.stack| <= Height(reg.trie)
    decreases |inputs|
  {
    StepStaysInTrie(reg, nav, if |inputs| > 0 then inputs[0] else Input(true, 0, false));
    if |inputs| > 0 {
      StepNeverFaults(reg, nav, inputs[0]);
      var r := Step(reg, nav, inputs[0]);
      if r.Continue? {
        RunStaysInTrie(reg, r.nav, inputs[1..]);
      }
    }
  }

  /** `ShowMenu` on a registry built from well-formed menu paths only ever
      visits paths of the trie. */
  lemma ShowMenuStaysInTrie(decls: seq<Decl>, inputs: seq<Input>)
    requires DeclsWellFormed(decls)
    ensures Contains(Build(decls).trie, Run(Build(decls), Start(Build(decls)), inputs).nav.stack)
  {
    var reg := Build(decls);
    BuildWellFormed(decls);
    BuildSlashFree(decls);
    RunStaysInTrie(reg, Start(reg), inputs);
  }

  /** A menu screen's transition keeps the stack a chain of the trie. */
  lemma TableStaysInTrie(trie: Trie, path: string, stack: seq<string>, typed: int, confirmExit: bool)
    requires Valid(trie) && SlashFree(trie) && Contains(trie, stack)
    requires path == GenCachedPath(stack)
    ensures Contains(trie, ShowMenuTable(trie, path, stack, typed, confirmExit).1)
  {
    var node := Resolve(trie, path);
    if typed == 1 && stack != [] {
      ContainsInit(trie, stack);
    } else if 1 < typed <= 1 + |node.kids| {
      PushStaysInTrie(trie, stack, path, node.kids[typed - 2].name);
    }
  }

  /** Pushing a child of the node the rebuilt path resolves to extends the
      chain, because that node is the end of the chain. */
  lemma PushStaysInTrie(trie: Trie, stack: seq<string>, path: string, x: string)
    requires Valid(trie) && SlashFree(trie) && Contains(trie, stack)
    requires path == GenCachedPath(stack)
    requires x in Names(Resolve(trie, path).kids)
    ensures Contains(trie, stack + [x])
  {
    ChainNames(trie, stack);
    ResolveStack(trie, stack);
    ContainsSnoc(trie, stack, x);
  }

  /** The rebuilt path of a stack of non-empty, '/'-free names resolves to
      the node that following the stack reaches. */
  lemma ResolveStack(trie: Trie, stack: seq<string>)
    requires Valid(trie)
    requires forall k :: 0 <= k < |stack| ==> stack[k] != "" && '/' !in stack[k]
    ensures Resolve(trie, GenCachedPath(stack)) == Walk(trie, stack)
  {
    GenCachedPathRoundTrip(stack);
    if stack == [] {
      EmptyPathIsRoot(trie);
    } else {
      assert Split(GenCachedPath(stack), '/') == stack;
    }
  }
}
