/** The menu registry built by `MenuUtils`' static constructor, and its
    queries `MenuExecute`, `IsMenuExist` and `GetAllMenuPath`.

    Reflection is replaced by an explicit list of the discovered attributes,
    in discovery order. An executor's `Init` copies path, order, auto-confirm
    and ci-exclusion from its attribute verbatim, so a registered menu is
    represented by that attribute. */
module MenuRegistry {
  import opened Base
  import opened Text
  import opened MenuTrie

  /** `[Menu(path, order, auto_confirm, no_ci)]`. */
  datatype MenuAttr = MenuAttr(path: string, order: int, autoConfirm: bool, noCi: bool)

  /** `[MenuEnter(path, execute_once)]`. */
  datatype EnterAttr = EnterAttr(path: string, executeOnce: bool)

  /** An entry hook: the class carrying a `[MenuEnter]` attribute, by name. */
  datatype Hook = Hook(name: string, attr: EnterAttr)

  /** One discovered attribute. */
  datatype Decl = MenuDecl(menu: MenuAttr) | EnterDecl(hook: Hook)

  /** The built registry: menus in first-registration order (the order a
      `Dictionary` without removals enumerates), entry hooks per path, and
      the trie the sorted menus were inserted into. */
  datatype Registry = Registry(menus: seq<MenuAttr>, hooks: map<string, seq<Hook>>, trie: Trie)

  /** `[Menu(path)]` with the attribute's defaults for the other fields. */
  function MenuAt(path: string): (a: MenuAttr)
    ensures a.path == path && a.order == 1 && !a.autoConfirm && !a.noCi
  {
    MenuAttr(path, 1, false, false)
  }

  /** `[MenuEnter(path)]` with the attribute's default: run once. */
  function EnterAt(path: string): (a: EnterAttr)
    ensures a.path == path && a.executeOnce
  {
    EnterAttr(path, true)
  }

  // ---------------------------------------------------------------------
  // Registration

  /** `_ALL_MENUS.TryGetValue(path)`: the registered menu for `path`. */
  function Lookup(menus: seq<MenuAttr>, path: string): (r: Option<MenuAttr>)
    ensures r.Some? ==> r.value in menus && r.value.path == path
    ensures r.None? <==> forall i :: 0 <= i < |menus| ==> menus[i].path != path
  {
    if |menus| == 0 then None
    else if menus[0].path == path then Some(menus[0])
    else Lookup(menus[1..], path)
  }

  /** The first `[Menu]` declaration for `path`, if any. */
  function FirstMenu(decls: seq<Decl>, path: string): Option<MenuAttr> {
    if |decls| == 0 then None
    else if decls[0].MenuDecl? && decls[0].menu.path == path then Some(decls[0].menu)
    else FirstMenu(decls[1..], path)
  }

  predicate UniquePaths(menus: seq<MenuAttr>) {
    forall i, j :: 0 <= i < j < |menus| ==> menus[i].path != menus[j].path
  }

  /** The registering half of the static constructor for menus: empty paths
      are skipped and `TryAdd` keeps the first registration of a path. */
  function RegisterMenus(decls: seq<Decl>): (menus: seq<MenuAttr>)
    ensures UniquePaths(menus)
    ensures forall i :: 0 <= i < |menus| ==> menus[i].path != ""
    ensures forall p :: Lookup(menus, p) == (if p == "" then None else FirstMenu(decls, p))
    ensures forall m :: m in menus ==> MenuDecl(m) in decls
  {
    if |decls| == 0 then []
    else
      var prev := RegisterMenus(decls[..|decls| - 1]);
      var d := decls[|decls| - 1];
      FirstMenuSnoc(decls[..|decls| - 1], d);
      assert decls[..|decls| - 1] + [d] == decls;
      if d.MenuDecl? && d.menu.path != "" && Lookup(prev, d.menu.path).None? then
        LookupSnoc(prev, d.menu);
        prev + [d.menu]
      else
        prev
  }

  lemma {:induction false} LookupSnoc(menus: seq<MenuAttr>, m: MenuAttr)
    ensures forall p ::
              Lookup(menus + [m], p) ==
              (if Lookup(menus, p).Some? then Lookup(menus, p) else if m.path == p then Some(m) else None)
    decreases |menus|
  {
    if |menus| > 0 {
      assert (menus + [m])[1..] == menus[1..] + [m];
      LookupSnoc(menus[1..], m);
    }
  }

  lemma {:induction false} FirstMenuSnoc(decls: seq<Decl>, d: Decl)
    ensures forall p ::
              FirstMenu(decls + [d], p) ==
              (if FirstMenu(decls, p).Some? then FirstMenu(decls, p)
               else if d.MenuDecl? && d.menu.path == p then Some(d.menu) else None)
    decreases |decls|
  {
    if |decls| > 0 {
      assert (decls + [d])[1..] == decls[1..] + [d];
      FirstMenuSnoc(decls[1..], d);
    }
  }

  /** The `[MenuEnter]` declarations for `path`, in discovery order. */
  function HooksFor(decls: seq<Decl>, path: string): (hs: seq<Hook>)
    ensures forall k :: 0 <= k < |hs| ==> hs[k].attr.path == path
  {
    if |decls| == 0 then []
    else
      var d := decls[|decls| - 1];
      HooksFor(decls[..|decls| - 1], path) + (if d.EnterDecl? && d.hook.attr.path == path then [d.hook] else [])
  }

  /** The registering half of the static constructor for entry hooks: empty
      paths are skipped, hooks for one path accumulate in discovery order. */
  function RegisterHooks(decls: seq<Decl>): (hooks: map<string, seq<Hook>>)
    ensures forall p :: p in hooks <==> p != "" && HooksFor(decls, p) != []
    ensures forall p :: p in hooks ==> hooks[p] == HooksFor(decls, p)
  {
    if |decls| == 0 then map[]
    else
      var prev := RegisterHooks(decls[..|decls| - 1]);
      var d := decls[|decls| - 1];
      if d.EnterDecl? && d.hook.attr.path != "" then
        var p := d.hook.attr.path;
        prev[p := (if p in prev then prev[p] else []) + [d.hook]]
      else
        prev
  }

  // ---------------------------------------------------------------------
  // Sorting by (order, path)

  /** Ordinal string comparison: `a` is no later than `b`. */
  predicate StrLeq(a: string, b: string) {
    |a| == 0 || (|b| > 0 && (a[0] < b[0] || (a[0] == b[0] && StrLeq(a[1..], b[1..]))))
  }

  lemma {:induction false} StrLeqTotal(a: string, b: string)
    ensures StrLeq(a, b) || StrLeq(b, a)
  {
    if |a| > 0 && |b| > 0 && a[0] == b[0] {
      StrLeqTotal(a[1..], b[1..]);
    }
  }

  /** The sort comparison: by order, then by path. */
  predicate Before(a: MenuAttr, b: MenuAttr) {
    a.order < b.order || (a.order == b.order && StrLeq(a.path, b.path))
  }

  lemma BeforeTotal(a: MenuAttr, b: MenuAttr)
    ensures Before(a, b) || Before(b, a)
  {
    StrLeqTotal(a.path, b.path);
  }

  predicate Sorted(s: seq<MenuAttr>) {
    forall i :: 0 < i < |s| ==> Before(s[i - 1], s[i])
  }

  function Insert(m: MenuAttr, s: seq<MenuAttr>): (r: seq<MenuAttr>)
    requires Sorted(s)
    ensures Sorted(r)
    ensures multiset(r) == multiset(s) + multiset{m}
    ensures |r| > 0 && (r[0] == m || (|s| > 0 && r[0] == s[0]))
  {
    if |s| == 0 || Before(m, s[0]) then [m] + s
    else
      BeforeTotal(m, s[0]);
      var rest := Insert(m, s[1..]);
      assert s == [s[0]] + s[1..];
      [s[0]] + rest
  }

  /** `list.Sort(...)` on the registered menus: ascending (order, path),
      holding exactly the same menus. */
  function Sort(s: seq<MenuAttr>): (r: seq<MenuAttr>)
    ensures Sorted(r)
    ensures multiset(r) == multiset(s)
  {
    if |s| == 0 then []
    else
      assert s == s[..|s| - 1] + [s[|s| - 1]];
      Insert(s[|s| - 1], Sort(s[..|s| - 1]))
  }

  /** `_SELECTION.Add(menu.path)` for each menu, in the given order. */
  function AddAll(t: Trie, menus: seq<MenuAttr>): Trie
    decreases |menus|
  {
    if |menus| == 0 then t else AddAll(Add(t, menus[0].path), menus[1..])
  }

  /** The static constructor: register, sort, insert into the trie. */
  function Build(decls: seq<Decl>): Registry {
    var menus := RegisterMenus(decls);
    Registry(menus, RegisterHooks(decls), AddAll(Empty, Sort(menus)))
  }

  /** Inserting menus keeps the trie valid, keeps what was there, and makes
      every well-formed menu path a chain in the trie. */
  lemma {:induction false} AddAllContains(t: Trie, menus: seq<MenuAttr>)
    requires Valid(t)
    ensures Valid(AddAll(t, menus))
    ensures forall segs :: Contains(t, segs) ==> Contains(AddAll(t, menus), segs)
    ensures forall m :: m in menus && WellFormed(m.path) ==> Contains(AddAll(t, menus), Split(m.path, '/'))
    decreases |menus|
  {
    if |menus| > 0 {
      var t' := Add(t, menus[0].path);
      AddValid(t, menus[0].path);
      forall segs | Contains(t, segs) ensures Contains(t', segs) {
        AddKeepsPaths(t, menus[0].path, segs);
      }
      if WellFormed(menus[0].path) {
        AddMakesPath(t, menus[0].path);
      }
      AddAllContains(t', menus[1..]);
      forall m | m in menus && WellFormed(m.path)
        ensures Contains(AddAll(t, menus), Split(m.path, '/'))
      {
        if m != menus[0] {
          assert m in menus[1..];
        }
      }
    }
  }

  /** The built registry: unique non-empty paths, a valid trie in which every
      well-formed menu path is a chain. */
  lemma BuildWellFormed(decls: seq<Decl>)
    ensures Wf(Build(decls))
    ensures forall m :: m in Build(decls).menus && WellFormed(m.path) ==>
      Contains(Build(decls).trie, Split(m.path, '/'))
  {
    var menus := RegisterMenus(decls);
    var sorted := Sort(menus);
    assert Valid(Empty);
    AddAllContains(Empty, sorted);
    forall m | m in menus ensures m in sorted {
      assert m in multiset(menus);
    }
  }

  /** Every declared, non-empty menu path has non-empty segments. */
  predicate DeclsWellFormed(decls: seq<Decl>) {
    forall d :: d in decls && d.MenuDecl? && d.menu.path != "" ==> WellFormed(d.menu.path)
  }

  /** Inserting well-formed paths keeps every node name free of '/'. */
  lemma {:induction false} AddAllSlashFree(t: Trie, menus: seq<MenuAttr>)
    requires SlashFree(t)
    requires forall i :: 0 <= i < |menus| ==> WellFormed(menus[i].path)
    ensures SlashFree(AddAll(t, menus))
    decreases |menus|
  {
    if |menus| > 0 {
      AddSlashFree(t, menus[0].path);
      AddAllSlashFree(Add(t, menus[0].path), menus[1..]);
    }
  }

  /** When every declared menu path is well-formed, the built trie's node
      names hold no '/', so the '/'-split lookups see each name whole. */
  lemma BuildSlashFree(decls: seq<Decl>)
    requires DeclsWellFormed(decls)
    ensures SlashFree(Build(decls).trie)
  {
    var menus := RegisterMenus(decls);
    var sorted := Sort(menus);
    forall i | 0 <= i < |sorted| ensures WellFormed(sorted[i].path) {
      assert sorted[i] in multiset(menus);
      assert MenuDecl(sorted[i]) in decls;
    }
    assert SlashFree(Empty);
    AddAllSlashFree(Empty, sorted);
  }

  predicate Wf(reg: Registry) {
    && UniquePaths(reg.menus)
    && (forall i :: 0 <= i < |reg.menus| ==> reg.menus[i].path != "")
    && Valid(reg.trie)
  }

  // ---------------------------------------------------------------------
  // Queries

  /** `MenuExecute(path, no_ci)`: the menu whose `Execute` is started, or
      None when the call completes without running anything. It runs a menu
      exactly when `IsMenuExist` says one exists. */
  function MenuExecute(reg: Registry, path: string, noCi: bool): (r: Option<MenuAttr>)
    ensures r.Some? <==> IsMenuExist(reg, path, noCi)
    ensures r.Some? ==> r.value.path == path && r.value in reg.menus && !(noCi && r.value.noCi)
  {
    if path == "" then None
    else
      match Lookup(reg.menus, path)
      case None => None
      case Some(menu) => if noCi && menu.noCi then None else Some(menu)
  }

  /** `IsMenuExist(path, no_ci)`. */
  function IsMenuExist(reg: Registry, path: string, noCi: bool): bool {
    if path == "" then false
    else
      match Lookup(reg.menus, path)
      case None => false
      case Some(menu) => !noCi || !menu.noCi
  }

  /** In a built registry a path exists exactly when it is non-empty, some
      `[Menu]` declares it, and the FIRST such declaration is not excluded
      from ci runs when `no_ci` is asked for. */
  lemma ExistsIffDeclared(decls: seq<Decl>, path: string, noCi: bool)
    ensures IsMenuExist(Build(decls), path, noCi) <==>
      path != "" && FirstMenu(decls, path).Some? && !(noCi && FirstMenu(decls, path).value.noCi)
  {
  }

  /** A menu declared with `[Menu(path)]` alone, first for its path, is
      started by a ci run (`no_ci` set), and its executor runs the action
      once without asking whether to continue. */
  lemma DefaultMenuRunsInCi(decls: seq<Decl>, path: string)
    requires path != "" && FirstMenu(decls, path) == Some(MenuAt(path))
    ensures MenuExecute(Build(decls), path, true) == Some(MenuAt(path))
    ensures !MenuExecute(Build(decls), path, true).value.autoConfirm
  {
  }

  /** `GetAllMenuPath(no_ci)`: registered paths in registration order,
      leaving out the ci-excluded ones when `no_ci` is set. */
  function GetAllMenuPath(menus: seq<MenuAttr>, noCi: bool): (r: seq<string>)
    ensures |r| <= |menus|
    ensures forall p :: p in r <==> exists i :: 0 <= i < |menus| && menus[i].path == p && !(noCi && menus[i].noCi)
    ensures !noCi ==> |r| == |menus| && forall i :: 0 <= i < |menus| ==> r[i] == menus[i].path
  {
    if |menus| == 0 then []
    else
      var rest := GetAllMenuPath(menus[1..], noCi);
      assert forall i :: 0 < i < |menus| ==> menus[i] == menus[1..][i - 1];
      if noCi && menus[0].noCi then rest else [menus[0].path] + rest
  }

  /** The positions from `from` on whose menus `GetAllMenuPath` should
      list: every position not ci-excluded when `no_ci` is asked for, in
      increasing order. */
  function ListedIndices(menus: seq<MenuAttr>, noCi: bool, from: nat): (f: seq<nat>)
    requires from <= |menus|
    ensures forall k :: 0 <= k < |f| ==> from <= f[k] < |menus| && !(noCi && menus[f[k]].noCi)
    ensures forall a, b :: 0 <= a < b < |f| ==> f[a] < f[b]
    ensures forall i :: from <= i < |menus| && !(noCi && menus[i].noCi) ==> i in f
    decreases |menus| - from
  {
    if from == |menus| then []
    else
      var rest := ListedIndices(menus, noCi, from + 1);
      if noCi && menus[from].noCi then rest else [from] + rest
  }

  /** The listing from position `from` on is the listed positions' paths,
      one for one. */
  lemma {:induction false} GetAllMenuPathFrom(menus: seq<MenuAttr>, noCi: bool, from: nat)
    requires from <= |menus|
    ensures var r := GetAllMenuPath(menus[from..], noCi);
            var f := ListedIndices(menus, noCi, from);
            |r| == |f| && forall k :: 0 <= k < |f| ==> r[k] == menus[f[k]].path
    decreases |menus| - from
  {
    if from < |menus| {
      GetAllMenuPathFrom(menus, noCi, from + 1);
      var tail := menus[from..];
      assert tail[0] == menus[from] && tail[1..] == menus[from + 1..];
      var rest := GetAllMenuPath(menus[from + 1..], noCi);
      var f := ListedIndices(menus, noCi, from + 1);
      if !(noCi && menus[from].noCi) {
        assert GetAllMenuPath(tail, noCi) == [menus[from].path] + rest;
        assert ListedIndices(menus, noCi, from) == [from] + f;
        PathsCons(menus, from, rest, f);
      }
    }
  }

  /** Prepending a position and its path keeps paths and positions in step. */
  lemma PathsCons(menus: seq<MenuAttr>, i: nat, rest: seq<string>, f: seq<nat>)
    requires i < |menus| && |rest| == |f|
    requires forall k :: 0 <= k < |f| ==> f[k] < |menus| && rest[k] == menus[f[k]].path
    ensures forall k :: 0 <= k < |f| + 1 ==> ([i] + f)[k] < |menus| && ([menus[i].path] + rest)[k] == menus[([i] + f)[k]].path
  {
    forall k | 0 <= k < |f| + 1 ensures ([i] + f)[k] < |menus| && ([menus[i].path] + rest)[k] == menus[([i] + f)[k]].path {
      if k > 0 {
        assert ([i] + f)[k] == f[k - 1];
      }
    }
  }

  /** `GetAllMenuPath` keeps registration order and drops nothing but the
      excluded menus: entry `k` is the path of the `k`-th listed position. */
  lemma GetAllMenuPathInOrder(menus: seq<MenuAttr>, noCi: bool)
    ensures var r := GetAllMenuPath(menus, noCi);
            var f := ListedIndices(menus, noCi, 0);
            |r| == |f| && forall k :: 0 <= k < |f| ==> r[k] == menus[f[k]].path
  {
    GetAllMenuPathFrom(menus, noCi, 0);
    assert menus[0..] == menus;
  }

  /** The listed paths are exactly those `IsMenuExist` accepts. */
  lemma AllMenuPathIffExists(reg: Registry, path: string, noCi: bool)
    requires Wf(reg)
    ensures path in GetAllMenuPath(reg.menus, noCi) <==> IsMenuExist(reg, path, noCi)
  {
    var r := GetAllMenuPath(reg.menus, noCi);
    if path in r {
      var i :| 0 <= i < |reg.menus| && reg.menus[i].path == path && !(noCi && reg.menus[i].noCi);
      var m := Lookup(reg.menus, path);
      assert m.Some?;
      var j :| 0 <= j < |reg.menus| && reg.menus[j] == m.value;
      assert i == j;
    }
    if IsMenuExist(reg, path, noCi) {
      var m := Lookup(reg.menus, path).value;
      var j :| 0 <= j < |reg.menus| && reg.menus[j] == m;
      assert reg.menus[j].path == path && !(noCi && reg.menus[j].noCi);
    }
  }
}
