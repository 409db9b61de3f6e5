/** The menu path trie (`MenuSelection`): slash-delimited menu paths become a
    tree of named nodes whose children keep their insertion order, since the
    source's `Dictionary` enumerates its values in that order and menu
    indices shown to the user follow it. */
module MenuTrie {
  import opened Text

  /** Label of entry 0 of the root menu ("exit"). */
  const ExitLabel: string := "退出"
  /** Label of entry 0 of every other menu ("back"). */
  const BackLabel: string := "返回"

  datatype Trie = Trie(name: string, kids: seq<Trie>)

  /** The root of an empty menu tree; the source names it "/". */
  const Empty: Trie := Trie("/", [])

  /** The names of `kids`, in order. */
  function Names(kids: seq<Trie>): (r: seq<string>)
    ensures |r| == |kids|
    ensures forall i :: 0 <= i < |kids| ==> r[i] == kids[i].name
  {
    if |kids| == 0 then [] else Names(kids[..|kids| - 1]) + [kids[|kids| - 1].name]
  }

  /** `TryGetValue` on a node's children: the first child called `key`, or -1. */
  function Find(kids: seq<Trie>, key: string): (i: int)
    ensures -1 <= i < |kids|
    ensures i >= 0 ==> kids[i].name == key && forall j :: 0 <= j < i ==> kids[j].name != key
    ensures i < 0 <==> key !in Names(kids)
  {
    if |kids| == 0 then -1
    else if kids[0].name == key then 0
    else
      var k := Find(kids[1..], key);
      NamesCons(kids);
      if k < 0 then -1 else k + 1
  }

  /** Every node's children have distinct, non-empty names. */
  predicate Valid(t: Trie)
    decreases t
  {
    && (forall i, j :: 0 <= i < j < |t.kids| ==> t.kids[i].name != t.kids[j].name)
    && (forall i :: 0 <= i < |t.kids| ==> t.kids[i].name != "" && Valid(t.kids[i]))
  }

  /** The dictionary key `Add` files `path` under: everything before the
      first '/', unless that '/' is at position 0 or missing. */
  function Key(path: string): string {
    var i := IndexOf(path, '/');
    if i > 0 then path[..i] else path
  }

  /** What `Add` passes on to the child: everything after that first '/'. */
  function Rest(path: string): (r: string)
    ensures |r| < |path| || r == ""
  {
    var i := IndexOf(path, '/');
    if i > 0 then path[i + 1..] else ""
  }

  /** `MenuSelection.Add`: insert `path` below `t`, creating missing nodes.
      The trie only grows: existing children keep their places and order. */
  function Add(t: Trie, path: string): (r: Trie)
    ensures r.name == t.name
    ensures path == "" ==> r == t
    ensures Names(t.kids) <= Names(r.kids)
    ensures path != "" ==> Key(path) in Names(r.kids)
    decreases |path|
  {
    if path == "" then t
    else
      var key := Key(path);
      var i := Find(t.kids, key);
      if i < 0 then
        var c := Add(Trie(key, []), Rest(path));
        NamesSnoc(t.kids, c);
        Trie(t.name, t.kids + [c])
      else
        var c := Add(t.kids[i], Rest(path));
        NamesUpdate(t.kids, i, c);
        Trie(t.name, t.kids[i := c])
  }

  lemma NamesCons(kids: seq<Trie>)
    requires |kids| > 0
    ensures Names(kids) == [kids[0].name] + Names(kids[1..])
  {
    var a, b := Names(kids), Names(kids[1..]);
    var r := [kids[0].name] + b;
    assert |r| == |a|;
    forall i | 0 <= i < |kids| ensures r[i] == a[i] {
      if i > 0 {
        assert r[i] == b[i - 1] == kids[1..][i - 1].name == kids[i].name;
      }
    }
    assert r == a;
  }

  lemma NamesSnoc(kids: seq<Trie>, x: Trie)
    ensures Names(kids + [x]) == Names(kids) + [x.name]
  {
    assert Names(kids + [x])[..|kids|] == Names(kids);
  }

  lemma NamesUpdate(kids: seq<Trie>, i: nat, x: Trie)
    requires i < |kids| && x.name == kids[i].name
    ensures Names(kids[i := x]) == Names(kids)
  {
  }

  /** `segs` spells a chain of existing nodes below `t`. */
  predicate Contains(t: Trie, segs: seq<string>)
    decreases |segs|
  {
    || segs == []
    || (var i := Find(t.kids, segs[0]); i >= 0 && Contains(t.kids[i], segs[1..]))
  }

  /** Follow `segs` from `t`, stopping at the first segment that is not a
      child (`_GetLastDic`'s loop). */
  function Walk(t: Trie, segs: seq<string>): Trie
    decreases |segs|
  {
    if segs == [] then t
    else
      var i := Find(t.kids, segs[0]);
      if i < 0 then t else Walk(t.kids[i], segs[1..])
  }

  /** How many segments that walk consumed. */
  function Depth(t: Trie, segs: seq<string>): (d: nat)
    ensures d <= |segs|
    decreases |segs|
  {
    if segs == [] then 0
    else
      var i := Find(t.kids, segs[0]);
      if i < 0 then 0 else 1 + Depth(t.kids[i], segs[1..])
  }

  /** `_GetLastDic(path)`: the node reached by the segments of `path`. */
  function Resolve(t: Trie, path: string): Trie {
    Walk(t, Split(path, '/'))
  }

  /** `GetSelection(path)`: the exit label when the path resolves to the
      root, the back label elsewhere, then the children of the resolved node
      in insertion order. The walk stays at the root exactly when it
      consumed no segment, since every step goes to a strictly lower node. */
  function GetSelection(t: Trie, path: string): (r: seq<string>)
    ensures |r| == 1 + |Resolve(t, path).kids|
    ensures r[0] == ExitLabel || r[0] == BackLabel
    ensures r[0] == ExitLabel <==> Resolve(t, path) == t
    ensures forall i :: 0 <= i < |Resolve(t, path).kids| ==> r[i + 1] == Resolve(t, path).kids[i].name
  {
    var node := Walk(t, Split(path, '/'));
    WalkShrinks(t, Split(path, '/'));
    [if Depth(t, Split(path, '/')) == 0 then ExitLabel else BackLabel] + Names(node.kids)
  }

  /** `IsEnd(path)`: the resolved node has no children, which is exactly
      when its selection list holds nothing but the exit/back entry. */
  function IsEnd(t: Trie, path: string): (r: bool)
    ensures r <==> |GetSelection(t, path)| == 1
  {
    |Resolve(t, path).kids| == 0
  }

  // ---------------------------------------------------------------------
  // Lemmas

  /** Looking up a name that an old prefix of the children already holds
      gives the same position in the longer sequence. */
  lemma FindPrefix(kids: seq<Trie>, kids': seq<Trie>, key: string)
    requires Names(kids) <= Names(kids')
    requires Find(kids, key) >= 0
    ensures Find(kids', key) == Find(kids, key)
  {
    var i := Find(kids, key);
    var i' := Find(kids', key);
    assert Names(kids')[i] == key;
    assert key in Names(kids');
  }

  /** A name missing from `kids` is found at the position it is appended at. */
  lemma {:induction false} FindAppend(kids: seq<Trie>, x: Trie)
    requires forall j :: 0 <= j < |kids| ==> kids[j].name != x.name
    ensures Find(kids + [x], x.name) == |kids|
    decreases |kids|
  {
    if |kids| > 0 {
      assert (kids + [x])[1..] == kids[1..] + [x];
      FindAppend(kids[1..], x);
    }
  }

  lemma NotInNames(kids: seq<Trie>, key: string)
    requires key !in Names(kids)
    ensures forall j :: 0 <= j < |kids| ==> kids[j].name != key
  {
    forall j | 0 <= j < |kids| ensures kids[j].name != key {
      assert Names(kids)[j] in Names(kids);
    }
  }

  /** `Add` keeps the trie valid: no duplicate and no empty child names. */
  lemma {:induction false} AddValid(t: Trie, path: string)
    requires Valid(t)
    ensures Valid(Add(t, path))
    decreases |path|, 1
  {
    if path != "" {
      if Find(t.kids, Key(path)) < 0 {
        AddValidNew(t, path);
      } else {
        AddValidIn(t, path);
      }
    }
  }

  /** `AddValid` when the first key is new: its name differs from every
      existing child's. */
  lemma {:induction false} AddValidNew(t: Trie, path: string)
    requires Valid(t) && path != "" && Find(t.kids, Key(path)) < 0
    ensures Valid(Add(t, path))
    decreases |path|, 0
  {
    var key := Key(path);
    var c := Add(Trie(key, []), Rest(path));
    AddValid(Trie(key, []), Rest(path));
    assert Add(t, path) == Trie(t.name, t.kids + [c]);
    ValidSnoc(t, c);
  }

  /** `AddValid` when the first key exists: only that child changes, and
      keeps its name. */
  lemma {:induction false} AddValidIn(t: Trie, path: string)
    requires Valid(t) && path != "" && Find(t.kids, Key(path)) >= 0
    ensures Valid(Add(t, path))
    decreases |path|, 0
  {
    var i := Find(t.kids, Key(path));
    var c := Add(t.kids[i], Rest(path));
    AddValid(t.kids[i], Rest(path));
    assert Add(t, path) == Trie(t.name, t.kids[i := c]);
    ValidUpdate(t, i, c);
  }

  /** Appending a valid child under a new, non-empty name keeps a trie valid. */
  lemma ValidSnoc(t: Trie, c: Trie)
    requires Valid(t) && Valid(c) && c.name != "" && c.name !in Names(t.kids)
    ensures Valid(Trie(t.name, t.kids + [c]))
  {
    NotInNames(t.kids, c.name);
    SnocDistinct(t.kids, c);
    SnocKidsValid(t.kids, c);
  }

  lemma SnocDistinct(kids: seq<Trie>, c: Trie)
    requires forall i, j :: 0 <= i < j < |kids| ==> kids[i].name != kids[j].name
    requires forall j :: 0 <= j < |kids| ==> kids[j].name != c.name
    ensures forall i, j :: 0 <= i < j < |kids + [c]| ==> (kids + [c])[i].name != (kids + [c])[j].name
  {
    var all := kids + [c];
    forall a, b | 0 <= a < b < |all| ensures all[a].name != all[b].name {
      assert all[a] == kids[a];
      if b < |kids| {
        assert all[b] == kids[b];
      }
    }
  }

  lemma SnocKidsValid(kids: seq<Trie>, c: Trie)
    requires forall j :: 0 <= j < |kids| ==> kids[j].name != "" && Valid(kids[j])
    requires c.name != "" && Valid(c)
    ensures forall j :: 0 <= j < |kids + [c]| ==> (kids + [c])[j].name != "" && Valid((kids + [c])[j])
  {
    var all := kids + [c];
    forall j | 0 <= j < |all| ensures all[j].name != "" && Valid(all[j]) {
      if j < |kids| {
        assert all[j] == kids[j];
      }
    }
  }

  /** Replacing a child by a valid one of the same name keeps a trie valid. */
  lemma ValidUpdate(t: Trie, i: nat, c: Trie)
    requires Valid(t) && i < |t.kids| && Valid(c) && c.name == t.kids[i].name
    ensures Valid(Trie(t.name, t.kids[i := c]))
  {
    var kids := t.kids[i := c];
    forall j | 0 <= j < |kids| ensures kids[j].name != "" && Valid(kids[j]) {
      if j != i {
        assert kids[j] == t.kids[j];
      }
    }
  }

  /** The trie only grows: every chain present before `Add` is still present. */
  lemma {:induction false} AddKeepsPaths(t: Trie, path: string, segs: seq<string>)
    requires Contains(t, segs)
    ensures Contains(Add(t, path), segs)
    decreases |segs|
  {
    if segs != [] && path != "" {
      var r := Add(t, path);
      var i := Find(t.kids, segs[0]);
      FindPrefix(t.kids, r.kids, segs[0]);
      var key := Key(path);
      var j := Find(t.kids, key);
      if j == i {
        AddKeepsPaths(t.kids[i], Rest(path), segs[1..]);
      } else {
        assert i < |t.kids| && r.kids[i] == t.kids[i];
      }
    }
  }

  /** A well-formed path: non-empty pieces between the slashes. */
  predicate WellFormed(path: string) {
    forall k :: 0 <= k < |Split(path, '/')| ==> Split(path, '/')[k] != ""
  }

  /** For a well-formed path, `Add`'s key and rest agree with splitting on
      every '/': the key is the first piece, the rest carries the others. */
  lemma KeyRestSplit(path: string)
    requires WellFormed(path)
    ensures path != ""
    ensures Key(path) == Split(path, '/')[0] && '/' !in Key(path)
    ensures |Split(path, '/')| == 1 ==> Rest(path) == ""
    ensures |Split(path, '/')| > 1 ==>
      WellFormed(Rest(path)) && Split(Rest(path), '/') == Split(path, '/')[1..]
  {
    var i := IndexOf(path, '/');
    var parts := Split(path, '/');
    SplitPartsFree(path, '/');
    assert parts[0] != "";
    if i >= 0 {
      assert parts == [path[..i]] + Split(path[i + 1..], '/');
      assert |path[..i]| == i;
      assert i > 0;
      var rest := Split(Rest(path), '/');
      assert rest == parts[1..];
      forall k | 0 <= k < |rest| ensures rest[k] != "" {
        assert rest[k] == parts[k + 1];
      }
    }
  }

  /** Adding a well-formed path creates its whole chain, and the node at its
      end keeps its old children, or has none if it is new. */
  lemma {:induction false} AddMakesPath(t: Trie, path: string)
    requires WellFormed(path)
    ensures Contains(Add(t, path), Split(path, '/'))
    ensures Depth(Add(t, path), Split(path, '/')) == |Split(path, '/')|
    ensures Walk(Add(t, path), Split(path, '/')).kids ==
      (if Contains(t, Split(path, '/')) then Walk(t, Split(path, '/')).kids else [])
    decreases |path|, 1
  {
    if Find(t.kids, Key(path)) < 0 {
      AddMakesNewPath(t, path);
    } else {
      AddExtendsPath(t, path);
    }
  }

  /** `AddMakesPath` when the first key is new: a fresh chain is appended. */
  lemma {:induction false} AddMakesNewPath(t: Trie, path: string)
    requires WellFormed(path) && Find(t.kids, Key(path)) < 0
    ensures Contains(Add(t, path), Split(path, '/'))
    ensures Depth(Add(t, path), Split(path, '/')) == |Split(path, '/')|
    ensures !Contains(t, Split(path, '/')) && Walk(Add(t, path), Split(path, '/')).kids == []
    decreases |path|, 0
  {
    KeyRestSplit(path);
    var segs := Split(path, '/');
    var key := Key(path);
    var rest := Rest(path);
    var c := Add(Trie(key, []), rest);
    assert Add(t, path) == Trie(t.name, t.kids + [c]);
    FreshChainOf(path);
    SnocChain(t, c, segs);
  }

  /** `FreshChain` for the rest of a well-formed path. */
  lemma {:induction false} FreshChainOf(path: string)
    requires WellFormed(path)
    ensures var c := Add(Trie(Key(path), []), Rest(path));
            var tail := Split(path, '/')[1..];
            Contains(c, tail) && Depth(c, tail) == |tail| && Walk(c, tail).kids == []
    decreases |Rest(path)|, 3
  {
    KeyRestSplit(path);
    FreshChain(Key(path), Rest(path), Split(path, '/')[1..]);
  }

  /** A chain through a child appended under a new name. */
  lemma SnocChain(t: Trie, c: Trie, segs: seq<string>)
    requires segs != [] && segs[0] == c.name && c.name !in Names(t.kids)
    requires Contains(c, segs[1..]) && Depth(c, segs[1..]) == |segs[1..]| && Walk(c, segs[1..]).kids == []
    ensures Contains(Trie(t.name, t.kids + [c]), segs)
    ensures Depth(Trie(t.name, t.kids + [c]), segs) == |segs|
    ensures !Contains(t, segs) && Walk(Trie(t.name, t.kids + [c]), segs).kids == []
  {
    SnocStep(t, c, segs);
  }

  /** Adding the rest of a path below a new leaf builds exactly that chain,
      ending in a leaf. */
  lemma {:induction false} FreshChain(key: string, rest: string, tail: seq<string>)
    requires (rest == "" && tail == []) || (WellFormed(rest) && Split(rest, '/') == tail)
    ensures var c := Add(Trie(key, []), rest);
            Contains(c, tail) && Depth(c, tail) == |tail| && Walk(c, tail).kids == []
    decreases |rest|, 2
  {
    if rest != "" {
      AddMakesPath(Trie(key, []), rest);
      KeyRestSplit(rest);
      NoKidsNoChain(key, tail);
    }
  }

  /** A leaf holds no chain but the empty one. */
  lemma NoKidsNoChain(name: string, segs: seq<string>)
    requires segs != []
    ensures !Contains(Trie(name, []), segs)
  {
  }

  /** Following a chain into a child appended under a new name. */
  lemma SnocStep(t: Trie, c: Trie, segs: seq<string>)
    requires segs != [] && segs[0] == c.name && c.name !in Names(t.kids)
    ensures !Contains(t, segs)
    ensures Contains(Trie(t.name, t.kids + [c]), segs) == Contains(c, segs[1..])
    ensures Walk(Trie(t.name, t.kids + [c]), segs) == Walk(c, segs[1..])
    ensures Depth(Trie(t.name, t.kids + [c]), segs) == 1 + Depth(c, segs[1..])
  {
    NotInNames(t.kids, c.name);
    FindAppend(t.kids, c);
    ChildStep(Trie(t.name, t.kids + [c]), segs, |t.kids|);
  }

  /** Following a chain one child down. */
  lemma ChildStep(t: Trie, segs: seq<string>, i: int)
    requires segs != [] && i == Find(t.kids, segs[0]) && i >= 0
    ensures Contains(t, segs) == Contains(t.kids[i], segs[1..])
    ensures Walk(t, segs) == Walk(t.kids[i], segs[1..])
    ensures Depth(t, segs) == 1 + Depth(t.kids[i], segs[1..])
  {
  }

  /** `AddMakesPath` when the first key exists: the path is added below it. */
  lemma {:induction false} AddExtendsPath(t: Trie, path: string)
    requires WellFormed(path) && Find(t.kids, Key(path)) >= 0
    ensures Contains(Add(t, path), Split(path, '/'))
    ensures Depth(Add(t, path), Split(path, '/')) == |Split(path, '/')|
    ensures Walk(Add(t, path), Split(path, '/')).kids ==
      (if Contains(t, Split(path, '/')) then Walk(t, Split(path, '/')).kids else [])
    decreases |path|, 0
  {
    KeyRestSplit(path);
    var segs := Split(path, '/');
    var rest := Rest(path);
    var i := Find(t.kids, Key(path));
    var c := Add(t.kids[i], rest);
    assert Add(t, path) == Trie(t.name, t.kids[i := c]);
    UpdateStep(t, c, segs, i);
    var tail := segs[1..];
    if |segs| > 1 {
      assert Split(rest, '/') == tail;
      AddMakesPath(t.kids[i], rest);
    } else {
      assert tail == [] && c == t.kids[i];
    }
    assert |segs| == 1 + |tail|;
  }

  /** Following a chain into a child replaced by one of the same name. */
  lemma UpdateStep(t: Trie, c: Trie, segs: seq<string>, i: int)
    requires segs != [] && i == Find(t.kids, segs[0]) && i >= 0 && c.name == t.kids[i].name
    ensures Contains(t, segs) == Contains(t.kids[i], segs[1..])
    ensures Walk(t, segs) == Walk(t.kids[i], segs[1..])
    ensures Contains(Trie(t.name, t.kids[i := c]), segs) == Contains(c, segs[1..])
    ensures Walk(Trie(t.name, t.kids[i := c]), segs) == Walk(c, segs[1..])
    ensures Depth(Trie(t.name, t.kids[i := c]), segs) == 1 + Depth(c, segs[1..])
  {
    var u := Trie(t.name, t.kids[i := c]);
    NamesUpdate(t.kids, i, c);
    FindPrefix(t.kids, u.kids, segs[0]);
    ChildStep(t, segs, i);
    ChildStep(u, segs, i);
  }

  /** Adding a well-formed path that was not there leaves a leaf at its end. */
  lemma AddedPathIsEnd(t: Trie, path: string)
    requires WellFormed(path) && !Contains(t, Split(path, '/'))
    ensures IsEnd(Add(t, path), path)
    ensures Contains(Add(t, path), Split(path, '/'))
  {
    AddMakesPath(t, path);
  }

  /** No node name below `t` contains a '/'. */
  predicate SlashFree(t: Trie)
    decreases t
  {
    forall i :: 0 <= i < |t.kids| ==> '/' !in t.kids[i].name && SlashFree(t.kids[i])
  }

  /** Well-formed paths only ever create '/'-free names. */
  lemma {:induction false} AddSlashFree(t: Trie, path: string)
    requires SlashFree(t) && (path == "" || WellFormed(path))
    ensures SlashFree(Add(t, path))
    decreases |path|
  {
    if path != "" {
      KeyRestSplit(path);
      var key := Key(path);
      var i := Find(t.kids, key);
      if i < 0 {
        var c := Add(Trie(key, []), Rest(path));
        AddSlashFree(Trie(key, []), Rest(path));
        assert '/' !in key && c.name == key;
        assert Add(t, path) == Trie(t.name, t.kids + [c]);
        SlashFreeSnoc(t, c);
      } else {
        var c := Add(t.kids[i], Rest(path));
        AddSlashFree(t.kids[i], Rest(path));
        assert Add(t, path) == Trie(t.name, t.kids[i := c]);
        SlashFreeUpdate(t, i, c);
      }
    }
  }

  lemma SlashFreeSnoc(t: Trie, c: Trie)
    requires SlashFree(t) && SlashFree(c) && '/' !in c.name
    ensures SlashFree(Trie(t.name, t.kids + [c]))
  {
    var all := t.kids + [c];
    forall j | 0 <= j < |all| ensures '/' !in all[j].name && SlashFree(all[j]) {
      if j < |t.kids| {
        assert all[j] == t.kids[j];
      }
    }
  }

  lemma SlashFreeUpdate(t: Trie, i: nat, c: Trie)
    requires SlashFree(t) && i < |t.kids| && SlashFree(c) && c.name == t.kids[i].name
    ensures SlashFree(Trie(t.name, t.kids[i := c]))
  {
    var all := t.kids[i := c];
    forall j | 0 <= j < |all| ensures '/' !in all[j].name && SlashFree(all[j]) {
      if j != i {
        assert all[j] == t.kids[j];
      }
    }
  }

  /** A chain extended by a child of its end node is still a chain. */
  lemma {:induction false} ContainsSnoc(t: Trie, segs: seq<string>, x: string)
    requires Contains(t, segs) && x in Names(Walk(t, segs).kids)
    ensures Contains(t, segs + [x])
    decreases |segs|
  {
    if segs == [] {
      assert [] + [x] == [x];
    } else {
      var i := Find(t.kids, segs[0]);
      assert (segs + [x])[1..] == segs[1..] + [x];
      ContainsSnoc(t.kids[i], segs[1..], x);
    }
  }

  /** Dropping the last segment of a chain leaves a chain. */
  lemma {:induction false} ContainsInit(t: Trie, segs: seq<string>)
    requires Contains(t, segs) && segs != []
    ensures Contains(t, segs[..|segs| - 1])
    decreases |segs|
  {
    if |segs| > 1 {
      var i := Find(t.kids, segs[0]);
      assert segs[..|segs| - 1][1..] == segs[1..][..|segs[1..]| - 1];
      ContainsInit(t.kids[i], segs[1..]);
    }
  }

  /** The names along a chain are children's names, so in a valid trie they
      are non-empty, and in a '/'-free one they hold no '/'. */
  lemma {:induction false} ChainNames(t: Trie, segs: seq<string>)
    requires Contains(t, segs) && Valid(t) && SlashFree(t)
    ensures forall k :: 0 <= k < |segs| ==> segs[k] != "" && '/' !in segs[k]
    decreases |segs|
  {
    if segs != [] {
      var i := Find(t.kids, segs[0]);
      ChainNames(t.kids[i], segs[1..]);
      forall k | 0 <= k < |segs| ensures segs[k] != "" && '/' !in segs[k] {
        if k > 0 {
          assert segs[k] == segs[1..][k - 1];
        }
      }
    }
  }

  /** A path with no '/' after position 0 (a leading '/' included) is one key
      equal to the whole string, added directly below `t` if missing. */
  lemma AddSingleKey(t: Trie, path: string)
    requires path != ""
    requires forall j :: 1 <= j < |path| ==> path[j] != '/'
    ensures Key(path) == path
    ensures Add(t, path) == if path in Names(t.kids) then t else Trie(t.name, t.kids + [Trie(path, [])])
  {
    var i := IndexOf(path, '/');
    assert i <= 0;
    var k := Find(t.kids, path);
    if k >= 0 {
      assert t.kids[k := t.kids[k]] == t.kids;
    }
  }

  /** The length of the longest chain of children below `t`. */
  function Height(t: Trie): nat
    decreases t
  {
    HeightOf(t.kids)
  }

  /** One more than the tallest of `kids`, or 0 when there are none. */
  function HeightOf(kids: seq<Trie>): nat
    decreases kids
  {
    if |kids| == 0 then 0
    else
      var h := 1 + Height(kids[|kids| - 1]);
      var rest := HeightOf(kids[..|kids| - 1]);
      if h < rest then rest else h
  }

  lemma {:induction false} HeightOfBound(kids: seq<Trie>, i: nat)
    requires i < |kids|
    ensures 1 + Height(kids[i]) <= HeightOf(kids)
    decreases |kids|
  {
    if i < |kids| - 1 {
      HeightOfBound(kids[..|kids| - 1], i);
    }
  }

  /** A walk that consumed a segment ends strictly lower than it started. */
  lemma {:induction false} WalkShrinks(t: Trie, segs: seq<string>)
    ensures Height(Walk(t, segs)) + Depth(t, segs) <= Height(t)
    decreases |segs|
  {
    if segs != [] {
      var i := Find(t.kids, segs[0]);
      if i >= 0 {
        WalkShrinks(t.kids[i], segs[1..]);
        HeightOfBound(t.kids, i);
      }
    }
  }

  /** A chain present in the trie is no longer than the trie is tall. */
  lemma ContainsBound(t: Trie, segs: seq<string>)
    requires Contains(t, segs)
    ensures |segs| <= Height(t)
  {
    ContainsDepth(t, segs);
    WalkShrinks(t, segs);
  }

  /** Following a present chain consumes all of it. */
  lemma {:induction false} ContainsDepth(t: Trie, segs: seq<string>)
    requires Contains(t, segs)
    ensures Depth(t, segs) == |segs|
    decreases |segs|
  {
    if segs != [] {
      ContainsDepth(t.kids[Find(t.kids, segs[0])], segs[1..]);
    }
  }

  /** Resolution stops at the first unknown segment: whatever follows it is
      ignored, so an unknown path behaves like its longest known prefix. */
  lemma {:induction false} WalkStopsAtUnknown(t: Trie, known: seq<string>, x: string, tail: seq<string>)
    requires Depth(t, known) == |known|
    requires x !in Names(Walk(t, known).kids)
    ensures Walk(t, known + [x] + tail) == Walk(t, known)
    ensures Depth(t, known + [x] + tail) == |known|
    decreases |known|
  {
    if known == [] {
      assert (known + [x] + tail)[0] == x;
    } else {
      var i := Find(t.kids, known[0]);
      assert (known + [x] + tail)[0] == known[0];
      assert (known + [x] + tail)[1..] == known[1..] + [x] + tail;
      WalkStopsAtUnknown(t.kids[i], known[1..], x, tail);
    }
  }

  /** "" resolves to the root of a valid trie, whose selection is the exit
      label followed by the top-level menus. */
  lemma EmptyPathIsRoot(t: Trie)
    requires Valid(t)
    ensures Resolve(t, "") == t
    ensures GetSelection(t, "") == [ExitLabel] + Names(t.kids)
  {
    assert Split("", '/') == [""];
    assert Find(t.kids, "") < 0;
  }

  /** A chain of separator-free names resolves to the node at its end: the
      path string rebuilt from the chain selects exactly that node. */
  lemma ResolveChain(t: Trie, segs: seq<string>)
    requires |segs| >= 1
    requires forall k :: 0 <= k < |segs| ==> '/' !in segs[k]
    ensures Resolve(t, Join(segs, '/')) == Walk(t, segs)
    ensures Depth(t, Split(Join(segs, '/'), '/')) == Depth(t, segs)
  {
    SplitJoin(segs, '/');
  }
}
