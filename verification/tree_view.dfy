/** The tree view's `fileTree`: the entry paths are sorted, the arena is
    populated, every record's children are ordered (directories first, then by
    name) and the root record is read out as a tree. Also the expansion set
    the view keeps and the toggle its directory nodes call. */
module TreeView {
  import opened Strings
  import opened Paths
  import opened Sorting
  import opened TreeArena

  /** A rendered tree node: the builder's record with its children resolved. */
  datatype Node = Node(
    name: string,
    path: string,
    isDirectory: bool,
    children: seq<Node>,
    level: nat,
    isExpanded: bool,
    isSelected: bool)

  // ---------------------------------------------------------------------------
  // Sibling order

  /** The sibling comparator on kind and name: a directory sorts before a
      file; otherwise the names decide. */
  predicate SiblingLe(aDir: bool, aName: string, bDir: bool, bName: string)
  {
    if aDir != bDir then aDir else LexLe(aName, bName)
  }

  /** The comparator applied to records, as the builder sorts them. */
  predicate EntryLe(a: Entry, b: Entry)
  {
    SiblingLe(a.isDirectory, a.name, b.isDirectory, b.name)
  }

  /** The comparator applied to finished nodes. */
  predicate NodeLe(a: Node, b: Node)
  {
    SiblingLe(a.isDirectory, a.name, b.isDirectory, b.name)
  }

  /** Child keys compared through their records (a key with no record compares
      as an empty-named file; child lists never hold one). */
  function EntryOf(arena: Arena, k: string): Entry
  {
    if k in arena then arena[k] else Entry("", "", false, [], 0, false, false)
  }

  function ChildOrder(arena: Arena): (string, string) -> bool
  {
    (a, b) => EntryLe(EntryOf(arena, a), EntryOf(arena, b))
  }

  lemma EntryLeTotal(a: Entry, b: Entry)
    ensures EntryLe(a, b) || EntryLe(b, a)
  {
    LexLeTotal(a.name, b.name);
  }

  lemma EntryLeTransitive(a: Entry, b: Entry, c: Entry)
    requires EntryLe(a, b) && EntryLe(b, c)
    ensures EntryLe(a, c)
  {
    if a.isDirectory == b.isDirectory == c.isDirectory {
      LexLeTransitive(a.name, b.name, c.name);
    }
  }

  lemma ChildOrderTotal(arena: Arena)
    ensures TotalPreorder(ChildOrder(arena))
  {
    var le := ChildOrder(arena);
    forall a, b
      ensures le(a, b) || le(b, a)
    {
      EntryLeTotal(EntryOf(arena, a), EntryOf(arena, b));
    }
    forall a, b, c | le(a, b) && le(b, c)
      ensures le(a, c)
    {
      EntryLeTransitive(EntryOf(arena, a), EntryOf(arena, b), EntryOf(arena, c));
    }
  }

  /** `Object.values(tree).forEach(node => node.children.sort(...))`: every
      record keeps its fields and gets its children as a permutation sorted by
      the sibling comparator. */
  function OrderChildren(arena: Arena): (r: Arena)
    ensures r.Keys == arena.Keys
    ensures forall k :: k in arena ==>
      && r[k].(children := []) == arena[k].(children := [])
      && multiset(r[k].children) == multiset(arena[k].children)
      && SortedBy(r[k].children, ChildOrder(arena))
  {
    ChildOrderTotal(arena);
    map k | k in arena :: arena[k].(children := Sort(arena[k].children, ChildOrder(arena)))
  }

  /** Ordering children keeps the arena well formed and linked. */
  lemma OrderChildrenKeeps(arena: Arena, expanded: set<string>, selected: set<string>)
    requires Wf(arena, expanded, selected)
    ensures Wf(OrderChildren(arena), expanded, selected)
    ensures Linked(arena) ==> Linked(OrderChildren(arena))
  {
    var r := OrderChildren(arena);
    forall k | k in r
      ensures KeyOk(r, k, expanded, selected)
    {
      assert KeyOk(arena, k, expanded, selected);
      forall c | c in r[k].children
        ensures c in r && c != RootKey && ParentOf(c) == k
      {
        assert c in multiset(r[k].children);
      }
    }
    assert r[RootKey].(children := []) == arena[RootKey].(children := []);
  }

  // ---------------------------------------------------------------------------
  // Reading the arena out as a tree

  /** Child lists name records whose ParentOf is the holder. */
  predicate Closed(arena: Arena)
  {
    forall k, c {:trigger c in arena[k].children} :: k in arena && c in arena[k].children ==> c in arena && c != RootKey && ParentOf(c) == k
  }

  lemma WfClosed(arena: Arena, expanded: set<string>, selected: set<string>)
    requires Wf(arena, expanded, selected)
    ensures Closed(arena)
  {
    forall k, c | k in arena && c in arena[k].children
      ensures c in arena && c != RootKey && ParentOf(c) == k
    {
      assert KeyOk(arena, k, expanded, selected);
    }
  }

  /** The keys ranked above `key`: a child's set is a proper subset of its
      parent's, which bounds the descent. */
  ghost function Above(arena: Arena, key: string): set<string>
  {
    set k | k in arena && Rank(k) > Rank(key)
  }

  lemma AboveShrinks(arena: Arena, key: string, c: string)
    requires c in arena && Rank(c) > Rank(key)
    ensures |Above(arena, c)| < |Above(arena, key)|
  {
    var big := Above(arena, key);
    var small := Above(arena, c);
    forall k | k in small
      ensures k in big
    {
    }
    var rest := big - small;
    assert c in rest;
    assert big == small + rest && small * rest == {};
    assert |rest| > 0;
  }

  /** The node for `key` with its children read out recursively. */
  function Freeze(arena: Arena, key: string): (n: Node)
    requires Closed(arena) && key in arena
    ensures n.path == arena[key].path && n.name == arena[key].name
    ensures n.isDirectory == arena[key].isDirectory && n.level == arena[key].level
    ensures n.isExpanded == arena[key].isExpanded && n.isSelected == arena[key].isSelected
    ensures |n.children| == |arena[key].children|
    decreases |Above(arena, key)|, 1
  {
    var e := arena[key];
    assert forall c :: c in e.children ==> c in arena && c != RootKey && ParentOf(c) == key;
    Node(e.name, e.path, e.isDirectory, FreezeAll(arena, key, e.children), e.level, e.isExpanded, e.isSelected)
  }

  /** The nodes for a list of children of `parent`, in list order. */
  function FreezeAll(arena: Arena, parent: string, cs: seq<string>): (ns: seq<Node>)
    requires Closed(arena) && parent in arena
    requires forall c :: c in cs ==> c in arena && c != RootKey && ParentOf(c) == parent
    ensures |ns| == |cs|
    ensures forall i :: 0 <= i < |cs| ==> ns[i].path == arena[cs[i]].path
    decreases |Above(arena, parent)|, 0, |cs|
  {
    if cs == [] then []
    else
      assert cs[0] in cs && cs[0] in arena;
      ParentRank(cs[0]);
      AboveShrinks(arena, parent, cs[0]);
      assert forall c :: c in cs[1..] ==> c in cs;
      [Freeze(arena, cs[0])] + FreezeAll(arena, parent, cs[1..])
  }

  // ---------------------------------------------------------------------------
  // fileTree

  lemma LexOrder()
    ensures TotalPreorder(LexLe) && Antisymmetric(LexLe)
  {
    forall a, b
      ensures LexLe(a, b) || LexLe(b, a)
    {
      LexLeTotal(a, b);
    }
    forall a, b, c | LexLe(a, b) && LexLe(b, c)
      ensures LexLe(a, c)
    {
      LexLeTransitive(a, b, c);
    }
    forall a, b | LexLe(a, b) && LexLe(b, a)
      ensures a == b
    {
      LexLeAntisymmetric(a, b);
    }
  }

  /** `[...files].sort()`. */
  function SortedFiles(files: seq<string>): (r: seq<string>)
    ensures SortedBy(r, LexLe) && multiset(r) == multiset(files)
  {
    LexOrder();
    Sort(files, LexLe)
  }

  /** The ordered arena for a list of entries. */
  function OrderedArena(files: seq<string>, expanded: set<string>, selected: set<string>, inherited: set<string>): (arena: Arena)
    ensures Wf(arena, expanded, selected) && Closed(arena)
    ensures arena.Keys == {RootKey} + (PathKeys(SortedFiles(files)) - inherited)
    ensures inherited == {} ==> Linked(arena)
  {
    var populated := Populate(SortedFiles(files), expanded, selected, inherited);
    PopulateFacts(SortedFiles(files), expanded, selected, inherited);
    OrderChildrenKeeps(populated, expanded, selected);
    WfClosed(OrderChildren(populated), expanded, selected);
    OrderChildren(populated)
  }

  /** The builder's result for any set of names the record answers through its
      prototype. */
  function FileTreeWith(files: seq<string>, expanded: set<string>, selected: set<string>, inherited: set<string>): (root: Node)
    ensures root.path == RootKey && root.name == RootName && root.isDirectory && root.level == 0
    ensures root.isExpanded == (RootKey in expanded) && !root.isSelected
  {
    var arena := OrderedArena(files, expanded, selected, inherited);
    Freeze(arena, RootKey)
  }

  /** The names a plain object literal answers through `Object.prototype`; a
      `!tree[key]` test treats each as already present. */
  const ObjectPrototypeNames: set<string> := {
    "constructor", "__defineGetter__", "__defineSetter__", "hasOwnProperty",
    "__lookupGetter__", "__lookupSetter__", "isPrototypeOf", "propertyIsEnumerable",
    "toString", "valueOf", "__proto__", "toLocaleString"
  }

  /** `fileTree` as written: keys are looked up on a plain object, so an entry
      whose first segment is an `Object.prototype` name is never reachable
      from the root. */
  function FileTreeAsWritten(files: seq<string>, expanded: set<string>, selected: set<string>): (root: Node)
    ensures root.path == RootKey && root.name == RootName && root.isDirectory && root.level == 0
    ensures root.isExpanded == (RootKey in expanded) && !root.isSelected
  {
    FileTreeWith(files, expanded, selected, ObjectPrototypeNames)
  }

  /** `fileTree` with presence checked on own keys only. */
  function FileTree(files: seq<string>, expanded: set<string>, selected: set<string>): (root: Node)
    ensures root.path == RootKey && root.name == RootName && root.isDirectory && root.level == 0
    ensures root.isExpanded == (RootKey in expanded) && !root.isSelected
  {
    FileTreeWith(files, expanded, selected, {})
  }

  // ---------------------------------------------------------------------------
  // Expansion

  /** The view starts with only the root expanded. */
  const InitialExpanded: set<string> := {RootKey}

  /** A directory node's `onToggle`: the path flips membership, nothing else
      changes. */
  function ToggleExpanded(expanded: set<string>, path: string): (r: set<string>)
    ensures path in r <==> path !in expanded
    ensures forall p :: p != path ==> (p in r <==> p in expanded)
  {
    if path in expanded then expanded - {path} else expanded + {path}
  }

  /** A click on a node row. */
  datatype Click = ToggleDir(path: string) | SelectFile(path: string) | NoAction

  /** Directory rows toggle, file rows select; the root's toggle is the no-op
      the builder gives it. */
  function ClickRow(n: Node): (c: Click)
    ensures n.isDirectory && n.path != RootKey ==> c == ToggleDir(n.path)
    ensures !n.isDirectory ==> c == SelectFile(n.path)
    ensures n.isDirectory && n.path == RootKey ==> c == NoAction
  {
    if !n.isDirectory then SelectFile(n.path)
    else if n.path == RootKey then NoAction
    else ToggleDir(n.path)
  }

  /** The expansion set after a toggle click; other clicks leave it alone. */
  function ApplyClick(expanded: set<string>, c: Click): set<string>
  {
    if c.ToggleDir? then ToggleExpanded(expanded, c.path) else expanded
  }
}
