/** What the tree view's `fileTree` promises about the entries it is given:
    every visited key occurs exactly once, each node's fields follow from its
    path, siblings are ordered directories first and then by name, and the
    result does not depend on the order of the entry list. Also the fault the
    plain-object lookup introduces. */
module TreeProofs {
  import opened Strings
  import opened Paths
  import opened Sorting
  import opened TreeArena
  import opened Walks
  import opened TreeCanon
  import opened TreeView
  import opened FileList
  import opened Extensions

  // ---------------------------------------------------------------------------
  // Reading a tree

  /** `m` is `n` or a node below it. */
  predicate Contains(n: Node, m: Node)
    decreases n
  {
    n == m || exists i :: 0 <= i < |n.children| && Contains(n.children[i], m)
  }

  /** The paths of all nodes of a tree, with multiplicity. */
  function Flatten(n: Node): multiset<string>
    decreases n
  {
    multiset{n.path} + FlattenAll(n.children)
  }

  function FlattenAll(ns: seq<Node>): multiset<string>
    decreases ns
  {
    if ns == [] then multiset{} else Flatten(ns[0]) + FlattenAll(ns[1..])
  }

  /** Records carry their own key as their path. */
  predicate PathsOk(arena: Arena)
  {
    forall k :: k in arena ==> arena[k].path == k
  }

  lemma {:induction false} FreezeAllAt(arena: Arena, parent: string, cs: seq<string>, i: int)
    requires Closed(arena) && parent in arena
    requires forall c :: c in cs ==> c in arena && c != RootKey && ParentOf(c) == parent
    requires 0 <= i < |cs|
    ensures cs[i] in arena && FreezeAll(arena, parent, cs)[i] == Freeze(arena, cs[i])
    decreases i
  {
    assert cs[i] in cs;
    if i > 0 {
      assert forall c :: c in cs[1..] ==> c in cs;
      FreezeAllAt(arena, parent, cs[1..], i - 1);
    }
  }

  /** Every node of a read-out tree is the read-out of its own path. */
  lemma {:induction false} FrozenSubtree(arena: Arena, key: string, m: Node)
    requires Closed(arena) && PathsOk(arena) && key in arena
    requires Contains(Freeze(arena, key), m)
    ensures m.path in arena && m == Freeze(arena, m.path)
    decreases |Above(arena, key)|
  {
    var n := Freeze(arena, key);
    if n != m {
      var i :| 0 <= i < |n.children| && Contains(n.children[i], m);
      var cs := arena[key].children;
      FreezeAllAt(arena, key, cs, i);
      ParentRank(cs[i]);
      AboveShrinks(arena, key, cs[i]);
      FrozenSubtree(arena, cs[i], m);
    }
  }

  /** Only keys of the arena occur in the tree. */
  lemma {:induction false} FlattenInArena(arena: Arena, key: string, x: string)
    requires Closed(arena) && PathsOk(arena) && key in arena
    requires x in Flatten(Freeze(arena, key))
    ensures x in arena
    decreases |Above(arena, key)|, 1
  {
    var n := Freeze(arena, key);
    if x != key {
      FlattenAllInArena(arena, key, arena[key].children, x);
    }
  }

  lemma {:induction false} FlattenAllInArena(arena: Arena, parent: string, cs: seq<string>, x: string)
    requires Closed(arena) && PathsOk(arena) && parent in arena
    requires forall c :: c in cs ==> c in arena && c != RootKey && ParentOf(c) == parent
    requires x in FlattenAll(FreezeAll(arena, parent, cs))
    ensures x in arena
    decreases |Above(arena, parent)|, 0, |cs|
  {
    assert cs[0] in cs;
    var ns := FreezeAll(arena, parent, cs);
    assert ns[1..] == FreezeAll(arena, parent, cs[1..]);
    if x in Flatten(ns[0]) {
      ParentRank(cs[0]);
      AboveShrinks(arena, parent, cs[0]);
      FlattenInArena(arena, cs[0], x);
    } else {
      assert forall c :: c in cs[1..] ==> c in cs;
      FlattenAllInArena(arena, parent, cs[1..], x);
    }
  }

  // ---------------------------------------------------------------------------
  // Ancestry of keys

  /** `a` is `x` or is reached from `x` by taking ParentOf repeatedly. */
  predicate AncestorOrSelf(a: string, x: string)
    decreases Rank(x)
  {
    x == a || (x != RootKey && AncestorOrSelf(a, ParentOf(x)))
  }

  lemma {:induction false} AncestorRank(a: string, x: string)
    requires AncestorOrSelf(a, x)
    ensures Rank(a) <= Rank(x)
    decreases Rank(x)
  {
    if x != a {
      ParentRank(x);
      AncestorRank(a, ParentOf(x));
    }
  }

  lemma {:induction false} AncestorTransitive(a: string, b: string, x: string)
    requires AncestorOrSelf(a, b) && AncestorOrSelf(b, x)
    ensures AncestorOrSelf(a, x)
    decreases Rank(x)
  {
    if x != b {
      ParentRank(x);
      AncestorTransitive(a, b, ParentOf(x));
    }
  }

  /** Two ancestors of one key lie on one chain. */
  lemma {:induction false} AncestorsComparable(c1: string, c2: string, x: string)
    requires AncestorOrSelf(c1, x) && AncestorOrSelf(c2, x)
    ensures AncestorOrSelf(c1, c2) || AncestorOrSelf(c2, c1)
    decreases Rank(x)
  {
    if x != c1 && x != c2 {
      ParentRank(x);
      AncestorsComparable(c1, c2, ParentOf(x));
    }
  }

  /** Two siblings are never both ancestors of one key. */
  lemma ChainUnique(c1: string, c2: string, x: string)
    requires c1 != RootKey && c2 != RootKey && ParentOf(c1) == ParentOf(c2)
    requires AncestorOrSelf(c1, x) && AncestorOrSelf(c2, x)
    ensures c1 == c2
  {
    AncestorsComparable(c1, c2, x);
    if AncestorOrSelf(c1, c2) && c1 != c2 {
      ParentRank(c1);
      AncestorRank(c1, ParentOf(c2));
    } else if AncestorOrSelf(c2, c1) && c1 != c2 {
      ParentRank(c2);
      AncestorRank(c2, ParentOf(c1));
    }
  }

  /** Below `a`, each key hangs under exactly one child of `a`: here, one that
      exists. */
  lemma {:induction false} ChildOnChain(arena: Arena, a: string, x: string) returns (c: string)
    requires Linked(arena) && x in arena && AncestorOrSelf(a, x) && x != a
    ensures c in arena && c != RootKey && ParentOf(c) == a && AncestorOrSelf(c, x)
    decreases Rank(x)
  {
    if ParentOf(x) == a {
      c := x;
    } else {
      ParentRank(x);
      c := ChildOnChain(arena, a, ParentOf(x));
    }
  }

  /** Every key descends from the root key. */
  lemma {:induction false} UnderRoot(x: string)
    ensures AncestorOrSelf(RootKey, x)
    decreases Rank(x)
  {
    if x != RootKey {
      ParentRank(x);
      UnderRoot(ParentOf(x));
    }
  }

  // ---------------------------------------------------------------------------
  // Counting

  /** How many keys of `cs` have `x` below them. */
  function CountCover(cs: seq<string>, x: string): nat
  {
    if cs == [] then 0 else (if AncestorOrSelf(cs[0], x) then 1 else 0) + CountCover(cs[1..], x)
  }

  /** When exactly the copies of `c` cover `x`, the cover count is `c`'s
      multiplicity. */
  lemma {:induction false} CountCoverIs(cs: seq<string>, x: string, c: string)
    requires forall i :: 0 <= i < |cs| ==> (AncestorOrSelf(cs[i], x) <==> cs[i] == c)
    ensures CountCover(cs, x) == multiset(cs)[c]
    decreases |cs|
  {
    if cs != [] {
      assert cs == [cs[0]] + cs[1..];
      assert forall i :: 0 <= i < |cs[1..]| ==> cs[1..][i] == cs[i + 1];
      CountCoverIs(cs[1..], x, c);
    }
  }

  /** Requirements of the count: records carry their key, child lists are
      closed, and every non-root key sits once under its parent. */
  predicate Countable(arena: Arena)
  {
    Closed(arena) && PathsOk(arena) && Linked(arena)
  }

  /** A child of `a` covers only keys strictly below `a`. */
  lemma ChildCovers(a: string, c: string, x: string)
    requires c != RootKey && ParentOf(c) == a && AncestorOrSelf(c, x)
    ensures AncestorOrSelf(a, x) && x != a && c != a
  {
    ParentRank(c);
    assert AncestorOrSelf(a, c);
    AncestorTransitive(a, c, x);
    AncestorRank(c, x);
  }

  /** A key strictly below `a` is covered by exactly one child, once. */
  lemma CoverBelow(arena: Arena, a: string, x: string)
    requires Closed(arena) && Linked(arena) && a in arena && x in arena
    requires AncestorOrSelf(a, x) && x != a
    ensures CountCover(arena[a].children, x) == 1
  {
    var cs := arena[a].children;
    var c := ChildOnChain(arena, a, x);
    forall i | 0 <= i < |cs|
      ensures AncestorOrSelf(cs[i], x) <==> cs[i] == c
    {
      assert cs[i] in arena[a].children;
      SiblingCover(arena, a, x, c, cs[i]);
    }
    CountCoverIs(cs, x, c);
  }

  /** Among the children of `a`, only `c` covers a key that `c` covers. */
  lemma SiblingCover(arena: Arena, a: string, x: string, c: string, d: string)
    requires Closed(arena) && a in arena && d in arena[a].children
    requires c != RootKey && ParentOf(c) == a && AncestorOrSelf(c, x)
    ensures AncestorOrSelf(d, x) <==> d == c
  {
    assert d in arena && d != RootKey && ParentOf(d) == a;
    if AncestorOrSelf(d, x) {
      ChainUnique(d, c, x);
    }
  }

  /** No child covers `a` itself or a key outside `a`'s subtree. */
  lemma CoverElsewhere(arena: Arena, a: string, x: string)
    requires Closed(arena) && a in arena
    requires !(AncestorOrSelf(a, x) && x != a)
    ensures CountCover(arena[a].children, x) == 0
  {
    var cs := arena[a].children;
    forall i | 0 <= i < |cs|
      ensures !AncestorOrSelf(cs[i], x) && cs[i] != a
    {
      assert cs[i] in arena[a].children;
      assert cs[i] != RootKey && ParentOf(cs[i]) == a;
      if AncestorOrSelf(cs[i], x) {
        ChildCovers(a, cs[i], x);
      }
    }
    CountCoverIs(cs, x, a);
    assert a !in multiset(cs);
  }

  lemma {:induction false} FreezeCount(arena: Arena, a: string, x: string)
    requires Countable(arena) && a in arena
    ensures Flatten(Freeze(arena, a))[x] == if x in arena && AncestorOrSelf(a, x) then 1 else 0
    decreases |Above(arena, a)|, 1
  {
    var cs := arena[a].children;
    FreezeFlatten(arena, a);
    FreezeAllCount(arena, a, cs, x);
    if x in arena {
      CoverCount(arena, a, x);
    }
    assert AncestorOrSelf(a, a);
  }

  /** A node's keys are its own path and its children's keys. */
  lemma FreezeFlatten(arena: Arena, a: string)
    requires Closed(arena) && PathsOk(arena) && a in arena
    ensures Flatten(Freeze(arena, a)) == multiset{a} + FlattenAll(FreezeAll(arena, a, arena[a].children))
  {
    var n := Freeze(arena, a);
    assert n.path == a && n.children == FreezeAll(arena, a, arena[a].children);
  }

  /** The children of `a` cover `x` once when `x` is strictly below `a`, and
      not at all otherwise. */
  lemma CoverCount(arena: Arena, a: string, x: string)
    requires Countable(arena) && a in arena && x in arena
    ensures CountCover(arena[a].children, x) == if AncestorOrSelf(a, x) && x != a then 1 else 0
  {
    if AncestorOrSelf(a, x) && x != a {
      CoverBelow(arena, a, x);
    } else {
      CoverElsewhere(arena, a, x);
    }
  }

  lemma {:induction false} FreezeAllCount(arena: Arena, parent: string, cs: seq<string>, x: string)
    requires Countable(arena) && parent in arena
    requires forall c :: c in cs ==> c in arena && c != RootKey && ParentOf(c) == parent
    ensures FlattenAll(FreezeAll(arena, parent, cs))[x] == if x in arena then CountCover(cs, x) else 0
    decreases |Above(arena, parent)|, 0, |cs|
  {
    if cs != [] {
      var c := cs[0];
      assert c in cs;
      ParentRank(c);
      AboveShrinks(arena, parent, c);
      var rest := cs[1..];
      assert forall d :: d in rest ==> d in cs;
      var ns := FreezeAll(arena, parent, cs);
      assert FlattenAll(ns) == Flatten(Freeze(arena, c)) + FlattenAll(FreezeAll(arena, parent, rest));
      FreezeCount(arena, c, x);
      FreezeAllCount(arena, parent, rest, x);
      assert CountCover(cs, x) == (if AncestorOrSelf(c, x) then 1 else 0) + CountCover(rest, x);
    }
  }

  // ---------------------------------------------------------------------------
  // The tree the view renders

  lemma WfPathsOk(arena: Arena, expanded: set<string>, selected: set<string>)
    requires Wf(arena, expanded, selected)
    ensures PathsOk(arena)
  {
    forall k | k in arena
      ensures arena[k].path == k
    {
      assert KeyOk(arena, k, expanded, selected);
    }
  }

  /** The visited keys depend only on which entries are listed. */
  lemma PathKeysReorder(a: seq<string>, b: seq<string>)
    requires multiset(a) == multiset(b)
    ensures PathKeys(a) == PathKeys(b)
  {
    forall x | x in PathKeys(a)
      ensures x in PathKeys(b)
    {
      PathKeysMember(a, x);
      var i :| 0 <= i < |a| && x in StepKeys(Walk(a[i]));
      assert a[i] in multiset(b);
      var j :| 0 <= j < |b| && b[j] == a[i];
      PathKeysMember(b, x);
    }
    forall x | x in PathKeys(b)
      ensures x in PathKeys(a)
    {
      PathKeysMember(b, x);
      var j :| 0 <= j < |b| && x in StepKeys(Walk(b[j]));
      assert b[j] in multiset(a);
      var i :| 0 <= i < |a| && a[i] == b[j];
      PathKeysMember(a, x);
    }
  }

  /** Read out from the root, a countable arena holds each of its keys once. */
  lemma FreezeRootCount(arena: Arena)
    requires Countable(arena) && RootKey in arena
    ensures Flatten(Freeze(arena, RootKey)) == multiset(arena.Keys)
  {
    var t := Freeze(arena, RootKey);
    forall x
      ensures Flatten(t)[x] == multiset(arena.Keys)[x]
    {
      FreezeCount(arena, RootKey, x);
      UnderRoot(x);
    }
  }

  /** The tree holds the root and every key the walks of the entries visit,
      each exactly once, and nothing else. */
  lemma TreeHoldsEachKeyOnce(files: seq<string>, expanded: set<string>, selected: set<string>)
    ensures Flatten(FileTree(files, expanded, selected)) == multiset({RootKey} + PathKeys(files))
  {
    var arena := OrderedArena(files, expanded, selected, {});
    PathKeysReorder(SortedFiles(files), files);
    WfPathsOk(arena, expanded, selected);
    FreezeRootCount(arena);
  }

  /** Every entry without a leading separator occurs exactly once in the tree. */
  lemma EntryHeldOnce(files: seq<string>, expanded: set<string>, selected: set<string>, f: string)
    requires f in files && NoLeadingSep(f)
    ensures Flatten(FileTree(files, expanded, selected))[f] == 1
  {
    TreeHoldsEachKeyOnce(files, expanded, selected);
    EntryIsKey(f);
    PathKeysMember(files, f);
  }

  /** For entries without leading separators, the paths in the tree are exactly the
      root, the entries, and the entries cut before each of their separators,
      each once. */
  lemma TreeHoldsEntriesAndFolders(files: seq<string>, expanded: set<string>, selected: set<string>, x: string)
    requires forall f :: f in files ==> NoLeadingSep(f)
    ensures Flatten(FileTree(files, expanded, selected))[x]
      == if x == RootKey || exists f :: f in files && (x == f || x in Cuts(f)) then 1 else 0
  {
    TreeHoldsEachKeyOnce(files, expanded, selected);
    PathKeysMeaning(files, x);
  }

  /** Every node other than the root is named after the last segment of its
      path, sits at its path's segment count less one, is a directory exactly
      when its path is not an entry, and is expanded and selected exactly when
      its path is in the corresponding set. */
  lemma NodeFields(files: seq<string>, expanded: set<string>, selected: set<string>, inherited: set<string>, m: Node)
    requires forall f :: f in files ==> NoLeadingSep(f)
    requires Contains(FileTreeWith(files, expanded, selected, inherited), m) && m.path != RootKey
    ensures m.name == LastPart(m.path) && m.level == |Split(m.path)| - 1
    ensures m.isDirectory == (m.path !in files)
    ensures m.isExpanded == (m.path in expanded) && m.isSelected == (m.path in selected)
  {
    var sorted := SortedFiles(files);
    var populated := Populate(sorted, expanded, selected, inherited);
    var arena := OrderedArena(files, expanded, selected, inherited);
    assert arena == OrderChildren(populated);
    forall g | g in sorted
      ensures NoLeadingSep(g)
    {
      assert g in multiset(files);
    }
    PopulateCanon(sorted, expanded, selected, inherited);
    WfPathsOk(arena, expanded, selected);
    FrozenSubtree(arena, RootKey, m);
    var k := m.path;
    assert arena[k].(children := []) == populated[k].(children := []);
    assert populated[k].(children := []) == CanonEntry(k, sorted, expanded, selected);
    assert (k in sorted) == (k in multiset(files));
  }

  /** `arena` is `populated` with every child list sorted by the sibling
      comparator. */
  predicate OrderedFrom(arena: Arena, populated: Arena)
  {
    && arena.Keys == populated.Keys
    && forall k :: k in populated ==>
      && arena[k].(children := []) == populated[k].(children := [])
      && SortedBy(arena[k].children, ChildOrder(populated))
  }

  /** The read-out of a record of an ordered arena has its children in
      sibling order. */
  lemma FrozenChildrenOrdered(arena: Arena, populated: Arena, k: string)
    requires OrderedFrom(arena, populated) && Closed(arena) && k in arena
    ensures var m := Freeze(arena, k);
      forall i, j :: 0 <= i < j < |m.children| ==> NodeLe(m.children[i], m.children[j])
  {
    var m := Freeze(arena, k);
    var cs := arena[k].children;
    assert SortedBy(cs, ChildOrder(populated));
    forall i | 0 <= i < |cs|
      ensures cs[i] in arena && cs[i] in populated
    {
      assert cs[i] in arena[k].children;
    }
    forall i | 0 <= i < |cs|
      ensures m.children[i] == Freeze(arena, cs[i])
      ensures EntryOf(populated, cs[i]).(children := []) == arena[cs[i]].(children := [])
    {
      FreezeAllAt(arena, k, cs, i);
    }
    forall i, j | 0 <= i < j < |cs|
      ensures NodeLe(m.children[i], m.children[j])
    {
      assert ChildOrder(populated)(cs[i], cs[j]);
    }
  }

  /** Each child of a read-out record sits at its parent's path extended by
      its name. */
  lemma FrozenChildrenPaths(arena: Arena, expanded: set<string>, selected: set<string>, k: string)
    requires Wf(arena, expanded, selected) && Closed(arena) && k in arena
    ensures var m := Freeze(arena, k);
      forall i :: 0 <= i < |m.children| ==> m.children[i].path == ChildKey(m.path, m.children[i].name)
  {
    var m := Freeze(arena, k);
    var cs := arena[k].children;
    assert KeyOk(arena, k, expanded, selected);
    forall i | 0 <= i < |cs|
      ensures m.children[i].path == ChildKey(m.path, m.children[i].name)
    {
      FreezeAllAt(arena, k, cs, i);
      assert cs[i] in arena[k].children;
      assert KeyOk(arena, cs[i], expanded, selected);
    }
  }

  /** Within every node, children come directories first and then in name
      order, and each child's path is the node's path extended by the child's
      name. */
  lemma SiblingsOrdered(files: seq<string>, expanded: set<string>, selected: set<string>, inherited: set<string>, m: Node)
    requires Contains(FileTreeWith(files, expanded, selected, inherited), m)
    ensures forall i, j :: 0 <= i < j < |m.children| ==> NodeLe(m.children[i], m.children[j])
    ensures forall i :: 0 <= i < |m.children| ==> m.children[i].path == ChildKey(m.path, m.children[i].name)
  {
    var populated := Populate(SortedFiles(files), expanded, selected, inherited);
    PopulateFacts(SortedFiles(files), expanded, selected, inherited);
    var arena := OrderedArena(files, expanded, selected, inherited);
    assert arena == OrderChildren(populated);
    WfPathsOk(arena, expanded, selected);
    FrozenSubtree(arena, RootKey, m);
    FrozenChildrenOrdered(arena, populated, m.path);
    FrozenChildrenPaths(arena, expanded, selected, m.path);
  }

  /** The tree depends only on which entries are listed, not on their order. */
  lemma TreeIgnoresListOrder(files1: seq<string>, files2: seq<string>, expanded: set<string>, selected: set<string>, inherited: set<string>)
    requires multiset(files1) == multiset(files2)
    ensures FileTreeWith(files1, expanded, selected, inherited) == FileTreeWith(files2, expanded, selected, inherited)
  {
    LexOrder();
    SortedUnique(SortedFiles(files1), SortedFiles(files2), LexLe);
  }

  /** A node's name is the file name the flat list shows for the same path. */
  lemma NodeNameIsFileName(p: string)
    ensures LastPart(p) == SplitPath(p).fileName
  {
    var r := SplitPath(p);
    if r.folderPath == "" {
      SplitPrefix(p, "");
      assert p + "" == p;
    } else {
      var a := r.folderPath[..|r.folderPath| - 1];
      assert r.folderPath == a + [Sep];
      assert p == a + [Sep] + r.fileName;
      SplitAppend(a, r.fileName);
      SplitPrefix(r.fileName, "");
      assert r.fileName + "" == r.fileName;
    }
  }

  /** The tree offers a preview by a node's name, the flat list and the
      preview handler test the whole path; for every path the answers agree. */
  lemma NodeClassifiedLikePath(p: string)
    ensures IsImage(LastPart(p)) == IsImage(p)
    ensures IsJson(LastPart(p)) == IsJson(p)
  {
    NodeNameIsFileName(p);
    ClassifyByFileName(p);
  }

  // ---------------------------------------------------------------------------
  // The plain-object lookup

  /** An inherited name never occurs in the tree. */
  lemma InheritedNotInTree(files: seq<string>, expanded: set<string>, selected: set<string>, inherited: set<string>, f: string)
    requires f in inherited && f != RootKey
    ensures Flatten(FileTreeWith(files, expanded, selected, inherited))[f] == 0
  {
    var arena := OrderedArena(files, expanded, selected, inherited);
    WfPathsOk(arena, expanded, selected);
    assert f !in arena;
    if f in Flatten(Freeze(arena, RootKey)) {
      FlattenInArena(arena, RootKey, f);
    }
  }

  /** An entry named like an `Object.prototype` member is missing from the tree
      as written, and occurs once when presence is checked on own keys. */
  lemma PrototypeEntryHidden(files: seq<string>, expanded: set<string>, selected: set<string>, f: string)
    requires f in files && f in ObjectPrototypeNames
    ensures Flatten(FileTreeAsWritten(files, expanded, selected))[f] == 0
    ensures Flatten(FileTree(files, expanded, selected))[f] == 1
  {
    assert f != RootKey && NoLeadingSep(f);
    InheritedNotInTree(files, expanded, selected, ObjectPrototypeNames, f);
    EntryHeldOnce(files, expanded, selected, f);
  }

  /** An archive holding one file called `constructor`. */
  lemma ConstructorEntryExample()
    ensures Flatten(FileTreeAsWritten(["constructor"], InitialExpanded, {}))["constructor"] == 0
    ensures Flatten(FileTree(["constructor"], InitialExpanded, {}))["constructor"] == 1
  {
    PrototypeEntryHidden(["constructor"], InitialExpanded, {}, "constructor");
  }

  /** When no visited key is an inherited name, the visits along a walk never
      hit the prototype and act as with own-key lookup. */
  lemma {:induction false} VisitAllWithoutInherited(arena: Arena, steps: seq<Step>, expanded: set<string>, selected: set<string>, inherited: set<string>)
    requires StepKeys(steps) !! inherited
    ensures VisitAll(arena, steps, expanded, selected, inherited) == VisitAll(arena, steps, expanded, selected, {})
    decreases |steps|
  {
    if steps != [] {
      StepKeysCons(steps);
      var next := Visit(arena, steps[0], expanded, selected, {});
      assert Visit(arena, steps[0], expanded, selected, inherited) == next;
      VisitAllWithoutInherited(next, steps[1..], expanded, selected, inherited);
    }
  }

  lemma {:induction false} BuildWithoutInherited(arena: Arena, paths: seq<string>, expanded: set<string>, selected: set<string>, inherited: set<string>)
    requires PathKeys(paths) !! inherited
    ensures Build(arena, paths, expanded, selected, inherited) == Build(arena, paths, expanded, selected, {})
    decreases |paths|
  {
    if paths != [] {
      VisitAllWithoutInherited(arena, Walk(paths[0]), expanded, selected, inherited);
      var next := VisitAll(arena, Walk(paths[0]), expanded, selected, {});
      BuildWithoutInherited(next, paths[1..], expanded, selected, inherited);
    }
  }

  /** An archive none of whose visited keys is an inherited name gets the
      same tree from the plain-object lookup as from own-key lookup. */
  lemma TreeWithoutInherited(files: seq<string>, expanded: set<string>, selected: set<string>, inherited: set<string>)
    requires PathKeys(files) !! inherited
    ensures FileTreeWith(files, expanded, selected, inherited) == FileTree(files, expanded, selected)
  {
    PathKeysReorder(SortedFiles(files), files);
    BuildWithoutInherited(InitialArena(expanded), SortedFiles(files), expanded, selected, inherited);
    assert OrderedArena(files, expanded, selected, inherited) == OrderedArena(files, expanded, selected, {});
  }

  /** The tree as written holds the root and every visited key exactly once,
      provided no visited key is an `Object.prototype` name. */
  lemma AsWrittenHoldsEachKeyOnce(files: seq<string>, expanded: set<string>, selected: set<string>)
    requires PathKeys(files) !! ObjectPrototypeNames
    ensures Flatten(FileTreeAsWritten(files, expanded, selected)) == multiset({RootKey} + PathKeys(files))
  {
    TreeWithoutInherited(files, expanded, selected, ObjectPrototypeNames);
    TreeHoldsEachKeyOnce(files, expanded, selected);
  }

  /** A separator-free key that is an entry or one of its cuts is the entry's
      first segment. */
  lemma FirstSegmentKey(f: string, x: string)
    requires Sep !in x && (x == f || x in Cuts(f))
    ensures Split(f)[0] == x
  {
    if x == f {
      SplitPrefix(f, "");
      assert f + "" == f;
    } else {
      var j :| 0 <= j < |f| && f[j] == Sep && f[..j] == x;
      var rest := f[j..];
      assert f == x + rest;
      assert Split(rest) == [""] + Split(rest[1..]);
      SplitPrefix(x, rest);
      assert x + "" == x;
    }
  }

  /** An archive none of whose entries starts with an `Object.prototype` name
      as its first segment visits none of those names. */
  lemma OrdinaryArchiveKeys(files: seq<string>)
    requires forall f :: f in files ==> NoLeadingSep(f) && Split(f)[0] !in ObjectPrototypeNames
    ensures PathKeys(files) !! ObjectPrototypeNames
  {
    forall x | x in PathKeys(files)
      ensures x !in ObjectPrototypeNames
    {
      PathKeysMeaning(files, x);
      var f :| f in files && (x == f || x in Cuts(f));
      if x in ObjectPrototypeNames {
        PrototypeNameHasNoSep(x);
        FirstSegmentKey(f, x);
      }
    }
  }

  /** No `Object.prototype` name contains the separator. */
  lemma PrototypeNameHasNoSep(x: string)
    requires x in ObjectPrototypeNames
    ensures Sep !in x
  {
  }

  /** The tree as written holds every entry of an ordinary archive, and every
      folder above one, exactly once. */
  lemma AsWrittenHoldsOrdinaryArchive(files: seq<string>, expanded: set<string>, selected: set<string>)
    requires forall f :: f in files ==> NoLeadingSep(f) && Split(f)[0] !in ObjectPrototypeNames
    ensures Flatten(FileTreeAsWritten(files, expanded, selected)) == multiset({RootKey} + PathKeys(files))
    ensures forall f :: f in files ==> Flatten(FileTreeAsWritten(files, expanded, selected))[f] == 1
  {
    OrdinaryArchiveKeys(files);
    AsWrittenHoldsEachKeyOnce(files, expanded, selected);
    forall f | f in files
      ensures Flatten(FileTreeAsWritten(files, expanded, selected))[f] == 1
    {
      EntryHeldOnce(files, expanded, selected, f);
      TreeWithoutInherited(files, expanded, selected, ObjectPrototypeNames);
    }
  }

  // ---------------------------------------------------------------------------
  // Expansion

  /** The expansion set after a sequence of row clicks. */
  function ApplyClicks(expanded: set<string>, rows: seq<Node>): set<string>
    decreases |rows|
  {
    if rows == [] then expanded else ApplyClicks(ApplyClick(expanded, ClickRow(rows[0])), rows[1..])
  }

  /** The root can never be collapsed: it starts expanded and its toggle does
      nothing. The rows may be any nodes; for the rows of a built tree,
      `TreeHoldsEachKeyOnce` shows the root is the only node with path `/`, so
      recognising the root row by its path is recognising the root. */
  lemma {:induction false} RootStaysExpanded(expanded: set<string>, rows: seq<Node>)
    requires RootKey in expanded
    ensures RootKey in ApplyClicks(expanded, rows)
    decreases |rows|
  {
    if rows != [] {
      RootStaysExpanded(ApplyClick(expanded, ClickRow(rows[0])), rows[1..]);
    }
  }

  /** Toggling the same path twice restores the expansion set. */
  lemma ToggleTwice(expanded: set<string>, path: string)
    ensures ToggleExpanded(ToggleExpanded(expanded, path), path) == expanded
  {
    var once := ToggleExpanded(expanded, path);
    var twice := ToggleExpanded(once, path);
    forall p
      ensures p in twice <==> p in expanded
    {
    }
  }
}
