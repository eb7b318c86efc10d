/** The construction half of the tree view's `fileTree`: a path-keyed scratch
    record ("arena") that is filled by walking every entry path segment by
    segment, creating a node the first time a key is met and attaching it to its
    parent. Children are held by key here; TreeView freezes the arena into a
    tree. */
module TreeArena {
  import opened Paths

  /** A node under construction: the rendered node's fields, children by key. */
  datatype Entry = Entry(
    name: string,
    path: string,
    isDirectory: bool,
    children: seq<string>,
    level: nat,
    isExpanded: bool,
    isSelected: bool)

  type Arena = map<string, Entry>

  const RootName: string := "Root"

  /** The root record: a directory named "Root" at level 0, open when "/" is in the
      expansion set, never selected. */
  function RootEntry(expanded: set<string>): Entry
  {
    Entry(RootName, RootKey, true, [], 0, RootKey in expanded, false)
  }

  function InitialArena(expanded: set<string>): Arena
  {
    map[RootKey := RootEntry(expanded)]
  }

  /** One iteration of the inner segment loop: the key `currentPath` becomes, the
      key of its parent, the segment itself, its index, and whether it is the
      last segment of the path. */
  datatype Step = Step(key: string, parentKey: string, name: string, level: nat, isLast: bool)

  /** The inner loop from segment `index` on, with `current` the running path
      (empty before the first segment). */
  function StepsFrom(parts: seq<string>, index: nat, current: string): seq<Step>
    requires index <= |parts|
    decreases |parts| - index
  {
    if index == |parts| then []
    else
      var part := parts[index];
      var parentKey := if current == "" then RootKey else current;
      var key := if current == "" then part else current + [Sep] + part;
      [Step(key, parentKey, part, index, index == |parts| - 1)] + StepsFrom(parts, index + 1, key)
  }

  /** Every segment visit for one entry path. */
  function Walk(path: string): seq<Step>
  {
    StepsFrom(Split(path), 0, "")
  }

  function StepKeys(steps: seq<Step>): set<string>
  {
    set i | 0 <= i < |steps| :: steps[i].key
  }

  /** The record created for a key at its first visit. */
  function Created(step: Step, expanded: set<string>, selected: set<string>): Entry
  {
    Entry(step.name, step.key, !step.isLast, [], step.level, step.key in expanded, step.key in selected)
  }

  /** `if (!tree[currentPath]) { ... }`: a key that is already present, as an own
      key or as one of the `inherited` names the record answers through its
      prototype, is left alone; otherwise a record is created and, when the
      parent lookup succeeds on an own key, appended to the parent's children.
      A parent found only through the prototype receives the child outside the
      arena, so the arena does not record it. */
  function Visit(arena: Arena, step: Step, expanded: set<string>, selected: set<string>, inherited: set<string>): Arena
  {
    if step.key in arena || step.key in inherited then arena
    else Attach(arena, step, expanded, selected)
  }

  /** `tree[currentPath] = node`, then the push onto `tree[parentPath].children`. */
  function Attach(arena: Arena, step: Step, expanded: set<string>, selected: set<string>): Arena
  {
    var withNode := arena[step.key := Created(step, expanded, selected)];
    if step.parentKey in withNode then
      var parent := withNode[step.parentKey];
      withNode[step.parentKey := parent.(children := parent.children + [step.key])]
    else withNode
  }

  function VisitAll(arena: Arena, steps: seq<Step>, expanded: set<string>, selected: set<string>, inherited: set<string>): Arena
    decreases |steps|
  {
    if steps == [] then arena
    else VisitAll(Visit(arena, steps[0], expanded, selected, inherited), steps[1..], expanded, selected, inherited)
  }

  /** The outer loop over the (already sorted) entry paths. */
  function Build(arena: Arena, paths: seq<string>, expanded: set<string>, selected: set<string>, inherited: set<string>): Arena
    decreases |paths|
  {
    if paths == [] then arena
    else Build(VisitAll(arena, Walk(paths[0]), expanded, selected, inherited), paths[1..], expanded, selected, inherited)
  }

  /** The arena the builder ends with, before children are ordered. */
  function Populate(paths: seq<string>, expanded: set<string>, selected: set<string>, inherited: set<string>): Arena
  {
    Build(InitialArena(expanded), paths, expanded, selected, inherited)
  }

  /** Every key some path's walk visits. */
  function PathKeys(paths: seq<string>): set<string>
  {
    if paths == [] then {} else StepKeys(Walk(paths[0])) + PathKeys(paths[1..])
  }

  // ---------------------------------------------------------------------------
  // Segment visits

  /** What every segment visit satisfies: the key is the parent key extended by
      the separator-free segment, never the root key, and the parent key is the
      key's ParentOf. */
  predicate StepOk(s: Step)
  {
    && s.key != RootKey
    && s.parentKey != ""
    && Sep !in s.name
    && s.key == ChildKey(s.parentKey, s.name)
    && ParentOf(s.key) == s.parentKey
  }

  /** Each visit's parent is the root or the key visited just before it. */
  predicate ParentsChain(steps: seq<Step>)
  {
    forall j :: 0 < j < |steps| ==> steps[j].parentKey == RootKey || steps[j].parentKey == steps[j - 1].key
  }

  predicate StepsOk(steps: seq<Step>)
  {
    forall i :: 0 <= i < |steps| ==> StepOk(steps[i])
  }

  lemma {:induction false} StepsFromOk(parts: seq<string>, index: nat, current: string)
    requires index <= |parts|
    requires NoSepIn(parts)
    requires current != RootKey
    ensures var steps := StepsFrom(parts, index, current);
      && StepsOk(steps)
      && ParentsChain(steps)
      && (|steps| > 0 ==> steps[0].parentKey == (if current == "" then RootKey else current))
    decreases |parts| - index
  {
    if index < |parts| {
      var part := parts[index];
      var key := if current == "" then part else current + [Sep] + part;
      var steps := StepsFrom(parts, index, current);
      var tail := StepsFrom(parts, index + 1, key);
      assert steps == [steps[0]] + tail;
      FirstStepOk(parts, index, current);
      StepsFromOk(parts, index + 1, key);
      ConsOk(steps[0], tail);
    }
  }

  /** The first visit from segment `index` on satisfies StepOk. */
  lemma FirstStepOk(parts: seq<string>, index: nat, current: string)
    requires index < |parts| && NoSepIn(parts) && current != RootKey
    ensures var s := StepsFrom(parts, index, current)[0];
      && StepOk(s)
      && s.parentKey == (if current == "" then RootKey else current)
      && s.key == (if current == "" then parts[index] else current + [Sep] + parts[index])
  {
    var part := parts[index];
    var parentKey := if current == "" then RootKey else current;
    assert Sep !in part;
    assert RootKey[0] == Sep;
    ParentOfChildKey(parentKey, part);
  }

  /** A valid visit in front of a valid chain whose first parent is the root
      or that visit's key. */
  lemma ConsOk(head: Step, tail: seq<Step>)
    requires StepOk(head) && StepsOk(tail) && ParentsChain(tail)
    requires |tail| > 0 ==> tail[0].parentKey == RootKey || tail[0].parentKey == head.key
    ensures StepsOk([head] + tail) && ParentsChain([head] + tail)
  {
    var steps := [head] + tail;
    forall i | 0 < i < |steps|
      ensures StepOk(steps[i])
    {
      assert steps[i] == tail[i - 1];
    }
    forall j | 0 < j < |steps|
      ensures steps[j].parentKey == RootKey || steps[j].parentKey == steps[j - 1].key
    {
      assert steps[j] == tail[j - 1];
      if j > 1 {
        assert steps[j - 1] == tail[j - 2];
      }
    }
  }

  lemma WalkOk(path: string)
    ensures StepsOk(Walk(path)) && ParentsChain(Walk(path))
    ensures |Walk(path)| > 0 && Walk(path)[0].parentKey == RootKey
  {
    StepsFromOk(Split(path), 0, "");
  }

  // ---------------------------------------------------------------------------
  // Arena invariants

  /** What the builder keeps true of one record: it carries its own key as its
      path; a non-root record's key extends its ParentOf by its separator-free
      name and its flags mirror the expansion and selection sets; its children
      are existing non-root keys whose ParentOf is this key. */
  predicate KeyOk(arena: Arena, k: string, expanded: set<string>, selected: set<string>)
    requires k in arena
  {
    && arena[k].path == k
    && (k != RootKey ==>
          && Sep !in arena[k].name
          && k == ChildKey(ParentOf(k), arena[k].name)
          && ParentOf(k) != ""
          && arena[k].isExpanded == (k in expanded)
          && arena[k].isSelected == (k in selected))
    && (forall c :: c in arena[k].children ==> c in arena && c != RootKey && ParentOf(c) == k)
  }

  /** Everything the builder keeps true of the arena, whatever it inherits. */
  predicate Wf(arena: Arena, expanded: set<string>, selected: set<string>)
  {
    && RootKey in arena
    && arena[RootKey].(children := []) == RootEntry(expanded)
    && (forall k :: k in arena ==> KeyOk(arena, k, expanded, selected))
  }

  /** Every non-root key sits exactly once in its parent's child list. */
  predicate Linked(arena: Arena)
  {
    forall k {:trigger ParentOf(k)} :: k in arena && k != RootKey ==>
      ParentOf(k) in arena && multiset(arena[ParentOf(k)].children)[k] == 1
  }

  lemma InitialWf(expanded: set<string>, selected: set<string>)
    ensures Wf(InitialArena(expanded), expanded, selected)
    ensures Linked(InitialArena(expanded))
  {
  }

  /** Attaching a fresh key adds it and touches no other record except the
      parent's child list. */
  lemma AttachFrame(arena: Arena, step: Step, expanded: set<string>, selected: set<string>)
    requires step.key !in arena && StepOk(step)
    ensures var r := Attach(arena, step, expanded, selected);
      && r.Keys == arena.Keys + {step.key}
      && r[step.key].(children := []) == Created(step, expanded, selected)
      && (forall k :: k in arena ==> r[k].(children := []) == arena[k].(children := []))
      && (forall k :: k in arena && k != step.parentKey ==> r[k] == arena[k])
      && (step.parentKey in arena ==> r[step.parentKey].children == arena[step.parentKey].children + [step.key])
      && r[step.key].children == []
  {
    ParentRank(step.key);
  }

  lemma AttachKeyOk(arena: Arena, step: Step, expanded: set<string>, selected: set<string>, x: string)
    requires Wf(arena, expanded, selected) && StepOk(step) && step.key !in arena
    requires x in Attach(arena, step, expanded, selected)
    ensures KeyOk(Attach(arena, step, expanded, selected), x, expanded, selected)
  {
    var r := Attach(arena, step, expanded, selected);
    AttachFrame(arena, step, expanded, selected);
    if x != step.key {
      assert KeyOk(arena, x, expanded, selected);
      assert r[x].(children := []) == arena[x].(children := []);
      if x == step.parentKey {
        assert r[x].children == arena[x].children + [step.key];
      } else {
        assert r[x] == arena[x];
      }
    }
  }

  lemma AttachWf(arena: Arena, step: Step, expanded: set<string>, selected: set<string>)
    requires Wf(arena, expanded, selected) && StepOk(step) && step.key !in arena
    ensures Wf(Attach(arena, step, expanded, selected), expanded, selected)
  {
    var r := Attach(arena, step, expanded, selected);
    AttachFrame(arena, step, expanded, selected);
    assert r[RootKey].(children := []) == arena[RootKey].(children := []);
    forall x | x in r
      ensures KeyOk(r, x, expanded, selected)
    {
      AttachKeyOk(arena, step, expanded, selected, x);
    }
  }

  /** A visit adds the step's key unless it is present or inherited, and changes
      no existing record except for a child appended to the step's parent. */
  lemma VisitFacts(arena: Arena, step: Step, expanded: set<string>, selected: set<string>, inherited: set<string>)
    requires Wf(arena, expanded, selected) && StepOk(step)
    ensures var r := Visit(arena, step, expanded, selected, inherited);
      && Wf(r, expanded, selected)
      && r.Keys == arena.Keys + ({step.key} - inherited)
      && (forall k :: k in arena ==> r[k].(children := []) == arena[k].(children := []))
      && (step.key !in arena && step.key !in inherited ==> r[step.key].(children := []) == Created(step, expanded, selected))
  {
    if !(step.key in arena || step.key in inherited) {
      AttachFrame(arena, step, expanded, selected);
      AttachWf(arena, step, expanded, selected);
    }
  }

  /** A visit keeps every key in place exactly once under its parent, provided
      the step's parent is already an own key and nothing is inherited. */
  lemma VisitLinked(arena: Arena, step: Step, expanded: set<string>, selected: set<string>)
    requires Wf(arena, expanded, selected) && Linked(arena) && StepOk(step)
    requires step.parentKey in arena
    ensures Linked(Visit(arena, step, expanded, selected, {}))
  {
    if step.key !in arena {
      var r := Attach(arena, step, expanded, selected);
      var k := step.key;
      var p := step.parentKey;
      AttachFrame(arena, step, expanded, selected);
      assert k !in arena[p].children;
      assert multiset(r[p].children) == multiset(arena[p].children) + multiset{k};
      forall x | x in r && x != RootKey
        ensures ParentOf(x) in r && multiset(r[ParentOf(x)].children)[x] == 1
      {
        if x != k && ParentOf(x) != p {
          assert r[ParentOf(x)] == arena[ParentOf(x)];
        }
      }
    }
  }

  lemma StepKeysCons(steps: seq<Step>)
    requires steps != []
    ensures StepKeys(steps) == {steps[0].key} + StepKeys(steps[1..])
  {
    forall x | x in StepKeys(steps)
      ensures x in {steps[0].key} + StepKeys(steps[1..])
    {
      var i :| 0 <= i < |steps| && steps[i].key == x;
      if i > 0 { assert steps[1..][i - 1] == steps[i]; }
    }
    forall x | x in StepKeys(steps[1..])
      ensures x in StepKeys(steps)
    {
      var i :| 0 <= i < |steps[1..]| && steps[1..][i].key == x;
      assert steps[i + 1].key == x;
    }
  }

  lemma VisitAllFacts(arena: Arena, steps: seq<Step>, expanded: set<string>, selected: set<string>, inherited: set<string>)
    requires Wf(arena, expanded, selected) && StepsOk(steps)
    ensures var r := VisitAll(arena, steps, expanded, selected, inherited);
      && Wf(r, expanded, selected)
      && r.Keys == arena.Keys + (StepKeys(steps) - inherited)
      && (forall k :: k in arena ==> r[k].(children := []) == arena[k].(children := []))
  {
    VisitAllWf(arena, steps, expanded, selected, inherited);
    VisitAllKeys(arena, steps, expanded, selected, inherited);
    VisitAllKeeps(arena, steps, expanded, selected, inherited);
  }

  lemma {:induction false} VisitAllWf(arena: Arena, steps: seq<Step>, expanded: set<string>, selected: set<string>, inherited: set<string>)
    requires Wf(arena, expanded, selected) && StepsOk(steps)
    ensures Wf(VisitAll(arena, steps, expanded, selected, inherited), expanded, selected)
    decreases |steps|
  {
    if steps != [] {
      StepsOkTail(steps);
      VisitFacts(arena, steps[0], expanded, selected, inherited);
      VisitAllWf(Visit(arena, steps[0], expanded, selected, inherited), steps[1..], expanded, selected, inherited);
    }
  }

  lemma {:induction false} VisitAllKeys(arena: Arena, steps: seq<Step>, expanded: set<string>, selected: set<string>, inherited: set<string>)
    requires Wf(arena, expanded, selected) && StepsOk(steps)
    ensures VisitAll(arena, steps, expanded, selected, inherited).Keys == arena.Keys + (StepKeys(steps) - inherited)
    decreases |steps|
  {
    if steps != [] {
      StepsOkTail(steps);
      VisitFacts(arena, steps[0], expanded, selected, inherited);
      VisitAllKeys(Visit(arena, steps[0], expanded, selected, inherited), steps[1..], expanded, selected, inherited);
      StepKeysCons(steps);
    }
  }

  lemma {:induction false} VisitAllKeeps(arena: Arena, steps: seq<Step>, expanded: set<string>, selected: set<string>, inherited: set<string>)
    requires Wf(arena, expanded, selected) && StepsOk(steps)
    ensures var r := VisitAll(arena, steps, expanded, selected, inherited);
      forall k :: k in arena ==> k in r && r[k].(children := []) == arena[k].(children := [])
    decreases |steps|
  {
    if steps != [] {
      StepsOkTail(steps);
      VisitFacts(arena, steps[0], expanded, selected, inherited);
      VisitAllKeeps(Visit(arena, steps[0], expanded, selected, inherited), steps[1..], expanded, selected, inherited);
    }
  }

  lemma StepsOkTail(steps: seq<Step>)
    requires steps != [] && StepsOk(steps)
    ensures StepOk(steps[0]) && StepsOk(steps[1..])
  {
    var tail := steps[1..];
    forall i | 0 <= i < |tail|
      ensures StepOk(tail[i])
    {
      assert tail[i] == steps[i + 1];
    }
  }

  lemma {:induction false} VisitAllLinked(arena: Arena, steps: seq<Step>, expanded: set<string>, selected: set<string>)
    requires Wf(arena, expanded, selected) && Linked(arena)
    requires StepsOk(steps) && ParentsChain(steps)
    requires |steps| > 0 ==> steps[0].parentKey in arena
    ensures Linked(VisitAll(arena, steps, expanded, selected, {}))
    decreases |steps|
  {
    if steps != [] {
      var a := Visit(arena, steps[0], expanded, selected, {});
      VisitLinked(arena, steps[0], expanded, selected);
      VisitFacts(arena, steps[0], expanded, selected, {});
      var tail := steps[1..];
      assert ParentsChain(tail) by {
        forall j | 0 < j < |tail|
          ensures tail[j].parentKey == RootKey || tail[j].parentKey == tail[j - 1].key
        {
          assert tail[j] == steps[j + 1] && tail[j - 1] == steps[j];
        }
      }
      if |tail| > 0 {
        assert tail[0] == steps[1];
      }
      VisitAllLinked(a, tail, expanded, selected);
    }
  }

  lemma {:induction false} BuildFacts(arena: Arena, paths: seq<string>, expanded: set<string>, selected: set<string>, inherited: set<string>)
    requires Wf(arena, expanded, selected)
    ensures var r := Build(arena, paths, expanded, selected, inherited);
      && Wf(r, expanded, selected)
      && r.Keys == arena.Keys + (PathKeys(paths) - inherited)
    decreases |paths|
  {
    if paths != [] {
      var steps := Walk(paths[0]);
      var a := VisitAll(arena, steps, expanded, selected, inherited);
      WalkOk(paths[0]);
      VisitAllFacts(arena, steps, expanded, selected, inherited);
      BuildFacts(a, paths[1..], expanded, selected, inherited);
      assert PathKeys(paths) == StepKeys(steps) + PathKeys(paths[1..]);
    }
  }

  lemma {:induction false} BuildLinked(arena: Arena, paths: seq<string>, expanded: set<string>, selected: set<string>)
    requires Wf(arena, expanded, selected) && Linked(arena)
    ensures Linked(Build(arena, paths, expanded, selected, {}))
    decreases |paths|
  {
    if paths != [] {
      var steps := Walk(paths[0]);
      var a := VisitAll(arena, steps, expanded, selected, {});
      WalkOk(paths[0]);
      VisitAllFacts(arena, steps, expanded, selected, {});
      VisitAllLinked(arena, steps, expanded, selected);
      BuildLinked(a, paths[1..], expanded, selected);
    }
  }

  /** Records are never rewritten once created: later paths only append
      children, so every field of a record, its kind included, is the one its
      first visit gave it. */
  lemma {:induction false} BuildKeepsRecords(arena: Arena, paths: seq<string>, expanded: set<string>, selected: set<string>, inherited: set<string>)
    requires Wf(arena, expanded, selected)
    ensures var r := Build(arena, paths, expanded, selected, inherited);
      forall k :: k in arena ==> k in r && r[k].(children := []) == arena[k].(children := [])
    decreases |paths|
  {
    if paths != [] {
      var steps := Walk(paths[0]);
      var a := VisitAll(arena, steps, expanded, selected, inherited);
      WalkOk(paths[0]);
      VisitAllFacts(arena, steps, expanded, selected, inherited);
      BuildKeepsRecords(a, paths[1..], expanded, selected, inherited);
    }
  }

  /** The populated arena is well formed for any inherited names, holds the root
      plus exactly the visited keys that are not inherited, and, when nothing is
      inherited, keeps every key exactly once under its parent. */
  lemma PopulateFacts(paths: seq<string>, expanded: set<string>, selected: set<string>, inherited: set<string>)
    ensures var r := Populate(paths, expanded, selected, inherited);
      && Wf(r, expanded, selected)
      && r.Keys == {RootKey} + (PathKeys(paths) - inherited)
      && (inherited == {} ==> Linked(r))
  {
    InitialWf(expanded, selected);
    BuildFacts(InitialArena(expanded), paths, expanded, selected, inherited);
    if inherited == {} {
      BuildLinked(InitialArena(expanded), paths, expanded, selected);
    }
  }
}
