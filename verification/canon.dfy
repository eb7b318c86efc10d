/** What the builder records for each key when the entry paths arrive sorted
    and none starts with a separator: the key's last segment as its name, its
    segment count less one as its level, and "directory" exactly when the key
    is not itself an entry. Sorting is what makes the kind right: an entry
    sorts before every path that continues it, so its own walk creates it. */
module TreeCanon {
  import opened Strings
  import opened Seqs
  import opened Paths
  import opened Sorting
  import opened TreeArena
  import opened Walks

  /** The record a key ends up with, children aside. */
  function CanonEntry(k: string, files: seq<string>, expanded: set<string>, selected: set<string>): Entry
  {
    Entry(LastPart(k), k, k !in files, [], |Split(k)| - 1, k in expanded, k in selected)
  }

  predicate Canonical(arena: Arena, files: seq<string>, expanded: set<string>, selected: set<string>)
  {
    forall k :: k in arena && k != RootKey ==> arena[k].(children := []) == CanonEntry(k, files, expanded, selected)
  }

  lemma VisitCanon(arena: Arena, s: Step, f: string, done: seq<string>, expanded: set<string>, selected: set<string>, inherited: set<string>)
    requires Wf(arena, expanded, selected) && StepOk(s) && Shaped(s, f)
    requires Canonical(arena, done + [f], expanded, selected)
    requires forall g :: g in done ==> g in arena || g in inherited
    ensures Canonical(Visit(arena, s, expanded, selected, inherited), done + [f], expanded, selected)
  {
    VisitFacts(arena, s, expanded, selected, inherited);
    var r := Visit(arena, s, expanded, selected, inherited);
    if s.key !in arena && s.key !in inherited {
      assert s.key !in done;
      CreatedIsCanon(s, f, done, expanded, selected);
    }
    forall k | k in r && k != RootKey
      ensures r[k].(children := []) == CanonEntry(k, done + [f], expanded, selected)
    {
      if k in arena {
        assert r[k].(children := []) == arena[k].(children := []);
      }
    }
  }

  /** A record created by a step of the walk of `f` is already the one the
      key ends up with, provided no earlier entry is that key. */
  lemma CreatedIsCanon(s: Step, f: string, done: seq<string>, expanded: set<string>, selected: set<string>)
    requires Shaped(s, f) && s.key !in done
    ensures Created(s, expanded, selected) == CanonEntry(s.key, done + [f], expanded, selected)
  {
    assert (s.key in done + [f]) == (s.key == f);
  }

  lemma {:induction false} VisitAllCanon(arena: Arena, steps: seq<Step>, f: string, done: seq<string>, expanded: set<string>, selected: set<string>, inherited: set<string>)
    requires Wf(arena, expanded, selected) && StepsOk(steps)
    requires forall i :: 0 <= i < |steps| ==> Shaped(steps[i], f)
    requires Canonical(arena, done + [f], expanded, selected)
    requires forall g :: g in done ==> g in arena || g in inherited
    ensures Canonical(VisitAll(arena, steps, expanded, selected, inherited), done + [f], expanded, selected)
    decreases |steps|
  {
    if steps != [] {
      var a := Visit(arena, steps[0], expanded, selected, inherited);
      VisitCanon(arena, steps[0], f, done, expanded, selected, inherited);
      VisitFacts(arena, steps[0], expanded, selected, inherited);
      var tail := steps[1..];
      assert forall i :: 0 <= i < |tail| ==> tail[i] == steps[i + 1];
      VisitAllCanon(a, tail, f, done, expanded, selected, inherited);
    }
  }

  lemma {:induction false} PathKeysSnoc(done: seq<string>, f: string)
    ensures PathKeys(done + [f]) == PathKeys(done) + StepKeys(Walk(f))
    decreases |done|
  {
    if done == [] {
      assert [] + [f] == [f];
      assert [f][1..] == [];
    } else {
      assert (done + [f])[0] == done[0];
      assert (done + [f])[1..] == done[1..] + [f];
      PathKeysSnoc(done[1..], f);
    }
  }

  /** Before an entry's own walk, a processed prefix of a sorted list can have
      visited the entry's key only through an earlier copy of the entry. */
  lemma SortedEntryNotYetVisited(done: seq<string>, rest: seq<string>)
    requires rest != [] && SortedBy(done + rest, LexLe)
    requires forall g :: g in done ==> NoLeadingSep(g)
    ensures rest[0] in PathKeys(done) ==> rest[0] in done
  {
    var f := rest[0];
    var all := done + rest;
    assert all[|done|] == f;
    if f in PathKeys(done) {
      PathKeysMember(done, f);
      var i :| 0 <= i < |done| && f in StepKeys(Walk(done[i]));
      var g := done[i];
      WalkKeys(g);
      if f != g {
        assert f in Cuts(g);
        var j :| 0 <= j < |g| && g[j] == Sep && g[..j] == f;
        assert |f| == j;
        assert all[i] == g;
        assert LexLe(all[i], all[|done|]);
        ProperPrefixBelow(f, g);
        assert false;
      }
    }
  }

  /** Every processed entry is an own key or an inherited name. */
  lemma DoneVisited(arena: Arena, done: seq<string>, inherited: set<string>)
    requires arena.Keys == {RootKey} + (PathKeys(done) - inherited)
    requires forall g :: g in done ==> NoLeadingSep(g)
    ensures forall g :: g in done ==> g in arena || g in inherited
  {
    forall g | g in done
      ensures g in arena || g in inherited
    {
      var i :| 0 <= i < |done| && done[i] == g;
      EntryIsKey(g);
      PathKeysMember(done, g);
    }
  }

  lemma WalkAllShaped(f: string)
    requires NoLeadingSep(f)
    ensures StepsOk(Walk(f))
    ensures forall i :: 0 <= i < |Walk(f)| ==> Shaped(Walk(f)[i], f)
  {
    WalkOk(f);
    forall i | 0 <= i < |Walk(f)|
      ensures Shaped(Walk(f)[i], f)
    {
      WalkStepShaped(f, i);
    }
  }

  /** Adding an entry that is not a key, or was already processed, changes
      no canonical record. */
  lemma CanonExtend(arena: Arena, done: seq<string>, f: string, expanded: set<string>, selected: set<string>)
    requires Canonical(arena, done, expanded, selected)
    requires f in arena ==> f in done
    ensures Canonical(arena, done + [f], expanded, selected)
  {
    forall k | k in arena && k != RootKey
      ensures CanonEntry(k, done, expanded, selected) == CanonEntry(k, done + [f], expanded, selected)
    {
      assert (k in done + [f]) == (k in done || k == f);
    }
  }

  /** Walking the next entry of a sorted list keeps every record canonical,
      with that entry added to the processed ones. */
  lemma StepCanon(arena: Arena, done: seq<string>, rest: seq<string>, expanded: set<string>, selected: set<string>, inherited: set<string>)
    requires rest != [] && SortedBy(done + rest, LexLe)
    requires forall g :: g in done ==> NoLeadingSep(g)
    requires NoLeadingSep(rest[0])
    requires Wf(arena, expanded, selected)
    requires arena.Keys == {RootKey} + (PathKeys(done) - inherited)
    requires Canonical(arena, done, expanded, selected)
    ensures Canonical(VisitAll(arena, Walk(rest[0]), expanded, selected, inherited), done + [rest[0]], expanded, selected)
  {
    var f := rest[0];
    assert RootKey[0] == Sep;
    SortedEntryNotYetVisited(done, rest);
    CanonExtend(arena, done, f, expanded, selected);
    DoneVisited(arena, done, inherited);
    WalkAllShaped(f);
    VisitAllCanon(arena, Walk(f), f, done, expanded, selected, inherited);
  }

  /** Walking one more entry adds exactly that entry's keys, less the
      inherited names, and keeps the arena well formed. */
  lemma StepAddsKeys(arena: Arena, done: seq<string>, f: string, expanded: set<string>, selected: set<string>, inherited: set<string>)
    requires Wf(arena, expanded, selected)
    requires arena.Keys == {RootKey} + (PathKeys(done) - inherited)
    ensures var a := VisitAll(arena, Walk(f), expanded, selected, inherited);
      && Wf(a, expanded, selected)
      && a.Keys == {RootKey} + (PathKeys(done + [f]) - inherited)
  {
    WalkOk(f);
    VisitAllFacts(arena, Walk(f), expanded, selected, inherited);
    PathKeysSnoc(done, f);
  }

  /** One outer iteration keeps the builder's invariant, with the entry just
      walked added to the processed ones. */
  lemma BuildCanonStep(arena: Arena, all: seq<string>, n: nat, expanded: set<string>, selected: set<string>, inherited: set<string>)
    requires n < |all| && SortedBy(all, LexLe)
    requires forall g :: g in all ==> NoLeadingSep(g)
    requires Wf(arena, expanded, selected)
    requires arena.Keys == {RootKey} + (PathKeys(all[..n]) - inherited)
    requires Canonical(arena, all[..n], expanded, selected)
    ensures var a := VisitAll(arena, Walk(all[n]), expanded, selected, inherited);
      && Wf(a, expanded, selected)
      && a.Keys == {RootKey} + (PathKeys(all[..n + 1]) - inherited)
      && Canonical(a, all[..n + 1], expanded, selected)
  {
    var done := all[..n];
    var rest := all[n..];
    TakeDrop(all, n);
    TakeSnoc(all, n);
    assert rest[0] == all[n] && all[n] in all;
    assert forall g :: g in done ==> g in all;
    StepCanon(arena, done, rest, expanded, selected, inherited);
    StepAddsKeys(arena, done, all[n], expanded, selected, inherited);
  }

  /** The outer loop from entry `n` on keeps every record canonical. */
  lemma {:induction false} BuildCanon(arena: Arena, all: seq<string>, n: nat, expanded: set<string>, selected: set<string>, inherited: set<string>)
    requires n <= |all| && SortedBy(all, LexLe)
    requires forall g :: g in all ==> NoLeadingSep(g)
    requires Wf(arena, expanded, selected)
    requires arena.Keys == {RootKey} + (PathKeys(all[..n]) - inherited)
    requires Canonical(arena, all[..n], expanded, selected)
    ensures Canonical(Build(arena, all[n..], expanded, selected, inherited), all, expanded, selected)
    decreases |all| - n
  {
    if n == |all| {
      assert all[..n] == all && all[n..] == [];
    } else {
      BuildCanonStep(arena, all, n, expanded, selected, inherited);
      var a := VisitAll(arena, Walk(all[n]), expanded, selected, inherited);
      assert all[n..][0] == all[n] && all[n..][1..] == all[n + 1..];
      BuildCanon(a, all, n + 1, expanded, selected, inherited);
    }
  }

  /** Built from a sorted list of entries without leading separators, every
      non-root record is the canonical one. */
  lemma PopulateCanon(paths: seq<string>, expanded: set<string>, selected: set<string>, inherited: set<string>)
    requires SortedBy(paths, LexLe)
    requires forall g :: g in paths ==> NoLeadingSep(g)
    ensures Canonical(Populate(paths, expanded, selected, inherited), paths, expanded, selected)
  {
    InitialWf(expanded, selected);
    assert paths[..0] == [] && paths[0..] == paths;
    BuildCanon(InitialArena(expanded), paths, 0, expanded, selected, inherited);
  }
}
