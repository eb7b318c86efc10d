/** The keys and fields one entry path's segment walk produces, for paths that
    do not start with a separator: step `i` carries the first `i + 1` segments
    joined back together, so every key is the entry itself or the entry cut
    just before one of its separators. */
module Walks {
  import opened Paths
  import opened TreeArena

  /** Entry paths as an archive lists them: no leading separator. A leading
      separator yields an empty first segment, and the builder treats the empty
      running path as "no parent yet", which shifts every later key. */
  predicate NoLeadingSep(f: string)
  {
    |f| == 0 || f[0] != Sep
  }

  /** The last segment of a key. */
  function LastPart(key: string): string
  {
    var parts := Split(key);
    parts[|parts| - 1]
  }

  /** The prefixes of `f` that end just before one of its separators. */
  function Cuts(f: string): set<string>
  {
    set j | 0 <= j < |f| && f[j] == Sep :: f[..j]
  }

  /** What a step of the walk of `f` looks like: its name is the key's last
      segment, its level the key's segment count less one, it is the last step
      exactly when its key is `f`, and its key is `f` or one of its cuts. */
  predicate Shaped(s: Step, f: string)
  {
    && s.name == LastPart(s.key)
    && s.level == |Split(s.key)| - 1
    && s.isLast == (s.key == f)
    && (s.key == f || s.key in Cuts(f))
  }

  /** Step `i` of a walk over `parts`: the first `i + 1` parts joined, under
      the first `i` joined (or the root), named by part `i`. */
  function ExpectedStep(parts: seq<string>, i: nat): Step
    requires i < |parts|
  {
    Step(Join(parts[..i + 1]), if i == 0 then RootKey else Join(parts[..i]), parts[i], i, i == |parts| - 1)
  }

  lemma {:induction false} StepsFromLength(parts: seq<string>, index: nat, current: string)
    requires index <= |parts|
    ensures |StepsFrom(parts, index, current)| == |parts| - index
    decreases |parts| - index
  {
    if index < |parts| {
      var key := if current == "" then parts[index] else current + [Sep] + parts[index];
      StepsFromLength(parts, index + 1, key);
    }
  }

  /** Visit `i` of the inner loop started at segment `index` is the expected
      step, given that the running path so far is the first `index` parts
      joined. */
  lemma {:induction false} StepsFromAt(parts: seq<string>, index: nat, current: string, i: nat)
    requires NoSepIn(parts) && index <= i < |parts|
    requires index == 0 ==> current == "" && (parts[0] != "" || |parts| == 1)
    requires 0 < index ==> current == Join(parts[..index]) && current != ""
    ensures |StepsFrom(parts, index, current)| == |parts| - index
    ensures StepsFrom(parts, index, current)[i - index] == ExpectedStep(parts, i)
    decreases |parts| - index
  {
    StepsFromLength(parts, index, current);
    FirstStepShape(parts, index, current);
    if index < i {
      var key := if current == "" then parts[index] else current + [Sep] + parts[index];
      var tail := StepsFrom(parts, index + 1, key);
      assert StepsFrom(parts, index, current)[i - index] == tail[i - (index + 1)];
      StepsFromAt(parts, index + 1, key, i);
    }
  }

  /** The first visit from segment `index` on is the expected one, and the
      running path it leaves is the first `index + 1` parts joined. */
  lemma FirstStepShape(parts: seq<string>, index: nat, current: string)
    requires NoSepIn(parts) && index < |parts|
    requires index == 0 ==> current == "" && (parts[0] != "" || |parts| == 1)
    requires 0 < index ==> current == Join(parts[..index]) && current != ""
    ensures StepsFrom(parts, index, current)[0] == ExpectedStep(parts, index)
    ensures var key := if current == "" then parts[index] else current + [Sep] + parts[index];
      && key == Join(parts[..index + 1])
      && (index + 1 < |parts| ==> key != "")
  {
    var part := parts[index];
    if index == 0 {
      assert parts[..1] == [part];
    } else {
      JoinAppend(parts[..index], [part]);
      assert parts[..index] + [part] == parts[..index + 1];
    }
  }

  /** Step `i` of the walk of `f` visits the first `i + 1` segments joined. */
  lemma WalkShape(f: string)
    requires NoLeadingSep(f)
    ensures |Walk(f)| == |Split(f)|
    ensures forall i :: 0 <= i < |Split(f)| ==> Walk(f)[i] == ExpectedStep(Split(f), i)
  {
    StepsFromLength(Split(f), 0, "");
    forall i | 0 <= i < |Split(f)|
      ensures Walk(f)[i] == ExpectedStep(Split(f), i)
    {
      WalkStep(f, i);
    }
  }

  /** Without a leading separator the first segment is empty only when the
      whole path is. */
  lemma SplitHead(f: string)
    requires NoLeadingSep(f)
    ensures Split(f)[0] != "" || |Split(f)| == 1
  {
    if |f| > 0 {
      assert Split(f)[0] == [f[0]] + Split(f[1..])[0];
    }
  }

  /** Step `i` of the walk, one index at a time. */
  lemma WalkStep(f: string, i: int)
    requires NoLeadingSep(f)
    ensures |Walk(f)| == |Split(f)|
    ensures 0 <= i < |Split(f)| ==> Walk(f)[i] == ExpectedStep(Split(f), i)
  {
    StepsFromLength(Split(f), 0, "");
    if 0 <= i < |Split(f)| {
      SplitHead(f);
      StepsFromAt(Split(f), 0, "", i);
    }
  }

  /** The first `i + 1` parts joined split back into themselves. */
  lemma JoinedPrefix(parts: seq<string>, i: int)
    requires NoSepIn(parts) && 0 <= i < |parts|
    ensures Split(Join(parts[..i + 1])) == parts[..i + 1]
  {
    var head := parts[..i + 1];
    assert NoSepIn(head) by {
      forall k | 0 <= k < |head|
        ensures Sep !in head[k]
      {
        assert head[k] == parts[k];
      }
    }
    SplitJoin(head);
  }

  /** The remaining parts follow the first `i + 1` behind one separator. */
  lemma JoinedRest(parts: seq<string>, i: int)
    requires 0 <= i < |parts| - 1
    ensures Join(parts) == Join(parts[..i + 1]) + [Sep] + Join(parts[i + 1..])
  {
    var head := parts[..i + 1];
    var tail := parts[i + 1..];
    assert head + tail == parts;
    JoinAppend(head, tail);
  }

  lemma WalkStepShaped(f: string, i: int)
    requires NoLeadingSep(f) && 0 <= i < |Walk(f)|
    ensures Shaped(Walk(f)[i], f)
  {
    WalkStep(f, i);
    JoinSplit(f);
    PrefixShaped(Split(f), i);
  }

  /** The expected step `i` over separator-free parts is shaped for their
      join. */
  lemma PrefixShaped(parts: seq<string>, i: int)
    requires NoSepIn(parts) && 0 <= i < |parts|
    ensures Shaped(ExpectedStep(parts, i), Join(parts))
  {
    PrefixStepFields(parts, i);
    if i == |parts| - 1 {
      assert parts[..i + 1] == parts;
    } else {
      CutOfJoin(parts, i);
    }
  }

  /** The expected step `i` is named by its key's last segment and has the
      key's segment count less one as level. */
  lemma PrefixStepFields(parts: seq<string>, i: int)
    requires NoSepIn(parts) && 0 <= i < |parts|
    ensures ExpectedStep(parts, i).name == LastPart(ExpectedStep(parts, i).key)
    ensures ExpectedStep(parts, i).level == |Split(ExpectedStep(parts, i).key)| - 1
  {
    var key := Join(parts[..i + 1]);
    JoinedPrefix(parts, i);
    var split := Split(key);
    assert split == parts[..i + 1];
    assert |split| == i + 1 && split[i] == parts[i];
  }

  /** Joining fewer than all the parts gives a cut of the full join. */
  lemma CutOfJoin(parts: seq<string>, i: int)
    requires NoSepIn(parts) && 0 <= i < |parts| - 1
    ensures Join(parts[..i + 1]) != Join(parts)
    ensures Join(parts[..i + 1]) in Cuts(Join(parts))
  {
    var key := Join(parts[..i + 1]);
    var f := Join(parts);
    JoinedRest(parts, i);
    JoinedPrefix(parts, i);
    SplitJoin(parts);
    assert |Split(key)| != |Split(f)|;
    assert f[|key|] == Sep && f[..|key|] == key;
  }

  /** The last step's key is the entry itself. */
  lemma EntryIsKey(f: string)
    requires NoLeadingSep(f)
    ensures f in StepKeys(Walk(f))
  {
    var parts := Split(f);
    WalkStep(f, |parts| - 1);
    JoinSplit(f);
    assert parts[..|parts|] == parts;
    assert Walk(f)[|parts| - 1].key == f;
  }

  /** Every cut of the entry is visited. */
  lemma CutIsKey(f: string, j: int)
    requires NoLeadingSep(f) && 0 <= j < |f| && f[j] == Sep
    ensures f[..j] in StepKeys(Walk(f))
  {
    var parts := Split(f);
    var left := Split(f[..j]);
    assert f == f[..j] + [Sep] + f[j + 1..];
    SplitAppend(f[..j], f[j + 1..]);
    assert parts[..|left|] == left;
    JoinSplit(f[..j]);
    WalkStep(f, |left| - 1);
    assert Walk(f)[|left| - 1].key == f[..j];
  }

  /** Keys do not depend on the step index: walking the same parts one place
      further along a longer list visits the same keys. */
  lemma {:induction false} ShiftedStepKeys(x: string, parts: seq<string>, index: nat, current: string)
    requires index <= |parts|
    ensures StepKeys(StepsFrom([x] + parts, index + 1, current)) == StepKeys(StepsFrom(parts, index, current))
    decreases |parts| - index
  {
    if index < |parts| {
      var longer := StepsFrom([x] + parts, index + 1, current);
      var shorter := StepsFrom(parts, index, current);
      assert ([x] + parts)[index + 1] == parts[index];
      StepKeysCons(longer);
      StepKeysCons(shorter);
      ShiftedStepKeys(x, parts, index + 1, shorter[0].key);
    }
  }

  /** Separator-free parts walked from a key that does not start with the
      separator give only keys that are empty or do not start with it. */
  lemma {:induction false} StepKeysNoLeadingSep(parts: seq<string>, index: nat, current: string)
    requires index <= |parts|
    requires forall i :: 0 <= i < |parts| ==> Sep !in parts[i]
    requires current == "" || current[0] != Sep
    ensures forall k :: k in StepKeys(StepsFrom(parts, index, current)) ==> k == "" || k[0] != Sep
    decreases |parts| - index
  {
    if index < |parts| {
      var steps := StepsFrom(parts, index, current);
      var key := steps[0].key;
      assert Sep !in parts[index];
      assert key == "" || key[0] != Sep;
      StepKeysCons(steps);
      StepKeysNoLeadingSep(parts, index + 1, key);
    }
  }

  /** Why the walk lemmas exclude a leading separator: the empty first segment
      adds the empty key and the rest is walked as if it stood alone, so no
      key starts with the separator and the entry's own path is never visited. */
  lemma LeadingSepKeys(f: string)
    requires |f| > 0 && f[0] == Sep
    ensures StepKeys(Walk(f)) == {""} + StepKeys(Walk(f[1..]))
    ensures forall k :: k in StepKeys(Walk(f)) ==> k == "" || k[0] != Sep
    ensures f !in StepKeys(Walk(f))
  {
    var rest := Split(f[1..]);
    var parts := Split(f);
    assert parts == [""] + rest;
    var steps := StepsFrom(parts, 0, "");
    assert steps == Walk(f);
    assert parts[0] == "";
    assert steps[0].key == "" && steps[1..] == StepsFrom(parts, 1, "");
    StepKeysCons(steps);
    ShiftedStepKeys("", rest, 0, "");
    assert StepsFrom(rest, 0, "") == Walk(f[1..]);
    StepKeysNoLeadingSep(parts, 0, "");
  }

  /** The entry `/a` visits exactly the empty key and `a`. */
  lemma LeadingSepExample()
    ensures StepKeys(Walk("/a")) == {"", "a"}
  {
    LeadingSepKeys("/a");
    assert "/a"[1..] == "a";
    WalkKeys("a");
    assert Cuts("a") == {};
  }

  /** The keys an entry's walk visits are the entry and its cuts. */
  lemma WalkKeys(f: string)
    requires NoLeadingSep(f)
    ensures StepKeys(Walk(f)) == {f} + Cuts(f)
  {
    forall x | x in StepKeys(Walk(f))
      ensures x in {f} + Cuts(f)
    {
      var i :| 0 <= i < |Walk(f)| && Walk(f)[i].key == x;
      WalkStepShaped(f, i);
    }
    EntryIsKey(f);
    forall x | x in Cuts(f)
      ensures x in StepKeys(Walk(f))
    {
      var j :| 0 <= j < |f| && f[j] == Sep && f[..j] == x;
      CutIsKey(f, j);
    }
  }

  /** A key belongs to the visited keys of a list exactly when one of the
      list's walks visits it. */
  lemma {:induction false} PathKeysMember(paths: seq<string>, x: string)
    ensures x in PathKeys(paths) <==> exists i :: 0 <= i < |paths| && x in StepKeys(Walk(paths[i]))
    decreases |paths|
  {
    if paths != [] {
      PathKeysMember(paths[1..], x);
      if exists i :: 0 <= i < |paths| && x in StepKeys(Walk(paths[i])) {
        var i :| 0 <= i < |paths| && x in StepKeys(Walk(paths[i]));
        if i > 0 {
          assert paths[1..][i - 1] == paths[i];
        }
      }
      if exists i :: 0 <= i < |paths[1..]| && x in StepKeys(Walk(paths[1..][i])) {
        var i :| 0 <= i < |paths[1..]| && x in StepKeys(Walk(paths[1..][i]));
        assert paths[i + 1] == paths[1..][i];
      }
    }
  }

  /** For entries without a leading separator, the visited keys are the
      entries and their cuts. */
  lemma PathKeysMeaning(paths: seq<string>, x: string)
    requires forall f :: f in paths ==> NoLeadingSep(f)
    ensures x in PathKeys(paths) <==> exists f :: f in paths && (x == f || x in Cuts(f))
  {
    PathKeysMember(paths, x);
    if x in PathKeys(paths) {
      var i :| 0 <= i < |paths| && x in StepKeys(Walk(paths[i]));
      WalkKeys(paths[i]);
    }
    if exists f :: f in paths && (x == f || x in Cuts(f)) {
      var f :| f in paths && (x == f || x in Cuts(f));
      var i :| 0 <= i < |paths| && paths[i] == f;
      WalkKeys(f);
    }
  }
}
