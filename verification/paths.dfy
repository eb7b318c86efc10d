/** Entry paths: `/`-separated strings, split and joined the way JavaScript's
    `split('/')` and `join('/')` do, and the parent/child key arithmetic the tree
    builder uses. */
module Paths {

  const Sep: char := '/'

  /** The key of the synthetic root node. */
  const RootKey: string := "/"

  /** `s.split('/')`: always at least one part, parts never contain the separator,
      consecutive or edge separators produce empty parts. */
  function Split(s: string): (parts: seq<string>)
    ensures |parts| >= 1
    ensures forall i :: 0 <= i < |parts| ==> Sep !in parts[i]
  {
    if |s| == 0 then [""]
    else
      var rest := Split(s[1..]);
      if s[0] == Sep then [""] + rest
      else [[s[0]] + rest[0]] + rest[1..]
  }

  /** `parts.join('/')` for a non-empty array. */
  function Join(parts: seq<string>): string
    requires |parts| >= 1
  {
    if |parts| == 1 then parts[0] else parts[0] + [Sep] + Join(parts[1..])
  }

  predicate NoSepIn(parts: seq<string>)
  {
    forall i :: 0 <= i < |parts| ==> Sep !in parts[i]
  }

  /** Joining the parts of a split gives back the original string. */
  lemma {:induction false} JoinSplit(s: string)
    ensures Join(Split(s)) == s
    decreases |s|
  {
    if |s| > 0 {
      JoinSplit(s[1..]);
      var rest := Split(s[1..]);
      if s[0] == Sep {
        assert Join([""] + rest) == "" + [Sep] + Join(rest) by {
          assert ([""] + rest)[1..] == rest;
        }
        assert s == [s[0]] + s[1..];
      } else {
        var parts := [[s[0]] + rest[0]] + rest[1..];
        if |rest| == 1 {
          assert s == [s[0]] + rest[0];
        } else {
          assert parts[1..] == rest[1..];
          assert Join(rest) == rest[0] + [Sep] + Join(rest[1..]);
          assert s == [s[0]] + s[1..];
        }
      }
    }
  }

  /** Splitting a string with no separator in front of a separator-led tail. */
  lemma {:induction false} SplitPrefix(a: string, t: string)
    requires Sep !in a
    ensures Split(a + t) == [a + Split(t)[0]] + Split(t)[1..]
    decreases |a|
  {
    if |a| > 0 {
      SplitPrefix(a[1..], t);
      var st := Split(t);
      var rest := Split((a + t)[1..]);
      assert (a + t)[1..] == a[1..] + t;
      assert rest == [a[1..] + st[0]] + st[1..];
      assert rest[0] == a[1..] + st[0] && rest[1..] == st[1..];
      assert (a + t)[0] == a[0] != Sep;
      assert [a[0]] + (a[1..] + st[0]) == a + st[0];
    } else {
      assert a + t == t;
      assert a + Split(t)[0] == Split(t)[0];
      assert Split(t) == [Split(t)[0]] + Split(t)[1..];
    }
  }

  /** Splitting the join of separator-free parts gives back the parts. */
  lemma {:induction false} SplitJoin(parts: seq<string>)
    requires |parts| >= 1 && NoSepIn(parts)
    ensures Split(Join(parts)) == parts
    decreases |parts|
  {
    if |parts| == 1 {
      SplitPrefix(parts[0], "");
      assert parts[0] + "" == parts[0];
    } else {
      var tail := Join(parts[1..]);
      SplitJoin(parts[1..]);
      SplitPrefix(parts[0], [Sep] + tail);
      assert ([Sep] + tail)[1..] == tail;
      assert Split([Sep] + tail) == [""] + Split(tail);
      assert parts[0] + [Sep] + tail == parts[0] + ([Sep] + tail);
      assert ([""] + Split(tail))[1..] == Split(tail);
      assert parts[0] + "" == parts[0];
      assert parts == [parts[0]] + parts[1..];
    }
  }

  lemma NoSepInAppend(p: seq<string>, q: seq<string>)
    requires NoSepIn(p) && NoSepIn(q)
    ensures NoSepIn(p + q)
  {
    var r := p + q;
    forall i | 0 <= i < |r|
      ensures Sep !in r[i]
    {
      if i < |p| {
        assert r[i] == p[i];
      } else {
        assert r[i] == q[i - |p|];
      }
    }
  }

  /** A separator splits a string into the parts of its two sides. */
  lemma SplitAppend(a: string, b: string)
    ensures Split(a + [Sep] + b) == Split(a) + Split(b)
  {
    var pa := Split(a);
    var pb := Split(b);
    JoinSplit(a);
    JoinSplit(b);
    JoinAppend(pa, pb);
    NoSepInAppend(pa, pb);
    assert Join(pa + pb) == a + [Sep] + b;
    SplitJoin(pa + pb);
  }

  /** Joining two non-empty part lists puts one separator between them. */
  lemma {:induction false} JoinAppend(p: seq<string>, q: seq<string>)
    requires |p| >= 1 && |q| >= 1
    ensures Join(p + q) == Join(p) + [Sep] + Join(q)
    decreases |p|
  {
    if |p| > 1 {
      JoinAppend(p[1..], q);
      assert (p + q)[1..] == p[1..] + q;
    } else {
      assert (p + q)[1..] == q;
    }
  }

  /** Joining peels off the last part behind one separator. */
  lemma {:induction false} JoinLast(parts: seq<string>)
    requires |parts| >= 2
    ensures Join(parts) == Join(parts[..|parts| - 1]) + [Sep] + parts[|parts| - 1]
    decreases |parts|
  {
    var n := |parts|;
    if n > 2 {
      JoinLast(parts[1..]);
      assert parts[1..][..n - 2] == parts[..n - 1][1..];
      assert parts[1..][n - 2] == parts[n - 1];
    }
  }

  /** Index of the last separator before position `n`, or -1 when there is
      none. */
  function LastSepBelow(s: string, n: nat): (i: int)
    requires n <= |s|
    ensures -1 <= i < n
    ensures i >= 0 ==> s[i] == Sep
    ensures forall k :: i < k < n ==> s[k] != Sep
    decreases n
  {
    if n == 0 then -1
    else if s[n - 1] == Sep then n - 1
    else LastSepBelow(s, n - 1)
  }

  /** Index of the last separator, or -1 when there is none. */
  function LastSep(s: string): (i: int)
    ensures -1 <= i < |s|
    ensures i >= 0 ==> s[i] == Sep && Sep !in s[i + 1..]
    ensures i < 0 ==> Sep !in s
  {
    var i := LastSepBelow(s, |s|);
    NoSepAfter(s, i);
    assert i < 0 ==> s[i + 1..] == s;
    i
  }

  lemma NoSepAfter(s: string, i: int)
    requires -1 <= i < |s|
    requires forall k :: i < k < |s| ==> s[k] != Sep
    ensures Sep !in s[i + 1..]
  {
    var t := s[i + 1..];
    forall j | 0 <= j < |t|
      ensures t[j] != Sep
    {
      assert t[j] == s[i + 1 + j];
    }
  }

  /** A separator with none after it is the last one. */
  lemma LastSepIs(s: string, j: int)
    requires 0 <= j < |s| && s[j] == Sep && Sep !in s[j + 1..]
    ensures LastSep(s) == j
  {
    var t := s[j + 1..];
    assert forall k :: j < k < |s| ==> s[k] == t[k - j - 1];
  }

  /** The key a node is attached under: everything before the last separator, or
      the root key when there is none. */
  function ParentOf(key: string): string
  {
    var i := LastSep(key);
    if i < 0 then RootKey else key[..i]
  }

  /** The builder's key for segment `name` under the node keyed `parent`; children
      of the root carry no leading separator. */
  function ChildKey(parent: string, name: string): string
  {
    if parent == RootKey then name else parent + [Sep] + name
  }

  /** Grows strictly from a parent key to each of its child keys. */
  function Rank(key: string): nat
  {
    if key == RootKey then 0 else |key| + 1
  }

  /** ParentOf inverts ChildKey. */
  lemma ParentOfChildKey(parent: string, name: string)
    requires parent != "" && Sep !in name
    ensures ChildKey(parent, name) != RootKey
    ensures ParentOf(ChildKey(parent, name)) == parent
  {
    var k := ChildKey(parent, name);
    assert RootKey[0] == Sep;
    if parent != RootKey {
      assert k[|parent|] == Sep;
      assert k[|parent| + 1..] == name;
      assert LastSep(k) == |parent|;
      assert k[..|parent|] == parent;
    }
  }

  /** Every key other than the root's has a parent of lower rank. */
  lemma ParentRank(key: string)
    requires key != RootKey
    ensures Rank(ParentOf(key)) < Rank(key)
  {
  }
}
