/** Stretches of sequences, and sequences of stretches. */
module Sequences {
  /** `e` stands in `s` at `pos`. */
  ghost predicate StandsAt<T>(s: seq<T>, pos: nat, e: seq<T>) {
    pos + |e| <= |s| && s[pos..pos + |e|] == e
  }

  lemma StandsAtEnds<T>(s: seq<T>, pos: nat, e: seq<T>)
    requires StandsAt(s, pos, e)
    ensures pos + |e| <= |s|
  {
  }

  lemma StandsAtConcat<T>(s: seq<T>, pos: nat, a: seq<T>, b: seq<T>)
    requires StandsAt(s, pos, a + b)
    ensures StandsAt(s, pos, a) && StandsAt(s, pos + |a|, b)
  {
    assert a == (a + b)[..|a|] && b == (a + b)[|a|..];
  }

  lemma StandsAtItem<T>(s: seq<T>, pos: nat, e: seq<T>, k: nat)
    requires StandsAt(s, pos, e) && k < |e|
    ensures pos + k < |s| && s[pos + k] == e[k]
  {
    assert s[pos..pos + |e|][k] == e[k];
  }

  /** The first position of an item, or -1. */
  function IndexOf<T(==)>(s: seq<T>, x: T): (i: int)
    ensures -1 <= i < |s|
    ensures i >= 0 ==> s[i] == x && x !in s[..i]
    ensures i < 0 ==> x !in s
  {
    if s == [] then -1
    else if s[0] == x then 0
    else
      var i := IndexOf(s[1..], x);
      assert s == [s[0]] + s[1..];
      if i < 0 then -1
      else
        assert s[..i + 1] == [s[0]] + s[1..][..i];
        i + 1
  }

  function Flatten<T>(parts: seq<seq<T>>): seq<T> {
    if parts == [] then [] else parts[0] + Flatten(parts[1..])
  }

  lemma {:induction false} FlattenStep<T>(parts: seq<seq<T>>, p: seq<T>)
    ensures Flatten(parts + [p]) == Flatten(parts) + p
  {
    if parts == [] {
      assert (parts + [p])[1..] == [];
    } else {
      assert (parts + [p])[1..] == parts[1..] + [p];
      FlattenStep(parts[1..], p);
    }
  }

  lemma {:induction false} FlattenAppend<T>(a: seq<seq<T>>, b: seq<seq<T>>)
    ensures Flatten(a + b) == Flatten(a) + Flatten(b)
  {
    if a == [] {
      assert a + b == b;
    } else {
      assert (a + b)[1..] == a[1..] + b;
      FlattenAppend(a[1..], b);
    }
  }

  lemma ConcatGroups<T>(a: seq<T>, b: seq<T>, c: seq<T>)
    ensures a + b + c == a + (b + c)
  {
  }

  lemma NothingMore<T>(s: seq<T>)
    ensures s + [] == s
  {
  }

  lemma DropTwice<T>(s: seq<T>, a: nat, b: nat)
    requires a + b <= |s|
    ensures s[a..][b..] == s[a + b..]
  {
  }

  /** Insertion by a sort that only asks whether the new item goes before another. */
  function Insert<T>(before: (T, T) -> bool, x: T, s: seq<T>): (r: seq<T>)
    ensures |r| == |s| + 1
  {
    if s == [] then [x] else if before(x, s[0]) then [x] + s else [s[0]] + Insert(before, x, s[1..])
  }

  lemma {:induction false} InsertAdds<T>(before: (T, T) -> bool, x: T, s: seq<T>)
    ensures multiset(Insert(before, x, s)) == multiset(s) + multiset{x}
  {
    if s != [] && !before(x, s[0]) {
      InsertAdds(before, x, s[1..]);
      assert s == [s[0]] + s[1..];
    }
  }

  lemma {:induction false} InsertIn<T>(before: (T, T) -> bool, x: T, s: seq<T>, y: T)
    ensures y in Insert(before, x, s) <==> y == x || y in s
  {
    if s != [] && !before(x, s[0]) {
      InsertIn(before, x, s[1..], y);
      assert s == [s[0]] + s[1..];
    }
  }
}
