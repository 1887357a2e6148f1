/** The full text of each type: its own text, then those of the types below it, sorted by name. */
module TypedDataText {
  import opened Wrappers
  import opened Sequences
  import opened TypedData
  import opened TypedDataEncoder

  /** The order of the default array sort: by code units. */
  predicate Less(a: string, b: string) {
    b != "" && (a == "" || a[0] < b[0] || (a[0] == b[0] && Less(a[1..], b[1..])))
  }

  lemma {:induction false} LessTotal(a: string, b: string)
    ensures Less(a, b) || Less(b, a) || a == b
    ensures !(Less(a, b) && Less(b, a)) && !Less(a, a)
  {
    if a != "" && b != "" && a[0] == b[0] {
      LessTotal(a[1..], b[1..]);
      assert a == [a[0]] + a[1..] && b == [b[0]] + b[1..];
    }
    if a != "" {
      LessTotal(a[1..], a[1..]);
    }
  }

  lemma {:induction false} LessTrans(a: string, b: string, c: string)
    requires Less(a, b) && Less(b, c)
    ensures Less(a, c)
  {
    if a != "" && a[0] == b[0] && b[0] == c[0] {
      LessTrans(a[1..], b[1..], c[1..]);
    }
  }

  /** One is the beginning of the other, or has the smaller character where they first differ. */
  ghost predicate ComesFirst(a: string, b: string) {
    exists k :: 0 <= k <= |a| && k < |b| && a[..k] == b[..k] && (k == |a| || a[k] < b[k])
  }

  lemma {:induction false} LessIff(a: string, b: string)
    ensures Less(a, b) <==> ComesFirst(a, b)
  {
    if a == "" || b == "" || a[0] != b[0] {
      assert b != "" ==> a[..0] == b[..0];
    } else {
      LessIff(a[1..], b[1..]);
      if ComesFirst(a, b) {
        var k :| 0 <= k <= |a| && k < |b| && a[..k] == b[..k] && (k == |a| || a[k] < b[k]);
        assert k > 0;
        assert a[1..][..k - 1] == a[..k][1..] && b[1..][..k - 1] == b[..k][1..];
      }
      if ComesFirst(a[1..], b[1..]) {
        var k :| 0 <= k <= |a[1..]| && k < |b[1..]| && a[1..][..k] == b[1..][..k] && (k == |a[1..]| || a[1..][k] < b[1..][k]);
        assert a[..k + 1] == [a[0]] + a[1..][..k] && b[..k + 1] == [b[0]] + b[1..][..k];
      }
    }
  }

  ghost predicate Ascending(s: seq<string>) {
    forall i, j :: 0 <= i < j < |s| ==> Less(s[i], s[j])
  }

  /** The names of a set in ascending order. */
  ghost predicate IsListing(s: seq<string>, names: set<string>) {
    Ascending(s) && forall n :: n in s <==> n in names
  }

  lemma {:induction false} ListingIsUnique(a: seq<string>, b: seq<string>, names: set<string>)
    requires IsListing(a, names) && IsListing(b, names)
    ensures a == b
    decreases |a|
  {
    hide Less;
    EmptyListing(a, names);
    EmptyListing(b, names);
    if a != [] {
      assert a[0] in b;
      var k :| 0 <= k < |b| && b[k] == a[0];
      assert b[0] in a;
      var m :| 0 <= m < |a| && a[m] == b[0];
      LessTotal(a[0], b[0]);
      assert a[0] == b[0];
      TailListing(a, names);
      TailListing(b, names);
      ListingIsUnique(a[1..], b[1..], names - {a[0]});
      assert a == [a[0]] + a[1..] && b == [b[0]] + b[1..];
    }
  }

  lemma EmptyListing(a: seq<string>, names: set<string>)
    requires IsListing(a, names)
    ensures a == [] <==> names == {}
  {
    if a != [] {
      assert a[0] in names;
    }
    if names != {} {
      var n :| n in names;
      assert n in a;
    }
  }

  lemma TailListing(a: seq<string>, names: set<string>)
    requires a != [] && IsListing(a, names)
    ensures IsListing(a[1..], names - {a[0]})
  {
    hide Less;
    LessTotal(a[0], a[0]);
    assert a == [a[0]] + a[1..];
    assert a[0] !in a[1..];
  }

  // ---------- sorting ----------

  lemma {:induction false} InsertAscends(n: string, s: seq<string>)
    requires Ascending(s) && n !in s
    ensures Ascending(Insert(Less, n, s))
  {
    hide Less;
    if s == [] {
    } else if Less(n, s[0]) {
      forall j | 0 <= j < |s|
        ensures Less(n, s[j])
      {
        if j > 0 {
          LessTrans(n, s[0], s[j]);
        }
      }
    } else {
      LessTotal(n, s[0]);
      var rest := Insert(Less, n, s[1..]);
      InsertAscends(n, s[1..]);
      forall j | 0 <= j < |rest|
        ensures Less(s[0], rest[j])
      {
        assert rest[j] in rest;
        InsertIn(Less, n, s[1..], rest[j]);
      }
      PrependAscends(s[0], rest);
    }
  }

  lemma PrependAscends(first: string, rest: seq<string>)
    requires Ascending(rest) && forall j :: 0 <= j < |rest| ==> Less(first, rest[j])
    ensures Ascending([first] + rest)
  {
  }

  /** `Array.from(set)` in any order, then `sort`. */
  method SortedNames(names: set<string>) returns (st: seq<string>)
    ensures IsListing(st, names)
  {
    hide Less, Insert;
    st := [];
    var rest := names;
    while rest != {}
      invariant rest <= names && IsListing(st, names - rest)
      decreases rest
    {
      var n :| n in rest;
      InsertAscends(n, st);
      forall m
        ensures m in Insert(Less, n, st) <==> m == n || m in st
      {
        InsertIn(Less, n, st, m);
      }
      st := Insert(Less, n, st);
      rest := rest - {n};
    }
  }

  // ---------- texts ----------

  function FieldText(f: Field): string {
    f.typ + " " + f.name
  }

  /** The texts of the fields, joined by commas. */
  function FieldTexts(fields: seq<Field>): string {
    if fields == [] then ""
    else
      var n := |fields| - 1;
      FieldTexts(fields[..n]) + ((if n > 0 then "," else "") + FieldText(fields[n]))
  }

  function EncodeType(name: string, fields: seq<Field>): string {
    name + "(" + FieldTexts(fields) + ")"
  }

  function EncodeAll(types: Types, names: seq<string>): string
    requires forall n :: n in names ==> n in types
  {
    if names == [] then ""
    else
      var last := names[|names| - 1];
      EncodeAll(types, names[..|names| - 1]) + EncodeType(last, types[last])
  }

  /** The text is that of the type followed by those of the set, in ascending order of names. */
  ghost predicate IsFullText(types: Types, name: string, below: set<string>, text: string)
    requires name in types && below <= types.Keys
  {
    exists st :: IsListing(st, below) && text == EncodeType(name, types[name]) + EncodeAll(types, st)
  }

  /** The order in which the search found the types does not matter. */
  lemma FullTextIsUnique(types: Types, name: string, below: set<string>, a: string, b: string)
    requires name in types && below <= types.Keys
    requires IsFullText(types, name, below, a) && IsFullText(types, name, below, b)
    ensures a == b
  {
    hide Ascending, EncodeAll, EncodeType;
    var s :| IsListing(s, below) && a == EncodeType(name, types[name]) + EncodeAll(types, s);
    var t :| IsListing(t, below) && b == EncodeType(name, types[name]) + EncodeAll(types, t);
    ListingIsUnique(s, t, below);
  }

  /** The last loop of the constructor. */
  method FullTypes(types: Types, subtypes: map<string, set<string>>) returns (texts: map<string, string>)
    requires subtypes.Keys == types.Keys
    requires forall n :: n in subtypes ==> subtypes[n] <= types.Keys
    ensures texts.Keys == types.Keys
    ensures forall n :: n in types ==> IsFullText(types, n, subtypes[n], texts[n])
  {
    hide IsListing, EncodeAll, EncodeType;
    texts := map[];
    var rest := types.Keys;
    while rest != {}
      invariant rest <= types.Keys && texts.Keys == types.Keys - rest
      invariant forall n :: n in texts ==> IsFullText(types, n, subtypes[n], texts[n])
      decreases rest
    {
      var name :| name in rest;
      var st := SortedNames(subtypes[name]);
      ListingMembers(st, subtypes[name]);
      var text := EncodeType(name, types[name]);
      text := text + EncodeAll(types, st);
      texts := texts[name := text];
      rest := rest - {name};
    }
  }

  lemma ListingMembers(st: seq<string>, names: set<string>)
    requires IsListing(st, names)
    ensures forall n :: n in st <==> n in names
  {
  }

  // ---------- the whole constructor ----------

  /** The names, in ascending order, of all that the type refers to, directly or not. */
  ghost predicate IsListingBelow(g: Graph, name: string, st: seq<string>) {
    Ascending(st) && forall y :: y in st <==> Reach(g, name, y)
  }

  /** A type's own text, then those of the types it refers to transitively, in ascending order. */
  ghost predicate IsEncodeType(types: Types, name: string, text: string)
    requires name in types
  {
    exists st :: IsListingBelow(GraphOf(types), name, st) && (forall y :: y in st ==> y in types) &&
                 text == EncodeType(name, types[name]) + EncodeAll(types, st)
  }

  /** `encodeType` determines the text. */
  lemma EncodeTypeIsUnique(types: Types, name: string, a: string, b: string)
    requires name in types && IsEncodeType(types, name, a) && IsEncodeType(types, name, b)
    ensures a == b
  {
    hide Ascending, EncodeAll, EncodeType, Reach, GraphOf;
    var g := GraphOf(types);
    var s :| IsListingBelow(g, name, s) && (forall y :: y in s ==> y in types) &&
             a == EncodeType(name, types[name]) + EncodeAll(types, s);
    var t :| IsListingBelow(g, name, t) && (forall y :: y in t ==> y in types) &&
             b == EncodeType(name, types[name]) + EncodeAll(types, t);
    var below := set y | y in s;
    ListingIsUnique(s, t, below);
  }

  lemma ReachedIsType(types: Types, a: string, b: string)
    requires Reach(GraphOf(types), a, b)
    ensures b in types
  {
    ReachIff(GraphOf(types), a, b);
    ReachedInGraph(GraphOf(types), a, b);
  }

  lemma ReachedInGraph(g: Graph, a: string, b: string)
    requires Reach(g, a, b)
    ensures b in g
  {
    var n: nat :| n > 0 && Walk(g, a, b, n);
    WalkEndsInside(g, a, b, n);
  }

  lemma {:induction false} WalkEndsInside(g: Graph, a: string, b: string, n: nat)
    requires n > 0 && Walk(g, a, b, n)
    ensures b in g
    decreases n
  {
    var m :| Edge(g, a, m) && Walk(g, m, b, n - 1);
    if n > 1 {
      WalkEndsInside(g, m, b, n - 1);
    }
  }

  lemma FullTextEncodes(types: Types, name: string, below: set<string>, text: string)
    requires name in types && below <= types.Keys && IsFullText(types, name, below, text)
    requires forall y :: y in below <==> Reach(GraphOf(types), name, y)
    ensures IsEncodeType(types, name, text)
  {
    hide Ascending, EncodeAll, EncodeType, Reach, GraphOf;
    var st :| IsListing(st, below) && text == EncodeType(name, types[name]) + EncodeAll(types, st);
    assert IsListingBelow(GraphOf(types), name, st);
  }

  /**
   * The constructor: for exactly the types that are accepted it gives a primary type, and to every
   * type that it reaches the text of that type and of all the types it refers to, sorted by name.
   */
  method Construct(names: seq<string>, types: Types) returns (r: Result<(string, map<string, string>)>)
    requires IsRecord(names, types)
    ensures r.Ok? <==> exists p :: Accepted(types, p)
    ensures r.Ok? ==> Accepted(types, r.value.0) && r.value.1.Keys == types.Keys
    ensures r.Ok? ==> forall n :: n in types && Star(GraphOf(types), r.value.0, n) ==> IsEncodeType(types, n, r.value.1[n])
  {
    hide Accepted, Reach, Star, GraphOf, IsFullText, IsEncodeType;
    var compiled := Compile(names, types);
    if compiled.Err? {
      return Err;
    }
    var primary, subtypes := compiled.value.primaryType, compiled.value.subtypes;
    forall n | n in subtypes
      ensures subtypes[n] <= types.Keys
    {
      forall y | y in subtypes[n]
        ensures y in types
      {
        ReachedIsType(types, n, y);
      }
    }
    var texts := FullTypes(types, subtypes);
    forall n | n in types && Star(GraphOf(types), primary, n)
      ensures IsEncodeType(types, n, texts[n])
    {
      FullTextEncodes(types, n, subtypes[n], texts[n]);
    }
    r := Ok((primary, texts));
  }
}
