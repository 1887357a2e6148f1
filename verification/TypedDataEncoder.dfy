/** The constructor of the typed-data encoder: its maps, its search, and what they mean. */
module TypedDataEncoder {
  import opened Wrappers
  import opened TypedData

  // ---------- the search, on values ----------

  /** The search from `t` below the names in `found` has to fail. */
  ghost predicate Bad(g: Graph, found: set<string>, t: string) {
    exists x :: Star(g, t, x) && (x in found || OnCycle(g, x))
  }

  lemma BadFromChild(g: Graph, found: set<string>, t: string, c: string)
    requires Edge(g, t, c) && Bad(g, found + {t}, c)
    ensures Bad(g, found, t)
  {
    hide Reach;
    var x :| Star(g, c, x) && (x in found + {t} || OnCycle(g, x));
    EdgeReaches(g, t, c);
    ReachTrans(g, t, c, x);
  }

  lemma BadHere(g: Graph, found: set<string>, t: string)
    requires t in found
    ensures Bad(g, found, t)
  {
    assert Star(g, t, t);
  }

  lemma BadBelow(g: Graph, found: set<string>, t: string) returns (c: string)
    requires t !in found && Bad(g, found, t)
    ensures Edge(g, t, c) && Bad(g, found + {t}, c)
  {
    hide Reach;
    var x :| Star(g, t, x) && (x in found || OnCycle(g, x));
    ReachIff(g, t, x);
    c :| Edge(g, t, c) && Star(g, c, x);
  }

  lemma NotBad(g: Graph, found: set<string>, t: string)
    requires t !in found && forall c :: Edge(g, t, c) ==> !Bad(g, found + {t}, c)
    ensures !Bad(g, found, t)
  {
    hide Bad;
    if Bad(g, found, t) {
      var _ := BadBelow(g, found, t);
    }
  }

  /** What the search from `t` adds to the subtypes of `x`. */
  ghost predicate Gains(g: Graph, found: set<string>, t: string, x: string, y: string) {
    (x in found && Reach(g, t, y)) || (Star(g, t, x) && Reach(g, x, y))
  }

  /** What the search from `t` adds because of its child `c`. */
  ghost predicate GainsByChild(g: Graph, found: set<string>, t: string, c: string, x: string, y: string) {
    (x in found + {t} && Star(g, c, y)) || (Star(g, c, x) && Reach(g, x, y))
  }

  ghost predicate GainsByChildren(g: Graph, found: set<string>, t: string, cs: seq<string>, x: string, y: string) {
    exists j :: 0 <= j < |cs| && cs[j] in g && GainsByChild(g, found, t, cs[j], x, y)
  }

  lemma GainsIff(g: Graph, found: set<string>, t: string, x: string, y: string)
    requires t in g
    ensures Gains(g, found, t, x, y) <==> GainsByChildren(g, found, t, g[t], x, y)
  {
    hide Reach;
    if Gains(g, found, t, x, y) {
      if x in found + {t} && Reach(g, t, y) {
        ReachIff(g, t, y);
        var c :| Edge(g, t, c) && Star(g, c, y);
        assert GainsByChild(g, found, t, c, x, y);
      } else {
        ReachIff(g, t, x);
        var c :| Edge(g, t, c) && Star(g, c, x);
        assert GainsByChild(g, found, t, c, x, y);
      }
    }
    if j :| 0 <= j < |g[t]| && g[t][j] in g && GainsByChild(g, found, t, g[t][j], x, y) {
      var c := g[t][j];
      assert Edge(g, t, c);
      if Star(g, c, y) {
        ReachIff(g, t, y);
      }
      if Star(g, c, x) {
        ReachIff(g, t, x);
      }
    }
  }

  lemma GainsByOneMore(g: Graph, found: set<string>, t: string, cs: seq<string>, c: string, x: string, y: string)
    ensures GainsByChildren(g, found, t, cs + [c], x, y) <==>
            GainsByChildren(g, found, t, cs, x, y) || (c in g && GainsByChild(g, found, t, c, x, y))
  {
    hide Reach, Star, GainsByChild;
    var more := cs + [c];
    if j :| 0 <= j < |cs| && cs[j] in g && GainsByChild(g, found, t, cs[j], x, y) {
      assert more[j] == cs[j];
    }
    if c in g && GainsByChild(g, found, t, c, x, y) {
      assert more[|cs|] == c;
    }
  }

  /** The child's own search, and then the child itself for everything on the path. */
  lemma ChildGains(g: Graph, found: set<string>, t: string, c: string, x: string, y: string)
    ensures GainsByChild(g, found, t, c, x, y) <==>
            Gains(g, found + {t}, c, x, y) || (x in found + {t} && y == c)
  {
  }

  /** The subtypes after the search from `t`, against those before it. */
  ghost predicate Searched(g: Graph, found: set<string>, t: string, before: map<string, set<string>>, after: map<string, set<string>>) {
    && before.Keys == g.Keys && after.Keys == g.Keys
    && forall x, y :: x in g ==> (y in after[x] <==> y in before[x] || Gains(g, found, t, x, y))
  }

  ghost predicate SearchedChildren(g: Graph, found: set<string>, t: string, cs: seq<string>,
                                   before: map<string, set<string>>, after: map<string, set<string>>)
  {
    && before.Keys == g.Keys && after.Keys == g.Keys
    && forall x, y :: x in g ==> (y in after[x] <==> y in before[x] || GainsByChildren(g, found, t, cs, x, y))
  }

  lemma NoneSearched(g: Graph, found: set<string>, t: string, before: map<string, set<string>>)
    requires before.Keys == g.Keys
    ensures SearchedChildren(g, found, t, [], before, before)
  {
  }

  lemma SkippedChild(g: Graph, found: set<string>, t: string, cs: seq<string>, c: string,
                     before: map<string, set<string>>, after: map<string, set<string>>)
    requires c !in g && SearchedChildren(g, found, t, cs, before, after)
    ensures SearchedChildren(g, found, t, cs + [c], before, after)
  {
    hide GainsByChildren;
    forall x, y | x in g
      ensures y in after[x] <==> y in before[x] || GainsByChildren(g, found, t, cs + [c], x, y)
    {
      GainsByOneMore(g, found, t, cs, c, x, y);
    }
  }

  /** The search below none of these children has to fail. */
  ghost predicate NoneBad(g: Graph, found: set<string>, cs: seq<string>) {
    forall j :: 0 <= j < |cs| && cs[j] in g ==> !Bad(g, found, cs[j])
  }

  lemma NoneBadStep(g: Graph, found: set<string>, cs: seq<string>, c: string)
    requires NoneBad(g, found, cs) && (c in g ==> !Bad(g, found, c))
    ensures NoneBad(g, found, cs + [c])
  {
    hide Bad;
  }

  lemma NoChildBad(g: Graph, found: set<string>, t: string)
    requires t in g && t !in found && NoneBad(g, found + {t}, g[t])
    ensures !Bad(g, found, t)
  {
    hide Bad;
    forall c | Edge(g, t, c)
      ensures !Bad(g, found + {t}, c)
    {
      var j :| 0 <= j < |g[t]| && g[t][j] == c;
    }
    NotBad(g, found, t);
  }

  lemma NoChildrenYet(g: Graph, found: set<string>)
    ensures NoneBad(g, found, [])
  {
  }

  /** Adding the child to everything on the path, after its own search. */
  function Mark(subtypes: map<string, set<string>>, found: set<string>, c: string): map<string, set<string>> {
    map n | n in subtypes :: if n in found then subtypes[n] + {c} else subtypes[n]
  }

  lemma SearchedChild(g: Graph, found: set<string>, t: string, cs: seq<string>, c: string,
                      before: map<string, set<string>>, mid: map<string, set<string>>, after: map<string, set<string>>)
    requires c in g && SearchedChildren(g, found, t, cs, before, mid) && Searched(g, found + {t}, c, mid, after)
    ensures SearchedChildren(g, found, t, cs + [c], before, Mark(after, found + {t}, c))
  {
    hide GainsByChildren, Gains, GainsByChild;
    var marked := Mark(after, found + {t}, c);
    forall x, y | x in g
      ensures y in marked[x] <==> y in before[x] || GainsByChildren(g, found, t, cs + [c], x, y)
    {
      ChildGains(g, found, t, c, x, y);
      GainsByOneMore(g, found, t, cs, c, x, y);
    }
  }

  lemma SearchedAll(g: Graph, found: set<string>, t: string, before: map<string, set<string>>, after: map<string, set<string>>)
    requires t in g && SearchedChildren(g, found, t, g[t], before, after)
    ensures Searched(g, found, t, before, after)
  {
    hide GainsByChildren, Gains;
    forall x, y | x in g
      ensures y in after[x] <==> y in before[x] || Gains(g, found, t, x, y)
    {
      GainsIff(g, found, t, x, y);
    }
  }

  // ---------- linking ----------

  /** One entry for every field of that type. */
  function Occurrences(name: string, b: string, refs: seq<string>): seq<string> {
    if refs == [] then []
    else Occurrences(name, b, refs[..|refs| - 1]) + if refs[|refs| - 1] == b then [name] else []
  }

  lemma {:induction false} OccursIff(name: string, b: string, refs: seq<string>)
    ensures Occurrences(name, b, refs) != [] <==> b in refs
  {
    if refs != [] {
      OccursIff(name, b, refs[..|refs| - 1]);
      assert refs == refs[..|refs| - 1] + [refs[|refs| - 1]];
    }
  }

  function ParentsOf(names: seq<string>, types: Types, b: string): seq<string>
    requires forall n :: n in names ==> n in types
  {
    if names == [] then []
    else
      var last := names[|names| - 1];
      ParentsOf(names[..|names| - 1], types, b) + Occurrences(last, b, StructRefs(types[last]))
  }

  lemma {:induction false} ParentsIff(names: seq<string>, types: Types, b: string)
    requires forall n :: n in names ==> n in types
    ensures ParentsOf(names, types, b) != [] <==> exists n :: n in names && RefersTo(types[n], b)
  {
    hide RefersTo, StructRefs;
    if names != [] {
      var init, last := names[..|names| - 1], names[|names| - 1];
      ParentsIff(init, types, b);
      OccursIff(last, b, StructRefs(types[last]));
      StructRefsAre(types[last], b);
      assert names == init + [last];
    }
  }

  ghost predicate ParentsAdded(before: map<string, seq<string>>, after: map<string, seq<string>>, name: string, refs: seq<string>) {
    before.Keys == after.Keys && forall b :: b in before ==> after[b] == before[b] + Occurrences(name, b, refs)
  }

  /** The maps after the first fields of a struct. */
  ghost predicate Linked(name: string, fields: seq<Field>, uniqueNames: set<string>,
                         links0: Graph, links: Graph, parents0: Graph, parents: Graph)
  {
    && FieldsOk(links0.Keys, name, fields)
    && uniqueNames == (set f | f in fields :: f.name)
    && links == links0[name := AddAll(StructRefs(fields))]
    && ParentsAdded(parents0, parents, name, StructRefs(fields))
  }

  lemma NothingLinked(name: string, links0: Graph, parents0: Graph)
    requires name in links0 && links0[name] == []
    ensures Linked(name, [], {}, links0, links0, parents0, parents0)
  {
  }

  lemma StructRefsStep(fields: seq<Field>, f: Field)
    ensures StructRefs(fields + [f]) ==
            StructRefs(fields) + if BaseEncoder(BaseType(f.typ)).NotBase? then [BaseType(f.typ)] else []
  {
    assert (fields + [f])[..|fields|] == fields;
  }

  lemma FieldsStep(names: set<string>, name: string, fields: seq<Field>, f: Field)
    requires FieldsOk(names, name, fields)
    ensures FieldsOk(names, name, fields + [f]) <==>
            f.name !in (set g | g in fields :: g.name) && FieldOk(names, name, f)
  {
    hide FieldOk;
    var more, used := fields + [f], set g | g in fields :: g.name;
    assert more[|fields|] == f;
    if f.name in used {
      var g :| g in fields && g.name == f.name;
      var i :| 0 <= i < |fields| && fields[i] == g;
      assert more[i].name == more[|fields|].name;
    } else {
      assert forall i :: 0 <= i < |fields| ==> fields[i] in fields && more[i] == fields[i];
    }
  }

  lemma FieldsPrefix(names: set<string>, name: string, fields: seq<Field>, k: nat)
    requires k <= |fields|
    ensures FieldsOk(names, name, fields) ==> FieldsOk(names, name, fields[..k])
  {
    hide FieldOk;
    assert forall i :: 0 <= i < k ==> fields[..k][i] == fields[i];
  }

  lemma NamesStep(fields: seq<Field>, f: Field)
    ensures (set g | g in fields + [f] :: g.name) == (set g | g in fields :: g.name) + {f.name}
  {
    var all, some := set g | g in fields + [f] :: g.name, set g | g in fields :: g.name;
    assert f in fields + [f];
    forall n | n in some
      ensures n in all
    {
      var g :| g in fields && g.name == n;
      assert g in fields + [f];
    }
  }

  lemma LinkedBase(name: string, fields: seq<Field>, f: Field, used: set<string>,
                   links0: Graph, links: Graph, parents0: Graph, parents: Graph)
    requires Linked(name, fields, used, links0, links, parents0, parents)
    requires f.name !in used && FieldOk(links0.Keys, name, f) && BaseEncoder(BaseType(f.typ)).IsBase?
    ensures Linked(name, fields + [f], used + {f.name}, links0, links, parents0, parents)
  {
    hide FieldsOk, FieldOk, AddAll, ParentsAdded, BaseEncoder, BaseType, StructRefs;
    FieldsStep(links0.Keys, name, fields, f);
    StructRefsStep(fields, f);
    NamesStep(fields, f);
    assert StructRefs(fields) + [] == StructRefs(fields);
  }

  lemma LinkedStruct(name: string, fields: seq<Field>, f: Field, used: set<string>,
                     links0: Graph, links: Graph, parents0: Graph, parents: Graph)
    requires Linked(name, fields, used, links0, links, parents0, parents)
    requires f.name !in used && FieldOk(links0.Keys, name, f) && BaseEncoder(BaseType(f.typ)).NotBase?
    requires name in links && BaseType(f.typ) in parents
    ensures var b := BaseType(f.typ);
            Linked(name, fields + [f], used + {f.name}, links0, links[name := AddOnce(links[name], b)],
                   parents0, parents[b := parents[b] + [name]])
  {
    hide FieldsOk, FieldOk, BaseEncoder, BaseType, StructRefs, AddAll, AddOnce, ParentsAdded;
    var refs, b := StructRefs(fields), BaseType(f.typ);
    FieldsStep(links0.Keys, name, fields, f);
    StructRefsStep(fields, f);
    NamesStep(fields, f);
    AddAllStep(refs, b);
    ParentsStep(parents0, parents, name, refs, b);
    assert links[name] == AddAll(refs);
    assert links0[name := AddAll(refs)][name := AddAll(refs + [b])] == links0[name := AddAll(refs + [b])];
  }

  lemma AddAllStep(refs: seq<string>, b: string)
    ensures AddAll(refs + [b]) == AddOnce(AddAll(refs), b)
  {
    assert (refs + [b])[..|refs|] == refs;
  }

  lemma ParentsStep(before: Graph, mid: Graph, name: string, refs: seq<string>, b: string)
    requires ParentsAdded(before, mid, name, refs) && b in mid
    ensures ParentsAdded(before, mid[b := mid[b] + [name]], name, refs + [b])
  {
    hide Occurrences;
    var after := mid[b := mid[b] + [name]];
    forall x | x in before
      ensures after[x] == before[x] + Occurrences(name, x, refs + [b])
    {
      OccurrencesStep(name, x, refs, b);
      assert x != b ==> Occurrences(name, x, refs) + [] == Occurrences(name, x, refs);
    }
  }

  lemma OccurrencesStep(name: string, x: string, refs: seq<string>, b: string)
    ensures Occurrences(name, x, refs + [b]) == Occurrences(name, x, refs) + if b == x then [name] else []
  {
    assert (refs + [b])[..|refs|] == refs;
  }

  ghost predicate IsRecord(names: seq<string>, types: Types) {
    && (set n | n in names) == types.Keys
    && forall i, j :: 0 <= i < j < |names| ==> names[i] != names[j]
  }

  /** The maps after the first structs. */
  ghost predicate AllLinked(names: seq<string>, types: Types, links: Graph, parents: Graph) {
    && (forall n :: n in names ==> n in types && FieldsOk(types.Keys, n, types[n]))
    && links.Keys == types.Keys && parents.Keys == types.Keys
    && (forall n :: n in types ==> links[n] == if n in names then AddAll(StructRefs(types[n])) else [])
    && forall b :: b in types ==> parents[b] == ParentsOf(names, types, b)
  }

  lemma AllLinkedStep(names: seq<string>, name: string, types: Types, links: Graph, links': Graph, parents: Graph, parents': Graph)
    requires AllLinked(names, types, links, parents) && name in types && name !in names
    requires FieldsOk(types.Keys, name, types[name])
    requires links' == links[name := AddAll(StructRefs(types[name]))]
    requires ParentsAdded(parents, parents', name, StructRefs(types[name]))
    ensures AllLinked(names + [name], types, links', parents')
  {
    hide FieldsOk, AddAll, StructRefs, Occurrences, ParentsOf;
    forall n | n in names + [name]
      ensures n in types && FieldsOk(types.Keys, n, types[n])
    {
    }
    forall b | b in types
      ensures parents'[b] == ParentsOf(names + [name], types, b)
    {
      ParentsOfStep(names, name, types, b);
    }
  }

  lemma ParentsOfStep(names: seq<string>, name: string, types: Types, b: string)
    requires name in types && forall n :: n in names ==> n in types
    ensures forall n :: n in names + [name] ==> n in types
    ensures ParentsOf(names + [name], types, b) == ParentsOf(names, types, b) + Occurrences(name, b, StructRefs(types[name]))
  {
    assert (names + [name])[..|names|] == names;
  }

  /** Once everything is linked, the links are the graph, and the names without parents its sources. */
  lemma LinkedIsGraph(names: seq<string>, types: Types, links: Graph, parents: Graph)
    requires IsRecord(names, types) && AllLinked(names, types, links, parents)
    ensures links == GraphOf(types)
    ensures forall b :: b in types ==> (parents[b] == [] <==> forall a :: !Edge(links, a, b))
  {
    hide FieldsOk, AddAll, StructRefs, Edge, RefersTo;
    assert forall n :: n in types ==> n in names;
    assert links == GraphOf(types);
    forall b | b in types
      ensures parents[b] == [] <==> forall a :: !Edge(links, a, b)
    {
      ParentsIff(names, types, b);
      forall a
        ensures Edge(links, a, b) <==> a in types && RefersTo(types[a], b)
      {
        GraphEdges(types, a, b);
      }
    }
  }

  // ---------- the encoder ----------

  class Encoder {
    var links: map<string, seq<string>>
    var parents: map<string, seq<string>>
    var subtypes: map<string, set<string>>
    var found: set<string>

    ghost predicate Valid()
      reads this
    {
      links.Keys == parents.Keys == subtypes.Keys
    }

    constructor (names: seq<string>)
      ensures Valid() && links.Keys == (set n | n in names) && found == {}
      ensures forall n :: n in names ==> links[n] == [] && parents[n] == [] && subtypes[n] == {}
    {
      links := map n | n in names :: [];
      parents := map n | n in names :: [];
      subtypes := map n | n in names :: {};
      found := {};
    }

    /** `checkCircular`: depth first, with the path in `found`. */
    method CheckCircular(typ: string) returns (ok: bool)
      requires Valid() && typ in links && found <= links.Keys
      modifies this`subtypes, this`found
      ensures Valid()
      ensures ok <==> !Bad(links, old(found), typ)
      ensures ok ==> found == old(found) && Searched(links, old(found), typ, old(subtypes), subtypes)
      decreases |links.Keys| - |found|, 0
    {
      hide Bad, Searched, SearchedChildren;
      if typ in found {
        BadHere(links, found, typ);
        return false;
      }
      ghost var path, before := found, subtypes;
      SmallerSet(found, links.Keys, typ);
      found := found + {typ};
      ok := CheckChildren(typ, path);
      if !ok {
        return;
      }
      SearchedAll(links, path, typ, before, subtypes);
      found := found - {typ};
      assert found == path;
    }

    /** The loop over the children. */
    method CheckChildren(typ: string, ghost path: set<string>) returns (ok: bool)
      requires Valid() && typ in links && typ !in path && found == path + {typ} && found <= links.Keys
      modifies this`subtypes, this`found
      ensures Valid()
      ensures ok <==> !Bad(links, path, typ)
      ensures ok ==> found == old(found) && SearchedChildren(links, path, typ, links[typ], old(subtypes), subtypes)
      decreases |links.Keys| - |found|, 1
    {
      hide Bad, Searched, SearchedChildren, NoneBad;
      var children := links[typ];
      NoneSearched(links, path, typ, subtypes);
      NoChildrenYet(links, path + {typ});
      assert children[..0] == [];
      for i := 0 to |children|
        invariant Valid() && found == path + {typ}
        invariant NoneBad(links, path + {typ}, children[..i])
        invariant SearchedChildren(links, path, typ, children[..i], old(subtypes), subtypes)
      {
        var child := children[i];
        ghost var mid := subtypes;
        assert children[..i + 1] == children[..i] + [child];
        if child !in parents {
          SkippedChild(links, path, typ, children[..i], child, old(subtypes), subtypes);
          NoneBadStep(links, path + {typ}, children[..i], child);
          continue;
        }
        ok := CheckCircular(child);
        if !ok {
          assert Edge(links, typ, child);
          BadFromChild(links, path, typ, child);
          return;
        }
        NoneBadStep(links, path + {typ}, children[..i], child);
        SearchedChild(links, path, typ, children[..i], child, old(subtypes), mid, subtypes);
        subtypes := Mark(subtypes, found, child);
      }
      assert children[..|children|] == children;
      NoChildBad(links, path, typ);
      ok := true;
    }

    /** The loop over the fields of one struct. */
    method LinkFields(name: string, fields: seq<Field>) returns (ok: bool)
      requires Valid() && name in links && links[name] == []
      modifies this`links, this`parents
      ensures Valid() && links.Keys == old(links.Keys)
      ensures ok <==> FieldsOk(links.Keys, name, fields)
      ensures ok ==> links == old(links)[name := AddAll(StructRefs(fields))]
      ensures ok ==> ParentsAdded(old(parents), parents, name, StructRefs(fields))
    {
      hide Linked, FieldsOk, AddAll, StructRefs, ParentsAdded, BaseType, BaseEncoder;
      var uniqueNames: set<string> := {};
      NothingLinked(name, links, parents);
      assert fields[..0] == [];
      for i := 0 to |fields|
        invariant Valid() && links.Keys == old(links.Keys)
        invariant Linked(name, fields[..i], uniqueNames, old(links), links, old(parents), parents)
      {
        var f := fields[i];
        assert fields[..i + 1] == fields[..i] + [f];
        LinkedMeans(name, fields[..i], uniqueNames, old(links), links, old(parents), parents);
        FieldsStep(links.Keys, name, fields[..i], f);
        var baseType := BaseType(f.typ);
        if f.name in uniqueNames || baseType == "" || baseType == name || BaseEncoder(baseType).Throws? ||
           (BaseEncoder(baseType).NotBase? && baseType !in parents) {
          FieldsPrefix(links.Keys, name, fields, i + 1);
          return false;
        }
        if BaseEncoder(baseType).IsBase? {
          LinkedBase(name, fields[..i], f, uniqueNames, old(links), links, old(parents), parents);
          uniqueNames := uniqueNames + {f.name};
          continue;
        }
        LinkedStruct(name, fields[..i], f, uniqueNames, old(links), links, old(parents), parents);
        uniqueNames := uniqueNames + {f.name};
        parents := parents[baseType := parents[baseType] + [name]];
        links := links[name := AddOnce(links[name], baseType)];
      }
      assert fields[..|fields|] == fields;
      LinkedMeans(name, fields, uniqueNames, old(links), links, old(parents), parents);
      ok := true;
    }

    /** The loop over the structs. */
    method LinkAll(names: seq<string>, types: Types) returns (ok: bool)
      requires Valid() && IsRecord(names, types) && links.Keys == types.Keys
      requires forall n :: n in types ==> links[n] == [] && parents[n] == []
      modifies this`links, this`parents
      ensures Valid() && links.Keys == types.Keys
      ensures ok <==> forall n :: n in types ==> FieldsOk(types.Keys, n, types[n])
      ensures ok ==> links == GraphOf(types)
      ensures ok ==> forall b :: b in types ==> (parents[b] == [] <==> forall a :: !Edge(links, a, b))
    {
      hide FieldsOk, StructRefs, AddAll, ParentsAdded, Edge, GraphOf;
      assert names[..0] == [];
      for i := 0 to |names|
        invariant Valid() && AllLinked(names[..i], types, links, parents)
      {
        hide AllLinked;
        assert names[i] in (set n | n in names);
        assert names[..i + 1] == names[..i] + [names[i]];
        AllLinkedMeans(names[..i], types, links, parents, names[i]);
        ghost var links0, parents0 := links, parents;
        ok := LinkFields(names[i], types[names[i]]);
        if !ok {
          AllLinkedKeys(names[..i], types, links0, parents0);
          return;
        }
        AllLinkedStep(names[..i], names[i], types, links0, links, parents0, parents);
      }
      assert names[..|names|] == names;
      LinkedIsGraph(names, types, links, parents);
      forall n | n in types
        ensures FieldsOk(types.Keys, n, types[n])
      {
        assert n in (set m | m in names);
      }
      ok := true;
    }
  }

  lemma AllLinkedMeans(names: seq<string>, types: Types, links: Graph, parents: Graph, name: string)
    requires AllLinked(names, types, links, parents) && name in types && name !in names
    ensures links.Keys == types.Keys && links[name] == []
  {
    hide FieldsOk, StructRefs, AddAll;
  }

  lemma AllLinkedKeys(names: seq<string>, types: Types, links: Graph, parents: Graph)
    requires AllLinked(names, types, links, parents)
    ensures links.Keys == types.Keys
  {
    hide FieldsOk, StructRefs, AddAll;
  }

  lemma LinkedMeans(name: string, fields: seq<Field>, used: set<string>,
                    links0: Graph, links: Graph, parents0: Graph, parents: Graph)
    requires Linked(name, fields, used, links0, links, parents0, parents)
    ensures FieldsOk(links0.Keys, name, fields) && used == (set f | f in fields :: f.name)
    ensures links == links0[name := AddAll(StructRefs(fields))]
    ensures ParentsAdded(parents0, parents, name, StructRefs(fields))
  {
  }

  // ---------- the constructor ----------

  datatype Compiled = Compiled(primaryType: string, subtypes: map<string, set<string>>)

  lemma SourcesAre(types: Types, links: Graph, parents: Graph, p: string)
    requires links == GraphOf(types) && parents.Keys == types.Keys && p in types
    requires forall b :: b in types ==> (parents[b] == [] <==> forall a :: !Edge(links, a, b))
    ensures IsOnlySource(links, p) <==> forall b :: b in types ==> (parents[b] == [] <==> b == p)
  {
    hide Edge, GraphOf;
    GraphKeys(types);
    forall b | b in types
      ensures parents[b] != [] <==> exists a :: Edge(links, a, b)
    {
    }
    if IsOnlySource(links, p) {
      forall b | b in types
        ensures parents[b] == [] <==> b == p
      {
      }
    }
  }

  /** Without a path behind it, the search fails exactly on a cycle, and collects what each type reaches. */
  lemma SearchFromRoot(g: Graph, p: string, before: map<string, set<string>>, after: map<string, set<string>>)
    ensures Bad(g, {}, p) <==> CycleFrom(g, p)
    ensures Searched(g, {}, p, before, after) && (forall n :: n in before ==> before[n] == {}) ==>
              forall s, y :: s in g ==> (y in after[s] <==> Star(g, p, s) && Reach(g, s, y))
  {
    hide Reach;
  }

  /**
   * The constructor up to the texts: it accepts exactly the well-formed types with one primary type
   * below which there is no cycle, and gives every type it reaches the set of types it refers to.
   */
  method Compile(names: seq<string>, types: Types) returns (r: Result<Compiled>)
    requires IsRecord(names, types)
    ensures r.Ok? <==> exists p :: Accepted(types, p)
    ensures r.Ok? ==> Accepted(types, r.value.primaryType) && r.value.subtypes.Keys == types.Keys
    ensures r.Ok? ==> forall s, y :: s in types ==>
              (y in r.value.subtypes[s] <==>
               Star(GraphOf(types), r.value.primaryType, s) && Reach(GraphOf(types), s, y))
  {
    hide FieldsOk, Reach, Star, CycleFrom, GraphOf, IsOnlySource, Bad, Searched, IsRecord, Accepted;
    var encoder, linked := Link(names, types);
    if !linked {
      BadFieldsRejected(types);
      return Err;
    }
    var primary := FindPrimary(names, types, encoder.parents);
    if primary.None? {
      NoSourceRejected(types);
      return Err;
    }
    ghost var before := encoder.subtypes;
    GraphKeys(types);
    var ok := encoder.CheckCircular(primary.value);
    AcceptedIffAcyclic(types, primary.value);
    SearchFromRoot(encoder.links, primary.value, before, encoder.subtypes);
    if !ok {
      return Err;
    }
    r := Ok(Compiled(primary.value, encoder.subtypes));
  }

  /** The first stage: a new encoder, and all the fields linked. */
  method Link(names: seq<string>, types: Types) returns (encoder: Encoder, linked: bool)
    requires IsRecord(names, types)
    ensures fresh(encoder) && encoder.Valid() && encoder.found == {}
    ensures linked <==> forall n :: n in types ==> FieldsOk(types.Keys, n, types[n])
    ensures linked ==> encoder.links == GraphOf(types) && ParentsReverse(types, encoder.parents)
    ensures forall n :: n in encoder.subtypes ==> encoder.subtypes[n] == {}
  {
    hide FieldsOk, GraphOf, IsRecord, Edge;
    encoder := new Encoder(names);
    RecordNames(names, types);
    linked := encoder.LinkAll(names, types);
  }

  /** The names without an entry are those that nothing refers to. */
  ghost predicate ParentsReverse(types: Types, parents: map<string, seq<string>>) {
    parents.Keys == types.Keys && forall b :: b in types ==> (parents[b] == [] <==> forall a :: !Edge(GraphOf(types), a, b))
  }

  /** The second stage: the only name without parents. */
  method FindPrimary(names: seq<string>, types: Types, parents: map<string, seq<string>>) returns (primary: Option<string>)
    requires IsRecord(names, types) && ParentsReverse(types, parents)
    ensures match primary
            case None => forall p :: !IsOnlySource(GraphOf(types), p)
            case Some(q) => q in types && IsOnlySource(GraphOf(types), q) && forall p :: IsOnlySource(GraphOf(types), p) ==> p == q
  {
    hide IsRecord, IsOnlySource, GraphOf, Edge;
    RecordNames(names, types);
    RecordDistinct(names, types);
    var primaryTypes := PrimaryTypes(names, parents);
    OneSource(types, GraphOf(types), parents, names, primaryTypes);
    primary := if |primaryTypes| != 1 then None else Some(primaryTypes[0]);
  }

  lemma BadFieldsRejected(types: Types)
    requires exists n :: n in types && !FieldsOk(types.Keys, n, types[n])
    ensures forall p :: !Accepted(types, p)
  {
    hide FieldsOk;
  }

  lemma NoSourceRejected(types: Types)
    requires forall p :: !IsOnlySource(GraphOf(types), p)
    ensures forall p :: !Accepted(types, p)
  {
    hide IsOnlySource, GraphOf, FieldsOk;
  }

  /** With one source and fields in order, the absence of a cycle below it decides. */
  lemma AcceptedIffAcyclic(types: Types, primary: string)
    requires forall n :: n in types ==> FieldsOk(types.Keys, n, types[n])
    requires IsOnlySource(GraphOf(types), primary) && forall p :: IsOnlySource(GraphOf(types), p) ==> p == primary
    ensures Accepted(types, primary) <==> !CycleFrom(GraphOf(types), primary)
    ensures forall p :: Accepted(types, p) ==> p == primary
  {
    hide IsOnlySource, GraphOf, FieldsOk, CycleFrom;
  }

  lemma RecordNames(names: seq<string>, types: Types)
    requires IsRecord(names, types)
    ensures (set n | n in names) == types.Keys && forall n :: n in types <==> n in names
  {
    assert forall n :: n in types ==> n in (set m | m in names);
  }

  lemma RecordDistinct(names: seq<string>, types: Types)
    requires IsRecord(names, types)
    ensures forall i, j :: 0 <= i < j < |names| ==> names[i] != names[j]
  {
  }

  /** The names without parents, in order. */
  method PrimaryTypes(names: seq<string>, parents: map<string, seq<string>>) returns (r: seq<string>)
    requires forall n :: n in names ==> n in parents
    requires forall i, j :: 0 <= i < j < |names| ==> names[i] != names[j]
    ensures forall n :: n in r <==> n in names && n in parents && parents[n] == []
    ensures forall j, k :: 0 <= j < k < |r| ==> r[j] != r[k]
  {
    r := [];
    assert names[..0] == [];
    for i := 0 to |names|
      invariant forall n :: n in r <==> n in names[..i] && n in parents && parents[n] == []
      invariant forall j, k :: 0 <= j < k < |r| ==> r[j] != r[k]
    {
      assert names[i] in names && names[i] !in names[..i];
      assert names[..i + 1] == names[..i] + [names[i]];
      if parents[names[i]] == [] {
        forall j | 0 <= j < |r|
          ensures r[j] != names[i]
        {
          assert r[j] in r;
        }
        r := r + [names[i]];
      }
    }
    assert names[..|names|] == names;
  }

  lemma OneSource(types: Types, links: Graph, parents: Graph, names: seq<string>, primaryTypes: seq<string>)
    requires IsRecord(names, types) && links == GraphOf(types) && parents.Keys == types.Keys
    requires forall b :: b in types ==> (parents[b] == [] <==> forall a :: !Edge(links, a, b))
    requires forall n :: n in primaryTypes <==> n in names && n in types && parents[n] == []
    requires forall j, k :: 0 <= j < k < |primaryTypes| ==> primaryTypes[j] != primaryTypes[k]
    ensures |primaryTypes| == 1 ==> primaryTypes[0] in types && IsOnlySource(links, primaryTypes[0])
    ensures forall p :: IsOnlySource(links, p) ==> |primaryTypes| == 1 && primaryTypes[0] == p
  {
    hide IsOnlySource, Edge, GraphOf;
    GraphKeys(types);
    assert forall n :: n in types ==> n in (set m | m in names);
    if |primaryTypes| == 1 {
      assert primaryTypes[0] in primaryTypes;
      SourcesAre(types, links, parents, primaryTypes[0]);
    }
    forall p | IsOnlySource(links, p)
      ensures |primaryTypes| == 1 && primaryTypes[0] == p
    {
      SourceInside(links, p);
      SourcesAre(types, links, parents, p);
      OnlyMember(primaryTypes, p);
    }
  }

  lemma GraphKeys(types: Types)
    ensures GraphOf(types).Keys == types.Keys
  {
  }

  lemma SourceInside(g: Graph, p: string)
    requires IsOnlySource(g, p)
    ensures p in g
  {
  }

  lemma OnlyMember(list: seq<string>, p: string)
    requires forall n :: n in list <==> n == p
    requires forall j, k :: 0 <= j < k < |list| ==> list[j] != list[k]
    ensures |list| == 1 && list[0] == p
  {
    assert |list| > 1 ==> list[0] != list[1];
    assert p in list;
    forall j | 0 <= j < |list|
      ensures list[j] == p
    {
      assert list[j] in list;
    }
  }
}
