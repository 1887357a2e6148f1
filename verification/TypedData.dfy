/** Structured types as a graph: which type refers to which, and what each one reaches. */
module TypedData {
  import opened Wrappers
  import opened Decimal

  datatype Field = Field(name: string, typ: string)

  /** The record of types: its keys in order, and the fields of each. */
  type Types = map<string, seq<Field>>

  // ---------- base types ----------

  datatype Base = IsBase | NotBase | Throws

  function After(t: string, prefix: string): Option<string> {
    if |t| >= |prefix| && t[..|prefix|] == prefix then Some(t[|prefix|..]) else None
  }

  /** `getBaseEncoder`: a bare `int` or `uint`, or a width with a leading zero, throws. */
  function BaseEncoder(t: string): Base {
    var digits := match After(t, "uint") case Some(d) => Some(d) case None => After(t, "int");
    if digits.Some? && AllDigits(digits.value) then
      var width := if digits.value == "" then 256 else Parse(digits.value);
      if width % 8 == 0 && width != 0 && width <= 256 && digits.value == Print(width) then IsBase else Throws
    else
      var size := After(t, "bytes");
      if size.Some? && size.value != "" && AllDigits(size.value) then
        var width := Parse(size.value);
        if width != 0 && width <= 32 && size.value == Print(width) then IsBase else Throws
      else if t == "address" || t == "bool" || t == "bytes" || t == "string" then IsBase
      else NotBase
  }

  /** The type without its array specifiers: the part before the first bracket. */
  function BaseType(t: string): string {
    if t == "" || t[0] == '[' then "" else [t[0]] + BaseType(t[1..])
  }

  /** A field is refused when its base type is missing, malformed, the struct itself, or unknown. */
  predicate FieldOk(names: set<string>, name: string, f: Field) {
    var base := BaseType(f.typ);
    && base != "" && base != name
    && (BaseEncoder(base).IsBase? || (BaseEncoder(base).NotBase? && base in names))
  }

  predicate FieldsOk(names: set<string>, name: string, fields: seq<Field>) {
    && (forall i, j :: 0 <= i < j < |fields| ==> fields[i].name != fields[j].name)
    && forall i :: 0 <= i < |fields| ==> FieldOk(names, name, fields[i])
  }

  /** Some field of the struct is of struct type `b`, or an array of it. */
  predicate RefersTo(fields: seq<Field>, b: string) {
    exists i :: 0 <= i < |fields| && BaseType(fields[i].typ) == b && BaseEncoder(b).NotBase?
  }

  lemma NotPrefixed(t: string, prefix: string)
    requires prefix != "" && (t == "" || t[0] != prefix[0])
    ensures After(t, prefix) == None
  {
    if |t| >= |prefix| {
      assert t[..|prefix|][0] == t[0];
    }
  }

  lemma PrefixRemoved(prefix: string, rest: string)
    ensures After(prefix + rest, prefix) == Some(rest)
  {
    assert (prefix + rest)[..|prefix|] == prefix && (prefix + rest)[|prefix|..] == rest;
  }

  lemma IntegerDigits(digits: string)
    requires AllDigits(digits)
    ensures After("uint" + digits, "uint") == Some(digits)
    ensures After("int" + digits, "uint") == None && After("int" + digits, "int") == Some(digits)
  {
    PrefixRemoved("uint", digits);
    PrefixRemoved("int", digits);
    NotPrefixed("int" + digits, "uint");
  }

  /**
   * An integer type is encoded exactly if its digits are the numeral of a multiple of eight from 8
   * to 256; any other throws, the bare types among them.
   */
  lemma IntegerTypeIff(digits: string)
    requires AllDigits(digits)
    ensures BaseEncoder("uint" + digits) == BaseEncoder("int" + digits) != NotBase
    ensures BaseEncoder("uint" + digits) == IsBase <==> exists k :: 1 <= k <= 32 && digits == Print(8 * k)
  {
    hide Parse, Print, After;
    IntegerDigits(digits);
    var width := if digits == "" then 256 else Parse(digits);
    if k :| 1 <= k <= 32 && digits == Print(8 * k) {
      ParsePrint(8 * k);
    }
    if BaseEncoder("uint" + digits) == IsBase {
      assert 1 <= width / 8 <= 32 && digits == Print(8 * (width / 8));
    }
  }

  /** A bare `int` or `uint` is not taken for 256 bits: its missing digits are not that numeral. */
  lemma BareIntegersThrow()
    ensures BaseEncoder("int") == Throws && BaseEncoder("uint") == Throws
  {
    IntegerTypeIff("");
    assert "int" + "" == "int" && "uint" + "" == "uint";
  }

  lemma PrefixFound(t: string, prefix: string)
    requires After(t, prefix).Some?
    ensures t == prefix + After(t, prefix).value
  {
  }

  lemma NamedBaseType(t: string)
    requires t in {"address", "bool", "bytes", "string"}
    ensures BaseEncoder(t) == IsBase
  {
    hide Parse, Print;
    NotPrefixed(t, "uint");
    NotPrefixed(t, "int");
    if t == "bytes" {
      assert t + "" == t;
      PrefixRemoved("bytes", "");
    } else if t != "bool" {
      NotPrefixed(t, "bytes");
    }
  }

  lemma SizedBytesType(size: string)
    requires size != "" && AllDigits(size)
    ensures BaseEncoder("bytes" + size) == if exists k :: 1 <= k <= 32 && size == Print(k) then IsBase else Throws
  {
    hide Parse, Print, After;
    var t := "bytes" + size;
    assert t[0] == 'b';
    NotPrefixed(t, "uint");
    NotPrefixed(t, "int");
    PrefixRemoved("bytes", size);
    if k :| 1 <= k <= 32 && size == Print(k) {
      ParsePrint(k);
    }
  }

  /**
   * The types that have an encoder of their own: `address`, `bool`, `bytes`, `string`, `bytes1` to
   * `bytes32`, and `int8` to `int256` and `uint8` to `uint256` in steps of eight.
   */
  lemma BaseTypeIff(t: string)
    ensures BaseEncoder(t) == IsBase <==>
            || t in {"address", "bool", "bytes", "string"}
            || (exists k :: 1 <= k <= 32 && t == "bytes" + Print(k))
            || (exists k :: 1 <= k <= 32 && (t == "int" + Print(8 * k) || t == "uint" + Print(8 * k)))
  {
    hide After, Parse, Print;
    if BaseEncoder(t) == IsBase {
      if After(t, "uint").Some? && AllDigits(After(t, "uint").value) {
        PrefixFound(t, "uint");
        IntegerTypeIff(After(t, "uint").value);
      } else if After(t, "uint").None? && After(t, "int").Some? && AllDigits(After(t, "int").value) {
        PrefixFound(t, "int");
        IntegerTypeIff(After(t, "int").value);
      } else if After(t, "bytes").Some? && After(t, "bytes").value != "" && AllDigits(After(t, "bytes").value) {
        PrefixFound(t, "bytes");
        SizedBytesType(After(t, "bytes").value);
      }
    }
    if t in {"address", "bool", "bytes", "string"} {
      NamedBaseType(t);
    } else if k :| 1 <= k <= 32 && t == "bytes" + Print(k) {
      var size := Print(k);
      SizedBytesType(size);
      assert exists j :: 1 <= j <= 32 && size == Print(j);
    } else if k :| 1 <= k <= 32 && (t == "int" + Print(8 * k) || t == "uint" + Print(8 * k)) {
      var digits := Print(8 * k);
      IntegerTypeIff(digits);
      assert exists j :: 1 <= j <= 32 && digits == Print(8 * j);
      assert t == "int" + digits || t == "uint" + digits;
    }
  }

  /** The element type of an array, of however many dimensions, is what stands before the first bracket. */
  lemma {:induction false} ArrayBase(base: string, rest: string)
    requires '[' !in base
    ensures BaseType(base) == base && BaseType(base + ("[" + rest)) == base
  {
    var t := base + ("[" + rest);
    if base == "" {
      assert t[0] == '[';
    } else {
      ArrayBase(base[1..], rest);
      assert t[1..] == base[1..] + ("[" + rest) && base == [base[0]] + base[1..];
    }
  }

  // ---------- what a type reaches ----------

  /** A relation between the names, as lists of successors. */
  type Graph = map<string, seq<string>>

  predicate Edge(g: Graph, a: string, b: string) {
    a in g && b in g[a] && b in g
  }

  ghost predicate Walk(g: Graph, a: string, b: string, n: nat)
    decreases n
  {
    if n == 0 then a == b else exists m :: Edge(g, a, m) && Walk(g, m, b, n - 1)
  }

  /** `b` is a strict descendant of `a`. */
  ghost predicate Reach(g: Graph, a: string, b: string) {
    exists n: nat :: n > 0 && Walk(g, a, b, n)
  }

  ghost predicate Star(g: Graph, a: string, b: string) {
    a == b || Reach(g, a, b)
  }

  lemma {:induction false} WalkTrans(g: Graph, a: string, b: string, c: string, m: nat, n: nat)
    requires Walk(g, a, b, m) && Walk(g, b, c, n)
    ensures Walk(g, a, c, m + n)
    decreases m
  {
    if m > 0 {
      var next :| Edge(g, a, next) && Walk(g, next, b, m - 1);
      WalkTrans(g, next, b, c, m - 1, n);
    }
  }

  lemma ReachTrans(g: Graph, a: string, b: string, c: string)
    requires Star(g, a, b) && Star(g, b, c)
    ensures Star(g, a, c)
    ensures Reach(g, a, b) || Reach(g, b, c) ==> Reach(g, a, c)
  {
    if Reach(g, a, b) && Reach(g, b, c) {
      var m: nat :| m > 0 && Walk(g, a, b, m);
      var n: nat :| n > 0 && Walk(g, b, c, n);
      WalkTrans(g, a, b, c, m, n);
    }
  }

  /** The first step of a walk. */
  lemma ReachIff(g: Graph, a: string, b: string)
    ensures Reach(g, a, b) <==> exists m :: Edge(g, a, m) && Star(g, m, b)
  {
    if Reach(g, a, b) {
      var n: nat :| n > 0 && Walk(g, a, b, n);
      var m :| Edge(g, a, m) && Walk(g, m, b, n - 1);
      assert Star(g, m, b) by {
        if m != b {
          assert n - 1 > 0;
        }
      }
    }
    if m :| Edge(g, a, m) && Star(g, m, b) {
      EdgeReaches(g, a, m);
      ReachTrans(g, a, m, b);
    }
  }

  lemma EdgeReaches(g: Graph, a: string, m: string)
    requires Edge(g, a, m)
    ensures Reach(g, a, m)
  {
    assert Walk(g, m, m, 0);
    assert Walk(g, a, m, 1);
  }

  ghost predicate OnCycle(g: Graph, a: string) {
    Reach(g, a, a)
  }

  ghost predicate CycleFrom(g: Graph, a: string) {
    exists x :: Star(g, a, x) && OnCycle(g, x)
  }

  // ---------- an acyclic graph has all its nodes below its only source ----------

  /** Nobody refers to the source, and every other name has a parent. */
  ghost predicate IsOnlySource(g: Graph, p: string) {
    && p in g && (forall a :: !Edge(g, a, p))
    && forall b :: b in g && b != p ==> exists a :: Edge(g, a, b)
  }

  /** Going from child to parent without meeting a cycle ends at the source. */
  lemma {:induction false} ClimbToSource(g: Graph, p: string, s: string, seen: set<string>)
    requires IsOnlySource(g, p) && s in g && s !in seen && seen <= g.Keys
    requires forall x :: x in seen ==> Reach(g, s, x)
    requires forall x :: !OnCycle(g, x)
    ensures Star(g, p, s)
    decreases |g.Keys| - |seen|
  {
    hide Reach;
    SmallerSet(seen, g.Keys, s);
    if s != p {
      var a :| Edge(g, a, s);
      EdgeReaches(g, a, s);
      forall x | x in seen + {s}
        ensures Reach(g, a, x) && x != a
      {
        ReachTrans(g, a, s, x);
        assert !OnCycle(g, a);
      }
      ClimbToSource(g, p, a, seen + {s});
      ReachTrans(g, p, a, s);
    }
  }

  lemma SmallerSet(seen: set<string>, keys: set<string>, s: string)
    requires seen <= keys && s in keys && s !in seen
    ensures |seen + {s}| == |seen| + 1 && |seen| < |keys|
  {
    SubsetSize(seen + {s}, keys);
  }

  lemma {:induction false} SubsetSize(a: set<string>, b: set<string>)
    requires a <= b
    ensures |a| <= |b|
  {
    if a != {} {
      var x :| x in a;
      SubsetSize(a - {x}, b - {x});
    }
  }

  /**
   * A search from the only source finds every cycle exactly when it can get everywhere: where it
   * finds none, there is none at all if and only if every name is below the source.
   */
  lemma NoCycleIffAllReached(g: Graph, p: string)
    requires IsOnlySource(g, p) && !CycleFrom(g, p)
    ensures (forall x :: !OnCycle(g, x)) <==> (forall s :: s in g ==> Star(g, p, s))
  {
    hide Reach, IsOnlySource;
    if forall x :: !OnCycle(g, x) {
      forall s | s in g
        ensures Star(g, p, s)
      {
        ClimbToSource(g, p, s, {});
      }
    }
    if forall s :: s in g ==> Star(g, p, s) {
      if x :| OnCycle(g, x) {
        CycleReached(g, p, x);
      }
    }
  }

  lemma CycleReached(g: Graph, p: string, x: string)
    requires OnCycle(g, x) && forall s :: s in g ==> Star(g, p, s)
    ensures CycleFrom(g, p)
  {
    CycleInside(g, x);
  }

  lemma CycleInside(g: Graph, x: string)
    requires OnCycle(g, x)
    ensures x in g
  {
    var n: nat :| n > 0 && Walk(g, x, x, n);
  }

  // ---------- the graph of a record of types ----------

  /** The struct types that the fields refer to, in order and with repetitions. */
  function StructRefs(fields: seq<Field>): seq<string> {
    if fields == [] then []
    else
      var base := BaseType(fields[|fields| - 1].typ);
      StructRefs(fields[..|fields| - 1]) + if BaseEncoder(base).NotBase? then [base] else []
  }

  lemma {:induction false} StructRefsAre(fields: seq<Field>, b: string)
    ensures b in StructRefs(fields) <==> RefersTo(fields, b)
    decreases |fields|
  {
    hide BaseEncoder, BaseType;
    if fields != [] {
      StructRefsAre(fields[..|fields| - 1], b);
    }
  }

  /** A set in order of insertion. */
  function AddOnce(list: seq<string>, b: string): seq<string> {
    if b in list then list else list + [b]
  }

  function AddAll(refs: seq<string>): seq<string> {
    if refs == [] then [] else AddOnce(AddAll(refs[..|refs| - 1]), refs[|refs| - 1])
  }

  lemma {:induction false} AddAllIn(refs: seq<string>, b: string)
    ensures b in AddAll(refs) <==> b in refs
  {
    if refs != [] {
      AddAllIn(refs[..|refs| - 1], b);
      assert refs == refs[..|refs| - 1] + [refs[|refs| - 1]];
    }
  }

  function GraphOf(types: Types): Graph {
    map n | n in types :: AddAll(StructRefs(types[n]))
  }

  /** The edges are the references, once every field has been checked. */
  lemma GraphEdges(types: Types, a: string, b: string)
    ensures Edge(GraphOf(types), a, b) <==> a in types && b in types && RefersTo(types[a], b)
  {
    if a in types {
      AddAllIn(StructRefs(types[a]), b);
      StructRefsAre(types[a], b);
    }
  }

  /** The types that the constructor accepts. */
  ghost predicate Accepted(types: Types, primary: string) {
    && (forall n :: n in types ==> FieldsOk(types.Keys, n, types[n]))
    && IsOnlySource(GraphOf(types), primary)
    && !CycleFrom(GraphOf(types), primary)
  }

  // ---------- a cycle that goes unnoticed ----------

  const FIELDS_OF_A := [Field("x", "bool")]
  const FIELDS_OF_B := [Field("c", "C")]
  const FIELDS_OF_C := [Field("b", "B[]")]
  const HIDDEN_CYCLE: Types := map["A" := FIELDS_OF_A, "B" := FIELDS_OF_B, "C" := FIELDS_OF_C]

  lemma HiddenBases()
    ensures BaseType("bool") == "bool" && BaseType("C") == "C" && BaseType("B[]") == "B"
  {
    ArrayBase("bool", "");
    ArrayBase("C", "");
    ArrayBase("B", "]");
    assert "B" + ("[" + "]") == "B[]";
  }

  lemma HiddenEncoders()
    ensures BaseEncoder("bool") == IsBase && BaseEncoder("C") == NotBase && BaseEncoder("B") == NotBase
  {
    hide Parse, Print;
    assert "bool"[..4][0] == 'b' && "bool"[..3][0] == 'b';
    assert "uint"[0] == 'u' && "int"[0] == 'i';
    assert After("bool", "uint") == None && After("bool", "int") == None && After("bool", "bytes") == None;
  }

  lemma HiddenFields(names: set<string>)
    requires names == {"A", "B", "C"}
    ensures FieldsOk(names, "A", FIELDS_OF_A) && FieldsOk(names, "B", FIELDS_OF_B) && FieldsOk(names, "C", FIELDS_OF_C)
  {
    hide BaseType, BaseEncoder;
    HiddenBases();
    HiddenEncoders();
  }

  lemma HiddenReferences(b: string)
    ensures !RefersTo(FIELDS_OF_A, b) && (RefersTo(FIELDS_OF_B, b) <==> b == "C") && (RefersTo(FIELDS_OF_C, b) <==> b == "B")
  {
    hide BaseType, BaseEncoder;
    HiddenBases();
    HiddenEncoders();
    assert FIELDS_OF_B[0].typ == "C" && FIELDS_OF_C[0].typ == "B[]";
  }

  lemma TwoCycle(g: Graph)
    requires g.Keys == {"A", "B", "C"}
    requires forall a, b :: Edge(g, a, b) <==> (a == "B" && b == "C") || (a == "C" && b == "B")
    ensures IsOnlySource(g, "A") && !CycleFrom(g, "A") && OnCycle(g, "B")
  {
    hide Edge, Reach;
    assert Edge(g, "B", "C") && Edge(g, "C", "B");
    EdgeReaches(g, "B", "C");
    EdgeReaches(g, "C", "B");
    ReachTrans(g, "B", "C", "B");
    forall x
      ensures !Reach(g, "A", x)
    {
      ReachIff(g, "A", x);
    }
  }

  lemma HiddenKeys()
    ensures HIDDEN_CYCLE.Keys == {"A", "B", "C"} && GraphOf(HIDDEN_CYCLE).Keys == {"A", "B", "C"}
    ensures HIDDEN_CYCLE["A"] == FIELDS_OF_A && HIDDEN_CYCLE["B"] == FIELDS_OF_B && HIDDEN_CYCLE["C"] == FIELDS_OF_C
  {
  }

  lemma HiddenEdges(a: string, b: string)
    ensures Edge(GraphOf(HIDDEN_CYCLE), a, b) <==> (a == "B" && b == "C") || (a == "C" && b == "B")
  {
    hide RefersTo, Edge, GraphOf;
    GraphEdges(HIDDEN_CYCLE, a, b);
    HiddenReferences(b);
    HiddenKeys();
  }

  /** `B` and `C` contain each other, the primary type `A` neither: the types are accepted. */
  lemma HiddenCycleAccepted()
    ensures Accepted(HIDDEN_CYCLE, "A") && OnCycle(GraphOf(HIDDEN_CYCLE), "B")
  {
    hide FieldsOk, Edge, GraphOf, IsOnlySource, CycleFrom, OnCycle;
    HiddenKeys();
    HiddenFields(HIDDEN_CYCLE.Keys);
    forall a, b
      ensures Edge(GraphOf(HIDDEN_CYCLE), a, b) <==> (a == "B" && b == "C") || (a == "C" && b == "B")
    {
      HiddenEdges(a, b);
    }
    TwoCycle(GraphOf(HIDDEN_CYCLE));
  }
}
