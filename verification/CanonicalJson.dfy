/**
  canonicalJson (src/payload.ts): the recursive printer over a JavaScript object graph
  that may share objects and may contain cycles. `Canonical` is what it computes;
  `Printer` is the code's own form, which mutates one shared ancestor set.
 */
module CanonicalJson {
  import opened Common
  import opened TextOrder
  import opened JsonText

  datatype Result<+T> = Success(value: T) | Failure(error: JsonError) {
    predicate IsFailure() {
      Failure?
    }

    function PropagateFailure<U>(): Result<U>
      requires Failure?
    {
      Failure(error)
    }

    function Extract(): T
      requires Success?
    {
      value
    }
  }

  datatype JsonError = NonFiniteNumber | UnsupportedValue | Cycle | Hole | NotPlain | SymbolKey | Accessor

  type Ref = nat

  /** A JavaScript value; VUnsupported stands for undefined, functions, symbols and bigints. */
  datatype Value =
    | VNull
    | VBool(b: bool)
    | VNumber(n: int)
    | VNonFinite
    | VString(s: Text)
    | VUnsupported
    | VObject(ref: Ref)

  datatype Property = Property(key: Text, accessor: bool, enumerable: bool, value: Value)

  datatype Node =
    | ArrayNode(slots: seq<Option<Value>>)
    | ObjectNode(plain: bool, symbolKeys: bool, properties: seq<Property>)

  type Graph = map<Ref, Node>

  predicate InGraph(g: Graph, v: Value) {
    v.VObject? ==> v.ref in g
  }

  predicate DistinctKeys(properties: seq<Property>) {
    forall i, j :: 0 <= i < j < |properties| ==> properties[i].key != properties[j].key
  }

  predicate ClosedNode(g: Graph, node: Node) {
    match node
    case ArrayNode(slots) => forall s :: s in slots && s.Some? ==> InGraph(g, s.value)
    case ObjectNode(_, _, properties) =>
      DistinctKeys(properties) && forall p :: p in properties ==> InGraph(g, p.value)
  }

  /** Every reference leads to an object; an object's property keys are distinct. */
  predicate Closed(g: Graph) {
    forall r :: r in g ==> ClosedNode(g, g[r])
  }

  predicate AllInGraph(g: Graph, values: seq<Value>) {
    forall v :: v in values ==> InGraph(g, v)
  }

  predicate PropertiesInGraph(g: Graph, properties: seq<Property>) {
    forall p :: p in properties ==> InGraph(g, p.value)
  }

  // ----- Sorting properties by key -----

  function InsertProperty(p: Property, ps: seq<Property>): seq<Property> {
    if ps == [] then [p]
    else if Less(p.key, ps[0].key) then [p] + ps
    else [ps[0]] + InsertProperty(p, ps[1..])
  }

  function SortProperties(ps: seq<Property>): seq<Property> {
    if ps == [] then [] else InsertProperty(ps[0], SortProperties(ps[1..]))
  }

  function Keys(ps: seq<Property>): seq<Text> {
    seq(|ps|, i requires 0 <= i < |ps| => ps[i].key)
  }

  ghost function PropertySet(ps: seq<Property>): set<Property> {
    set p | p in ps
  }

  lemma KeysCons(p: Property, ps: seq<Property>)
    ensures Keys([p] + ps) == [p.key] + Keys(ps)
    ensures PropertySet([p] + ps) == PropertySet(ps) + {p}
  {
  }

  lemma {:induction false} InsertPropertyKeys(p: Property, ps: seq<Property>)
    ensures Keys(InsertProperty(p, ps)) == Insert(p.key, Keys(ps))
    ensures PropertySet(InsertProperty(p, ps)) == PropertySet(ps) + {p}
  {
    if ps == [] || Less(p.key, ps[0].key) {
      KeysCons(p, ps);
    } else {
      InsertPropertyKeys(p, ps[1..]);
      assert Keys(ps)[1..] == Keys(ps[1..]);
      assert ps == [ps[0]] + ps[1..];
      KeysCons(ps[0], ps[1..]);
      KeysCons(ps[0], InsertProperty(p, ps[1..]));
    }
  }

  lemma {:induction false} SortPropertiesSorts(ps: seq<Property>)
    requires DistinctKeys(ps)
    ensures Sorted(Keys(SortProperties(ps))) && Ascending(Keys(SortProperties(ps)))
    ensures PropertySet(SortProperties(ps)) == PropertySet(ps)
    ensures Elements(Keys(SortProperties(ps))) == Elements(Keys(ps))
  {
    if ps != [] {
      SortPropertiesSorts(ps[1..]);
      InsertPropertyKeys(ps[0], SortProperties(ps[1..]));
      assert ps == [ps[0]] + ps[1..];
      assert Keys(ps) == [ps[0].key] + Keys(ps[1..]);
      assert ps[0].key !in Elements(Keys(ps[1..]));
      InsertSorted(ps[0].key, Keys(SortProperties(ps[1..])));
    }
    SortedIsAscending(Keys(SortProperties(ps)));
  }

  // ----- What is printed -----

  /** canonicalJson(v) below the objects in `ancestors`. */
  function Canonical(g: Graph, v: Value, ancestors: set<Ref>): Result<Text>
    requires Closed(g) && InGraph(g, v)
    decreases |g.Keys - ancestors|, 0, 0
  {
    match v
    case VNull => Success(NULL_TEXT)
    case VBool(b) => Success(PrintBool(b))
    case VNumber(n) => Success(PrintNumber(n))
    case VNonFinite => Failure(NonFiniteNumber)
    case VString(s) => Success(Quote(s))
    case VUnsupported => Failure(UnsupportedValue)
    case VObject(r) =>
      if r in ancestors then Failure(Cycle)
      else
        EnterShrinks(g, r, ancestors);
        CanonicalNode(g, g[r], ancestors + {r})
  }

  /** The text of one object, itself already among `ancestors`. */
  function CanonicalNode(g: Graph, node: Node, ancestors: set<Ref>): Result<Text>
    requires Closed(g) && ClosedNode(g, node)
    decreases |g.Keys - ancestors|, 2, 0
  {
    match node
    case ArrayNode(slots) =>
      if None in slots then Failure(Hole)
      else
        var parts :- CanonicalItems(g, Filled(slots), ancestors);
        Success([ARRAY_OPEN] + Join(parts) + [ARRAY_CLOSE])
    case ObjectNode(plain, symbolKeys, properties) =>
      if !plain then Failure(NotPlain)
      else if symbolKeys then Failure(SymbolKey)
      else
        SortedInGraph(g, properties);
        var parts :- CanonicalEntries(g, SortProperties(properties), ancestors);
        Success([OBJECT_OPEN] + Join(parts) + [OBJECT_CLOSE])
  }

  lemma EnterShrinks(g: Graph, r: Ref, ancestors: set<Ref>)
    requires r in g && r !in ancestors
    ensures |g.Keys - (ancestors + {r})| < |g.Keys - ancestors|
  {
    assert g.Keys - (ancestors + {r}) == g.Keys - ancestors - {r};
  }

  lemma SortedInGraph(g: Graph, properties: seq<Property>)
    requires DistinctKeys(properties) && PropertiesInGraph(g, properties)
    ensures PropertiesInGraph(g, SortProperties(properties))
  {
    SortPropertiesSorts(properties);
    forall p | p in SortProperties(properties) ensures InGraph(g, p.value) {
      assert p in PropertySet(SortProperties(properties));
    }
  }

  function Filled(slots: seq<Option<Value>>): seq<Value>
    requires None !in slots
  {
    seq(|slots|, i requires 0 <= i < |slots| => assert slots[i] in slots; slots[i].value)
  }

  function CanonicalItems(g: Graph, items: seq<Value>, ancestors: set<Ref>): Result<seq<Text>>
    requires Closed(g) && AllInGraph(g, items)
    decreases |g.Keys - ancestors|, 1, |items|
  {
    if items == [] then Success([])
    else
      var text :- Canonical(g, items[0], ancestors);
      var rest :- CanonicalItems(g, items[1..], ancestors);
      Success([text] + rest)
  }

  function CanonicalEntries(g: Graph, properties: seq<Property>, ancestors: set<Ref>): Result<seq<Text>>
    requires Closed(g) && PropertiesInGraph(g, properties)
    decreases |g.Keys - ancestors|, 1, |properties|
  {
    if properties == [] then Success([])
    else if properties[0].accessor then Failure(Accessor)
    else if !properties[0].enumerable then CanonicalEntries(g, properties[1..], ancestors)
    else
      var text :- Canonical(g, properties[0].value, ancestors);
      var rest :- CanonicalEntries(g, properties[1..], ancestors);
      Success([Entry(properties[0].key, text)] + rest)
  }

  // ----- The code's own form -----

  /** JavaScript's `new Set()`, shared by every level of the recursion. */
  class AncestorSet {
    var members: set<Ref>

    constructor ()
      ensures members == {}
    {
      members := {};
    }
  }

  class Printer {
    const graph: Graph

    constructor (graph: Graph)
      ensures this.graph == graph
    {
      this.graph := graph;
    }

    /** jsonString: an absent value prints as an empty object. */
    method JsonString(value: Option<Value>) returns (r: Result<Text>)
      requires Closed(graph) && (value.Some? ==> InGraph(graph, value.value))
      ensures r == if value.None? then Success([OBJECT_OPEN, OBJECT_CLOSE]) else Canonical(graph, value.value, {})
    {
      if value.None? {
        return Success([OBJECT_OPEN, OBJECT_CLOSE]);
      }
      var ancestors := new AncestorSet();
      r := CanonicalJson(value.value, ancestors);
    }

    /** Whatever the outcome, `ancestors` is left as it was found. */
    method CanonicalJson(value: Value, ancestors: AncestorSet) returns (r: Result<Text>)
      requires Closed(graph) && InGraph(graph, value)
      modifies ancestors
      ensures ancestors.members == old(ancestors.members)
      ensures r == Canonical(graph, value, old(ancestors.members))
      decreases |graph.Keys - ancestors.members|, 0
    {
      match value
      case VNull => return Success(NULL_TEXT);
      case VBool(b) => return Success(PrintBool(b));
      case VNumber(n) => return Success(PrintNumber(n));
      case VNonFinite => return Failure(NonFiniteNumber);
      case VString(s) => return Success(Quote(s));
      case VUnsupported => return Failure(UnsupportedValue);
      case VObject(ref) =>
        if ref in ancestors.members {
          return Failure(Cycle);
        }
        ghost var before := ancestors.members;
        EnterShrinks(graph, ref, before);
        ancestors.members := ancestors.members + {ref};
        r := PrintNode(graph[ref], ancestors);
        ancestors.members := ancestors.members - {ref};
        assert ancestors.members == before;
    }

    /** The body of the try block. */
    method PrintNode(node: Node, ancestors: AncestorSet) returns (r: Result<Text>)
      requires Closed(graph) && ClosedNode(graph, node)
      modifies ancestors
      ensures ancestors.members == old(ancestors.members)
      ensures r == CanonicalNode(graph, node, old(ancestors.members))
      decreases |graph.Keys - ancestors.members|, 2
    {
      match node
      case ArrayNode(slots) =>
        for index := 0 to |slots|
          invariant ancestors.members == old(ancestors.members)
          invariant None !in slots[..index]
        {
          if slots[index].None? {
            return Failure(Hole);
          }
          assert slots[..index + 1] == slots[..index] + [slots[index]];
        }
        assert slots[..|slots|] == slots;
        var parts := PrintItems(Filled(slots), ancestors);
        if parts.Failure? {
          return Failure(parts.error);
        }
        return Success([ARRAY_OPEN] + Join(parts.value) + [ARRAY_CLOSE]);
      case ObjectNode(plain, symbolKeys, properties) =>
        if !plain {
          return Failure(NotPlain);
        }
        if symbolKeys {
          return Failure(SymbolKey);
        }
        SortedInGraph(graph, properties);
        var parts := PrintEntries(SortProperties(properties), ancestors);
        if parts.Failure? {
          return Failure(parts.error);
        }
        return Success([OBJECT_OPEN] + Join(parts.value) + [OBJECT_CLOSE]);
    }

    method PrintItems(items: seq<Value>, ancestors: AncestorSet) returns (r: Result<seq<Text>>)
      requires Closed(graph) && AllInGraph(graph, items)
      modifies ancestors
      ensures ancestors.members == old(ancestors.members)
      ensures r == CanonicalItems(graph, items, old(ancestors.members))
      decreases |graph.Keys - ancestors.members|, 1
    {
      var texts: seq<Text> := [];
      assert items[0..] == items;
      AfterNothing(texts, CanonicalItems(graph, items, ancestors.members));
      for index := 0 to |items|
        invariant ancestors.members == old(ancestors.members)
        invariant CanonicalItems(graph, items, ancestors.members)
                  == After(texts, CanonicalItems(graph, items[index..], ancestors.members))
      {
        assert items[index..][1..] == items[index + 1..];
        var text := CanonicalJson(items[index], ancestors);
        if text.Failure? {
          return Failure(text.error);
        }
        AfterStep(texts, text.value, CanonicalItems(graph, items[index + 1..], ancestors.members));
        texts := texts + [text.value];
      }
      AfterNothing(texts, CanonicalItems(graph, [], ancestors.members));
      return Success(texts);
    }

    method PrintEntries(properties: seq<Property>, ancestors: AncestorSet) returns (r: Result<seq<Text>>)
      requires Closed(graph) && PropertiesInGraph(graph, properties)
      modifies ancestors
      ensures ancestors.members == old(ancestors.members)
      ensures r == CanonicalEntries(graph, properties, old(ancestors.members))
      decreases |graph.Keys - ancestors.members|, 1
    {
      var entries: seq<Text> := [];
      assert properties[0..] == properties;
      AfterNothing(entries, CanonicalEntries(graph, properties, ancestors.members));
      for index := 0 to |properties|
        invariant ancestors.members == old(ancestors.members)
        invariant CanonicalEntries(graph, properties, ancestors.members)
                  == After(entries, CanonicalEntries(graph, properties[index..], ancestors.members))
      {
        var p := properties[index];
        assert properties[index..][1..] == properties[index + 1..];
        if p.accessor {
          return Failure(Accessor);
        }
        if !p.enumerable {
          continue;
        }
        var text := CanonicalJson(p.value, ancestors);
        if text.Failure? {
          return Failure(text.error);
        }
        AfterStep(entries, Entry(p.key, text.value), CanonicalEntries(graph, properties[index + 1..], ancestors.members));
        entries := entries + [Entry(p.key, text.value)];
      }
      AfterNothing(entries, CanonicalEntries(graph, [], ancestors.members));
      return Success(entries);
    }
  }

  /** Texts already collected, then the outcome of the rest of the loop. */
  ghost function After(done: seq<Text>, rest: Result<seq<Text>>): Result<seq<Text>> {
    match rest
    case Failure(e) => Failure(e)
    case Success(texts) => Success(done + texts)
  }

  lemma AfterNothing(done: seq<Text>, rest: Result<seq<Text>>)
    ensures done == [] ==> After(done, rest) == rest
    ensures rest == Success([]) ==> After(done, rest) == Success(done)
  {
    if rest.Success? {
      assert done == [] ==> done + rest.value == rest.value;
      assert rest.value == [] ==> done + rest.value == done;
    }
  }

  lemma AfterStep(done: seq<Text>, text: Text, rest: Result<seq<Text>>)
    ensures After(done, After([text], rest)) == After(done + [text], rest)
  {
    if rest.Success? {
      assert done + ([text] + rest.value) == done + [text] + rest.value;
    }
  }
}
