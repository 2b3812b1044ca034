/** When canonicalJson succeeds, and what its text says about the object graph. */
module CanonicalJsonFacts {
  import opened Common
  import opened TextOrder
  import opened JsonText
  import opened CanonicalJson

  // ----- Success means an acyclic, legal reachable part -----

  predicate LegalLeaf(v: Value) {
    !v.VNonFinite? && !v.VUnsupported?
  }

  /** The values the printer descends into from one object. */
  ghost function Children(node: Node): set<Value> {
    match node
    case ArrayNode(slots) => set s | s in slots && s.Some? :: s.value
    case ObjectNode(_, _, properties) => set p | p in properties && p.enumerable :: p.value
  }

  ghost predicate LegalNode(node: Node) {
    && (match node
        case ArrayNode(slots) => None !in slots
        case ObjectNode(plain, symbolKeys, properties) =>
          plain && !symbolKeys && forall p :: p in properties ==> !p.accessor)
    && forall c :: c in Children(node) ==> LegalLeaf(c)
  }

  /** A chain of objects, each an enumerable child of the one before, starting at v. */
  ghost predicate IsWalk(g: Graph, v: Value, path: seq<Ref>)
    requires Closed(g) && InGraph(g, v)
    decreases |path|
  {
    && path != []
    && v == VObject(path[0])
    && (|path| > 1 ==> exists c :: c in Children(g[path[0]]) && ChildInGraph(g, path[0], c) && IsWalk(g, c, path[1..]))
  }

  ghost predicate ChildInGraph(g: Graph, r: Ref, c: Value)
    requires Closed(g) && r in g
  {
    InGraph(g, c)
  }

  lemma ChildrenInGraph(g: Graph, r: Ref)
    requires Closed(g) && r in g
    ensures forall c :: c in Children(g[r]) ==> ChildInGraph(g, r, c)
  {
    assert ClosedNode(g, g[r]);
  }

  /** No object twice, none of the given ancestors, and every object legal. */
  ghost predicate GoodWalk(g: Graph, path: seq<Ref>, ancestors: set<Ref>) {
    && (forall i, j :: 0 <= i < j < |path| ==> path[i] != path[j])
    && (forall i :: 0 <= i < |path| ==> path[i] !in ancestors && path[i] in g && LegalNode(g[path[i]]))
  }

  ghost predicate Succeeds(g: Graph, v: Value, ancestors: set<Ref>)
    requires Closed(g)
  {
    InGraph(g, v) && Canonical(g, v, ancestors).Success?
  }

  lemma {:induction false} ItemsSucceed(g: Graph, items: seq<Value>, ancestors: set<Ref>)
    requires Closed(g) && AllInGraph(g, items)
    ensures CanonicalItems(g, items, ancestors).Success? <==> forall v :: v in items ==> Succeeds(g, v, ancestors)
  {
    if items != [] {
      ItemsSucceed(g, items[1..], ancestors);
      assert forall v :: v in items <==> v == items[0] || v in items[1..];
      assert items[0] in items;
    }
  }

  lemma {:induction false} EntriesSucceed(g: Graph, ps: seq<Property>, ancestors: set<Ref>)
    requires Closed(g) && PropertiesInGraph(g, ps)
    ensures CanonicalEntries(g, ps, ancestors).Success? <==>
            forall p :: p in ps ==> !p.accessor && (p.enumerable ==> Succeeds(g, p.value, ancestors))
  {
    if ps != [] {
      EntriesSucceed(g, ps[1..], ancestors);
      assert ps == [ps[0]] + ps[1..];
    }
  }

  lemma ArraySucceeds(g: Graph, slots: seq<Option<Value>>, ancestors: set<Ref>)
    requires Closed(g) && ClosedNode(g, ArrayNode(slots)) && None !in slots
    ensures CanonicalNode(g, ArrayNode(slots), ancestors).Success? <==>
            forall c :: c in Children(ArrayNode(slots)) ==> Succeeds(g, c, ancestors)
  {
    var items := Filled(slots);
    ItemsSucceed(g, items, ancestors);
    forall c | c in Children(ArrayNode(slots)) ensures c in items {
      var i :| 0 <= i < |slots| && slots[i] == Some(c);
      assert items[i] == c;
    }
    forall v | v in items ensures v in Children(ArrayNode(slots)) {
      var i :| 0 <= i < |items| && items[i] == v;
      assert slots[i] in slots;
    }
  }

  lemma SortedMembers(properties: seq<Property>)
    requires DistinctKeys(properties)
    ensures forall p :: p in SortProperties(properties) <==> p in properties
  {
    SortPropertiesSorts(properties);
    forall p ensures p in SortProperties(properties) <==> p in properties {
      assert p in SortProperties(properties) <==> p in PropertySet(SortProperties(properties));
      assert p in properties <==> p in PropertySet(properties);
    }
  }

  lemma ObjectSucceeds(g: Graph, properties: seq<Property>, ancestors: set<Ref>)
    requires Closed(g) && ClosedNode(g, ObjectNode(true, false, properties))
    ensures CanonicalNode(g, ObjectNode(true, false, properties), ancestors).Success? <==>
            forall p :: p in properties ==> !p.accessor && (p.enumerable ==> Succeeds(g, p.value, ancestors))
  {
    SortedInGraph(g, properties);
    SortedMembers(properties);
    EntriesSucceed(g, SortProperties(properties), ancestors);
  }

  /** One object prints exactly when it is legal in itself and each of its children prints. */
  lemma NodeSucceeds(g: Graph, node: Node, ancestors: set<Ref>)
    requires Closed(g) && ClosedNode(g, node)
    ensures CanonicalNode(g, node, ancestors).Success? <==>
            LegalNode(node) && forall c :: c in Children(node) ==> Succeeds(g, c, ancestors)
  {
    match node
    case ArrayNode(slots) =>
      if None !in slots {
        ArraySucceeds(g, slots, ancestors);
      }
    case ObjectNode(plain, symbolKeys, properties) =>
      if plain && !symbolKeys {
        ObjectSucceeds(g, properties, ancestors);
      }
  }

  lemma {:induction false} SuccessMakesWalksGood(g: Graph, v: Value, ancestors: set<Ref>, path: seq<Ref>)
    requires Closed(g) && Succeeds(g, v, ancestors) && IsWalk(g, v, path)
    ensures GoodWalk(g, path, ancestors)
    decreases |path|
  {
    var r := path[0];
    NodeSucceeds(g, g[r], ancestors + {r});
    if |path| > 1 {
      var c :| c in Children(g[r]) && ChildInGraph(g, r, c) && IsWalk(g, c, path[1..]);
      SuccessMakesWalksGood(g, c, ancestors + {r}, path[1..]);
      assert forall i :: 1 <= i < |path| ==> path[i] == path[1..][i - 1];
    }
  }

  lemma {:induction false} FailureHasBadWalk(g: Graph, v: Value, ancestors: set<Ref>) returns (path: seq<Ref>)
    requires Closed(g) && InGraph(g, v) && LegalLeaf(v) && Canonical(g, v, ancestors).Failure?
    ensures IsWalk(g, v, path) && !GoodWalk(g, path, ancestors)
    decreases |g.Keys - ancestors|
  {
    var r := v.ref;
    path := [r];
    if r !in ancestors && LegalNode(g[r]) {
      EnterShrinks(g, r, ancestors);
      NodeSucceeds(g, g[r], ancestors + {r});
      ChildrenInGraph(g, r);
      var c :| c in Children(g[r]) && !Succeeds(g, c, ancestors + {r});
      var tail := FailureHasBadWalk(g, c, ancestors + {r});
      path := [r] + tail;
      assert path[1..] == tail;
      if GoodWalk(g, path, ancestors) {
        GoodTail(g, r, tail, ancestors);
      }
    }
  }

  lemma GoodTail(g: Graph, r: Ref, tail: seq<Ref>, ancestors: set<Ref>)
    requires GoodWalk(g, [r] + tail, ancestors)
    ensures GoodWalk(g, tail, ancestors + {r})
  {
    var path := [r] + tail;
    forall i | 0 <= i < |tail| ensures path[i + 1] == tail[i] && tail[i] != r {
      assert path[0] != path[i + 1];
    }
  }

  lemma {:induction false} ItemsFault(g: Graph, items: seq<Value>, ancestors: set<Ref>) returns (c: Value)
    requires Closed(g) && AllInGraph(g, items) && CanonicalItems(g, items, ancestors).Failure?
    ensures c in items && InGraph(g, c) && Canonical(g, c, ancestors).Failure?
    ensures Canonical(g, c, ancestors).error == CanonicalItems(g, items, ancestors).error
    decreases |items|
  {
    c := items[0];
    if Canonical(g, c, ancestors).Success? {
      c := ItemsFault(g, items[1..], ancestors);
    }
  }

  /** The property at fault: an accessor, or one whose value is refused. */
  ghost predicate RefusedProperty(g: Graph, p: Property, ancestors: set<Ref>, e: JsonError)
    requires Closed(g)
  {
    if p.accessor then e == Accessor
    else p.enumerable && InGraph(g, p.value) && Canonical(g, p.value, ancestors) == Failure(e)
  }

  lemma {:induction false} EntriesFault(g: Graph, ps: seq<Property>, ancestors: set<Ref>) returns (p: Property)
    requires Closed(g) && PropertiesInGraph(g, ps) && CanonicalEntries(g, ps, ancestors).Failure?
    ensures p in ps && RefusedProperty(g, p, ancestors, CanonicalEntries(g, ps, ancestors).error)
    decreases |ps|
  {
    p := ps[0];
    if !p.accessor && (!p.enumerable || Canonical(g, p.value, ancestors).Success?) {
      p := EntriesFault(g, ps[1..], ancestors);
    }
  }

  /** Nothing keeps the printer from looking at what the object holds. */
  ghost predicate Opened(node: Node) {
    match node
    case ArrayNode(slots) => None !in slots
    case ObjectNode(plain, symbolKeys, _) => plain && !symbolKeys
  }

  /** What is wrong with one object, apart from the objects below it. */
  ghost predicate Faulty(node: Node, e: JsonError) {
    match e
    case Hole => node.ArrayNode? && None in node.slots
    case NotPlain => node.ObjectNode? && !node.plain
    case SymbolKey => node.ObjectNode? && node.plain && node.symbolKeys
    case Accessor => Opened(node) && node.ObjectNode? && exists p :: p in node.properties && p.accessor
    case NonFiniteNumber => Opened(node) && VNonFinite in Children(node)
    case UnsupportedValue => Opened(node) && VUnsupported in Children(node)
    case Cycle => false
  }

  /** An object is refused for a fault of its own, or else as one of its children is. */
  lemma NodeFault(g: Graph, r: Ref, ancestors: set<Ref>) returns (below: Option<Value>)
    requires Closed(g) && r in g && CanonicalNode(g, g[r], ancestors).Failure?
    ensures below.None? ==> Faulty(g[r], CanonicalNode(g, g[r], ancestors).error)
    ensures below.Some? ==>
              && Opened(g[r]) && below.value in Children(g[r]) && ChildInGraph(g, r, below.value)
              && Canonical(g, below.value, ancestors) == Failure(CanonicalNode(g, g[r], ancestors).error)
  {
    assert ClosedNode(g, g[r]);
    below := None;
    match g[r] {
      case ArrayNode(slots) =>
        if None !in slots {
          var c := ItemsFault(g, Filled(slots), ancestors);
          var i :| 0 <= i < |slots| && Filled(slots)[i] == c;
          assert slots[i] in slots && slots[i] == Some(c);
          below := Some(c);
        }
      case ObjectNode(plain, symbolKeys, properties) =>
        if plain && !symbolKeys {
          SortedInGraph(g, properties);
          SortPropertiesSorts(properties);
          var p := EntriesFault(g, SortProperties(properties), ancestors);
          assert p in PropertySet(SortProperties(properties));
          assert p in properties;
          below := if p.accessor then None else Some(p.value);
        }
    }
  }

  /** A walk whose last object already occurs in it, or among the ancestors. */
  ghost predicate ClosesCycle(path: seq<Ref>, ancestors: set<Ref>) {
    path != [] && (path[|path| - 1] in ancestors || path[|path| - 1] in path[..|path| - 1])
  }

  /**
    The error names what the walk ends in: a real cycle, or an object with that very fault. No
    object before the end is refused for its own shape.
   */
  ghost predicate Explains(g: Graph, path: seq<Ref>, ancestors: set<Ref>, e: JsonError) {
    && path != [] && path[|path| - 1] in g
    && (forall i :: 0 <= i < |path| - 1 ==> path[i] in g && Opened(g[path[i]]))
    && if e.Cycle? then ClosesCycle(path, ancestors) else Faulty(g[path[|path| - 1]], e)
  }

  /** Every refusal of an object comes with a walk that explains its error. */
  lemma {:induction false} RefusalHasWalk(g: Graph, v: Value, ancestors: set<Ref>) returns (path: seq<Ref>)
    requires Closed(g) && InGraph(g, v) && v.VObject? && Canonical(g, v, ancestors).Failure?
    ensures IsWalk(g, v, path) && Explains(g, path, ancestors, Canonical(g, v, ancestors).error)
    decreases |g.Keys - ancestors|
  {
    var r := v.ref;
    path := [r];
    if r !in ancestors {
      EnterShrinks(g, r, ancestors);
      var below := NodeFault(g, r, ancestors + {r});
      if below.Some? && below.value.VObject? {
        var c := below.value;
        var tail := RefusalHasWalk(g, c, ancestors + {r});
        path := [r] + tail;
        assert path[1..] == tail;
        if Canonical(g, v, ancestors).error.Cycle? {
          CycleExtends(r, tail, ancestors);
        }
      }
    }
  }

  lemma CycleExtends(r: Ref, tail: seq<Ref>, ancestors: set<Ref>)
    requires ClosesCycle(tail, ancestors + {r})
    ensures ClosesCycle([r] + tail, ancestors)
  {
    var path, last := [r] + tail, tail[|tail| - 1];
    assert path[..|path| - 1] == [r] + tail[..|tail| - 1];
    assert path[|path| - 1] == last;
  }

  /** canonicalJson succeeds exactly when no walk repeats an object or meets an illegal one. */
  lemma SucceedsIffAcyclicAndLegal(g: Graph, v: Value)
    requires Closed(g) && InGraph(g, v)
    ensures Canonical(g, v, {}).Success? <==>
            LegalLeaf(v) && forall path :: IsWalk(g, v, path) ==> GoodWalk(g, path, {})
  {
    if Canonical(g, v, {}).Success? {
      forall path | IsWalk(g, v, path) ensures GoodWalk(g, path, {}) {
        SuccessMakesWalksGood(g, v, {}, path);
      }
    } else if LegalLeaf(v) {
      var path := FailureHasBadWalk(g, v, {});
    }
  }

  // ----- The text is the tree unfolding -----

  /** t is the JSON value of v, shared objects written out wherever they occur. */
  ghost predicate Unfolds(g: Graph, v: Value, t: Json)
    requires Closed(g) && InGraph(g, v)
    decreases t
  {
    match v
    case VNull => t == JNull
    case VBool(b) => t == JBool(b)
    case VNumber(n) => t == JNumber(n)
    case VString(s) => t == JString(s)
    case VNonFinite => false
    case VUnsupported => false
    case VObject(r) =>
      assert ClosedNode(g, g[r]);
      match g[r]
      case ArrayNode(slots) =>
        && t.JArray?
        && |t.items| == |slots|
        && forall i :: 0 <= i < |slots| ==> slots[i].Some? && Unfolds(g, slots[i].value, t.items[i])
      case ObjectNode(plain, symbolKeys, properties) =>
        && t.JObject?
        && plain
        && !symbolKeys
        && t.members.Keys == (set p | p in properties && p.enumerable :: p.key)
        && forall p :: p in properties ==>
             !p.accessor && (p.enumerable ==> p.key in t.members && Unfolds(g, p.value, t.members[p.key]))
  }

  /** A value has at most one unfolding. */
  lemma {:induction false} UnfoldsUnique(g: Graph, v: Value, a: Json, b: Json)
    requires Closed(g) && InGraph(g, v) && Unfolds(g, v, a) && Unfolds(g, v, b)
    ensures a == b
    decreases a
  {
    if v.VObject? {
      assert ClosedNode(g, g[v.ref]);
      match g[v.ref] {
        case ArrayNode(slots) =>
          forall i | 0 <= i < |slots| ensures a.items[i] == b.items[i] {
            UnfoldsUnique(g, slots[i].value, a.items[i], b.items[i]);
          }
        case ObjectNode(_, _, properties) =>
          forall k | k in a.members ensures a.members[k] == b.members[k] {
            var p :| p in properties && p.enumerable && p.key == k;
            UnfoldsUnique(g, p.value, a.members[k], b.members[k]);
          }
          assert a.members == b.members;
      }
    }
  }

  /** Whatever is printed is the canonical text of an unfolding. */
  lemma {:induction false} PrintsUnfolding(g: Graph, v: Value, ancestors: set<Ref>) returns (t: Json)
    requires Closed(g) && Succeeds(g, v, ancestors)
    ensures Unfolds(g, v, t) && Canonical(g, v, ancestors) == Success(Print(t))
    decreases |g.Keys - ancestors|, 0, 0
  {
    match v {
      case VNull => t := JNull;
      case VBool(b) => t := JBool(b);
      case VNumber(n) => t := JNumber(n);
      case VString(s) => t := JString(s);
      case VObject(r) =>
        EnterShrinks(g, r, ancestors);
        assert ClosedNode(g, g[r]) && CanonicalNode(g, g[r], ancestors + {r}).Success?;
        match g[r] {
          case ArrayNode(slots) =>
            assert None !in slots;
            var items := UnfoldItems(g, Filled(slots), ancestors + {r});
            t := JArray(items);
          case ObjectNode(_, _, properties) =>
            t := UnfoldObject(g, r, ancestors + {r});
        }
    }
  }

  /** One more item in front, read off the definition. */
  lemma ItemsCons(g: Graph, values: seq<Value>, ancestors: set<Ref>)
    requires Closed(g) && AllInGraph(g, values) && values != []
    ensures CanonicalItems(g, values, ancestors) ==
            match Canonical(g, values[0], ancestors)
            case Failure(e) => Failure(e)
            case Success(text) => After([text], CanonicalItems(g, values[1..], ancestors))
  {
  }

  lemma {:induction false} UnfoldItems(g: Graph, values: seq<Value>, ancestors: set<Ref>) returns (items: seq<Json>)
    requires Closed(g) && AllInGraph(g, values) && CanonicalItems(g, values, ancestors).Success?
    ensures |items| == |values| && forall i :: 0 <= i < |items| ==> Unfolds(g, values[i], items[i])
    ensures CanonicalItems(g, values, ancestors) == Success(PrintAll(items))
    decreases |g.Keys - ancestors|, 1, |values|
  {
    if values == [] {
      items := [];
      assert PrintAll(items) == [];
    } else {
      ItemsCons(g, values, ancestors);
      var head := PrintsUnfolding(g, values[0], ancestors);
      var tail := UnfoldItems(g, values[1..], ancestors);
      items := [head] + tail;
      assert PrintAll(items) == [Print(head)] + PrintAll(tail);
    }
  }

  /** The enumerable properties, which are the ones printed. */
  ghost function Visible(ps: seq<Property>): seq<Property> {
    if ps == [] then []
    else if ps[0].enumerable then [ps[0]] + Visible(ps[1..])
    else Visible(ps[1..])
  }

  lemma {:induction false} VisibleSorted(ps: seq<Property>)
    requires Sorted(Keys(ps))
    ensures Sorted(Keys(Visible(ps)))
    ensures PropertySet(Visible(ps)) == set p | p in ps && p.enumerable
  {
    if ps != [] {
      var rest := Visible(ps[1..]);
      assert Keys(ps)[1..] == Keys(ps[1..]);
      VisibleSorted(ps[1..]);
      assert forall p :: p in ps <==> p == ps[0] || p in ps[1..];
      assert PropertySet([ps[0]] + rest) == PropertySet(rest) + {ps[0]};
      forall j | 0 <= j < |rest| ensures Less(ps[0].key, rest[j].key) {
        assert rest[j] in PropertySet(rest);
        var i :| 0 <= i < |ps[1..]| && ps[1..][i] == rest[j];
        assert Less(Keys(ps)[0], Keys(ps)[i + 1]);
      }
      assert Keys([ps[0]] + rest) == [ps[0].key] + Keys(rest);
    }
  }

  ghost function MemberEntries(ps: seq<Property>, values: seq<Json>): seq<Text>
    requires |ps| == |values|
  {
    seq(|ps|, i requires 0 <= i < |ps| => Entry(ps[i].key, Print(values[i])))
  }

  lemma EntriesCons(g: Graph, ps: seq<Property>, ancestors: set<Ref>)
    requires Closed(g) && PropertiesInGraph(g, ps) && ps != [] && !ps[0].accessor
    ensures CanonicalEntries(g, ps, ancestors) ==
            if !ps[0].enumerable then CanonicalEntries(g, ps[1..], ancestors)
            else match Canonical(g, ps[0].value, ancestors)
                 case Failure(e) => Failure(e)
                 case Success(text) => After([Entry(ps[0].key, text)], CanonicalEntries(g, ps[1..], ancestors))
  {
  }

  lemma {:induction false} VisibleInGraph(g: Graph, ps: seq<Property>)
    requires PropertiesInGraph(g, ps)
    ensures PropertiesInGraph(g, Visible(ps))
  {
    if ps != [] {
      VisibleInGraph(g, ps[1..]);
    }
  }

  lemma MembersCons(p: Property, value: Json, ps: seq<Property>, values: seq<Json>)
    requires |ps| == |values|
    ensures MemberEntries([p] + ps, [value] + values) == [Entry(p.key, Print(value))] + MemberEntries(ps, values)
  {
  }

  lemma {:induction false} UnfoldMembers(g: Graph, ps: seq<Property>, ancestors: set<Ref>) returns (values: seq<Json>)
    requires Closed(g) && PropertiesInGraph(g, ps) && CanonicalEntries(g, ps, ancestors).Success?
    ensures PropertiesInGraph(g, Visible(ps))
    ensures |values| == |Visible(ps)|
    ensures forall i :: 0 <= i < |values| ==> Unfolds(g, Visible(ps)[i].value, values[i])
    ensures CanonicalEntries(g, ps, ancestors) == Success(MemberEntries(Visible(ps), values))
    decreases |g.Keys - ancestors|, 1, |ps|
  {
    VisibleInGraph(g, ps);
    if ps == [] {
      values := [];
      assert MemberEntries(Visible(ps), values) == [];
    } else {
      assert !ps[0].accessor;
      EntriesCons(g, ps, ancestors);
      var rest := UnfoldMembers(g, ps[1..], ancestors);
      if ps[0].enumerable {
        var head := PrintsUnfolding(g, ps[0].value, ancestors);
        values := [head] + rest;
        assert Visible(ps) == [ps[0]] + Visible(ps[1..]);
        MembersCons(ps[0], head, Visible(ps[1..]), rest);
      } else {
        values := rest;
      }
    }
  }

  /** The members named by `visible` print in the order of `visible`. */
  lemma PrintsInOrder(visible: seq<Property>, values: seq<Json>, members: map<Text, Json>)
    requires Sorted(Keys(visible)) && |visible| == |values| && members.Keys == Elements(Keys(visible))
    requires forall i :: 0 <= i < |visible| ==> visible[i].key in members && members[visible[i].key] == values[i]
    ensures Print(JObject(members)) == [OBJECT_OPEN] + Join(MemberEntries(visible, values)) + [OBJECT_CLOSE]
  {
    var keys := InOrder(members.Keys);
    SortedUnique(Keys(visible), keys);
    assert |keys| == |visible|;
    forall i | 0 <= i < |keys| ensures keys[i] == visible[i].key && members[keys[i]] == values[i] {
      assert keys[i] == Keys(visible)[i];
    }
    assert PrintEntries(members, keys) == MemberEntries(visible, values);
  }

  /** What an object unfolds to, given the values of its visible properties in key order. */
  lemma ObjectUnfolds(g: Graph, r: Ref, visible: seq<Property>, values: seq<Json>, members: map<Text, Json>)
    requires Closed(g) && r in g && g[r].ObjectNode? && g[r].plain && !g[r].symbolKeys
    requires forall p :: p in g[r].properties ==> !p.accessor
    requires PropertySet(visible) == set p | p in g[r].properties && p.enumerable
    requires |visible| == |values| && members.Keys == Elements(Keys(visible))
    requires forall i :: 0 <= i < |visible| ==> visible[i].key in members && members[visible[i].key] == values[i]
    requires forall i :: 0 <= i < |values| ==> InGraph(g, visible[i].value) && Unfolds(g, visible[i].value, values[i])
    ensures Unfolds(g, VObject(r), JObject(members))
  {
    var properties := g[r].properties;
    assert ClosedNode(g, g[r]);
    forall p | p in properties && p.enumerable
      ensures p.key in members && Unfolds(g, p.value, members[p.key])
    {
      assert p in PropertySet(visible);
      var i :| 0 <= i < |visible| && visible[i] == p;
    }
    forall k | k in members ensures exists p :: p in properties && p.enumerable && p.key == k {
      var i :| 0 <= i < |visible| && Keys(visible)[i] == k;
      assert visible[i] in PropertySet(visible);
    }
    assert members.Keys == set p | p in properties && p.enumerable :: p.key;
  }

  lemma {:induction false} UnfoldObject(g: Graph, r: Ref, ancestors: set<Ref>) returns (t: Json)
    requires Closed(g) && r in g && g[r].ObjectNode? && CanonicalNode(g, g[r], ancestors).Success?
    ensures Unfolds(g, VObject(r), t) && CanonicalNode(g, g[r], ancestors) == Success(Print(t))
    decreases |g.Keys - ancestors|, 2, 0
  {
    var properties := g[r].properties;
    var sorted := SortProperties(properties);
    assert ClosedNode(g, g[r]);
    NodeSucceeds(g, g[r], ancestors);
    SortedInGraph(g, properties);
    SortPropertiesSorts(properties);
    VisibleSorted(sorted);
    var values := UnfoldMembers(g, sorted, ancestors);
    var visible := Visible(sorted);
    forall p ensures p in sorted <==> p in properties {
      assert p in sorted <==> p in PropertySet(sorted);
      assert p in properties <==> p in PropertySet(properties);
    }
    var members := MembersOf(visible, values);
    t := JObject(members);
    PrintsInOrder(visible, values, members);
    ObjectUnfolds(g, r, visible, values, members);
  }

  lemma MembersOf(visible: seq<Property>, values: seq<Json>) returns (members: map<Text, Json>)
    requires |visible| == |values| && Sorted(Keys(visible))
    ensures members.Keys == Elements(Keys(visible))
    ensures forall i :: 0 <= i < |visible| ==> visible[i].key in members && members[visible[i].key] == values[i]
  {
    var keys := Keys(visible);
    forall i, j | 0 <= i < |keys| && 0 <= j < |keys| && keys[i] == keys[j] ensures i == j {
      if i < j {
        LessTrichotomy(keys[i], keys[j]);
      } else if j < i {
        LessTrichotomy(keys[j], keys[i]);
      }
    }
    members := map k | k in keys :: values[IndexOf(keys, k)];
    forall i | 0 <= i < |visible| ensures visible[i].key in members && members[visible[i].key] == values[i] {
      assert keys[i] in keys && IndexOf(keys, keys[i]) == i;
    }
  }

  ghost function IndexOf(keys: seq<Text>, k: Text): (i: nat)
    requires k in keys
    ensures i < |keys| && keys[i] == k
  {
    var i :| 0 <= i < |keys| && keys[i] == k;
    i
  }

  /** Parsing the text gives back the unfolding: the row copy in jsonRowsToWire is exact. */
  lemma ParseBack(g: Graph, v: Value) returns (t: Json)
    requires Closed(g) && Succeeds(g, v, {})
    ensures Unfolds(g, v, t) && Parse(Canonical(g, v, {}).value) == Some(t)
  {
    t := PrintsUnfolding(g, v, {});
    ParsePrint(t);
  }

  /** Two values print alike exactly when they unfold to the same JSON value. */
  lemma SameTextIffSameValue(g: Graph, v: Value, h: Graph, w: Value, t: Json, u: Json)
    requires Closed(g) && Succeeds(g, v, {}) && Unfolds(g, v, t)
    requires Closed(h) && Succeeds(h, w, {}) && Unfolds(h, w, u)
    ensures Canonical(g, v, {}) == Canonical(h, w, {}) <==> t == u
  {
    var t' := PrintsUnfolding(g, v, {});
    var u' := PrintsUnfolding(h, w, {});
    UnfoldsUnique(g, v, t, t');
    UnfoldsUnique(h, w, u, u');
    if Print(t) == Print(u) {
      PrintInjective(t, u);
    }
  }

  // ----- A finite unfolding is enough -----

  /** Every ancestor unfolds to a value that properly contains t. */
  ghost predicate Enclosed(g: Graph, ancestors: set<Ref>, t: Json)
    requires Closed(g)
  {
    forall a :: a in ancestors ==> a in g && exists u :: Unfolds(g, VObject(a), u) && t < u
  }

  lemma {:induction false} UnfoldingPrints(g: Graph, v: Value, t: Json, ancestors: set<Ref>)
    requires Closed(g) && InGraph(g, v) && Unfolds(g, v, t) && Enclosed(g, ancestors, t)
    ensures Canonical(g, v, ancestors).Success?
    decreases t
  {
    if v.VObject? {
      var r := v.ref;
      if r in ancestors {
        var u :| Unfolds(g, VObject(r), u) && t < u;
        UnfoldsUnique(g, v, t, u);
      }
      assert ClosedNode(g, g[r]);
      NodeSucceeds(g, g[r], ancestors + {r});
      forall c | c in Children(g[r]) ensures LegalLeaf(c) && Succeeds(g, c, ancestors + {r}) {
        var s := ChildUnfolds(g, r, t, c);
        forall a | a in ancestors + {r} ensures a in g && exists u :: Unfolds(g, VObject(a), u) && s < u {
          if a in ancestors {
            var u :| Unfolds(g, VObject(a), u) && t < u;
            assert s < u;
          }
        }
        UnfoldingPrints(g, c, s, ancestors + {r});
      }
    }
  }

  lemma ChildUnfolds(g: Graph, r: Ref, t: Json, c: Value) returns (s: Json)
    requires Closed(g) && r in g && Unfolds(g, VObject(r), t) && c in Children(g[r])
    ensures InGraph(g, c) && s < t && Unfolds(g, c, s)
  {
    assert ClosedNode(g, g[r]);
    match g[r] {
      case ArrayNode(slots) =>
        var i :| 0 <= i < |slots| && slots[i] == Some(c);
        s := t.items[i];
      case ObjectNode(_, _, properties) =>
        var p :| p in properties && p.enumerable && p.value == c;
        s := t.members[p.key];
    }
  }

  /** Equivalently: canonicalJson succeeds exactly when the value has a finite JSON value. */
  lemma SucceedsIffUnfolds(g: Graph, v: Value)
    requires Closed(g) && InGraph(g, v)
    ensures Canonical(g, v, {}).Success? <==> exists t :: Unfolds(g, v, t)
  {
    if Canonical(g, v, {}).Success? {
      var t := PrintsUnfolding(g, v, {});
      assert Unfolds(g, v, t);
    } else {
      forall t | Unfolds(g, v, t) ensures false {
        UnfoldingPrints(g, v, t, {});
      }
    }
  }

  // ----- Insertion order -----

  ghost predicate SameButOrder(a: Node, b: Node) {
    match a
    case ArrayNode(_) => a == b
    case ObjectNode(plain, symbolKeys, properties) =>
      && b.ObjectNode? && b.plain == plain && b.symbolKeys == symbolKeys
      && DistinctKeys(properties) && DistinctKeys(b.properties)
      && PropertySet(properties) == PropertySet(b.properties)
  }

  /** The same objects, their properties perhaps inserted in another order. */
  ghost predicate Reordered(g: Graph, h: Graph) {
    g.Keys == h.Keys && forall r :: r in g ==> SameButOrder(g[r], h[r])
  }

  lemma SortedPropertiesUnique(a: seq<Property>, b: seq<Property>)
    requires DistinctKeys(a) && DistinctKeys(b) && PropertySet(a) == PropertySet(b)
    ensures SortProperties(a) == SortProperties(b)
  {
    SortPropertiesSorts(a);
    SortPropertiesSorts(b);
    var sa, sb := SortProperties(a), SortProperties(b);
    KeysOfSet(sa, sb);
    KeysOfSet(sb, sa);
    SortedUnique(Keys(sa), Keys(sb));
    forall i | 0 <= i < |sa| ensures sa[i] == sb[i] {
      assert sa[i] in PropertySet(sb);
      var j :| 0 <= j < |sb| && sb[j] == sa[i];
      assert Keys(sb)[j] == Keys(sb)[i];
      if i < j {
        LessTrichotomy(Keys(sb)[i], Keys(sb)[j]);
      } else if j < i {
        LessTrichotomy(Keys(sb)[j], Keys(sb)[i]);
      }
    }
    assert |Keys(sa)| == |Keys(sb)|;
  }

  lemma KeysOfSet(a: seq<Property>, b: seq<Property>)
    requires PropertySet(a) == PropertySet(b)
    ensures Elements(Keys(a)) <= Elements(Keys(b))
  {
    forall i | 0 <= i < |a| ensures a[i].key in Keys(b) {
      assert a[i] in PropertySet(b);
      var j :| 0 <= j < |b| && b[j] == a[i];
      assert Keys(b)[j] == a[i].key;
    }
  }

  /** Insertion order never shows: same text, or the same error. */
  lemma {:induction false} OrderIndependent(g: Graph, h: Graph, v: Value, ancestors: set<Ref>)
    requires Closed(g) && Closed(h) && Reordered(g, h) && InGraph(g, v)
    ensures Canonical(g, v, ancestors) == Canonical(h, v, ancestors)
    decreases |g.Keys - ancestors|, 0, 0
  {
    if v.VObject? && v.ref !in ancestors {
      var r := v.ref;
      EnterShrinks(g, r, ancestors);
      assert SameButOrder(g[r], h[r]) && ClosedNode(g, g[r]) && ClosedNode(h, h[r]);
      match g[r] {
        case ArrayNode(slots) =>
          if None !in slots {
            ItemsOrderIndependent(g, h, Filled(slots), ancestors + {r});
          }
        case ObjectNode(plain, symbolKeys, properties) =>
          SortedPropertiesUnique(properties, h[r].properties);
          if plain && !symbolKeys {
            SortedInGraph(g, properties);
            EntriesOrderIndependent(g, h, SortProperties(properties), ancestors + {r});
          }
      }
    }
  }

  lemma {:induction false} ItemsOrderIndependent(g: Graph, h: Graph, items: seq<Value>, ancestors: set<Ref>)
    requires Closed(g) && Closed(h) && Reordered(g, h) && AllInGraph(g, items)
    ensures CanonicalItems(g, items, ancestors) == CanonicalItems(h, items, ancestors)
    decreases |g.Keys - ancestors|, 1, |items|
  {
    if items != [] {
      OrderIndependent(g, h, items[0], ancestors);
      ItemsOrderIndependent(g, h, items[1..], ancestors);
    }
  }

  lemma {:induction false} EntriesOrderIndependent(g: Graph, h: Graph, ps: seq<Property>, ancestors: set<Ref>)
    requires Closed(g) && Closed(h) && Reordered(g, h) && PropertiesInGraph(g, ps)
    ensures CanonicalEntries(g, ps, ancestors) == CanonicalEntries(h, ps, ancestors)
    decreases |g.Keys - ancestors|, 1, |ps|
  {
    if ps != [] {
      if ps[0].enumerable {
        OrderIndependent(g, h, ps[0].value, ancestors);
      }
      EntriesOrderIndependent(g, h, ps[1..], ancestors);
    }
  }
}
