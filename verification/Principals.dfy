/** Actor principals: split on colons into type, provider and id, and joined again. */
module Principals {
  import opened Common

  const COLON: Unit := 0x3A

  datatype Actor = Actor(kind: Text, provider: Text, id: Text)

  /** strings.Split(value, ":"). */
  function Split(value: Text): (parts: seq<Text>)
    ensures parts != []
  {
    if value == [] then [[]]
    else
      var rest := Split(value[1..]);
      if value[0] == COLON then [[]] + rest else [[value[0]] + rest[0]] + rest[1..]
  }

  function Join(parts: seq<Text>): Text {
    JoinWith(parts, COLON)
  }

  function Present(part: Text): seq<Text> {
    if part == [] then [] else [part]
  }

  /** Go's actorPrincipalFromRef: an empty type or provider is left out, the id never. */
  function GoRender(a: Actor): Text {
    Join(Present(a.kind) + Present(a.provider) + [a.id])
  }

  /** TypeScript and Python leave out an empty id as well. */
  function FilteredRender(a: Actor): Text {
    Join(Present(a.kind) + Present(a.provider) + Present(a.id))
  }

  /** actorFromPrincipal in Go and Python: the first part, the last part, and everything between them. */
  function Parse(value: Text): Option<Actor> {
    if value == [] then None
    else
      var parts := Split(value);
      if |parts| < 2 then Some(Actor([], [], value))
      else
        Some(Actor(parts[0], if |parts| > 2 then Join(parts[1..|parts| - 1]) else [], parts[|parts| - 1]))
  }

  lemma JoinMany(parts: seq<Text>)
    requires |parts| > 1
    ensures Join(parts) == parts[0] + [COLON] + Join(parts[1..])
  {
  }

  lemma JoinGrows(first: Unit, parts: seq<Text>)
    requires parts != []
    ensures Join([[first] + parts[0]] + parts[1..]) == [first] + Join(parts)
  {
    var grown := [[first] + parts[0]] + parts[1..];
    assert grown[1..] == parts[1..];
    if |parts| > 1 {
      JoinMany(grown);
      JoinMany(parts);
      assert [first] + (parts[0] + [COLON] + Join(parts[1..])) == ([first] + parts[0]) + [COLON] + Join(parts[1..]);
    }
  }

  lemma {:induction false} JoinSplit(value: Text)
    ensures Join(Split(value)) == value
  {
    if value != [] {
      JoinSplit(value[1..]);
      var rest := Split(value[1..]);
      assert value == [value[0]] + value[1..];
      if value[0] == COLON {
        JoinMany([[]] + rest);
        assert ([[]] + rest)[1..] == rest;
        assert [] + [COLON] + value[1..] == value;
      } else {
        JoinGrows(value[0], rest);
      }
    }
  }

  predicate ColonFree(parts: seq<Text>) {
    forall p :: p in parts ==> COLON !in p
  }

  lemma {:induction false} PartsColonFree(value: Text)
    ensures ColonFree(Split(value))
  {
    if value != [] {
      var rest := Split(value[1..]);
      PartsColonFree(value[1..]);
      assert rest[0] in rest;
      forall p | p in Split(value) ensures COLON !in p {
        if value[0] == COLON {
          assert p == [] || p in rest;
        } else {
          assert p == [value[0]] + rest[0] || p in rest[1..];
          assert p in rest[1..] ==> p in rest;
        }
      }
    }
  }

  lemma JoinedHead(parts: seq<Text>)
    requires parts != [] && ColonFree(parts)
    ensures |parts| == 1 ==> COLON !in Join(parts)
    ensures |parts| > 1 ==> Join(parts) == parts[0] + [COLON] + Join(parts[1..])
  {
    assert parts[0] in parts;
    if |parts| > 1 {
      JoinMany(parts);
    }
  }

  lemma FirstColon(a: Text, b: Text, x: Text, y: Text)
    requires COLON !in a && COLON !in b && a + [COLON] + x == b + [COLON] + y
    ensures a == b && x == y
  {
    var t, u := a + [COLON] + x, b + [COLON] + y;
    assert forall i :: 0 <= i < |a| ==> t[i] == a[i] && a[i] in a;
    assert forall i :: 0 <= i < |b| ==> u[i] == b[i] && b[i] in b;
    assert t[|a|] == COLON && u[|b|] == COLON;
    assert |a| == |b|;
    assert t[..|a|] == a && u[..|b|] == b && t[|a| + 1..] == x && u[|b| + 1..] == y;
  }

  lemma {:induction false} JoinInjective(a: seq<Text>, b: seq<Text>)
    requires a != [] && b != [] && ColonFree(a) && ColonFree(b) && Join(a) == Join(b)
    ensures a == b
  {
    JoinedHead(a);
    JoinedHead(b);
    if |a| > 1 && |b| > 1 {
      assert a[0] in a && b[0] in b;
      FirstColon(a[0], b[0], Join(a[1..]), Join(b[1..]));
      assert forall p :: p in a[1..] ==> p in a;
      assert forall p :: p in b[1..] ==> p in b;
      JoinInjective(a[1..], b[1..]);
      assert a == [a[0]] + a[1..] && b == [b[0]] + b[1..];
    } else {
      assert COLON in Join(a) <==> |a| > 1;
      assert COLON in Join(b) <==> |b| > 1;
    }
  }

  /** Split cuts at every colon: its parts are the only colon-free ones that join to the text. */
  lemma SplitIff(value: Text, parts: seq<Text>)
    ensures parts == Split(value) <==> parts != [] && ColonFree(parts) && Join(parts) == value
  {
    JoinSplit(value);
    PartsColonFree(value);
    if parts != [] && ColonFree(parts) && Join(parts) == value {
      JoinInjective(parts, Split(value));
    }
  }

  lemma {:induction false} JoinSnoc(parts: seq<Text>, last: Text)
    requires parts != []
    ensures Join(parts + [last]) == Join(parts) + [COLON] + last
  {
    var all := parts + [last];
    assert all[1..] == parts[1..] + [last];
    JoinMany(all);
    if |parts| > 1 {
      JoinSnoc(parts[1..], last);
      JoinMany(parts);
    } else {
      assert all[1..] == [last];
    }
  }

  /** Only a single empty part joins to the empty text. */
  lemma JoinEmpty(parts: seq<Text>)
    requires parts != []
    ensures Join(parts) == [] <==> parts == [[]]
  {
    if |parts| > 1 {
      JoinMany(parts);
      assert COLON in Join(parts);
    }
  }

  lemma JoinTwo(a: Text, b: Text)
    ensures Join([a, b]) == a + [COLON] + b
  {
    JoinMany([a, b]);
    assert [a, b][1..] == [b];
  }

  lemma JoinThree(a: Text, b: Text, c: Text)
    ensures Join([a, b, c]) == a + [COLON] + (b + [COLON] + c)
  {
    JoinMany([a, b, c]);
    assert [a, b, c][1..] == [b, c];
    JoinTwo(b, c);
    assert a + [COLON] + (b + [COLON] + c) == a + [COLON] + Join([b, c]);
  }

  /** A value with a colon, by its first part, its middle parts and its last part. */
  lemma Spread(value: Text)
    requires |Split(value)| >= 2
    ensures var parts := Split(value);
            var first, middle, last := parts[0], parts[1..|parts| - 1], parts[|parts| - 1];
            value == if middle == [] then first + [COLON] + last else first + [COLON] + (Join(middle) + [COLON] + last)
  {
    JoinSplit(value);
    var parts := Split(value);
    var middle, last := parts[1..|parts| - 1], parts[|parts| - 1];
    assert parts[1..] == middle + [last];
    JoinMany(parts);
    if middle != [] {
      JoinSnoc(middle, last);
    } else {
      assert parts[1..] == [last];
    }
  }

  lemma SplitOne(value: Text)
    requires COLON !in value
    ensures Split(value) == [value]
  {
    SplitIff(value, [value]);
  }

  /** The actor of a principal: what stands before the first colon, after the last, and between the two. */
  lemma ParseIff(value: Text, a: Actor)
    requires value != []
    ensures Parse(value) == Some(a) <==>
            if COLON !in value then a == Actor([], [], value)
            else
              && COLON !in a.kind && COLON !in a.id
              && (|| value == a.kind + [COLON] + (a.provider + [COLON] + a.id)
                  || (a.provider == [] && value == a.kind + [COLON] + a.id))
  {
    if COLON !in value {
      SplitOne(value);
    } else {
      Parsed(value);
      if COLON !in a.kind && COLON !in a.id {
        if value == a.kind + [COLON] + (a.provider + [COLON] + a.id) {
          ThreeParts(a);
        } else if a.provider == [] && value == a.kind + [COLON] + a.id {
          TwoParts(a);
        }
      }
    }
  }

  lemma Parsed(value: Text)
    requires COLON in value
    ensures var a := Parse(value).value;
            && COLON !in a.kind && COLON !in a.id
            && (|| value == a.kind + [COLON] + (a.provider + [COLON] + a.id)
                || (a.provider == [] && value == a.kind + [COLON] + a.id))
  {
    var parts := Split(value);
    SplitIff(value, parts);
    JoinedHead(parts);
    Spread(value);
    assert parts[0] in parts && parts[|parts| - 1] in parts;
  }

  lemma TwoParts(a: Actor)
    requires COLON !in a.kind && COLON !in a.id && a.provider == []
    ensures Parse(a.kind + [COLON] + a.id) == Some(a)
  {
    var parts := [a.kind, a.id];
    JoinTwo(a.kind, a.id);
    SplitIff(a.kind + [COLON] + a.id, parts);
  }

  lemma ThreeParts(a: Actor)
    requires COLON !in a.kind && COLON !in a.id
    ensures Parse(a.kind + [COLON] + (a.provider + [COLON] + a.id)) == Some(a)
  {
    var middle := Split(a.provider);
    var rest := middle + [a.id];
    var value := a.kind + [COLON] + (a.provider + [COLON] + a.id);
    JoinSplit(a.provider);
    PartsColonFree(a.provider);
    JoinSnoc(middle, a.id);
    var parts := [a.kind] + rest;
    assert parts[1..] == rest && parts[1..|parts| - 1] == middle;
    JoinMany(parts);
    assert forall p :: p in parts ==> p == a.kind || p in middle || p == a.id;
    SplitIff(value, parts);
  }

  /** When rendering what was parsed gives the principal back. */
  predicate Renderable(value: Text) {
    var parts := Split(value);
    |parts| == 1 || (parts[0] != [] && !(|parts| == 3 && parts[1] == []))
  }

  /** For any number of colons, Go's round trip holds exactly for renderable principals. */
  lemma GoRoundTripIff(value: Text)
    requires value != []
    ensures GoRender(Parse(value).value) == value <==> Renderable(value)
  {
    var parts := Split(value);
    if |parts| >= 2 {
      var a := Parse(value).value;
      Spread(value);
      var middle := parts[1..|parts| - 1];
      if middle != [] {
        JoinEmpty(middle);
        assert middle == [[]] <==> |parts| == 3 && parts[1] == [];
      }
      RenderedParts(a);
    } else {
      assert GoRender(Parse(value).value) == Join([value]);
    }
  }

  /** What each of the four combinations of present parts renders to. */
  lemma RenderedParts(a: Actor)
    ensures a.kind == [] && a.provider == [] ==> GoRender(a) == a.id
    ensures a.kind != [] && a.provider == [] ==> GoRender(a) == a.kind + [COLON] + a.id
    ensures a.kind == [] && a.provider != [] ==> GoRender(a) == a.provider + [COLON] + a.id
    ensures a.kind != [] && a.provider != [] ==> GoRender(a) == a.kind + [COLON] + (a.provider + [COLON] + a.id)
  {
    JoinTwo(a.kind, a.id);
    JoinTwo(a.provider, a.id);
    JoinThree(a.kind, a.provider, a.id);
    assert Present(a.kind) + Present(a.provider) + [a.id] ==
           if a.kind == [] then (if a.provider == [] then [a.id] else [a.provider, a.id])
           else if a.provider == [] then [a.kind, a.id] else [a.kind, a.provider, a.id];
  }

  /** TypeScript parses a principal into an id and nothing else, so it never loses any. */
  function TsParse(value: Text): Option<Actor> {
    if value == [] then None else Some(Actor([], [], value))
  }

  lemma TsRoundTrip(value: Text)
    requires value != []
    ensures FilteredRender(TsParse(value).value) == value
  {
    assert Present([]) + Present([]) + Present(value) == [value];
  }

  /** Python also loses a trailing colon. */
  lemma PyRoundTripIff(value: Text)
    requires value != []
    ensures FilteredRender(Parse(value).value) == value <==>
            Renderable(value) && (|Split(value)| == 1 || Split(value)[|Split(value)| - 1] != [])
  {
    GoRoundTripIff(value);
    var parts := Split(value);
    var a := Parse(value).value;
    if |parts| >= 2 && a.id == [] {
      Spread(value);
      JoinTwo(a.kind, a.provider);
      assert Present(a.kind) + Present(a.provider) + [] ==
             if a.kind == [] then Present(a.provider)
             else if a.provider == [] then [a.kind] else [a.kind, a.provider];
      assert |FilteredRender(a)| < |value|;
    }
  }

  /** "a::b" is the shortest shape that does not come back. */
  lemma EmptyProviderLost()
    ensures GoRender(Parse([0x61, COLON, COLON, 0x62]).value) == [0x61, COLON, 0x62]
  {
    var value: Text := [0x61, COLON, COLON, 0x62];
    assert value[1..] == [COLON, COLON, 0x62] && value[1..][1..] == [COLON, 0x62] && value[1..][1..][1..] == [0x62];
    var b: Text := [0x62];
    assert b[1..] == [];
    assert b + [] == b && Split(b) == [b];
    assert Split([COLON, 0x62]) == [[], [0x62]];
    assert Split([COLON, COLON, 0x62]) == [[], [], [0x62]];
    var rest := Split([COLON, COLON, 0x62]);
    assert [value[0]] + rest[0] == [0x61] && rest[1..] == [[], b];
    assert Split(value) == [[0x61]] + [[], b];
    JoinTwo([0x61], [0x62]);
  }
}
