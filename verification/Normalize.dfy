/** Descriptor-driven renaming of request keys, run twice on every call (src/protocol.ts). */
module Normalize {
  import opened Common

  /** `fields`, the one field of google.protobuf.Struct. */
  const FIELDS: Text := Units("fields")

  datatype Value = Undefined | Null | Scalar(id: int) | List(items: seq<Value>) | Record(entries: seq<Entry>)

  datatype Entry = Entry(key: Text, value: Value)

  /** How a field holds messages, if it does; `message` names another descriptor of the set. */
  datatype Kind = Plain | Message(message: nat) | ListOf(message: nat) | MapOf(message: nat)

  datatype Field = Field(name: Text, jsonName: Text, kind: Kind)

  /** A descriptor set: the fields of each message, which may refer to one another in cycles. */
  type Descriptors = nat -> seq<Field>

  /** The first field a key names. */
  function Find(fields: seq<Field>, key: Text): (field: Option<Field>)
    ensures field.Some? ==> field.value in fields && (field.value.name == key || field.value.jsonName == key)
    ensures field.None? ==> forall f :: f in fields ==> f.name != key && f.jsonName != key
  {
    if fields == [] then None
    else if fields[0].name == key || fields[0].jsonName == key then Some(fields[0])
    else Find(fields[1..], key)
  }

  /** Setting a property: in its place when there is one, else at the end. */
  function Put(record: seq<Entry>, entry: Entry): seq<Entry> {
    if record == [] then [entry]
    else if record[0].key == entry.key then [entry] + record[1..]
    else [record[0]] + Put(record[1..], entry)
  }

  /** What one property of the input sets in the output, if anything. */
  function Target(d: Descriptors, m: nat, entry: Entry): Option<Entry>
    decreases entry.value, 3
  {
    if entry.value.Undefined? then None
    else
      var field := Find(d(m), entry.key);
      var renamed := if field.None? then entry
                     else Entry(field.value.jsonName, NormalizeField(d, field.value.kind, entry.value));
      if renamed.key == PROTO then None else Some(renamed)
  }

  /** The record after the first k properties. */
  function NormalizeFirst(d: Descriptors, m: nat, value: Value, k: nat): seq<Entry>
    requires value.Record? && k <= |value.entries|
    decreases value, 0, k
  {
    if k == 0 then []
    else
      var before := NormalizeFirst(d, m, value, k - 1);
      var target := Target(d, m, value.entries[k - 1]);
      if target.None? then before else Put(before, target.value)
  }

  function Normalize(d: Descriptors, m: nat, value: Value): Value
    decreases value, 1
  {
    if value.Record? then Record(NormalizeFirst(d, m, value, |value.entries|)) else value
  }

  function NormalizeField(d: Descriptors, kind: Kind, value: Value): Value
    decreases value, 2
  {
    match kind
    case Plain => value
    case Message(m) => Normalize(d, m, value)
    case ListOf(m) =>
      if !value.List? then value
      else List(seq(|value.items|, i requires 0 <= i < |value.items| => Normalize(d, m, value.items[i])))
    case MapOf(m) =>
      if !value.Record? then value
      else Record(seq(|value.entries|, i requires 0 <= i < |value.entries| =>
                        Entry(value.entries[i].key, Normalize(d, m, value.entries[i].value))))
  }

  method NormalizeProtoJson(d: Descriptors, m: nat, value: Value) returns (r: Value)
    ensures r == Normalize(d, m, value)
  {
    if !value.Record? {
      return value;
    }
    var normalized: seq<Entry> := [];
    for k := 0 to |value.entries|
      invariant normalized == NormalizeFirst(d, m, value, k)
    {
      var entry := value.entries[k];
      if entry.value.Undefined? {
        continue;
      }
      var field := Find(d(m), entry.key);
      if field.None? {
        normalized := Assign(normalized, entry.key, entry.value);
        continue;
      }
      normalized := Assign(normalized, field.value.jsonName, NormalizeField(d, field.value.kind, entry.value));
    }
    return Record(normalized);
  }

  /** `record[key] = value`. */
  function Assign(record: seq<Entry>, key: Text, value: Value): seq<Entry> {
    if key == PROTO then record else Put(record, Entry(key, value))
  }

  // ----- What normalising leaves alone -----

  predicate DistinctKeys(record: seq<Entry>) {
    forall i, j :: 0 <= i < j < |record| ==> record[i].key != record[j].key
  }

  /** A value already written with JSON names throughout. */
  predicate Normal(d: Descriptors, m: nat, value: Value)
    decreases value, 1
  {
    value.Record? ==>
      DistinctKeys(value.entries) && forall i :: 0 <= i < |value.entries| ==> NormalEntry(d, m, value.entries[i])
  }

  predicate NormalEntry(d: Descriptors, m: nat, entry: Entry)
    decreases entry.value, 3
  {
    && !entry.value.Undefined? && entry.key != PROTO
    && var field := Find(d(m), entry.key);
       field.Some? ==> field.value.jsonName == entry.key && NormalField(d, field.value.kind, entry.value)
  }

  predicate NormalField(d: Descriptors, kind: Kind, value: Value)
    decreases value, 2
  {
    match kind
    case Plain => true
    case Message(m) => Normal(d, m, value)
    case ListOf(m) => value.List? ==> forall i :: 0 <= i < |value.items| ==> Normal(d, m, value.items[i])
    case MapOf(m) => value.Record? ==> forall i :: 0 <= i < |value.entries| ==> Normal(d, m, value.entries[i].value)
  }

  // ----- Put -----

  predicate HasKey(record: seq<Entry>, key: Text) {
    exists i :: 0 <= i < |record| && record[i].key == key
  }

  lemma {:induction false} PutFresh(record: seq<Entry>, entry: Entry)
    requires !HasKey(record, entry.key)
    ensures Put(record, entry) == record + [entry]
  {
    if record != [] {
      assert record[0].key != entry.key;
      assert forall i :: 0 <= i < |record[1..]| ==> record[1..][i] == record[i + 1];
      PutFresh(record[1..], entry);
    }
  }

  lemma {:induction false} PutOver(record: seq<Entry>, entry: Entry) returns (i: nat)
    requires HasKey(record, entry.key)
    ensures i < |record| && record[i].key == entry.key && Put(record, entry) == record[i := entry]
  {
    if record[0].key == entry.key {
      i := 0;
    } else {
      var k :| 0 <= k < |record| && record[k].key == entry.key;
      assert record[1..][k - 1].key == entry.key;
      i := PutOver(record[1..], entry);
      i := i + 1;
    }
  }

  // ----- Normalising fixes exactly the normal values -----

  /** As many properties came out as went in only if each was added at the end under a new key. */
  lemma {:induction false} NothingMerged(d: Descriptors, m: nat, value: Value, k: nat)
    requires value.Record? && k <= |value.entries|
    ensures |NormalizeFirst(d, m, value, k)| <= k
    ensures k > 0 && |NormalizeFirst(d, m, value, k)| == k ==>
              var target := Target(d, m, value.entries[k - 1]);
              && target.Some? && !HasKey(NormalizeFirst(d, m, value, k - 1), target.value.key)
              && NormalizeFirst(d, m, value, k) == NormalizeFirst(d, m, value, k - 1) + [target.value]
  {
    if k > 0 {
      NothingMerged(d, m, value, k - 1);
      var before := NormalizeFirst(d, m, value, k - 1);
      var target := Target(d, m, value.entries[k - 1]);
      if target.Some? {
        if HasKey(before, target.value.key) {
          var i := PutOver(before, target.value);
        } else {
          PutFresh(before, target.value);
        }
      }
    }
  }

  predicate Kept(d: Descriptors, m: nat, value: Value, k: nat)
    requires value.Record? && k <= |value.entries|
  {
    && DistinctKeys(value.entries[..k])
    && forall i :: 0 <= i < k ==> Target(d, m, value.entries[i]) == Some(value.entries[i])
  }

  lemma KeptBefore(d: Descriptors, m: nat, value: Value, k: nat)
    requires value.Record? && 0 < k <= |value.entries| && Kept(d, m, value, k)
    ensures Kept(d, m, value, k - 1) && !HasKey(value.entries[..k - 1], value.entries[k - 1].key)
  {
    var now := value.entries[..k];
    assert now[k - 1] == value.entries[k - 1];
    assert forall i :: 0 <= i < k - 1 ==> value.entries[..k - 1][i] == now[i];
  }

  lemma {:induction false} KeptIsFixed(d: Descriptors, m: nat, value: Value, k: nat)
    requires value.Record? && k <= |value.entries| && Kept(d, m, value, k)
    ensures NormalizeFirst(d, m, value, k) == value.entries[..k]
  {
    if k > 0 {
      assert Target(d, m, value.entries[k - 1]) == Some(value.entries[k - 1]);
      KeptBefore(d, m, value, k);
      KeptIsFixed(d, m, value, k - 1);
      PutFresh(value.entries[..k - 1], value.entries[k - 1]);
    }
  }

  lemma SplitLast(entries: seq<Entry>, k: nat, before: seq<Entry>, last: Entry)
    requires 0 < k <= |entries| && entries[..k] == before + [last]
    ensures before == entries[..k - 1] && last == entries[k - 1]
  {
    assert |before| == k - 1;
    assert entries[..k - 1] == entries[..k][..k - 1] == before;
    assert entries[k - 1] == entries[..k][k - 1];
  }

  lemma KeptAfter(d: Descriptors, m: nat, value: Value, k: nat)
    requires value.Record? && 0 < k <= |value.entries| && Kept(d, m, value, k - 1)
    requires Target(d, m, value.entries[k - 1]) == Some(value.entries[k - 1])
    requires !HasKey(value.entries[..k - 1], value.entries[k - 1].key)
    ensures Kept(d, m, value, k)
  {
    var before := value.entries[..k - 1];
    assert forall i :: 0 <= i < k - 1 ==> before[i] == value.entries[i];
    assert forall i :: 0 <= i < k - 1 ==> before[i].key != value.entries[k - 1].key;
  }

  lemma {:induction false} FixedIsKept(d: Descriptors, m: nat, value: Value, k: nat)
    requires value.Record? && k <= |value.entries|
    requires NormalizeFirst(d, m, value, k) == value.entries[..k]
    ensures Kept(d, m, value, k)
  {
    if k > 0 {
      NothingMerged(d, m, value, k);
      SplitLast(value.entries, k, NormalizeFirst(d, m, value, k - 1), Target(d, m, value.entries[k - 1]).value);
      FixedIsKept(d, m, value, k - 1);
      KeptAfter(d, m, value, k);
    }
  }

  /** Normalising changes nothing exactly when every key is already a JSON name and nothing is dropped. */
  lemma {:induction false} FixedIffNormal(d: Descriptors, m: nat, value: Value)
    ensures Normalize(d, m, value) == value <==> Normal(d, m, value)
    decreases value, 1
  {
    if value.Record? {
      var entries := value.entries;
      assert entries[..|entries|] == entries;
      if Normalize(d, m, value) == value {
        FixedIsKept(d, m, value, |entries|);
      }
      forall i | 0 <= i < |entries|
        ensures Target(d, m, entries[i]) == Some(entries[i]) <==> NormalEntry(d, m, entries[i])
      {
        EntryFixedIffNormal(d, m, entries[i]);
      }
      if Normal(d, m, value) {
        KeptIsFixed(d, m, value, |entries|);
      }
    }
  }

  lemma {:induction false} EntryFixedIffNormal(d: Descriptors, m: nat, entry: Entry)
    ensures Target(d, m, entry) == Some(entry) <==> NormalEntry(d, m, entry)
    decreases entry.value, 3
  {
    var field := Find(d(m), entry.key);
    if field.Some? {
      FieldFixedIffNormal(d, field.value.kind, entry.value);
    }
  }

  lemma {:induction false} FieldFixedIffNormal(d: Descriptors, kind: Kind, value: Value)
    ensures NormalizeField(d, kind, value) == value <==> NormalField(d, kind, value)
    decreases value, 2
  {
    match kind
    case Plain =>
    case Message(m) => FixedIffNormal(d, m, value);
    case ListOf(m) =>
      if value.List? {
        forall i | 0 <= i < |value.items|
          ensures Normalize(d, m, value.items[i]) == value.items[i] <==> Normal(d, m, value.items[i])
        {
          FixedIffNormal(d, m, value.items[i]);
        }
        assert NormalizeField(d, kind, value) == value <==>
               forall i :: 0 <= i < |value.items| ==> NormalizeField(d, kind, value).items[i] == value.items[i];
      }
    case MapOf(m) =>
      if value.Record? {
        forall i | 0 <= i < |value.entries|
          ensures Normalize(d, m, value.entries[i].value) == value.entries[i].value
             <==> Normal(d, m, value.entries[i].value)
        {
          FixedIffNormal(d, m, value.entries[i].value);
        }
        assert NormalizeField(d, kind, value) == value <==>
               forall i :: 0 <= i < |value.entries| ==> NormalizeField(d, kind, value).entries[i] == value.entries[i];
      }
  }

  // ----- Twice is once -----

  /** Looking a JSON name up finds the field it was taken from. */
  ghost predicate Stable(d: Descriptors) {
    forall m, key ::
      var field := Find(d(m), key);
      field.Some? && field.value.jsonName != PROTO ==> Find(d(m), field.value.jsonName) == field
  }

  lemma {:induction false} ResultNormal(d: Descriptors, m: nat, value: Value)
    requires Stable(d)
    ensures Normal(d, m, Normalize(d, m, value))
    decreases value, 1
  {
    if value.Record? {
      FirstNormal(d, m, value, |value.entries|);
    }
  }

  lemma {:induction false} FirstNormal(d: Descriptors, m: nat, value: Value, k: nat)
    requires Stable(d) && value.Record? && k <= |value.entries|
    ensures Normal(d, m, Record(NormalizeFirst(d, m, value, k)))
    decreases value, 0, k
  {
    if k > 0 {
      FirstNormal(d, m, value, k - 1);
      var target := Target(d, m, value.entries[k - 1]);
      if target.Some? {
        TargetNormal(d, m, value.entries[k - 1]);
        PutNormal(d, m, NormalizeFirst(d, m, value, k - 1), target.value);
      }
    }
  }

  lemma PutNormal(d: Descriptors, m: nat, record: seq<Entry>, entry: Entry)
    requires Normal(d, m, Record(record)) && NormalEntry(d, m, entry)
    ensures Normal(d, m, Record(Put(record, entry)))
  {
    var entries := Record(record).entries;
    if HasKey(record, entry.key) {
      var i := PutOver(record, entry);
    } else {
      PutFresh(record, entry);
    }
  }

  lemma {:induction false} TargetNormal(d: Descriptors, m: nat, entry: Entry)
    requires Stable(d) && Target(d, m, entry).Some?
    ensures NormalEntry(d, m, Target(d, m, entry).value)
    decreases entry.value, 3
  {
    var field := Find(d(m), entry.key);
    if field.Some? {
      FieldResultNormal(d, field.value.kind, entry.value);
      assert !NormalizeField(d, field.value.kind, entry.value).Undefined?;
      assert Find(d(m), field.value.jsonName) == field;
    }
  }

  lemma {:induction false} FieldResultNormal(d: Descriptors, kind: Kind, value: Value)
    requires Stable(d)
    ensures NormalField(d, kind, NormalizeField(d, kind, value))
    decreases value, 2
  {
    match kind
    case Plain =>
    case Message(m) => ResultNormal(d, m, value);
    case ListOf(m) =>
      if value.List? {
        forall i | 0 <= i < |value.items|
          ensures Normal(d, m, Normalize(d, m, value.items[i]))
        {
          ResultNormal(d, m, value.items[i]);
        }
      }
    case MapOf(m) =>
      if value.Record? {
        forall i | 0 <= i < |value.entries|
          ensures Normal(d, m, Normalize(d, m, value.entries[i].value))
        {
          ResultNormal(d, m, value.entries[i].value);
        }
      }
  }

  /** What a message type always has: no two fields with one JSON name. */
  ghost predicate DistinctJsonNames(d: Descriptors) {
    forall m, f, g :: f in d(m) && g in d(m) && f.jsonName == g.jsonName ==> f == g
  }

  /** A field whose JSON name is taken for another's breaks the second pass on a one-property request. */
  lemma Captured(d: Descriptors, m: nat, key: Text)
    requires DistinctJsonNames(d)
    requires Find(d(m), key).Some? && Find(d(m), key).value.jsonName != PROTO
    requires Find(d(m), Find(d(m), key).value.jsonName) != Find(d(m), key)
    ensures var once := Normalize(d, m, Record([Entry(key, Scalar(0))]));
            Normalize(d, m, once) != once
  {
    var field := Find(d(m), key).value;
    var input := Record([Entry(key, Scalar(0))]);
    var once := Record([Entry(field.jsonName, Scalar(0))]);
    OneEntry(d, m, key);
    OneEntry(d, m, field.jsonName);
    assert Find(d(m), field.jsonName).value.jsonName != field.jsonName;
  }

  lemma OneEntry(d: Descriptors, m: nat, key: Text)
    requires Find(d(m), key).Some?
    ensures var name := Find(d(m), key).value.jsonName;
            Normalize(d, m, Record([Entry(key, Scalar(0))]))
            == Record(if name == PROTO then [] else [Entry(name, Scalar(0))])
  {
    var input := Record([Entry(key, Scalar(0))]);
    var field := Find(d(m), key).value;
    assert NormalizeField(d, field.kind, Scalar(0)) == Scalar(0);
    assert NormalizeFirst(d, m, input, 0) == [];
    assert input.entries[0] == Entry(key, Scalar(0));
    assert Target(d, m, input.entries[0])
        == if field.jsonName == PROTO then None else Some(Entry(field.jsonName, Scalar(0)));
    assert NormalizeFirst(d, m, input, 1)
        == if field.jsonName == PROTO then [] else [Entry(field.jsonName, Scalar(0))];
    assert |input.entries| == 1;
  }

  /**
    Normalising every request of a descriptor set twice is normalising it once, exactly when
    no field's JSON name is taken for another field.
   */
  lemma IdempotentIff(d: Descriptors)
    requires DistinctJsonNames(d)
    ensures (forall m, value :: Normalize(d, m, Normalize(d, m, value)) == Normalize(d, m, value)) <==> Stable(d)
  {
    if Stable(d) {
      forall m, value ensures Normalize(d, m, Normalize(d, m, value)) == Normalize(d, m, value) {
        Idempotent(d, m, value);
      }
    } else {
      var m, key :| Find(d(m), key).Some? && Find(d(m), key).value.jsonName != PROTO
                    && Find(d(m), Find(d(m), key).value.jsonName) != Find(d(m), key);
      Captured(d, m, key);
    }
  }

  lemma Idempotent(d: Descriptors, m: nat, value: Value)
    requires Stable(d)
    ensures Normalize(d, m, Normalize(d, m, value)) == Normalize(d, m, value)
  {
    ResultNormal(d, m, value);
    FixedIffNormal(d, m, Normalize(d, m, value));
  }

  // ----- Which descriptor sets are stable -----

  const UNDERSCORE: Unit := 0x5F

  function Upper(u: Unit): Unit {
    if 0x61 <= u <= 0x7A then u - 0x20 else u
  }

  /** The rest of a name after an underscore (`up`) or another character. */
  function Camel(name: Text, up: bool): Text {
    if name == [] then []
    else if name[0] == UNDERSCORE then Camel(name[1..], true)
    else [if up then Upper(name[0]) else name[0]] + Camel(name[1..], false)
  }

  /** The JSON name a field has unless its declaration gives another. */
  function LowerCamel(name: Text): Text {
    Camel(name, false)
  }

  /** A word with its first letter in upper case. */
  function Capital(word: Text): Text {
    if word == [] then [] else [Upper(word[0])] + word[1..]
  }

  function Capitals(words: seq<Text>): Text {
    if words == [] then [] else Capital(words[0]) + Capitals(words[1..])
  }

  predicate Words(words: seq<Text>) {
    forall w :: w in words ==> UNDERSCORE !in w
  }

  lemma CamelCons(first: Unit, rest: Text, up: bool)
    ensures Camel([first] + rest, up) == if first == UNDERSCORE then Camel(rest, true)
                                         else [if up then Upper(first) else first] + Camel(rest, false)
  {
    assert ([first] + rest)[1..] == rest;
  }

  lemma FirstApart(word: Text, rest: Text)
    requires word != []
    ensures word + rest == [word[0]] + (word[1..] + rest)
  {
  }

  lemma {:induction false} CamelWord(word: Text, rest: Text, up: bool)
    requires UNDERSCORE !in word && (rest == [] || rest[0] == UNDERSCORE)
    ensures Camel(word + rest, up) == (if up then Capital(word) else word) + Camel(rest, true)
  {
    if word == [] {
      assert word + rest == rest;
    } else {
      var first, tail := word[0], word[1..];
      assert first in word && UNDERSCORE !in tail;
      CamelWord(tail, rest, false);
      FirstApart(word, rest);
      CamelCons(first, tail + rest, up);
      FirstApart(word, Camel(rest, true));
    }
  }

  /** The lower-camel form of words joined by underscores: the first as it is, the others capitalised. */
  lemma {:induction false} CamelWords(words: seq<Text>, up: bool)
    requires words != [] && Words(words)
    ensures Camel(JoinWith(words, UNDERSCORE), up)
         == (if up then Capital(words[0]) else words[0]) + Capitals(words[1..])
  {
    assert words[0] in words;
    if |words| == 1 {
      CamelWord(words[0], [], up);
      assert words[0] + [] == words[0];
    } else {
      var rest := words[1..];
      assert forall w :: w in rest ==> w in words;
      CamelWords(rest, true);
      CamelWord(words[0], [UNDERSCORE] + JoinWith(rest, UNDERSCORE), up);
      CamelUnderscore(JoinWith(rest, UNDERSCORE));
      JoinFirst(words);
    }
  }

  lemma CamelUnderscore(name: Text)
    ensures Camel([UNDERSCORE] + name, true) == Camel(name, true)
  {
    assert ([UNDERSCORE] + name)[1..] == name;
  }

  lemma JoinFirst(words: seq<Text>)
    requires |words| > 1
    ensures JoinWith(words, UNDERSCORE) == words[0] + ([UNDERSCORE] + JoinWith(words[1..], UNDERSCORE))
  {
  }

  /** The letters a to z, and no others, have an upper case here. */
  lemma UpperLetters(u: Unit, i: nat)
    ensures i < 26 ==> Upper('a' as int + i) == 'A' as int + i
    ensures u < 'a' as int || 'z' as int < u ==> Upper(u) == u
  {
  }

  /** `arrow_rows` becomes `arrowRows`. */
  lemma SampleName()
    ensures LowerCamel(JoinWith([Units("arrow"), Units("rows")], UNDERSCORE)) == Units("arrow") + Units("Rows")
  {
    var words := [Units("arrow"), Units("rows")];
    assert words[1..] == [Units("rows")];
    CamelWords(words, false);
    CapitalRows();
  }

  lemma CapitalRows()
    ensures Capitals([Units("rows")]) == Units("Rows")
  {
    assert Capital(Units("rows")) == Units("Rows");
  }

  lemma {:induction false} CamelDropsUnderscores(name: Text, up: bool)
    ensures UNDERSCORE !in Camel(name, up)
  {
    if name != [] {
      CamelDropsUnderscores(name[1..], name[0] == UNDERSCORE);
    }
  }

  lemma {:induction false} CamelKeepsOthers(name: Text)
    requires UNDERSCORE !in name
    ensures LowerCamel(name) == name
  {
    if name != [] {
      assert name[0] in name;
      assert forall u :: u in name[1..] ==> u in name;
      CamelKeepsOthers(name[1..]);
    }
  }

  ghost predicate DefaultJsonNames(d: Descriptors) {
    forall m, f :: f in d(m) ==> f.jsonName == LowerCamel(f.name)
  }

  /**
    Descriptor sets without explicit JSON names are stable, so on every request of such a set
    the second pass changes nothing.
   */
  lemma DefaultNamesStable(d: Descriptors)
    requires DefaultJsonNames(d) && DistinctJsonNames(d)
    ensures Stable(d)
    ensures forall m, value :: Normalize(d, m, Normalize(d, m, value)) == Normalize(d, m, value)
  {
    forall m, key | Find(d(m), key).Some? && Find(d(m), key).value.jsonName != PROTO
      ensures Find(d(m), Find(d(m), key).value.jsonName) == Find(d(m), key)
    {
      FoundByJsonName(d, m, Find(d(m), key).value);
    }
    IdempotentIff(d);
  }

  lemma FoundByJsonName(d: Descriptors, m: nat, f: Field)
    requires DefaultJsonNames(d) && DistinctJsonNames(d) && f in d(m)
    ensures Find(d(m), f.jsonName) == Some(f)
  {
    var found := Find(d(m), f.jsonName);
    assert found.Some?;
    var g := found.value;
    if g.name == f.jsonName {
      CamelDropsUnderscores(f.name, false);
      CamelKeepsOthers(g.name);
    }
    assert g.jsonName == f.jsonName;
  }

  const A: Text := [0x61]
  const B: Text := [0x62]
  const C: Text := [0x63]

  /** Field b with JSON name c, and field a with JSON name b. */
  const CROSSED: Descriptors := m => [Field(B, C, Plain), Field(A, B, Plain)]

  lemma CrossedFinds()
    ensures Find(CROSSED(0), A) == Some(Field(A, B, Plain)) && Find(CROSSED(0), B) == Some(Field(B, C, Plain))
  {
    var fields := CROSSED(0);
    assert fields[1..] == [Field(A, B, Plain)];
    assert A != B && A != C;
    assert Find(fields, A) == Find(fields[1..], A);
  }

  lemma CrossedNotStable()
    ensures DistinctJsonNames(CROSSED) && !Stable(CROSSED)
  {
    CrossedFinds();
    assert B != C && |B| != |PROTO|;
    assert Find(CROSSED(0), A).value.jsonName == B;
    assert Find(CROSSED(0), B) != Find(CROSSED(0), A);
  }

  /** Distinct explicit JSON names are not enough: {a} becomes {b}, and on the second pass {c}. */
  lemma CrossedNamesUnstable()
    ensures DistinctJsonNames(CROSSED) && !Stable(CROSSED)
    ensures Normalize(CROSSED, 0, Record([Entry(A, Scalar(0))])) == Record([Entry(B, Scalar(0))])
    ensures Normalize(CROSSED, 0, Record([Entry(B, Scalar(0))])) == Record([Entry(C, Scalar(0))])
  {
    CrossedNotStable();
    CrossedFinds();
    assert |B| != |PROTO| && |C| != |PROTO|;
    OneEntry(CROSSED, 0, A);
    OneEntry(CROSSED, 0, B);
  }

  // ----- Rows -----

  /** A record without its undefined properties. */
  function Defined(record: seq<Entry>): seq<Entry> {
    if record == [] then []
    else
      var last := record[|record| - 1];
      Defined(record[..|record| - 1]) + (if last.value.Undefined? then [] else [last])
  }

  lemma {:induction false} DefinedEntries(record: seq<Entry>)
    ensures forall e :: e in Defined(record) <==> e in record && !e.value.Undefined?
  {
    if record != [] {
      var most := record[..|record| - 1];
      DefinedEntries(most);
      assert record == most + [record[|record| - 1]];
    }
  }

  lemma {:induction false} DefinedDistinct(record: seq<Entry>)
    requires DistinctKeys(record)
    ensures DistinctKeys(Defined(record))
  {
    if record != [] {
      var most, last := record[..|record| - 1], record[|record| - 1];
      DefinedDistinct(most);
      DefinedEntries(most);
      assert forall e :: e in Defined(most) ==> e.key != last.key;
    }
  }

  /** The first k outputs depend on the first k inputs only. */
  lemma {:induction false} PrefixOnly(d: Descriptors, m: nat, v: Value, w: Value, k: nat)
    requires v.Record? && w.Record? && k <= |v.entries| && k <= |w.entries| && v.entries[..k] == w.entries[..k]
    ensures NormalizeFirst(d, m, v, k) == NormalizeFirst(d, m, w, k)
    decreases k
  {
    if k > 0 {
      assert v.entries[k - 1] == v.entries[..k][k - 1] == w.entries[..k][k - 1];
      assert v.entries[..k - 1] == v.entries[..k][..k - 1] == w.entries[..k - 1];
      PrefixOnly(d, m, v, w, k - 1);
    }
  }

  lemma LastStep(d: Descriptors, m: nat, record: seq<Entry>)
    requires record != []
    ensures var before := NormalizeFirst(d, m, Record(record), |record| - 1);
            var target := Target(d, m, record[|record| - 1]);
            Normalize(d, m, Record(record)) == Record(if target.None? then before else Put(before, target.value))
  {
  }

  /** Undefined properties have no part in the result. */
  lemma {:induction false} DropsUndefined(d: Descriptors, m: nat, record: seq<Entry>)
    ensures Normalize(d, m, Record(record)) == Normalize(d, m, Record(Defined(record)))
  {
    if record != [] {
      var n := |record| - 1;
      var most, last := record[..n], record[n];
      DropsUndefined(d, m, most);
      PrefixOnly(d, m, Record(record), Record(most), n);
      LastStep(d, m, record);
      if last.value.Undefined? {
        assert Defined(record) == Defined(most);
      } else {
        var defined := Defined(record);
        assert defined == Defined(most) + [last];
        PrefixOnly(d, m, Record(defined), Record(Defined(most)), |defined| - 1);
        LastStep(d, m, defined);
      }
    }
  }

  /** google.protobuf.Struct: one map field, `fields`, of messages n. */
  predicate IsStruct(d: Descriptors, m: nat, n: nat) {
    d(m) == [Field(FIELDS, FIELDS, MapOf(n))]
  }

  /**
    A row of a Struct-typed column passes unchanged, but for its undefined columns, exactly when
    it has no column called `__proto__` and a column called `fields`, if there is one, holds
    nothing the descriptor of its values would rename or drop.
   */
  lemma RowUnchangedIff(d: Descriptors, m: nat, n: nat, record: seq<Entry>)
    requires IsStruct(d, m, n) && DistinctKeys(record)
    ensures Normalize(d, m, Record(record)) == Record(Defined(record)) <==>
            forall e :: e in record && !e.value.Undefined? ==>
              e.key != PROTO && (e.key == FIELDS ==> NormalField(d, MapOf(n), e.value))
  {
    var defined := Defined(record);
    DropsUndefined(d, m, record);
    FixedIffNormal(d, m, Record(defined));
    DefinedDistinct(record);
    DefinedEntries(record);
    RowNormalIff(d, m, n, defined);
  }

  lemma RowNormalIff(d: Descriptors, m: nat, n: nat, record: seq<Entry>)
    requires IsStruct(d, m, n) && DistinctKeys(record)
    ensures Normal(d, m, Record(record)) <==>
            forall e :: e in record ==>
              !e.value.Undefined? && e.key != PROTO && (e.key == FIELDS ==> NormalField(d, MapOf(n), e.value))
  {
    var row := Record(record);
    forall e ensures NormalEntry(d, m, e) <==>
                     !e.value.Undefined? && e.key != PROTO && (e.key == FIELDS ==> NormalField(d, MapOf(n), e.value))
    {
      FindInStruct(d, m, n, e.key);
    }
    assert Normal(d, m, row) <==> forall i :: 0 <= i < |row.entries| ==> NormalEntry(d, m, row.entries[i]);
  }

  lemma FindInStruct(d: Descriptors, m: nat, n: nat, key: Text)
    requires IsStruct(d, m, n)
    ensures Find(d(m), key) == if key == FIELDS then Some(Field(FIELDS, FIELDS, MapOf(n))) else None
  {
  }

  /** A row without columns called `fields` or `__proto__` is kept whole. */
  lemma RowKept(d: Descriptors, m: nat, n: nat, record: seq<Entry>)
    requires IsStruct(d, m, n) && DistinctKeys(record)
    requires forall i :: 0 <= i < |record| ==> record[i].key != FIELDS && record[i].key != PROTO
    ensures Normalize(d, m, Record(record)) == Record(Defined(record))
  {
    RowUnchangedIff(d, m, n, record);
  }

  /** A column called `fields` whose cells look like messages is renamed inside. */
  lemma FieldsColumnRenamed(d: Descriptors, m: nat, n: nat, column: Text, cell: Value)
    requires IsStruct(d, m, n) && !cell.Undefined?
    requires Find(d(n), column).Some? && Find(d(n), column).value.jsonName != column
    ensures var row := [Entry(FIELDS, Record([Entry(column, Record([Entry(column, cell)]))]))];
            Normalize(d, m, Record(row)) != Record(Defined(row))
  {
    var inner := Record([Entry(column, cell)]);
    var fields := Record([Entry(column, inner)]);
    var row := [Entry(FIELDS, fields)];
    RowUnchangedIff(d, m, n, row);
    assert !NormalEntry(d, n, inner.entries[0]);
    assert !Normal(d, n, inner);
    assert !Normal(d, n, fields.entries[0].value);
    assert !NormalField(d, MapOf(n), fields);
    assert row[0] in row && row[0].key == FIELDS;
  }
}
