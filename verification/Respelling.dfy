/**
  What normalising does to a value, said of the values alone: which result respells which
  input. Nothing here builds a result.
 */
module Respelling {
  import opened Common
  import opened Normalize

  /** A key names a field by its declared name or by its JSON name. */
  predicate Names(key: Text, f: Field) {
    key == f.name || key == f.jsonName
  }

  /** The field a key is for: the first of the message that it names. */
  ghost predicate IsFieldOf(fields: seq<Field>, key: Text, f: Field) {
    exists i :: 0 <= i < |fields| && fields[i] == f && Names(key, f) && forall j :: 0 <= j < i ==> !Names(key, fields[j])
  }

  lemma {:induction false} FindIff(fields: seq<Field>, key: Text, f: Field)
    ensures Find(fields, key) == Some(f) <==> IsFieldOf(fields, key, f)
  {
    if fields != [] {
      FindIff(fields[1..], key, f);
      if Names(key, fields[0]) {
        if IsFieldOf(fields, key, f) {
          assert fields[0] == f;
        } else {
          assert !(fields[0] == f);
        }
      } else {
        FieldOfTail(fields, key, f);
      }
    }
  }

  lemma FieldOfTail(fields: seq<Field>, key: Text, f: Field)
    requires fields != [] && !Names(key, fields[0])
    ensures IsFieldOf(fields, key, f) <==> IsFieldOf(fields[1..], key, f)
  {
    if IsFieldOf(fields, key, f) {
      var i :| 0 <= i < |fields| && fields[i] == f && Names(key, f) && forall j :: 0 <= j < i ==> !Names(key, fields[j]);
      assert fields[1..][i - 1] == f && forall j :: 0 <= j < i - 1 ==> !Names(key, fields[1..][j]);
    }
    if IsFieldOf(fields[1..], key, f) {
      var i :| 0 <= i < |fields[1..]| && fields[1..][i] == f && Names(key, f)
               && forall j :: 0 <= j < i ==> !Names(key, fields[1..][j]);
      assert fields[i + 1] == f;
      forall j | 0 <= j < i + 1 ensures !Names(key, fields[j]) {
        assert j > 0 ==> fields[j] == fields[1..][j - 1];
      }
    }
  }

  /** The property a key is written as. */
  function NewName(fields: seq<Field>, key: Text): Text {
    match Find(fields, key)
    case None => key
    case Some(f) => f.jsonName
  }

  /** Entry i is kept: it has a value and a name that makes a property. */
  predicate Counts(fields: seq<Field>, entry: Entry) {
    !entry.value.Undefined? && NewName(fields, entry.key) != PROTO
  }

  /** The names of the first k entries, each where it first occurs. */
  function NewNames(fields: seq<Field>, entries: seq<Entry>, k: nat): seq<Text>
    requires k <= |entries|
  {
    if k == 0 then []
    else
      var before := NewNames(fields, entries, k - 1);
      var name := NewName(fields, entries[k - 1].key);
      if !Counts(fields, entries[k - 1]) || name in before then before else before + [name]
  }

  /** Entry j is the last of the first k that is written under this name. */
  predicate IsLast(fields: seq<Field>, entries: seq<Entry>, k: nat, j: nat, name: Text)
    requires k <= |entries|
  {
    && j < k && Counts(fields, entries[j]) && NewName(fields, entries[j].key) == name
    && forall i :: j < i < k && Counts(fields, entries[i]) ==> NewName(fields, entries[i].key) != name
  }

  /**
    w is v with every record respelt: its keys are the JSON names in order of first use, and
    under each the last value given for it, respelt in turn. Everything else is as it was.
   */
  ghost predicate Respells(d: Descriptors, m: nat, v: Value, w: Value)
    decreases v, 1
  {
    if !v.Record? then w == v
    else
      var names := NewNames(d(m), v.entries, |v.entries|);
      && w.Record? && |w.entries| == |names|
      && forall i :: 0 <= i < |names| ==> RespellsAt(d, m, v, names[i], w.entries[i])
  }

  /** The property under one name. */
  ghost predicate RespellsAt(d: Descriptors, m: nat, v: Value, name: Text, entry: Entry)
    requires v.Record?
    decreases v, 0
  {
    && entry.key == name
    && exists j: nat :: IsLast(d(m), v.entries, |v.entries|, j, name)
                        && RespellsIn(d, KindOf(d(m), v.entries[j].key), v.entries[j].value, entry.value)
  }

  function KindOf(fields: seq<Field>, key: Text): Kind {
    match Find(fields, key)
    case None => Plain
    case Some(f) => f.kind
  }

  /** The value of one property: messages in lists keep their places, messages in maps their keys. */
  ghost predicate RespellsIn(d: Descriptors, kind: Kind, v: Value, w: Value)
    decreases v, 2
  {
    match kind
    case Plain => w == v
    case Message(m) => Respells(d, m, v, w)
    case ListOf(m) =>
      if !v.List? then w == v
      else
        && w.List? && |w.items| == |v.items|
        && forall i :: 0 <= i < |v.items| ==> Respells(d, m, v.items[i], w.items[i])
    case MapOf(m) =>
      if !v.Record? then w == v
      else
        && w.Record? && |w.entries| == |v.entries|
        && forall i :: 0 <= i < |v.entries| ==>
             w.entries[i].key == v.entries[i].key && Respells(d, m, v.entries[i].value, w.entries[i].value)
  }

  // ----- Normalising respells, and nothing else does -----

  lemma {:induction false} NewNamesDistinct(fields: seq<Field>, entries: seq<Entry>, k: nat)
    requires k <= |entries|
    ensures Distinct(NewNames(fields, entries, k))
  {
    if k > 0 {
      NewNamesDistinct(fields, entries, k - 1);
    }
  }

  lemma TargetIs(d: Descriptors, m: nat, entry: Entry)
    ensures Target(d, m, entry) ==
            if Counts(d(m), entry)
            then Some(Entry(NewName(d(m), entry.key), NormalizeField(d, KindOf(d(m), entry.key), entry.value)))
            else None
  {
  }

  lemma LastUnique(fields: seq<Field>, entries: seq<Entry>, k: nat, i: nat, j: nat, name: Text)
    requires k <= |entries| && IsLast(fields, entries, k, i, name) && IsLast(fields, entries, k, j, name)
    ensures i == j
  {
  }

  /** The property holds the last of the first k entries written under the name, normalised. */
  ghost predicate Holds(d: Descriptors, m: nat, v: Value, k: nat, name: Text, entry: Entry)
    requires v.Record? && k <= |v.entries|
  {
    && entry.key == name
    && exists j: nat :: IsLast(d(m), v.entries, k, j, name)
                        && entry.value == NormalizeField(d, KindOf(d(m), v.entries[j].key), v.entries[j].value)
  }

  ghost predicate AllHold(d: Descriptors, m: nat, v: Value, k: nat, record: seq<Entry>)
    requires v.Record? && k <= |v.entries|
  {
    var names := NewNames(d(m), v.entries, k);
    |record| == |names| && forall i :: 0 <= i < |names| ==> Holds(d, m, v, k, names[i], record[i])
  }

  lemma StillHolds(d: Descriptors, m: nat, v: Value, k: nat, name: Text, entry: Entry)
    requires v.Record? && 0 < k <= |v.entries| && Holds(d, m, v, k - 1, name, entry)
    requires Counts(d(m), v.entries[k - 1]) ==> NewName(d(m), v.entries[k - 1].key) != name
    ensures Holds(d, m, v, k, name, entry)
  {
    var j: nat :| IsLast(d(m), v.entries, k - 1, j, name)
                  && entry.value == NormalizeField(d, KindOf(d(m), v.entries[j].key), v.entries[j].value);
    assert IsLast(d(m), v.entries, k, j, name);
  }

  lemma NowHolds(d: Descriptors, m: nat, v: Value, k: nat)
    requires v.Record? && 0 < k <= |v.entries| && Counts(d(m), v.entries[k - 1])
    ensures Holds(d, m, v, k, NewName(d(m), v.entries[k - 1].key), Target(d, m, v.entries[k - 1]).value)
  {
    TargetIs(d, m, v.entries[k - 1]);
    assert IsLast(d(m), v.entries, k, k - 1, NewName(d(m), v.entries[k - 1].key));
  }

  lemma {:induction false} FirstHolds(d: Descriptors, m: nat, v: Value, k: nat)
    requires v.Record? && k <= |v.entries|
    ensures AllHold(d, m, v, k, NormalizeFirst(d, m, v, k))
  {
    if k > 0 {
      FirstHolds(d, m, v, k - 1);
      TargetIs(d, m, v.entries[k - 1]);
      if Counts(d(m), v.entries[k - 1]) {
        PutHolds(d, m, v, k, NormalizeFirst(d, m, v, k - 1));
      } else {
        SkipHolds(d, m, v, k, NormalizeFirst(d, m, v, k - 1));
      }
    }
  }

  lemma SkipHolds(d: Descriptors, m: nat, v: Value, k: nat, before: seq<Entry>)
    requires v.Record? && 0 < k <= |v.entries| && AllHold(d, m, v, k - 1, before)
    requires !Counts(d(m), v.entries[k - 1])
    ensures AllHold(d, m, v, k, before)
  {
    var names := NewNames(d(m), v.entries, k - 1);
    assert NewNames(d(m), v.entries, k) == names;
    forall i | 0 <= i < |names| ensures Holds(d, m, v, k, names[i], before[i]) {
      StillHolds(d, m, v, k, names[i], before[i]);
    }
  }

  lemma KeysAre(d: Descriptors, m: nat, v: Value, k: nat, record: seq<Entry>)
    requires v.Record? && k <= |v.entries| && AllHold(d, m, v, k, record)
    ensures var names := NewNames(d(m), v.entries, k);
            |record| == |names| && forall i :: 0 <= i < |names| ==> record[i].key == names[i]
  {
    var names := NewNames(d(m), v.entries, k);
    forall i | 0 <= i < |names| ensures record[i].key == names[i] {
      assert Holds(d, m, v, k, names[i], record[i]);
    }
  }

  /** The names already there but the new one keep their properties. */
  lemma OthersHold(d: Descriptors, m: nat, v: Value, k: nat, before: seq<Entry>)
    requires v.Record? && 0 < k <= |v.entries| && AllHold(d, m, v, k - 1, before)
    ensures var names := NewNames(d(m), v.entries, k - 1);
            forall i :: 0 <= i < |names| && names[i] != NewName(d(m), v.entries[k - 1].key) ==>
              Holds(d, m, v, k, names[i], before[i])
  {
    var names := NewNames(d(m), v.entries, k - 1);
    forall i | 0 <= i < |names| && names[i] != NewName(d(m), v.entries[k - 1].key)
      ensures Holds(d, m, v, k, names[i], before[i])
    {
      StillHolds(d, m, v, k, names[i], before[i]);
    }
  }

  lemma NextNames(fields: seq<Field>, entries: seq<Entry>, k: nat)
    requires 0 < k <= |entries| && Counts(fields, entries[k - 1])
    ensures var before, name := NewNames(fields, entries, k - 1), NewName(fields, entries[k - 1].key);
            && NewNames(fields, entries, k) == (if name in before then before else before + [name])
            && Distinct(before)
  {
    NewNamesDistinct(fields, entries, k - 1);
  }

  lemma OverHolds(d: Descriptors, m: nat, v: Value, k: nat, before: seq<Entry>, target: Entry, at: nat)
    requires v.Record? && 0 < k <= |v.entries| && AllHold(d, m, v, k - 1, before) && Counts(d(m), v.entries[k - 1])
    requires Holds(d, m, v, k, NewName(d(m), v.entries[k - 1].key), target)
    requires at < |before| && before[at].key == NewName(d(m), v.entries[k - 1].key)
    ensures AllHold(d, m, v, k, before[at := target])
  {
    var names := NewNames(d(m), v.entries, k - 1);
    KeysAre(d, m, v, k - 1, before);
    OthersHold(d, m, v, k, before);
    NextNames(d(m), v.entries, k);
    assert names[at] in names;
  }

  lemma FreshHolds(d: Descriptors, m: nat, v: Value, k: nat, before: seq<Entry>, target: Entry)
    requires v.Record? && 0 < k <= |v.entries| && AllHold(d, m, v, k - 1, before) && Counts(d(m), v.entries[k - 1])
    requires Holds(d, m, v, k, NewName(d(m), v.entries[k - 1].key), target)
    requires !HasKey(before, NewName(d(m), v.entries[k - 1].key))
    ensures AllHold(d, m, v, k, before + [target])
  {
    var names, name := NewNames(d(m), v.entries, k - 1), NewName(d(m), v.entries[k - 1].key);
    KeysAre(d, m, v, k - 1, before);
    assert forall i :: 0 <= i < |names| ==> before[i].key != name;
    OthersHold(d, m, v, k, before);
    NextNames(d(m), v.entries, k);
    assert NewNames(d(m), v.entries, k) == names + [name];
  }

  lemma PutHolds(d: Descriptors, m: nat, v: Value, k: nat, before: seq<Entry>)
    requires v.Record? && 0 < k <= |v.entries| && AllHold(d, m, v, k - 1, before)
    requires Counts(d(m), v.entries[k - 1])
    ensures Target(d, m, v.entries[k - 1]).Some?
    ensures AllHold(d, m, v, k, Put(before, Target(d, m, v.entries[k - 1]).value))
  {
    NowHolds(d, m, v, k);
    TargetIs(d, m, v.entries[k - 1]);
    var target := Target(d, m, v.entries[k - 1]).value;
    if HasKey(before, target.key) {
      var at := PutOver(before, target);
      OverHolds(d, m, v, k, before, target, at);
    } else {
      PutFresh(before, target);
      FreshHolds(d, m, v, k, before, target);
    }
  }

  lemma {:induction false} RespellsIff(d: Descriptors, m: nat, v: Value, w: Value)
    ensures Respells(d, m, v, w) <==> w == Normalize.Normalize(d, m, v)
    decreases v, 1
  {
    if v.Record? {
      var names, record := NewNames(d(m), v.entries, |v.entries|), NormalizeFirst(d, m, v, |v.entries|);
      FirstHolds(d, m, v, |v.entries|);
      if w.Record? && |w.entries| == |names| {
        forall i | 0 <= i < |names| ensures RespellsAt(d, m, v, names[i], w.entries[i]) <==> w.entries[i] == record[i] {
          RespellsAtIff(d, m, v, names[i], record[i], w.entries[i]);
        }
      }
    }
  }

  lemma {:induction false} RespellsAtIff(d: Descriptors, m: nat, v: Value, name: Text, made: Entry, entry: Entry)
    requires v.Record? && Holds(d, m, v, |v.entries|, name, made)
    ensures RespellsAt(d, m, v, name, entry) <==> entry == made
    decreases v, 0
  {
    var k := |v.entries|;
    var j: nat :| IsLast(d(m), v.entries, k, j, name)
                  && made.value == NormalizeField(d, KindOf(d(m), v.entries[j].key), v.entries[j].value);
    RespellsInIff(d, KindOf(d(m), v.entries[j].key), v.entries[j].value, entry.value);
    if RespellsAt(d, m, v, name, entry) {
      var l: nat :| IsLast(d(m), v.entries, k, l, name)
                    && RespellsIn(d, KindOf(d(m), v.entries[l].key), v.entries[l].value, entry.value);
      LastUnique(d(m), v.entries, k, j, l, name);
    }
  }

  lemma {:induction false} RespellsInIff(d: Descriptors, kind: Kind, v: Value, w: Value)
    ensures RespellsIn(d, kind, v, w) <==> w == NormalizeField(d, kind, v)
    decreases v, 2
  {
    match kind
    case Plain =>
    case Message(m) => RespellsIff(d, m, v, w);
    case ListOf(m) =>
      if v.List? && w.List? && |w.items| == |v.items| {
        forall i | 0 <= i < |v.items|
          ensures Respells(d, m, v.items[i], w.items[i]) <==> w.items[i] == Normalize.Normalize(d, m, v.items[i])
        {
          RespellsIff(d, m, v.items[i], w.items[i]);
        }
        assert w == NormalizeField(d, kind, v) <==>
               forall i :: 0 <= i < |v.items| ==> w.items[i] == NormalizeField(d, kind, v).items[i];
      }
    case MapOf(m) =>
      if v.Record? && w.Record? && |w.entries| == |v.entries| {
        forall i | 0 <= i < |v.entries|
          ensures Respells(d, m, v.entries[i].value, w.entries[i].value)
             <==> w.entries[i].value == Normalize.Normalize(d, m, v.entries[i].value)
        {
          RespellsIff(d, m, v.entries[i].value, w.entries[i].value);
        }
        assert w == NormalizeField(d, kind, v) <==>
               forall i :: 0 <= i < |v.entries| ==> w.entries[i] == NormalizeField(d, kind, v).entries[i];
      }
  }
}
