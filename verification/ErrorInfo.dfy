/**
  google.rpc.ErrorInfo as the two SDKs decode it. UTF-8 decoding is one partial function
  shared by both. `Apply` and `EntryApply` are TypeScript's, `PyApply` and `PyEntries` Python's.
 */
module ErrorInfo {
  import opened Common
  import opened ProtoWire

  type Utf8 = seq<byte> -> Option<Text>

  datatype Info = Info(reason: Option<Text>, domain: Option<Text>, metadata: map<Text, Text>)

  const EMPTY := Info(None, None, map[])

  // ----- One map entry -----

  /** Key and value as far as an entry's fields give them; later fields win. */
  datatype Entry = Entry(key: Option<Text>, value: Option<Text>)

  const BLANK := Entry(None, None)

  function EntryApply(utf8: Utf8, e: Entry, f: Field): Option<Entry> {
    if !f.value.Delimited? then Some(e)
    else if f.number == 1 then
      var text :- utf8(f.value.octets);
      Some(e.(key := Some(text)))
    else if f.number == 2 then
      var text :- utf8(f.value.octets);
      Some(e.(value := Some(text)))
    else Some(e)
  }

  function EntryFrom(utf8: Utf8, e: Entry, ahead: seq<byte>): Option<Entry>
    decreases |ahead|
  {
    if ahead == [] then Some(e)
    else
      var (field, rest) :- ReadField(ahead);
      var next :- EntryApply(utf8, e, field);
      EntryFrom(utf8, next, rest)
  }

  // ----- TypeScript -----

  /** What the record assignment in decodeErrorInfo does with one decoded entry. */
  function Put(metadata: map<Text, Text>, e: Entry): map<Text, Text> {
    var key := e.key.GetOr([]);
    if key == [] || key == PROTO then metadata else metadata[key := e.value.GetOr([])]
  }

  function Apply(utf8: Utf8, info: Info, f: Field): Option<Info> {
    if !f.value.Delimited? then Some(info)
    else if f.number == 1 then
      var text :- utf8(f.value.octets);
      Some(info.(reason := Some(text)))
    else if f.number == 2 then
      var text :- utf8(f.value.octets);
      Some(info.(domain := Some(text)))
    else if f.number == 3 then
      var entry :- EntryFrom(utf8, BLANK, f.value.octets);
      Some(info.(metadata := Put(info.metadata, entry)))
    else Some(info)
  }

  /** The decoder with `ahead` still to read: fields are applied as they are met. */
  function DecodeFrom(utf8: Utf8, info: Info, ahead: seq<byte>): Option<Info>
    decreases |ahead|
  {
    if ahead == [] then Some(info)
    else
      var (field, rest) :- ReadField(ahead);
      var next :- Apply(utf8, info, field);
      DecodeFrom(utf8, next, rest)
  }

  function Decode(utf8: Utf8, bytes: seq<byte>): Option<Info> {
    DecodeFrom(utf8, EMPTY, bytes)
  }

  method DecodeErrorInfo(utf8: Utf8, bytes: seq<byte>) returns (output: Option<Info>)
    ensures output == Decode(utf8, bytes)
  {
    var info, offset := EMPTY, 0;
    assert bytes[0..] == bytes;
    while offset < |bytes|
      invariant offset <= |bytes|
      invariant Decode(utf8, bytes) == DecodeFrom(utf8, info, bytes[offset..])
      decreases |bytes| - offset
    {
      var field := ReadFieldAt(bytes, offset);
      if field.None? {
        return None;
      }
      offset := field.value.2;
      if field.value.1.None? {
        continue;
      }
      var applied := ApplyField(utf8, info, field.value.0, field.value.1.value);
      if applied.None? {
        return None;
      }
      info := applied.value;
    }
    assert bytes[offset..] == [];
    return Some(info);
  }

  /** The if-chain at the end of the loop body; None stands for a thrown decoding error. */
  method ApplyField(utf8: Utf8, info: Info, fieldNumber: nat, value: seq<byte>) returns (output: Option<Info>)
    ensures output == Apply(utf8, info, Field(fieldNumber, Delimited(value)))
  {
    if fieldNumber == 1 {
      var text := utf8(value);
      return if text.None? then None else Some(info.(reason := text));
    } else if fieldNumber == 2 {
      var text := utf8(value);
      return if text.None? then None else Some(info.(domain := text));
    } else if fieldNumber == 3 {
      var entry := DecodeStringMapEntry(utf8, value);
      return if entry.None? then None else Some(info.(metadata := Put(info.metadata, entry.value)));
    }
    return Some(info);
  }

  /** The code's "" defaults and its undefined for an empty key are applied by `Put`. */
  method DecodeStringMapEntry(utf8: Utf8, bytes: seq<byte>) returns (output: Option<Entry>)
    ensures output == EntryFrom(utf8, BLANK, bytes)
  {
    var entry, offset := BLANK, 0;
    assert bytes[0..] == bytes;
    while offset < |bytes|
      invariant offset <= |bytes|
      invariant EntryFrom(utf8, BLANK, bytes) == EntryFrom(utf8, entry, bytes[offset..])
      decreases |bytes| - offset
    {
      var field := ReadFieldAt(bytes, offset);
      if field.None? {
        return None;
      }
      offset := field.value.2;
      if field.value.1.None? {
        continue;
      }
      var applied := ApplyEntryField(utf8, entry, field.value.0, field.value.1.value);
      if applied.None? {
        return None;
      }
      entry := applied.value;
    }
    assert bytes[offset..] == [];
    return Some(entry);
  }

  method ApplyEntryField(utf8: Utf8, entry: Entry, fieldNumber: nat, value: seq<byte>) returns (output: Option<Entry>)
    ensures output == EntryApply(utf8, entry, Field(fieldNumber, Delimited(value)))
  {
    if fieldNumber == 1 {
      var text := utf8(value);
      return if text.None? then None else Some(entry.(key := text));
    }
    if fieldNumber == 2 {
      var text := utf8(value);
      return if text.None? then None else Some(entry.(value := text));
    }
    return Some(entry);
  }

  // ----- Fields first, then their meaning -----

  function EntryAll(utf8: Utf8, e: Entry, fields: seq<Field>): Option<Entry>
    decreases |fields|
  {
    if fields == [] then Some(e)
    else
      var next :- EntryApply(utf8, e, fields[0]);
      EntryAll(utf8, next, fields[1..])
  }

  function ApplyAll(utf8: Utf8, info: Info, fields: seq<Field>): Option<Info>
    decreases |fields|
  {
    if fields == [] then Some(info)
    else
      var next :- Apply(utf8, info, fields[0]);
      ApplyAll(utf8, next, fields[1..])
  }

  lemma {:induction false} EntryFromFields(utf8: Utf8, e: Entry, ahead: seq<byte>)
    ensures EntryFrom(utf8, e, ahead) ==
            if ReadFields(ahead).None? then None else EntryAll(utf8, e, ReadFields(ahead).value)
    decreases |ahead|
  {
    if ahead != [] && ReadField(ahead).Some? {
      var (field, rest) := ReadField(ahead).value;
      if EntryApply(utf8, e, field).Some? {
        EntryFromFields(utf8, EntryApply(utf8, e, field).value, rest);
      }
      if ReadFields(rest).Some? {
        assert ([field] + ReadFields(rest).value)[1..] == ReadFields(rest).value;
      }
    }
  }

  /** The interleaved loop decodes all fields or none, so order of failure does not show. */
  lemma {:induction false} DecodeFromFields(utf8: Utf8, info: Info, ahead: seq<byte>)
    ensures DecodeFrom(utf8, info, ahead) ==
            if ReadFields(ahead).None? then None else ApplyAll(utf8, info, ReadFields(ahead).value)
    decreases |ahead|
  {
    if ahead != [] && ReadField(ahead).Some? {
      var (field, rest) := ReadField(ahead).value;
      if Apply(utf8, info, field).Some? {
        DecodeFromFields(utf8, Apply(utf8, info, field).value, rest);
      }
      if ReadFields(rest).Some? {
        assert ([field] + ReadFields(rest).value)[1..] == ReadFields(rest).value;
      }
    }
  }

  // ----- Concatenation is merge -----

  /** Field by field, the second value winning. */
  function Merge(a: Info, b: Info): Info {
    Info(
      if b.reason.Some? then b.reason else a.reason,
      if b.domain.Some? then b.domain else a.domain,
      a.metadata + b.metadata
    )
  }

  lemma {:induction false} ApplyAllMerges(utf8: Utf8, a: Info, b: Info, fields: seq<Field>)
    ensures ApplyAll(utf8, Merge(a, b), fields) ==
            match ApplyAll(utf8, b, fields) case None => None case Some(r) => Some(Merge(a, r))
    decreases |fields|
  {
    if fields != [] {
      ApplyMerges(utf8, a, b, fields[0]);
      if Apply(utf8, b, fields[0]).Some? {
        ApplyAllMerges(utf8, a, Apply(utf8, b, fields[0]).value, fields[1..]);
      }
    }
  }

  lemma ApplyMerges(utf8: Utf8, a: Info, b: Info, f: Field)
    ensures Apply(utf8, Merge(a, b), f) ==
            match Apply(utf8, b, f) case None => None case Some(r) => Some(Merge(a, r))
  {
    if f.value.Delimited? && f.number == 3 && EntryFrom(utf8, BLANK, f.value.octets).Some? {
      var entry := EntryFrom(utf8, BLANK, f.value.octets).value;
      assert Put(a.metadata + b.metadata, entry) == a.metadata + Put(b.metadata, entry);
    }
  }

  lemma {:induction false} ApplyAllConcat(utf8: Utf8, info: Info, a: seq<Field>, b: seq<Field>)
    ensures ApplyAll(utf8, info, a + b) ==
            match ApplyAll(utf8, info, a) case None => None case Some(r) => ApplyAll(utf8, r, b)
    decreases |a|
  {
    if a == [] {
      assert a + b == b;
    } else {
      assert (a + b)[1..] == a[1..] + b;
      if Apply(utf8, info, a[0]).Some? {
        ApplyAllConcat(utf8, Apply(utf8, info, a[0]).value, a[1..], b);
      }
    }
  }

  /** Section "Last One Wins": two encodings laid end to end decode to their merge. */
  lemma ConcatenationIsMerge(utf8: Utf8, a: seq<byte>, b: seq<byte>)
    requires Decode(utf8, a).Some? && Decode(utf8, b).Some?
    ensures Decode(utf8, a + b) == Some(Merge(Decode(utf8, a).value, Decode(utf8, b).value))
  {
    DecodeFromFields(utf8, EMPTY, a);
    DecodeFromFields(utf8, EMPTY, b);
    DecodeFromFields(utf8, EMPTY, a + b);
    FieldsConcatenate(a, b);
    ApplyAllConcat(utf8, EMPTY, ReadFields(a).value, ReadFields(b).value);
    var first := Decode(utf8, a).value;
    assert Merge(first, EMPTY) == first;
    ApplyAllMerges(utf8, first, EMPTY, ReadFields(b).value);
  }

  // ----- Round trip with unknown fields -----

  /** Fields the decoder gives no meaning to: another number, or not length-delimited. */
  predicate Unknown(f: Field, last: nat) {
    !(f.value.Delimited? && 1 <= f.number <= last)
  }

  /** The fields that carry meaning, in order, for a message whose fields are 1 to `last`. */
  function Known(fields: seq<Field>, last: nat): seq<Field> {
    if fields == [] then []
    else if Unknown(fields[0], last) then Known(fields[1..], last)
    else [fields[0]] + Known(fields[1..], last)
  }

  lemma {:induction false} UnknownFieldsIgnored(utf8: Utf8, info: Info, fields: seq<Field>)
    ensures ApplyAll(utf8, info, fields) == ApplyAll(utf8, info, Known(fields, 3))
    decreases |fields|
  {
    if fields != [] {
      var rest := Known(fields[1..], 3);
      assert ([fields[0]] + rest)[1..] == rest;
      if Apply(utf8, info, fields[0]).Some? {
        UnknownFieldsIgnored(utf8, Apply(utf8, info, fields[0]).value, fields[1..]);
      }
    }
  }

  lemma {:induction false} UnknownEntryFieldsIgnored(utf8: Utf8, e: Entry, fields: seq<Field>)
    ensures EntryAll(utf8, e, fields) == EntryAll(utf8, e, Known(fields, 2))
    decreases |fields|
  {
    if fields != [] {
      var rest := Known(fields[1..], 2);
      assert ([fields[0]] + rest)[1..] == rest;
      if EntryApply(utf8, e, fields[0]).Some? {
        UnknownEntryFieldsIgnored(utf8, EntryApply(utf8, e, fields[0]).value, fields[1..]);
      }
    }
  }

  // ----- The standard encoding, fields in any order -----

  /** f carries something as field `number`. */
  predicate Sets(f: Field, number: nat) {
    f.number == number && f.value.Delimited?
  }

  predicate Has(fields: seq<Field>, number: nat) {
    fields != [] && (Sets(fields[0], number) || Has(fields[1..], number))
  }

  /** Whatever f carries as field `number` decodes to `text`. */
  ghost predicate Carries(utf8: Utf8, f: Field, number: nat, text: Option<Text>) {
    Sets(f, number) ==> text.Some? && utf8(f.value.octets) == text
  }

  ghost predicate AllCarry(utf8: Utf8, fields: seq<Field>, key: Text, value: Text) {
    fields == [] ||
    (Carries(utf8, fields[0], 1, Some(key)) && Carries(utf8, fields[0], 2, Some(value))
     && AllCarry(utf8, fields[1..], key, value))
  }

  /** Key and value of a map entry, in any order among unknown fields. */
  ghost predicate EncodesKeyValue(utf8: Utf8, fields: seq<Field>, key: Text, value: Text) {
    AllWellFormed(fields) && Has(fields, 1) && Has(fields, 2) && AllCarry(utf8, fields, key, value)
  }

  ghost predicate EncodesEntry(utf8: Utf8, octets: seq<byte>, key: Text, value: Text) {
    exists fields :: octets == EncodeFields(fields) && EncodesKeyValue(utf8, fields, key, value)
  }

  /** The keys of `metadata` that f is an entry for. */
  ghost function KeysFor(utf8: Utf8, f: Field, metadata: map<Text, Text>): set<Text> {
    set k | k in metadata && Sets(f, 3) && EncodesEntry(utf8, f.value.octets, k, metadata[k])
  }

  ghost function EntryKeys(utf8: Utf8, fields: seq<Field>, metadata: map<Text, Text>): set<Text> {
    if fields == [] then {} else KeysFor(utf8, fields[0], metadata) + EntryKeys(utf8, fields[1..], metadata)
  }

  /** Field f belongs in an encoding of `info`: it is unknown, or carries a part of it. */
  ghost predicate Belongs(utf8: Utf8, f: Field, info: Info) {
    && Carries(utf8, f, 1, info.reason)
    && Carries(utf8, f, 2, info.domain)
    && (Sets(f, 3) ==> KeysFor(utf8, f, info.metadata) != {})
  }

  ghost predicate AllBelong(utf8: Utf8, fields: seq<Field>, info: Info) {
    fields == [] || (Belongs(utf8, fields[0], info) && AllBelong(utf8, fields[1..], info))
  }

  /** Reason, domain and an entry for every metadata key, in any order, unknown fields anywhere among them. */
  ghost predicate EncodesInfo(utf8: Utf8, fields: seq<Field>, info: Info) {
    && AllWellFormed(fields) && AllBelong(utf8, fields, info)
    && (info.reason.Some? <==> Has(fields, 1))
    && (info.domain.Some? <==> Has(fields, 2))
    && info.metadata.Keys <= EntryKeys(utf8, fields, info.metadata)
  }

  lemma {:induction false} HasMember(fields: seq<Field>, number: nat)
    ensures Has(fields, number) <==> exists f :: f in fields && Sets(f, number)
  {
    if fields != [] {
      HasMember(fields[1..], number);
      assert forall f :: f in fields <==> f == fields[0] || f in fields[1..];
    }
  }

  lemma {:induction false} BelongMember(utf8: Utf8, fields: seq<Field>, info: Info)
    ensures AllBelong(utf8, fields, info) <==> forall f :: f in fields ==> Belongs(utf8, f, info)
  {
    if fields != [] {
      BelongMember(utf8, fields[1..], info);
      assert forall f :: f in fields <==> f == fields[0] || f in fields[1..];
    }
  }

  lemma {:induction false} KeyMember(utf8: Utf8, fields: seq<Field>, metadata: map<Text, Text>, k: Text)
    ensures k in EntryKeys(utf8, fields, metadata) <==> exists f :: f in fields && k in KeysFor(utf8, f, metadata)
  {
    if fields != [] {
      KeyMember(utf8, fields[1..], metadata, k);
      assert forall f :: f in fields <==> f == fields[0] || f in fields[1..];
    }
  }

  lemma SameMembers(fields: seq<Field>, other: seq<Field>)
    requires multiset(fields) == multiset(other)
    ensures forall f :: f in fields <==> f in other
  {
    assert forall f :: f in fields <==> f in multiset(fields);
    assert forall f :: f in other <==> f in multiset(other);
  }

  /** Only which fields there are matters, not where they stand. */
  lemma AnyOrder(utf8: Utf8, fields: seq<Field>, other: seq<Field>, info: Info)
    requires EncodesInfo(utf8, fields, info) && multiset(fields) == multiset(other)
    ensures EncodesInfo(utf8, other, info)
  {
    SameMembers(fields, other);
    HasMember(fields, 1);
    HasMember(other, 1);
    HasMember(fields, 2);
    HasMember(other, 2);
    BelongMember(utf8, fields, info);
    BelongMember(utf8, other, info);
    forall k | k in info.metadata ensures k in EntryKeys(utf8, other, info.metadata) {
      KeyMember(utf8, fields, info.metadata, k);
      KeyMember(utf8, other, info.metadata, k);
    }
  }

  lemma {:induction false} EntryInAnyOrder(utf8: Utf8, e: Entry, fields: seq<Field>, key: Text, value: Text)
    requires AllCarry(utf8, fields, key, value)
    ensures EntryAll(utf8, e, fields) ==
            Some(Entry(if Has(fields, 1) then Some(key) else e.key, if Has(fields, 2) then Some(value) else e.value))
    decreases |fields|
  {
    if fields != [] {
      var f := fields[0];
      var next := Entry(if Sets(f, 1) then Some(key) else e.key, if Sets(f, 2) then Some(value) else e.value);
      assert EntryApply(utf8, e, f) == Some(next);
      EntryInAnyOrder(utf8, next, fields[1..], key, value);
    }
  }

  lemma EntryRoundTrip(utf8: Utf8, octets: seq<byte>, key: Text, value: Text)
    requires EncodesEntry(utf8, octets, key, value)
    ensures EntryFrom(utf8, BLANK, octets) == Some(Entry(Some(key), Some(value)))
  {
    var fields :| octets == EncodeFields(fields) && EncodesKeyValue(utf8, fields, key, value);
    FieldsRoundTrip(fields);
    EntryFromFields(utf8, BLANK, octets);
    EntryInAnyOrder(utf8, BLANK, fields, key, value);
  }

  /** Metadata as a JavaScript record can hold it after decoding. */
  function Kept(metadata: map<Text, Text>): map<Text, Text> {
    metadata - {[], PROTO}
  }

  function Chosen(metadata: map<Text, Text>, keys: set<Text>): map<Text, Text> {
    map k | k in keys && k in metadata :: metadata[k]
  }

  /** An entry is for one key only. */
  lemma OneKey(utf8: Utf8, f: Field, metadata: map<Text, Text>, key: Text)
    requires key in KeysFor(utf8, f, metadata)
    ensures KeysFor(utf8, f, metadata) == {key}
    ensures EntryFrom(utf8, BLANK, f.value.octets) == Some(Entry(Some(key), Some(metadata[key])))
  {
    EntryRoundTrip(utf8, f.value.octets, key, metadata[key]);
    forall k | k in KeysFor(utf8, f, metadata) ensures k == key {
      EntryRoundTrip(utf8, f.value.octets, k, metadata[k]);
    }
  }

  lemma MetadataStep(before: map<Text, Text>, metadata: map<Text, Text>, key: Text, keys: set<Text>)
    requires key in metadata
    ensures Put(before, Entry(Some(key), Some(metadata[key]))) + Kept(Chosen(metadata, keys))
            == before + Kept(Chosen(metadata, {key} + keys))
  {
  }

  /** What one field of an encoding does. */
  function Expected(info: Info, part: Info, f: Field, metadata: map<Text, Text>): Info {
    Info(if Sets(f, 1) then info.reason else part.reason, if Sets(f, 2) then info.domain else part.domain, metadata)
  }

  lemma ApplyBelonging(utf8: Utf8, part: Info, f: Field, info: Info, keys: set<Text>) returns (next: Info)
    requires Belongs(utf8, f, info)
    ensures Apply(utf8, part, f) == Some(next) && next == Expected(info, part, f, next.metadata)
    ensures next.metadata + Kept(Chosen(info.metadata, keys))
         == part.metadata + Kept(Chosen(info.metadata, KeysFor(utf8, f, info.metadata) + keys))
  {
    if Sets(f, 3) {
      var key :| key in KeysFor(utf8, f, info.metadata);
      OneKey(utf8, f, info.metadata, key);
      MetadataStep(part.metadata, info.metadata, key, keys);
      next := part.(metadata := Put(part.metadata, Entry(Some(key), Some(info.metadata[key]))));
    } else {
      next := Expected(info, part, f, part.metadata);
      assert KeysFor(utf8, f, info.metadata) == {};
      assert {} + keys == keys;
    }
  }

  lemma {:induction false} InfoInAnyOrder(utf8: Utf8, part: Info, fields: seq<Field>, info: Info)
    requires AllBelong(utf8, fields, info)
    ensures ApplyAll(utf8, part, fields) ==
            Some(Info(if Has(fields, 1) then info.reason else part.reason,
                      if Has(fields, 2) then info.domain else part.domain,
                      part.metadata + Kept(Chosen(info.metadata, EntryKeys(utf8, fields, info.metadata)))))
    decreases |fields|
  {
    if fields == [] {
      assert part.metadata + Kept(Chosen(info.metadata, {})) == part.metadata;
    } else {
      var next := ApplyBelonging(utf8, part, fields[0], info, EntryKeys(utf8, fields[1..], info.metadata));
      InfoInAnyOrder(utf8, next, fields[1..], info);
    }
  }

  lemma AllChosen(metadata: map<Text, Text>, keys: set<Text>)
    requires metadata.Keys <= keys
    ensures map[] + Kept(Chosen(metadata, keys)) == Kept(metadata)
  {
    assert Chosen(metadata, keys) == metadata;
  }

  /**
    Decoding the standard encoding, its fields in any order and well-formed unknown fields
    inserted at either level, returns what was encoded, less the entries a JavaScript record
    cannot hold.
   */
  lemma RoundTrip(utf8: Utf8, fields: seq<Field>, info: Info)
    requires EncodesInfo(utf8, fields, info)
    ensures Decode(utf8, EncodeFields(fields)) == Some(info.(metadata := Kept(info.metadata)))
  {
    FieldsRoundTrip(fields);
    DecodeFromFields(utf8, EMPTY, EncodeFields(fields));
    InfoInAnyOrder(utf8, EMPTY, fields, info);
    AllChosen(info.metadata, EntryKeys(utf8, fields, info.metadata));
  }

  /** So the round trip is exact exactly when no metadata key is empty or "__proto__". */
  lemma RoundTripExactIff(utf8: Utf8, fields: seq<Field>, info: Info)
    requires EncodesInfo(utf8, fields, info)
    ensures Decode(utf8, EncodeFields(fields)) == Some(info) <==> [] !in info.metadata && PROTO !in info.metadata
  {
    RoundTrip(utf8, fields, info);
    if [] !in info.metadata && PROTO !in info.metadata {
      assert Kept(info.metadata) == info.metadata;
    } else {
      assert Kept(info.metadata).Keys != info.metadata.Keys;
    }
  }

  /** The entry a writer makes for (key, value). */
  function EntryFields(bytesOf: Text -> seq<byte>, key: Text, value: Text): seq<Field> {
    [Field(1, Delimited(bytesOf(key))), Field(2, Delimited(bytesOf(value)))]
  }

  /** bytesOf encodes a text so that it decodes again, within the length a reader takes. */
  ghost predicate Writable(utf8: Utf8, bytesOf: Text -> seq<byte>, text: Text) {
    utf8(bytesOf(text)) == Some(text) && |bytesOf(text)| <= MAX_SAFE_INTEGER
  }

  ghost predicate WritableInfo(utf8: Utf8, bytesOf: Text -> seq<byte>, info: Info) {
    && (info.reason.Some? ==> Writable(utf8, bytesOf, info.reason.value))
    && (info.domain.Some? ==> Writable(utf8, bytesOf, info.domain.value))
    && forall k :: k in info.metadata ==>
         && Writable(utf8, bytesOf, k) && Writable(utf8, bytesOf, info.metadata[k])
         && |EncodeFields(EntryFields(bytesOf, k, info.metadata[k]))| <= MAX_SAFE_INTEGER
  }

  lemma EntryEncoded(utf8: Utf8, bytesOf: Text -> seq<byte>, key: Text, value: Text)
    requires Writable(utf8, bytesOf, key) && Writable(utf8, bytesOf, value)
    ensures EncodesEntry(utf8, EncodeFields(EntryFields(bytesOf, key, value)), key, value)
  {
    TenBytes();
    var fields := EntryFields(bytesOf, key, value);
    assert fields[1..] == [fields[1]] && fields[1..][1..] == [];
    assert Has(fields[1..], 2) && AllCarry(utf8, fields[1..], key, value);
    assert EncodesKeyValue(utf8, fields, key, value);
  }

  /** Every reason, domain and metadata that can be written at all has an encoding. */
  lemma {:induction false} EncodingExists(utf8: Utf8, bytesOf: Text -> seq<byte>, info: Info) returns (fields: seq<Field>)
    requires WritableInfo(utf8, bytesOf, info)
    ensures EncodesInfo(utf8, fields, info)
    decreases |info.metadata|
  {
    TenBytes();
    if info.metadata != map[] {
      var key :| key in info.metadata;
      var fewer := info.(metadata := info.metadata - {key});
      assert |fewer.metadata| < |info.metadata| by {
        assert fewer.metadata.Keys == info.metadata.Keys - {key};
      }
      var rest := EncodingExists(utf8, bytesOf, fewer);
      fields := EntryAdded(utf8, bytesOf, rest, info, key);
    } else {
      fields := HeadEncoded(utf8, bytesOf, info);
    }
  }

  lemma HeadEncoded(utf8: Utf8, bytesOf: Text -> seq<byte>, info: Info) returns (fields: seq<Field>)
    requires WritableInfo(utf8, bytesOf, info) && info.metadata == map[]
    ensures EncodesInfo(utf8, fields, info)
  {
    var domain := DomainEncoded(utf8, bytesOf, info.(reason := None));
    if info.reason.Some? {
      TenBytes();
      fields := [Field(1, Delimited(bytesOf(info.reason.value)))] + domain;
      assert fields[1..] == domain;
      BelongMember(utf8, domain, info.(reason := None));
      HasMember(domain, 1);
      BelongMember(utf8, domain, info);
    } else {
      fields := domain;
      assert info == info.(reason := None);
    }
  }

  lemma DomainEncoded(utf8: Utf8, bytesOf: Text -> seq<byte>, info: Info) returns (fields: seq<Field>)
    requires WritableInfo(utf8, bytesOf, info) && info.metadata == map[] && info.reason == None
    ensures EncodesInfo(utf8, fields, info)
  {
    if info.domain.Some? {
      TenBytes();
      var f := Field(2, Delimited(bytesOf(info.domain.value)));
      fields := [f];
      assert fields[1..] == [] && WellFormed(f) && Belongs(utf8, f, info);
    } else {
      fields := [];
    }
  }

  lemma EntryAdded(utf8: Utf8, bytesOf: Text -> seq<byte>, rest: seq<Field>, info: Info, key: Text) returns (fields: seq<Field>)
    requires WritableInfo(utf8, bytesOf, info) && key in info.metadata
    requires EncodesInfo(utf8, rest, info.(metadata := info.metadata - {key}))
    ensures EncodesInfo(utf8, fields, info)
  {
    TenBytes();
    var entry := Field(3, Delimited(EncodeFields(EntryFields(bytesOf, key, info.metadata[key]))));
    EntryEncoded(utf8, bytesOf, key, info.metadata[key]);
    fields := [entry] + rest;
    assert fields[1..] == rest && key in KeysFor(utf8, entry, info.metadata);
    MoreMetadata(utf8, rest, info, key);
  }

  lemma {:induction false} MoreMetadata(utf8: Utf8, fields: seq<Field>, info: Info, key: Text)
    requires AllBelong(utf8, fields, info.(metadata := info.metadata - {key}))
    ensures AllBelong(utf8, fields, info)
    ensures EntryKeys(utf8, fields, info.metadata - {key}) <= EntryKeys(utf8, fields, info.metadata)
  {
    if fields != [] {
      MoreMetadata(utf8, fields[1..], info, key);
      assert KeysFor(utf8, fields[0], info.metadata - {key}) <= KeysFor(utf8, fields[0], info.metadata);
    }
  }

  /** Bytes taken as characters, which is UTF-8 on ASCII. */
  function Ascii(octets: seq<byte>): Option<Text> {
    Some(seq(|octets|, i requires 0 <= i < |octets| => octets[i] as Unit))
  }

  const PROTO_OCTETS: seq<byte> := [0x5F, 0x5F, 0x70, 0x72, 0x6F, 0x74, 0x6F, 0x5F, 0x5F]

  const PROTO_ENTRY := [Field(1, Delimited(PROTO_OCTETS)), Field(2, Delimited([0x61]))]

  lemma ProtoEntry()
    ensures EntryFrom(Ascii, BLANK, EncodeFields(PROTO_ENTRY)) == Some(Entry(Some(PROTO), Some([0x61])))
  {
    TenBytes();
    FieldsRoundTrip(PROTO_ENTRY);
    EntryFromFields(Ascii, BLANK, EncodeFields(PROTO_ENTRY));
    assert Ascii(PROTO_OCTETS).value == PROTO && Ascii([0x61]).value == [0x61];
    assert PROTO_ENTRY[1..] == [PROTO_ENTRY[1]];
    EntryInAnyOrder(Ascii, BLANK, PROTO_ENTRY, PROTO, [0x61]);
  }

  lemma ProtoEntrySize()
    ensures |EncodeFields(PROTO_ENTRY)| <= 64
  {
    assert PROTO_ENTRY[1..] == [PROTO_ENTRY[1]] && PROTO_ENTRY[1..][1..] == [];
    assert |EncodeField(PROTO_ENTRY[0])| <= 32 && |EncodeField(PROTO_ENTRY[1])| <= 32;
    assert EncodeFields(PROTO_ENTRY[1..]) == EncodeField(PROTO_ENTRY[1]) + EncodeFields([]);
  }

  /** A message that sets metadata["__proto__"] to "a" decodes, and without it. */
  lemma ProtoKeyLost()
    ensures EntryFrom(Ascii, BLANK, EncodeFields(PROTO_ENTRY)) == Some(Entry(Some(PROTO), Some([0x61])))
    ensures Decode(Ascii, EncodeFields([Field(3, Delimited(EncodeFields(PROTO_ENTRY)))])) == Some(EMPTY)
  {
    TenBytes();
    ProtoEntry();
    ProtoEntrySize();
    var field := Field(3, Delimited(EncodeFields(PROTO_ENTRY)));
    assert WellFormed(field);
    FieldsRoundTrip([field]);
    DecodeFromFields(Ascii, EMPTY, EncodeFields([field]));
    ApplyLost(field);
  }

  lemma ApplyLost(field: Field)
    requires Sets(field, 3) && EntryFrom(Ascii, BLANK, field.value.octets) == Some(Entry(Some(PROTO), Some([0x61])))
    ensures ApplyAll(Ascii, EMPTY, [field]) == Some(EMPTY)
  {
    assert Apply(Ascii, EMPTY, field) == Some(EMPTY);
    assert [field][1..] == [];
  }
}
