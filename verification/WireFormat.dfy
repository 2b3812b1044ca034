/**
  The protobuf wire format as a relation between bytes and fields, and what an ErrorInfo
  message in it says. Varints may be longer than they need to be.
 */
module WireFormat {
  import opened Common
  import opened ProtoWire
  import opened ErrorInfo

  // ----- Bytes and fields -----

  /** The low seven bits of each byte, the first byte lowest. */
  function Base128(chunk: seq<byte>): nat {
    if chunk == [] then 0 else chunk[0] % 0x80 + 0x80 * Base128(chunk[1..])
  }

  /** One to ten bytes, all but the last with the top bit set. */
  predicate IsVarint(chunk: seq<byte>, n: nat) {
    && 1 <= |chunk| <= 10 && Base128(chunk) == n
    && chunk[|chunk| - 1] < 0x80 && forall i :: 0 <= i < |chunk| - 1 ==> chunk[i] >= 0x80
  }

  /** The value of a field, after its tag. */
  ghost predicate IsValue(body: seq<byte>, v: WireValue) {
    match v
    case VarintValue(n) => IsVarint(body, n)
    case Fixed64(octets) => |body| == 8 && octets == body
    case Fixed32(octets) => |body| == 4 && octets == body
    case Delimited(octets) =>
      |octets| < 0x20_0000_0000_0000 && exists size :: body == size + octets && IsVarint(size, |octets|)
  }

  /** The wire types there are: 0, 1, 2 and 5. */
  function TypeOf(v: WireValue): nat {
    match v
    case VarintValue(_) => 0
    case Fixed64(_) => 1
    case Delimited(_) => 2
    case Fixed32(_) => 5
  }

  ghost predicate IsField(chunk: seq<byte>, f: Field) {
    exists tag, body :: chunk == tag + body && IsVarint(tag, 8 * f.number + TypeOf(f.value)) && IsValue(body, f.value)
  }

  ghost predicate IsMessage(bytes: seq<byte>, fields: seq<Field>)
    decreases |fields|
  {
    if fields == [] then bytes == []
    else exists first, rest :: bytes == first + rest && IsField(first, fields[0]) && IsMessage(rest, fields[1..])
  }

  // ----- Reading is exactly that -----

  lemma {:induction false} VarintWas(ahead: seq<byte>, used: nat) returns (chunk: seq<byte>)
    requires ReadVarint(ahead, used).Some?
    ensures |chunk| <= 10 - used && IsVarint(chunk, ReadVarint(ahead, used).value.0)
    ensures ahead == chunk + ReadVarint(ahead, used).value.1
  {
    if ahead[0] < 0x80 {
      chunk := [ahead[0]];
      LastByte(ahead[0]);
    } else {
      var more := VarintWas(ahead[1..], used + 1);
      chunk := [ahead[0]] + more;
      MoreBytes(ahead[0], more, ReadVarint(ahead[1..], used + 1).value.0);
      Regroup([ahead[0]], more, ReadVarint(ahead, used).value.1);
    }
    assert ahead == [ahead[0]] + ahead[1..];
  }

  lemma Regroup(a: seq<byte>, b: seq<byte>, c: seq<byte>)
    ensures a + b + c == a + (b + c)
  {
  }

  lemma LastByte(last: byte)
    requires last < 0x80
    ensures IsVarint([last], last)
  {
    assert [last][1..] == [];
    assert Base128([]) == 0;
  }

  lemma MoreBytes(first: byte, chunk: seq<byte>, high: nat)
    requires first >= 0x80 && IsVarint(chunk, high) && |chunk| < 10
    ensures IsVarint([first] + chunk, first - 0x80 + 0x80 * high)
  {
    var whole := [first] + chunk;
    assert whole[1..] == chunk;
    assert forall i :: 1 <= i < |whole| - 1 ==> whole[i] == chunk[i - 1];
  }

  lemma VarintRest(chunk: seq<byte>, n: nat)
    requires IsVarint(chunk, n) && |chunk| > 1
    ensures chunk[0] >= 0x80 && IsVarint(chunk[1..], Base128(chunk[1..]))
    ensures n == chunk[0] - 0x80 + 0x80 * Base128(chunk[1..])
  {
    assert forall i :: 0 <= i < |chunk| - 1 ==> chunk[1..][i] == chunk[i + 1];
  }

  lemma VarintOne(chunk: seq<byte>, n: nat)
    requires IsVarint(chunk, n) && |chunk| == 1
    ensures chunk == [n] && n < 0x80
  {
    assert Base128(chunk[1..]) == 0;
  }

  lemma {:induction false} VarintReads(chunk: seq<byte>, n: nat, used: nat, rest: seq<byte>)
    requires IsVarint(chunk, n) && used + |chunk| <= 10
    ensures ReadVarint(chunk + rest, used) == Some((n, rest))
  {
    if |chunk| == 1 {
      VarintOne(chunk, n);
      ReadCons(chunk[0], rest, used);
    } else {
      VarintRest(chunk, n);
      VarintReads(chunk[1..], Base128(chunk[1..]), used + 1, rest);
      ReadCons(chunk[0], chunk[1..] + rest, used);
      FirstApart(chunk, rest);
    }
  }

  lemma FirstApart(chunk: seq<byte>, rest: seq<byte>)
    requires chunk != []
    ensures chunk + rest == [chunk[0]] + (chunk[1..] + rest)
  {
  }

  lemma ValueWas(wireType: nat, ahead: seq<byte>) returns (body: seq<byte>)
    requires ReadValue(wireType, ahead).Some?
    ensures ahead == body + ReadValue(wireType, ahead).value.1
    ensures wireType == TypeOf(ReadValue(wireType, ahead).value.0) && IsValue(body, ReadValue(wireType, ahead).value.0)
  {
    if wireType == 0 {
      body := VarintWas(ahead, 0);
    } else if wireType == 2 {
      body := DelimitedWas(ahead);
    } else {
      body := ReadValue(wireType, ahead).value.0.octets;
    }
  }

  lemma DelimitedWas(ahead: seq<byte>) returns (body: seq<byte>)
    requires ReadDelimited(ahead).Some?
    ensures ahead == body + ReadDelimited(ahead).value.1 && IsValue(body, Delimited(ReadDelimited(ahead).value.0))
  {
    var size := VarintWas(ahead, 0);
    var (octets, rest) := ReadDelimited(ahead).value;
    body := size + octets;
    Regroup(size, octets, rest);
  }

  lemma DelimitedReads(body: seq<byte>, octets: seq<byte>, rest: seq<byte>)
    requires IsValue(body, Delimited(octets))
    ensures ReadDelimited(body + rest) == Some((octets, rest))
  {
    var size :| body == size + octets && IsVarint(size, |octets|);
    VarintReads(size, |octets|, 0, octets + rest);
    Regroup(size, octets, rest);
    TakeBack(octets, rest);
  }

  lemma TakeBack(octets: seq<byte>, rest: seq<byte>)
    ensures Take(octets + rest, |octets|) == Some((octets, rest))
  {
    assert (octets + rest)[..|octets|] == octets && (octets + rest)[|octets|..] == rest;
  }

  lemma ValueReads(body: seq<byte>, v: WireValue, rest: seq<byte>)
    requires IsValue(body, v)
    ensures ReadValue(TypeOf(v), body + rest) == Some((v, rest))
  {
    match v
    case VarintValue(n) => VarintReads(body, n, 0, rest);
    case Fixed64(octets) => TakeBack(body, rest);
    case Fixed32(octets) => TakeBack(body, rest);
    case Delimited(octets) => DelimitedReads(body, octets, rest);
  }

  lemma FieldWas(ahead: seq<byte>) returns (chunk: seq<byte>)
    requires ReadField(ahead).Some?
    ensures ahead == chunk + ReadField(ahead).value.1 && IsField(chunk, ReadField(ahead).value.0)
  {
    var (n, afterTag) := ReadVarint(ahead, 0).value;
    var tag := VarintWas(ahead, 0);
    var body := ValueWas(n % 8, afterTag);
    chunk := tag + body;
    Regroup(tag, body, ReadField(ahead).value.1);
    TagWhole(n);
  }

  lemma TagWhole(n: nat)
    ensures n == 8 * (n / 8) + n % 8
  {
  }

  lemma TagParts(number: nat, wireType: nat)
    requires wireType < 8
    ensures (8 * number + wireType) / 8 == number && (8 * number + wireType) % 8 == wireType
  {
  }

  lemma PartsRead(tag: seq<byte>, n: nat, body: seq<byte>, f: Field, rest: seq<byte>)
    requires IsVarint(tag, n) && n / 8 == f.number && n % 8 == TypeOf(f.value) && IsValue(body, f.value)
    ensures ReadField(tag + (body + rest)) == Some((f, rest))
  {
    VarintReads(tag, n, 0, body + rest);
    ValueReads(body, f.value, rest);
    TagThenValue(tag + (body + rest), n, body + rest, f.value, rest);
  }

  lemma FieldReads(chunk: seq<byte>, f: Field, rest: seq<byte>)
    requires IsField(chunk, f)
    ensures ReadField(chunk + rest) == Some((f, rest))
  {
    var tag, body :| chunk == tag + body && IsVarint(tag, 8 * f.number + TypeOf(f.value)) && IsValue(body, f.value);
    Regroup(tag, body, rest);
    TagParts(f.number, TypeOf(f.value));
    PartsRead(tag, 8 * f.number + TypeOf(f.value), body, f, rest);
  }

  lemma {:induction false} MessageWas(bytes: seq<byte>)
    requires ReadFields(bytes).Some?
    ensures IsMessage(bytes, ReadFields(bytes).value)
    decreases |bytes|
  {
    if bytes != [] {
      var chunk := FieldWas(bytes);
      FieldsStep(bytes);
      MessageWas(ReadField(bytes).value.1);
      assert ReadFields(bytes).value[1..] == ReadFields(ReadField(bytes).value.1).value;
    }
  }

  lemma {:induction false} MessageReads(bytes: seq<byte>, fields: seq<Field>)
    requires IsMessage(bytes, fields)
    ensures ReadFields(bytes) == Some(fields)
    decreases |fields|
  {
    if fields != [] {
      var first, rest :| bytes == first + rest && IsField(first, fields[0]) && IsMessage(rest, fields[1..]);
      FieldReads(first, fields[0], rest);
      MessageReads(rest, fields[1..]);
      FieldsCons(bytes, fields[0], rest);
      assert fields == [fields[0]] + fields[1..];
    }
  }

  /** What is read from bytes is the one list of fields they are a message of, if there is one. */
  lemma MessageIff(bytes: seq<byte>, fields: seq<Field>)
    ensures ReadFields(bytes) == Some(fields) <==> IsMessage(bytes, fields)
  {
    if ReadFields(bytes) == Some(fields) {
      MessageWas(bytes);
    }
    if IsMessage(bytes, fields) {
      MessageReads(bytes, fields);
    }
  }

  // ----- What the fields say -----

  /** The text of a field comes from the last one with its number, and all of them decode. */
  ghost predicate IsText(utf8: Utf8, fields: seq<Field>, number: nat, text: Option<Text>) {
    && (forall f :: f in fields && Sets(f, number) ==> utf8(f.value.octets).Some?)
    && match text
       case None => forall f :: f in fields ==> !Sets(f, number)
       case Some(_) =>
         exists i :: 0 <= i < |fields| && Sets(fields[i], number) && utf8(fields[i].value.octets) == text
                     && forall j :: i < j < |fields| ==> !Sets(fields[j], number)
  }

  /** Bytes that are a map entry of this key and value, "" standing for one that is missing. */
  ghost predicate IsEntry(utf8: Utf8, octets: seq<byte>, key: Text, value: Text) {
    exists fields, k, v ::
      IsMessage(octets, fields) && IsText(utf8, fields, 1, k) && IsText(utf8, fields, 2, v)
      && key == k.GetOr([]) && value == v.GetOr([])
  }

  /** f is a map entry with this key. */
  ghost predicate KeyedBy(utf8: Utf8, f: Field, key: Text) {
    Sets(f, 3) && exists value :: IsEntry(utf8, f.value.octets, key, value)
  }

  /** The value under a key comes from the last entry with that key. */
  ghost predicate IsValueOf(utf8: Utf8, fields: seq<Field>, key: Text, value: Text) {
    fields != [] &&
    var n := |fields| - 1;
    if KeyedBy(utf8, fields[n], key) then IsEntry(utf8, fields[n].value.octets, key, value)
    else IsValueOf(utf8, fields[..n], key, value)
  }

  /** Every field 3 is an entry. */
  ghost predicate AllEntries(utf8: Utf8, fields: seq<Field>) {
    forall f :: f in fields && Sets(f, 3) ==> HasKey(utf8, f)
  }

  ghost predicate HasKey(utf8: Utf8, f: Field) {
    exists key :: KeyedBy(utf8, f, key)
  }

  predicate Maps(metadata: map<Text, Text>, key: Text, value: Text) {
    key in metadata && metadata[key] == value
  }

  /** Every key there is but an empty one and `__proto__`. */
  ghost predicate IsMetadata(utf8: Utf8, fields: seq<Field>, metadata: map<Text, Text>) {
    forall key, value :: Maps(metadata, key, value) <==> key != [] && key != PROTO && IsValueOf(utf8, fields, key, value)
  }

  /** What an ErrorInfo message says; fields of other numbers or types say nothing. */
  ghost predicate Says(utf8: Utf8, fields: seq<Field>, info: Info) {
    && IsText(utf8, fields, 1, info.reason) && IsText(utf8, fields, 2, info.domain)
    && AllEntries(utf8, fields) && IsMetadata(utf8, fields, info.metadata)
  }

  // ----- Decoding is exactly that -----

  lemma {:induction false} EntrySays(utf8: Utf8, fields: seq<Field>)
    ensures EntryAll(utf8, BLANK, fields).Some? ==>
              var e := EntryAll(utf8, BLANK, fields).value;
              IsText(utf8, fields, 1, e.key) && IsText(utf8, fields, 2, e.value)
    ensures EntryAll(utf8, BLANK, fields).None? ==>
              exists f :: f in fields && (Sets(f, 1) || Sets(f, 2)) && utf8(f.value.octets).None?
    decreases |fields|
  {
    if fields != [] {
      var n := |fields| - 1;
      var most, last := fields[..n], fields[n];
      EntrySays(utf8, most);
      EntryAllSnoc(utf8, BLANK, most, last);
      assert fields == most + [last];
      if EntryAll(utf8, BLANK, fields).Some? {
        var before, e := EntryAll(utf8, BLANK, most).value, EntryAll(utf8, BLANK, fields).value;
        TextSnoc(utf8, most, last, 1, before.key, e.key);
        TextSnoc(utf8, most, last, 2, before.value, e.value);
      } else if EntryAll(utf8, BLANK, most).None? {
        var f :| f in most && (Sets(f, 1) || Sets(f, 2)) && utf8(f.value.octets).None?;
        assert f in fields;
      } else {
        assert last in fields;
      }
    }
  }

  lemma TextSnoc(utf8: Utf8, most: seq<Field>, last: Field, number: nat, before: Option<Text>, after: Option<Text>)
    requires IsText(utf8, most, number, before)
    requires Sets(last, number) ==> after.Some? && utf8(last.value.octets) == after
    requires !Sets(last, number) ==> after == before
    ensures IsText(utf8, most + [last], number, after)
  {
    var fields := most + [last];
    assert forall f :: f in fields <==> f in most || f == last;
    if Sets(last, number) {
      assert fields[|most|] == last;
    } else if before.Some? {
      var i :| 0 <= i < |most| && Sets(most[i], number) && utf8(most[i].value.octets) == before
               && forall j :: i < j < |most| ==> !Sets(most[j], number);
      assert fields[i] == most[i];
    }
  }

  lemma {:induction false} EntryAllSnoc(utf8: Utf8, e: Entry, most: seq<Field>, last: Field)
    ensures EntryAll(utf8, e, most + [last]) ==
            match EntryAll(utf8, e, most) case None => None case Some(r) => EntryApply(utf8, r, last)
    decreases |most|
  {
    if most == [] {
      assert most + [last] == [last];
      if EntryApply(utf8, e, last).Some? {
        assert EntryAll(utf8, EntryApply(utf8, e, last).value, []) == EntryApply(utf8, e, last);
      }
    } else {
      assert (most + [last])[1..] == most[1..] + [last];
      if EntryApply(utf8, e, most[0]).Some? {
        EntryAllSnoc(utf8, EntryApply(utf8, e, most[0]).value, most[1..], last);
      }
    }
  }

  lemma TextUnique(utf8: Utf8, fields: seq<Field>, number: nat, a: Option<Text>, b: Option<Text>)
    requires IsText(utf8, fields, number, a) && IsText(utf8, fields, number, b)
    ensures a == b
  {
    if a.Some? && b.Some? {
      var i :| 0 <= i < |fields| && Sets(fields[i], number) && utf8(fields[i].value.octets) == a
               && forall j :: i < j < |fields| ==> !Sets(fields[j], number);
      var j :| 0 <= j < |fields| && Sets(fields[j], number) && utf8(fields[j].value.octets) == b
               && forall k :: j < k < |fields| ==> !Sets(fields[k], number);
      assert i == j;
    }
  }

  /** An entry decodes exactly when it is one, to its last key and value. */
  lemma EntryIff(utf8: Utf8, octets: seq<byte>, key: Text, value: Text)
    ensures IsEntry(utf8, octets, key, value) <==>
            && EntryFrom(utf8, BLANK, octets).Some?
            && EntryFrom(utf8, BLANK, octets).value.key.GetOr([]) == key
            && EntryFrom(utf8, BLANK, octets).value.value.GetOr([]) == value
  {
    EntryFromFields(utf8, BLANK, octets);
    if EntryFrom(utf8, BLANK, octets).Some? {
      MessageWas(octets);
      EntrySays(utf8, ReadFields(octets).value);
    }
    if IsEntry(utf8, octets, key, value) {
      var fields, k, v :| IsMessage(octets, fields) && IsText(utf8, fields, 1, k) && IsText(utf8, fields, 2, v)
                          && key == k.GetOr([]) && value == v.GetOr([]);
      MessageReads(octets, fields);
      EntrySays(utf8, fields);
      TextUnique(utf8, fields, 1, k, EntryAll(utf8, BLANK, fields).value.key);
      TextUnique(utf8, fields, 2, v, EntryAll(utf8, BLANK, fields).value.value);
    }
  }

  lemma EntryUnique(utf8: Utf8, octets: seq<byte>, key: Text, value: Text, other: Text, more: Text)
    requires IsEntry(utf8, octets, key, value) && IsEntry(utf8, octets, other, more)
    ensures key == other && value == more
  {
    EntryIff(utf8, octets, key, value);
    EntryIff(utf8, octets, other, more);
  }

  lemma ValueSnoc(utf8: Utf8, most: seq<Field>, last: Field, key: Text, value: Text)
    ensures IsValueOf(utf8, most + [last], key, value) <==>
            if KeyedBy(utf8, last, key) then IsEntry(utf8, last.value.octets, key, value)
            else IsValueOf(utf8, most, key, value)
  {
    assert (most + [last])[..|most|] == most;
  }

  lemma MetadataKept(utf8: Utf8, most: seq<Field>, last: Field, metadata: map<Text, Text>)
    requires IsMetadata(utf8, most, metadata)
    requires forall key :: KeyedBy(utf8, last, key) ==> key == [] || key == PROTO
    ensures IsMetadata(utf8, most + [last], metadata)
  {
    forall key, value ensures IsValueOf(utf8, most + [last], key, value) <==>
                              if KeyedBy(utf8, last, key) then IsEntry(utf8, last.value.octets, key, value)
                              else IsValueOf(utf8, most, key, value)
    {
      ValueSnoc(utf8, most, last, key, value);
    }
  }

  lemma OnlyKey(utf8: Utf8, f: Field, key: Text, value: Text)
    requires Sets(f, 3) && IsEntry(utf8, f.value.octets, key, value)
    ensures forall other :: KeyedBy(utf8, f, other) <==> other == key
    ensures forall other :: IsEntry(utf8, f.value.octets, key, other) <==> other == value
  {
    assert KeyedBy(utf8, f, key);
    forall other | KeyedBy(utf8, f, other) ensures other == key {
      var v :| IsEntry(utf8, f.value.octets, other, v);
      EntryUnique(utf8, f.value.octets, key, value, other, v);
    }
    forall other | IsEntry(utf8, f.value.octets, key, other) ensures other == value {
      EntryUnique(utf8, f.value.octets, key, value, key, other);
    }
  }

  lemma MetadataPut(utf8: Utf8, most: seq<Field>, last: Field, metadata: map<Text, Text>, key: Text, value: Text)
    requires IsMetadata(utf8, most, metadata)
    requires Sets(last, 3) && IsEntry(utf8, last.value.octets, key, value) && key != [] && key != PROTO
    ensures IsMetadata(utf8, most + [last], metadata[key := value])
  {
    OnlyKey(utf8, last, key, value);
    forall k, v ensures Maps(metadata[key := value], k, v) <==>
                        k != [] && k != PROTO && IsValueOf(utf8, most + [last], k, v)
    {
      ValueSnoc(utf8, most, last, k, v);
      assert Maps(metadata[key := value], k, v) <==> if k == key then v == value else Maps(metadata, k, v);
    }
  }

  /** A field that cannot be decoded. */
  ghost predicate Undecodable(utf8: Utf8, f: Field) {
    || ((Sets(f, 1) || Sets(f, 2)) && utf8(f.value.octets).None?)
    || (Sets(f, 3) && !HasKey(utf8, f))
  }

  lemma ApplyAllSnoc(utf8: Utf8, most: seq<Field>, last: Field)
    ensures ApplyAll(utf8, EMPTY, most + [last]) ==
            match ApplyAll(utf8, EMPTY, most) case None => None case Some(r) => Apply(utf8, r, last)
  {
    ApplyAllConcat(utf8, EMPTY, most, [last]);
    if ApplyAll(utf8, EMPTY, most).Some? {
      var r := ApplyAll(utf8, EMPTY, most).value;
      if Apply(utf8, r, last).Some? {
        assert ApplyAll(utf8, Apply(utf8, r, last).value, []) == Apply(utf8, r, last);
      }
    }
  }

  lemma ApplyNone(utf8: Utf8, info: Info, f: Field)
    ensures Apply(utf8, info, f).None? ==> Undecodable(utf8, f)
  {
    if Sets(f, 3) && Apply(utf8, info, f).None? {
      forall key ensures !KeyedBy(utf8, f, key) {
        if KeyedBy(utf8, f, key) {
          var value :| IsEntry(utf8, f.value.octets, key, value);
          EntryIff(utf8, f.value.octets, key, value);
          assert false;
        }
      }
    }
  }

  lemma ApplySays(utf8: Utf8, most: seq<Field>, last: Field, before: Info, after: Info)
    requires Says(utf8, most, before) && Apply(utf8, before, last) == Some(after)
    ensures Says(utf8, most + [last], after)
  {
    TextSnoc(utf8, most, last, 1, before.reason, after.reason);
    TextSnoc(utf8, most, last, 2, before.domain, after.domain);
    if Sets(last, 3) {
      var e := EntryFrom(utf8, BLANK, last.value.octets).value;
      EntryIff(utf8, last.value.octets, e.key.GetOr([]), e.value.GetOr([]));
      EntrySaid(utf8, most, last, before.metadata, e);
    } else {
      MetadataKept(utf8, most, last, before.metadata);
    }
    assert forall f :: f in most + [last] <==> f in most || f == last;
  }

  lemma EntrySaid(utf8: Utf8, most: seq<Field>, last: Field, metadata: map<Text, Text>, e: Entry)
    requires IsMetadata(utf8, most, metadata)
    requires Sets(last, 3) && IsEntry(utf8, last.value.octets, e.key.GetOr([]), e.value.GetOr([]))
    ensures IsMetadata(utf8, most + [last], Put(metadata, e)) && HasKey(utf8, last)
  {
    var key, value := e.key.GetOr([]), e.value.GetOr([]);
    OnlyKey(utf8, last, key, value);
    assert KeyedBy(utf8, last, key);
    if key == [] || key == PROTO {
      MetadataKept(utf8, most, last, metadata);
    } else {
      MetadataPut(utf8, most, last, metadata, key, value);
    }
  }

  lemma {:induction false} InfoSays(utf8: Utf8, fields: seq<Field>)
    ensures ApplyAll(utf8, EMPTY, fields).Some? ==> Says(utf8, fields, ApplyAll(utf8, EMPTY, fields).value)
    ensures ApplyAll(utf8, EMPTY, fields).None? ==> exists f :: f in fields && Undecodable(utf8, f)
    decreases |fields|
  {
    if fields != [] {
      var n := |fields| - 1;
      var most, last := fields[..n], fields[n];
      assert fields == most + [last];
      InfoSays(utf8, most);
      ApplyAllSnoc(utf8, most, last);
      if ApplyAll(utf8, EMPTY, most).None? {
        var f :| f in most && Undecodable(utf8, f);
        assert f in fields;
      } else {
        var before := ApplyAll(utf8, EMPTY, most).value;
        ApplyNone(utf8, before, last);
        assert last in fields;
        if Apply(utf8, before, last).Some? {
          ApplySays(utf8, most, last, before, Apply(utf8, before, last).value);
        }
      }
    }
  }

  lemma MetadataUnique(utf8: Utf8, fields: seq<Field>, a: map<Text, Text>, b: map<Text, Text>)
    requires IsMetadata(utf8, fields, a) && IsMetadata(utf8, fields, b)
    ensures a == b
  {
    forall key | key in a ensures Maps(b, key, a[key]) {
      assert Maps(a, key, a[key]);
    }
    forall key | key in b ensures Maps(a, key, b[key]) {
      assert Maps(b, key, b[key]);
    }
  }

  lemma SaysUnique(utf8: Utf8, fields: seq<Field>, a: Info, b: Info)
    requires Says(utf8, fields, a) && Says(utf8, fields, b)
    ensures a == b
  {
    TextUnique(utf8, fields, 1, a.reason, b.reason);
    TextUnique(utf8, fields, 2, a.domain, b.domain);
    MetadataUnique(utf8, fields, a.metadata, b.metadata);
  }

  lemma SaysDecodable(utf8: Utf8, fields: seq<Field>, info: Info)
    requires Says(utf8, fields, info)
    ensures forall f :: f in fields ==> !Undecodable(utf8, f)
  {
  }

  /**
    decodeErrorInfo on any bytes: it succeeds exactly on messages whose texts decode, in any
    encoding of them, and gives what the last field of each kind says.
   */
  lemma DecodeIff(utf8: Utf8, bytes: seq<byte>, info: Info)
    ensures Decode(utf8, bytes) == Some(info) <==> exists fields :: IsMessage(bytes, fields) && Says(utf8, fields, info)
  {
    DecodeFromFields(utf8, EMPTY, bytes);
    if Decode(utf8, bytes) == Some(info) {
      MessageWas(bytes);
      InfoSays(utf8, ReadFields(bytes).value);
    }
    forall fields | IsMessage(bytes, fields) && Says(utf8, fields, info) ensures Decode(utf8, bytes) == Some(info) {
      MessageReads(bytes, fields);
      InfoSays(utf8, fields);
      SaysDecodable(utf8, fields, info);
      SaysUnique(utf8, fields, info, ApplyAll(utf8, EMPTY, fields).value);
    }
  }
}
