/**
  The Python decoder: a field generator that also refuses field number 0, and map entries
  that need both a key and a value. Compared with the TypeScript decoder on every input.
 */
module PyErrorInfo {
  import opened Common
  import opened ProtoWire
  import opened ErrorInfo

  /** As TypeScript's, with no limit on a length other than the buffer's own. */
  function PyReadValue(wireType: nat, ahead: seq<byte>): (r: Option<(WireValue, seq<byte>)>)
    ensures r.Some? ==> |r.value.1| <= |ahead|
  {
    if wireType == 2 then
      var (size, rest) :- ReadVarint(ahead, 0);
      var (octets, after) :- Take(rest, size);
      Some((Delimited(octets), after))
    else ReadValue(wireType, ahead)
  }

  /** One pull of `_protobuf_fields`. */
  function PyReadField(ahead: seq<byte>): (r: Option<(Field, seq<byte>)>)
    ensures r.Some? ==> |r.value.1| < |ahead|
  {
    var (tag, afterTag) :- ReadVarint(ahead, 0);
    if tag / 8 == 0 then None
    else
      var (value, rest) :- PyReadValue(tag % 8, afterTag);
      Some((Field(tag / 8, value), rest))
  }

  function PyReadFields(ahead: seq<byte>): Option<seq<Field>>
    decreases |ahead|
  {
    if ahead == [] then Some([])
    else
      var (field, rest) :- PyReadField(ahead);
      var fields :- PyReadFields(rest);
      Some([field] + fields)
  }

  function PyEntryFrom(utf8: Utf8, e: Entry, ahead: seq<byte>): Option<Entry>
    decreases |ahead|
  {
    if ahead == [] then Some(e)
    else
      var (field, rest) :- PyReadField(ahead);
      var next :- EntryApply(utf8, e, field);
      PyEntryFrom(utf8, next, rest)
  }

  function PyPut(metadata: map<Text, Text>, e: Entry): map<Text, Text> {
    if e.key.Some? && e.value.Some? then metadata[e.key.value := e.value.value] else metadata
  }

  function PyApply(utf8: Utf8, info: Info, f: Field): Option<Info> {
    if !f.value.Delimited? then Some(info)
    else if f.number == 1 then
      var text :- utf8(f.value.octets);
      Some(info.(reason := Some(text)))
    else if f.number == 2 then
      var text :- utf8(f.value.octets);
      Some(info.(domain := Some(text)))
    else if f.number == 3 then
      var entry :- PyEntryFrom(utf8, BLANK, f.value.octets);
      Some(info.(metadata := PyPut(info.metadata, entry)))
    else Some(info)
  }

  function PyDecodeFrom(utf8: Utf8, info: Info, ahead: seq<byte>): Option<Info>
    decreases |ahead|
  {
    if ahead == [] then Some(info)
    else
      var (field, rest) :- PyReadField(ahead);
      var next :- PyApply(utf8, info, field);
      PyDecodeFrom(utf8, next, rest)
  }

  function PyDecode(utf8: Utf8, raw: seq<byte>): Option<Info> {
    PyDecodeFrom(utf8, EMPTY, raw)
  }

  // ----- The generator object -----

  datatype Pull = Yielded(field: Field) | Exhausted | Raised

  /** `_protobuf_fields(raw)`: the buffer and the offset kept between two pulls. */
  class FieldGenerator {
    const raw: seq<byte>
    var offset: nat

    constructor (raw: seq<byte>)
      ensures this.raw == raw && offset == 0
    {
      this.raw := raw;
      offset := 0;
    }

    method Next() returns (p: Pull)
      requires offset <= |raw|
      modifies this
      ensures offset <= |raw|
      ensures p.Exhausted? <==> old(offset) == |raw|
      ensures p.Raised? <==> old(offset) < |raw| && PyReadField(raw[old(offset)..]).None?
      ensures p.Yielded? ==> old(offset) < offset && PyReadField(raw[old(offset)..]) == Some((p.field, raw[offset..]))
    {
      if offset >= |raw| {
        return Exhausted;
      }
      var tag := ReadVarintAt(raw, offset);
      if tag.None? {
        return Raised;
      }
      VarintInBounds(raw, offset, 0);
      ghost var ahead := raw[offset..];
      var number, wireType, start := tag.value.0 / 8, tag.value.0 % 8, tag.value.1;
      if number == 0 {
        return Raised;
      }
      p := NextValue(number, wireType, start);
      PyFieldByTag(ahead, tag.value.0, raw[start..]);
    }

    /** The branch on the wire type, after the tag. */
    method NextValue(number: nat, wireType: nat, start: nat) returns (p: Pull)
      requires offset <= start <= |raw|
      modifies this
      ensures start <= offset <= |raw| || (p.Raised? && offset == old(offset))
      ensures p.Raised? <==> PyReadValue(wireType, raw[start..]).None?
      ensures p.Yielded? ==> PyReadValue(wireType, raw[start..]) == Some((p.field.value, raw[offset..])) && p.field.number == number
      ensures !p.Exhausted?
      ensures p.Yielded? ==> start <= offset
    {
      if wireType == 0 {
        var n := ReadVarintAt(raw, start);
        if n.None? {
          return Raised;
        }
        VarintInBounds(raw, start, 0);
        offset := n.value.1;
        return Yielded(Field(number, VarintValue(n.value.0)));
      }
      if wireType == 1 || wireType == 5 {
        var end := start + if wireType == 1 then 8 else 4;
        if end > |raw| {
          return Raised;
        }
        offset := end;
        var octets := raw[start..end];
        assert raw[start..][..end - start] == octets && raw[start..][end - start..] == raw[end..];
        return Yielded(Field(number, if wireType == 1 then Fixed64(octets) else Fixed32(octets)));
      }
      if wireType == 2 {
        p := NextDelimited(number, start);
        return;
      }
      return Raised;
    }

    method NextDelimited(number: nat, start: nat) returns (p: Pull)
      requires offset <= start <= |raw|
      modifies this
      ensures !p.Exhausted?
      ensures p.Raised? ==> offset == old(offset) && PyReadValue(2, raw[start..]).None?
      ensures p.Yielded? ==> start <= offset <= |raw| && p.field.number == number
                             && PyReadValue(2, raw[start..]) == Some((p.field.value, raw[offset..]))
    {
      var length := ReadVarintAt(raw, start);
      if length.None? {
        return Raised;
      }
      VarintInBounds(raw, start, 0);
      var body, size := length.value.1, length.value.0;
      if body + size > |raw| {
        return Raised;
      }
      offset := body + size;
      assert raw[body..][..size] == raw[body..offset] && raw[body..][size..] == raw[offset..];
      return Yielded(Field(number, Delimited(raw[body..offset])));
    }
  }

  lemma PyFieldByTag(ahead: seq<byte>, tag: nat, afterTag: seq<byte>)
    requires ReadVarint(ahead, 0) == Some((tag, afterTag)) && tag / 8 != 0
    ensures PyReadField(ahead) ==
            match PyReadValue(tag % 8, afterTag)
            case None => None
            case Some(v) => Some((Field(tag / 8, v.0), v.1))
  {
  }

  method DecodeErrorInfo(utf8: Utf8, raw: seq<byte>) returns (output: Option<Info>)
    ensures output == PyDecode(utf8, raw)
  {
    var info := EMPTY;
    var fields := new FieldGenerator(raw);
    assert raw[0..] == raw;
    while true
      invariant fields.raw == raw && fields.offset <= |raw|
      invariant PyDecode(utf8, raw) == PyDecodeFrom(utf8, info, raw[fields.offset..])
      decreases |raw| - fields.offset
    {
      var pull := fields.Next();
      if pull.Raised? {
        return None;
      }
      if pull.Exhausted? {
        assert raw[|raw|..] == [];
        return Some(info);
      }
      var applied := ApplyField(utf8, info, pull.field);
      if applied.None? {
        return None;
      }
      info := applied.value;
    }
  }

  method ApplyField(utf8: Utf8, info: Info, f: Field) returns (output: Option<Info>)
    ensures output == PyApply(utf8, info, f)
  {
    if !f.value.Delimited? {
      return Some(info);
    }
    if f.number == 1 {
      var text := utf8(f.value.octets);
      return if text.None? then None else Some(info.(reason := text));
    } else if f.number == 2 {
      var text := utf8(f.value.octets);
      return if text.None? then None else Some(info.(domain := text));
    } else if f.number == 3 {
      var entry := DecodeEntry(utf8, f.value.octets);
      return if entry.None? then None else Some(info.(metadata := PyPut(info.metadata, entry.value)));
    }
    return Some(info);
  }

  method DecodeEntry(utf8: Utf8, raw: seq<byte>) returns (output: Option<Entry>)
    ensures output == PyEntryFrom(utf8, BLANK, raw)
  {
    var entry := BLANK;
    var fields := new FieldGenerator(raw);
    assert raw[0..] == raw;
    while true
      invariant fields.raw == raw && fields.offset <= |raw|
      invariant PyEntryFrom(utf8, BLANK, raw) == PyEntryFrom(utf8, entry, raw[fields.offset..])
      decreases |raw| - fields.offset
    {
      var pull := fields.Next();
      if pull.Raised? {
        return None;
      }
      if pull.Exhausted? {
        assert raw[|raw|..] == [];
        return Some(entry);
      }
      if pull.field.value.Delimited? {
        var applied := ErrorInfo.ApplyEntryField(utf8, entry, pull.field.number, pull.field.value.octets);
        if applied.None? {
          return None;
        }
        entry := applied.value;
      }
    }
  }

  // ----- When the two decoders succeed -----

  predicate NonZero(fields: seq<Field>) {
    forall f :: f in fields ==> f.number != 0
  }

  /** No field number 0 in the message or in any of its map entries. */
  predicate NoZeroNumbers(raw: seq<byte>) {
    && ReadFields(raw).Some?
    && NonZero(ReadFields(raw).value)
    && forall f :: f in ReadFields(raw).value && f.number == 3 && f.value.Delimited? ==> EntryNonZero(f.value.octets)
  }

  predicate EntryNonZero(octets: seq<byte>) {
    ReadFields(octets).Some? && NonZero(ReadFields(octets).value)
  }

  /** A JavaScript or Python buffer is never longer than 2^53 - 1 bytes. */
  predicate IsBuffer(raw: seq<byte>) {
    |raw| <= MAX_SAFE_INTEGER
  }

  lemma FieldAgree(ahead: seq<byte>)
    requires IsBuffer(ahead)
    ensures PyReadField(ahead) ==
            if ReadField(ahead).Some? && ReadField(ahead).value.0.number != 0 then ReadField(ahead) else None
  {
  }

  lemma {:induction false} FieldsAgree(ahead: seq<byte>)
    requires IsBuffer(ahead)
    ensures PyReadFields(ahead) ==
            if ReadFields(ahead).Some? && NonZero(ReadFields(ahead).value) then ReadFields(ahead) else None
    decreases |ahead|
  {
    if ahead != [] && ReadField(ahead).Some? {
      FieldAgree(ahead);
      var (field, rest) := ReadField(ahead).value;
      FieldsAgree(rest);
      if ReadFields(rest).Some? {
        var all := [field] + ReadFields(rest).value;
        assert all[0] == field && all[1..] == ReadFields(rest).value;
      }
    }
  }

  function PyApplyAll(utf8: Utf8, info: Info, fields: seq<Field>): Option<Info>
    decreases |fields|
  {
    if fields == [] then Some(info)
    else
      var next :- PyApply(utf8, info, fields[0]);
      PyApplyAll(utf8, next, fields[1..])
  }

  lemma {:induction false} PyDecodeFromFields(utf8: Utf8, info: Info, ahead: seq<byte>)
    ensures PyDecodeFrom(utf8, info, ahead) ==
            if PyReadFields(ahead).None? then None else PyApplyAll(utf8, info, PyReadFields(ahead).value)
    decreases |ahead|
  {
    if ahead != [] && PyReadField(ahead).Some? {
      var (field, rest) := PyReadField(ahead).value;
      if PyApply(utf8, info, field).Some? {
        PyDecodeFromFields(utf8, PyApply(utf8, info, field).value, rest);
      }
      if PyReadFields(rest).Some? {
        assert ([field] + PyReadFields(rest).value)[1..] == PyReadFields(rest).value;
      }
    }
  }

  lemma {:induction false} PyEntryFromFields(utf8: Utf8, e: Entry, ahead: seq<byte>)
    ensures PyEntryFrom(utf8, e, ahead) ==
            if PyReadFields(ahead).None? then None else EntryAll(utf8, e, PyReadFields(ahead).value)
    decreases |ahead|
  {
    if ahead != [] && PyReadField(ahead).Some? {
      var (field, rest) := PyReadField(ahead).value;
      if EntryApply(utf8, e, field).Some? {
        PyEntryFromFields(utf8, EntryApply(utf8, e, field).value, rest);
      }
      if PyReadFields(rest).Some? {
        assert ([field] + PyReadFields(rest).value)[1..] == PyReadFields(rest).value;
      }
    }
  }

  lemma EntryAgree(utf8: Utf8, octets: seq<byte>)
    requires IsBuffer(octets)
    ensures PyEntryFrom(utf8, BLANK, octets) ==
            if EntryNonZero(octets) then EntryFrom(utf8, BLANK, octets) else None
  {
    PyEntryFromFields(utf8, BLANK, octets);
    EntryFromFields(utf8, BLANK, octets);
    FieldsAgree(octets);
  }

  /** Map entries are slices of the message, so they are buffers too. */
  predicate EntriesFit(fields: seq<Field>) {
    forall f :: f in fields && f.value.Delimited? ==> IsBuffer(f.value.octets)
  }

  lemma {:induction false} FieldsFit(ahead: seq<byte>)
    requires IsBuffer(ahead) && ReadFields(ahead).Some?
    ensures EntriesFit(ReadFields(ahead).value)
    decreases |ahead|
  {
    if ahead != [] {
      var (field, rest) := ReadField(ahead).value;
      FieldsFit(rest);
    }
  }

  predicate EntriesNonZero(fields: seq<Field>) {
    forall f :: f in fields && f.number == 3 && f.value.Delimited? ==> EntryNonZero(f.value.octets)
  }

  /** The map entries of a message in order. */
  function Entries(utf8: Utf8, fields: seq<Field>): seq<Entry> {
    if fields == [] then []
    else if fields[0].number == 3 && fields[0].value.Delimited? && EntryFrom(utf8, BLANK, fields[0].value.octets).Some?
    then [EntryFrom(utf8, BLANK, fields[0].value.octets).value] + Entries(utf8, fields[1..])
    else Entries(utf8, fields[1..])
  }

  function PutAll(m: map<Text, Text>, es: seq<Entry>): map<Text, Text>
    decreases |es|
  {
    if es == [] then m else PutAll(Put(m, es[0]), es[1..])
  }

  function PyPutAll(m: map<Text, Text>, es: seq<Entry>): map<Text, Text>
    decreases |es|
  {
    if es == [] then m else PyPutAll(PyPut(m, es[0]), es[1..])
  }

  ghost predicate SameButMetadata(a: Info, b: Info) {
    a.reason == b.reason && a.domain == b.domain
  }

  lemma {:induction false} ApplyAllAgree(utf8: Utf8, t: Info, p: Info, fields: seq<Field>)
    requires SameButMetadata(t, p) && EntriesFit(fields)
    ensures PyApplyAll(utf8, p, fields).Some? <==> ApplyAll(utf8, t, fields).Some? && EntriesNonZero(fields)
    ensures ApplyAll(utf8, t, fields).Some? ==>
              ApplyAll(utf8, t, fields).value.metadata == PutAll(t.metadata, Entries(utf8, fields))
    ensures PyApplyAll(utf8, p, fields).Some? ==>
              && SameButMetadata(ApplyAll(utf8, t, fields).value, PyApplyAll(utf8, p, fields).value)
              && PyApplyAll(utf8, p, fields).value.metadata == PyPutAll(p.metadata, Entries(utf8, fields))
    decreases |fields|
  {
    if fields != [] {
      var f, rest := fields[0], fields[1..];
      assert forall g :: g in fields <==> g == f || g in rest;
      if f.number == 3 && f.value.Delimited? {
        EntryAgree(utf8, f.value.octets);
      }
      if Apply(utf8, t, f).Some? {
        var t' := Apply(utf8, t, f).value;
        var p' := if PyApply(utf8, p, f).Some? then PyApply(utf8, p, f).value else p.(reason := t'.reason, domain := t'.domain);
        ApplyAllAgree(utf8, t', p', rest);
      }
    }
  }

  function MessageEntries(utf8: Utf8, raw: seq<byte>): seq<Entry> {
    if ReadFields(raw).None? then [] else Entries(utf8, ReadFields(raw).value)
  }

  /** Python decodes exactly what TypeScript decodes, less messages with a field number 0. */
  lemma PySucceedsIff(utf8: Utf8, raw: seq<byte>)
    requires IsBuffer(raw)
    ensures PyDecode(utf8, raw).Some? <==> Decode(utf8, raw).Some? && NoZeroNumbers(raw)
    ensures PyDecode(utf8, raw).Some? ==> SameButMetadata(Decode(utf8, raw).value, PyDecode(utf8, raw).value)
    ensures PyDecode(utf8, raw).Some? ==>
              var entries := MessageEntries(utf8, raw);
              && Decode(utf8, raw).value.metadata == PutAll(map[], entries)
              && PyDecode(utf8, raw).value.metadata == PyPutAll(map[], entries)
  {
    DecodeFromFields(utf8, EMPTY, raw);
    PyDecodeFromFields(utf8, EMPTY, raw);
    FieldsAgree(raw);
    if ReadFields(raw).Some? {
      FieldsFit(raw);
      ApplyAllAgree(utf8, EMPTY, EMPTY, ReadFields(raw).value);
    }
  }

  // ----- When their metadata agree -----

  function Lookup(m: map<Text, Text>, k: Text): Option<Text> {
    if k in m then Some(m[k]) else None
  }

  /** The value Python keeps for k: that of the last entry carrying both k and a value. */
  function LastComplete(es: seq<Entry>, k: Text): Option<Text> {
    if es == [] then None
    else
      var last := es[|es| - 1];
      if last.key == Some(k) && last.value.Some? then last.value else LastComplete(es[..|es| - 1], k)
  }

  /** The value TypeScript keeps for k: that of the last entry carrying k, "" standing in. */
  function LastKeyed(es: seq<Entry>, k: Text): Option<Text> {
    if es == [] then None
    else
      var last := es[|es| - 1];
      if last.key == Some(k) then Some(last.value.GetOr([])) else LastKeyed(es[..|es| - 1], k)
  }

  lemma {:induction false} PutAllSnoc(m: map<Text, Text>, es: seq<Entry>)
    requires es != []
    ensures PutAll(m, es) == Put(PutAll(m, es[..|es| - 1]), es[|es| - 1])
    ensures PyPutAll(m, es) == PyPut(PyPutAll(m, es[..|es| - 1]), es[|es| - 1])
    decreases |es|
  {
    if |es| > 1 {
      PutAllSnoc(Put(m, es[0]), es[1..]);
      PutAllSnoc(PyPut(m, es[0]), es[1..]);
      assert es[1..][..|es| - 2] == es[..|es| - 1][1..];
    }
  }

  lemma {:induction false} LookupAll(es: seq<Entry>, k: Text)
    ensures Lookup(PyPutAll(map[], es), k) == LastComplete(es, k)
    ensures Lookup(PutAll(map[], es), k) == if k == [] || k == PROTO then None else LastKeyed(es, k)
    decreases |es|
  {
    if es != [] {
      PutAllSnoc(map[], es);
      LookupAll(es[..|es| - 1], k);
    }
  }

  /**
    For key k the last entry, if it carries no value, follows a complete entry for k
    whose value is already empty.
   */
  predicate Settled(es: seq<Entry>, k: Text) {
    if es == [] then true
    else
      var last, before := es[|es| - 1], es[..|es| - 1];
      if last.key != Some(k) then Settled(before, k)
      else last.value.Some? || LastComplete(before, k) == Some([])
  }

  ghost predicate MetadataAgree(es: seq<Entry>) {
    && (forall e :: e in es && e.key.Some? && e.value.Some? ==> e.key.value != [] && e.key.value != PROTO)
    && (forall k :: k != [] && k != PROTO ==> Settled(es, k))
  }

  lemma {:induction false} SettledAgrees(es: seq<Entry>, k: Text)
    ensures LastKeyed(es, k) == LastComplete(es, k) <==> Settled(es, k)
    decreases |es|
  {
    if es != [] {
      SettledAgrees(es[..|es| - 1], k);
    }
  }

  lemma {:induction false} LastCompleteNone(es: seq<Entry>, k: Text)
    ensures LastComplete(es, k).None? <==> forall e :: e in es && e.value.Some? ==> e.key != Some(k)
    decreases |es|
  {
    if es != [] {
      var last, before := es[|es| - 1], es[..|es| - 1];
      LastCompleteNone(before, k);
      assert forall e :: e in es <==> e == last || e in before;
      assert last in es;
    }
  }

  lemma SameMapIffSameLookups(a: map<Text, Text>, b: map<Text, Text>)
    ensures a == b <==> forall k :: Lookup(a, k) == Lookup(b, k)
  {
    if forall k :: Lookup(a, k) == Lookup(b, k) {
      forall k ensures k in a <==> k in b {
        assert Lookup(a, k) == Lookup(b, k);
      }
      forall k | k in a ensures a[k] == b[k] {
        assert Lookup(a, k) == Lookup(b, k);
      }
    }
  }

  /** When both succeed they agree exactly when the map entries are such that `MetadataAgree`. */
  lemma DecodersAgreeIff(utf8: Utf8, raw: seq<byte>)
    requires IsBuffer(raw) && PyDecode(utf8, raw).Some?
    ensures PyDecode(utf8, raw) == Decode(utf8, raw) <==> MetadataAgree(MessageEntries(utf8, raw))
  {
    PySucceedsIff(utf8, raw);
    var es := MessageEntries(utf8, raw);
    var ts, py := PutAll(map[], es), PyPutAll(map[], es);
    SameMapIffSameLookups(ts, py);
    forall k ensures Lookup(ts, k) == Lookup(py, k) <==>
                     if k == [] || k == PROTO
                     then forall e :: e in es && e.value.Some? ==> e.key != Some(k)
                     else Settled(es, k)
    {
      LookupAll(es, k);
      SettledAgrees(es, k);
      LastCompleteNone(es, k);
    }
    if ts == py {
      assert Lookup(ts, []) == Lookup(py, []) && Lookup(ts, PROTO) == Lookup(py, PROTO);
    }
  }

  lemma {:induction false} CompleteIsSettled(es: seq<Entry>, k: Text)
    requires forall e :: e in es && e.key == Some(k) ==> e.value.Some?
    ensures Settled(es, k)
    decreases |es|
  {
    if es != [] {
      assert es[|es| - 1] in es;
      CompleteIsSettled(es[..|es| - 1], k);
    }
  }

  /** In particular they agree when every entry has a value and a key a record can hold. */
  lemma CompleteEntriesAgree(utf8: Utf8, raw: seq<byte>)
    requires IsBuffer(raw) && PyDecode(utf8, raw).Some?
    requires forall e :: e in MessageEntries(utf8, raw) ==>
               e.key.Some? && e.value.Some? && e.key.value != [] && e.key.value != PROTO
    ensures PyDecode(utf8, raw) == Decode(utf8, raw)
  {
    var es := MessageEntries(utf8, raw);
    forall k | k != [] && k != PROTO ensures Settled(es, k) {
      CompleteIsSettled(es, k);
    }
    DecodersAgreeIff(utf8, raw);
  }

  const ZERO_FIELD := [Field(0, VarintValue(0))]
  const KEY_ONLY := [Field(1, Delimited([0x61]))]

  /** A field number 0 is skipped by TypeScript and refused by Python. */
  lemma ZeroFieldSplits(utf8: Utf8)
    ensures Decode(utf8, EncodeFields(ZERO_FIELD)) == Some(EMPTY)
    ensures PyDecode(utf8, EncodeFields(ZERO_FIELD)).None?
  {
    var raw := EncodeFields(ZERO_FIELD);
    TenBytes();
    FieldsRoundTrip(ZERO_FIELD);
    DecodeFromFields(utf8, EMPTY, raw);
    assert |raw| == 2;
    PySucceedsIff(utf8, raw);
    assert ZERO_FIELD[0] in ReadFields(raw).value;
  }

  /** An entry for "a" without a value is kept by TypeScript and dropped by Python. */
  lemma ValuelessEntrySplits()
    ensures var raw := EncodeFields([Field(3, Delimited(EncodeFields(KEY_ONLY)))]);
            && Decode(Ascii, raw) == Some(Info(None, None, map[[0x61] := []]))
            && PyDecode(Ascii, raw) == Some(EMPTY)
  {
    TenBytes();
    var octets := EncodeFields(KEY_ONLY);
    FieldsRoundTrip(KEY_ONLY);
    EntryFromFields(Ascii, BLANK, octets);
    assert Ascii([0x61]).value == [0x61];
    assert EntryFrom(Ascii, BLANK, octets) == Some(Entry(Some([0x61]), None));
    var field := Field(3, Delimited(octets));
    var raw := EncodeFields([field]);
    assert |octets| == 3;
    assert EncodeField(field) == EncodeVarint(26) + (EncodeVarint(3) + octets);
    assert [field][1..] == [];
    assert raw == EncodeField(field) + EncodeFields([]);
    assert |raw| == 5;
    FieldsRoundTrip([field]);
    DecodeFromFields(Ascii, EMPTY, raw);
    PySucceedsIff(Ascii, raw);
    assert Entries(Ascii, [field]) == [Entry(Some([0x61]), None)];
  }
}
