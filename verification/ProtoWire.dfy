/**
  The protobuf wire format as both decoders read it: base-128 varints, tags and fields
  (Protocol Buffers Encoding, sections "Base 128 Varints" and "Message Structure").
  Reads are stated on the bytes still ahead; the index-loop methods are in TypeScript's form.
 */
module ProtoWire {
  import opened Common

  const MAX_SAFE_INTEGER: nat := 0x1F_FFFF_FFFF_FFFF
  const MAX_VARINT_BYTES: nat := 10

  datatype WireValue =
    | VarintValue(n: nat)
    | Fixed64(octets: seq<byte>)
    | Delimited(octets: seq<byte>)
    | Fixed32(octets: seq<byte>)

  datatype Field = Field(number: nat, value: WireValue)

  // ----- Reading -----

  /** The varint at the front of `ahead` when `used` of its ten bytes are already read. */
  function ReadVarint(ahead: seq<byte>, used: nat): (r: Option<(nat, seq<byte>)>)
    ensures r.Some? ==> |r.value.1| < |ahead| && r.value.1 == ahead[|ahead| - |r.value.1|..]
    decreases |ahead|
  {
    if ahead == [] || used >= MAX_VARINT_BYTES then None
    else if ahead[0] < 0x80 then Some((ahead[0], ahead[1..]))
    else
      var (high, rest) :- ReadVarint(ahead[1..], used + 1);
      Some((ahead[0] - 0x80 + 0x80 * high, rest))
  }

  function Take(ahead: seq<byte>, size: nat): (r: Option<(seq<byte>, seq<byte>)>)
    ensures r.Some? ==> r.value.0 + r.value.1 == ahead && |r.value.0| == size
  {
    if size > |ahead| then None else Some((ahead[..size], ahead[size..]))
  }

  function ReadDelimited(ahead: seq<byte>): (r: Option<(seq<byte>, seq<byte>)>)
    ensures r.Some? ==> |r.value.1| < |ahead|
  {
    var (size, rest) :- ReadVarint(ahead, 0);
    if size > MAX_SAFE_INTEGER then None else Take(rest, size)
  }

  function ReadValue(wireType: nat, ahead: seq<byte>): (r: Option<(WireValue, seq<byte>)>)
    ensures r.Some? ==> |r.value.1| <= |ahead|
  {
    if wireType == 0 then
      var (n, rest) :- ReadVarint(ahead, 0);
      Some((VarintValue(n), rest))
    else if wireType == 1 then
      var (octets, rest) :- Take(ahead, 8);
      Some((Fixed64(octets), rest))
    else if wireType == 2 then
      var (octets, rest) :- ReadDelimited(ahead);
      Some((Delimited(octets), rest))
    else if wireType == 5 then
      var (octets, rest) :- Take(ahead, 4);
      Some((Fixed32(octets), rest))
    else None
  }

  /** One tag and its value; at least one byte is consumed. */
  function ReadField(ahead: seq<byte>): (r: Option<(Field, seq<byte>)>)
    ensures r.Some? ==> |r.value.1| < |ahead|
  {
    var (tag, afterTag) :- ReadVarint(ahead, 0);
    var (value, rest) :- ReadValue(tag % 8, afterTag);
    Some((Field(tag / 8, value), rest))
  }

  function ReadFields(ahead: seq<byte>): Option<seq<Field>>
    decreases |ahead|
  {
    if ahead == [] then Some([])
    else
      var (field, rest) :- ReadField(ahead);
      var fields :- ReadFields(rest);
      Some([field] + fields)
  }

  // ----- The standard encoder -----

  function Pow128(k: nat): (p: nat)
    ensures p > 0
  {
    if k == 0 then 1 else 128 * Pow128(k - 1)
  }

  function EncodeVarint(n: nat): seq<byte> {
    if n < 0x80 then [n] else [0x80 + n % 0x80] + EncodeVarint(n / 0x80)
  }

  function WireType(v: WireValue): nat {
    match v
    case VarintValue(_) => 0
    case Fixed64(_) => 1
    case Delimited(_) => 2
    case Fixed32(_) => 5
  }

  function EncodeValue(v: WireValue): seq<byte> {
    match v
    case VarintValue(n) => EncodeVarint(n)
    case Fixed64(octets) => octets
    case Delimited(octets) => EncodeVarint(|octets|) + octets
    case Fixed32(octets) => octets
  }

  function Tag(f: Field): nat {
    f.number * 8 + WireType(f.value)
  }

  function EncodeField(f: Field): seq<byte> {
    EncodeVarint(Tag(f)) + EncodeValue(f.value)
  }

  function EncodeFields(fields: seq<Field>): seq<byte> {
    if fields == [] then [] else EncodeField(fields[0]) + EncodeFields(fields[1..])
  }

  /** What a writer can produce: numbers fit ten varint bytes, fixed values have their width. */
  ghost predicate WellFormed(f: Field) {
    && f.number * 8 + 7 < Pow128(MAX_VARINT_BYTES)
    && match f.value
       case VarintValue(n) => n < Pow128(MAX_VARINT_BYTES)
       case Fixed64(octets) => |octets| == 8
       case Delimited(octets) => |octets| <= MAX_SAFE_INTEGER
       case Fixed32(octets) => |octets| == 4
  }

  ghost predicate AllWellFormed(fields: seq<Field>) {
    forall f :: f in fields ==> WellFormed(f)
  }

  // ----- Round trip -----

  lemma ReadCons(first: byte, rest: seq<byte>, used: nat)
    requires used < MAX_VARINT_BYTES
    ensures ReadVarint([first] + rest, used) ==
            if first < 0x80 then Some((first, rest))
            else match ReadVarint(rest, used + 1)
                 case None => None
                 case Some(high) => Some((first - 0x80 + 0x80 * high.0, high.1))
  {
    assert ([first] + rest)[1..] == rest;
  }

  lemma {:induction false} VarintRoundTrip(n: nat, used: nat, rest: seq<byte>)
    requires used < MAX_VARINT_BYTES && n < Pow128(MAX_VARINT_BYTES - used)
    ensures ReadVarint(EncodeVarint(n) + rest, used) == Some((n, rest))
  {
    if n < 0x80 {
      ReadCons(n, rest, used);
    } else {
      OneByteLess(n, used);
      VarintRoundTrip(n / 0x80, used + 1, rest);
      ReadCons(0x80 + n % 0x80, EncodeVarint(n / 0x80) + rest, used);
      EncodeCons(n, rest);
      assert n % 0x80 + 0x80 * (n / 0x80) == n;
    }
  }

  lemma EncodeCons(n: nat, rest: seq<byte>)
    requires n >= 0x80
    ensures EncodeVarint(n) + rest == [0x80 + n % 0x80] + (EncodeVarint(n / 0x80) + rest)
  {
  }

  lemma OneByteLess(n: nat, used: nat)
    requires used < MAX_VARINT_BYTES && 0x80 <= n < Pow128(MAX_VARINT_BYTES - used)
    ensures used + 1 < MAX_VARINT_BYTES && n / 0x80 < Pow128(MAX_VARINT_BYTES - (used + 1))
  {
    assert Pow128(MAX_VARINT_BYTES - used) == 128 * Pow128(MAX_VARINT_BYTES - used - 1);
    assert Pow128(0) == 1;
  }

  lemma TenBytes()
    ensures Pow128(MAX_VARINT_BYTES) == 0x40_0000_0000_0000_0000
  {
    assert Pow128(2) == 0x4000;
    assert Pow128(4) == 0x1000_0000;
    assert Pow128(6) == 0x400_0000_0000;
    assert Pow128(8) == 0x100_0000_0000_0000;
  }

  lemma ValueRoundTrip(f: Field, rest: seq<byte>)
    requires WellFormed(f)
    ensures ReadValue(WireType(f.value), EncodeValue(f.value) + rest) == Some((f.value, rest))
  {
    var text := EncodeValue(f.value) + rest;
    match f.value
    case VarintValue(n) => VarintRoundTrip(n, 0, rest);
    case Fixed64(octets) => assert text[..8] == octets && text[8..] == rest;
    case Delimited(octets) =>
      TenBytes();
      VarintRoundTrip(|octets|, 0, octets + rest);
      assert text == EncodeVarint(|octets|) + (octets + rest);
      assert (octets + rest)[..|octets|] == octets && (octets + rest)[|octets|..] == rest;
    case Fixed32(octets) => assert text[..4] == octets && text[4..] == rest;
  }

  lemma TagRoundTrip(f: Field)
    ensures Tag(f) / 8 == f.number && Tag(f) % 8 == WireType(f.value)
  {
  }

  lemma FieldRoundTrip(f: Field, rest: seq<byte>)
    requires WellFormed(f)
    ensures ReadField(EncodeField(f) + rest) == Some((f, rest))
  {
    var body := EncodeValue(f.value) + rest;
    TagRoundTrip(f);
    VarintRoundTrip(Tag(f), 0, body);
    ValueRoundTrip(f, rest);
    FieldText(f, rest);
    TagThenValue(EncodeField(f) + rest, Tag(f), body, f.value, rest);
  }

  lemma FieldText(f: Field, rest: seq<byte>)
    ensures EncodeField(f) + rest == EncodeVarint(Tag(f)) + (EncodeValue(f.value) + rest)
  {
  }

  lemma TagThenValue(ahead: seq<byte>, tag: nat, afterTag: seq<byte>, value: WireValue, rest: seq<byte>)
    requires ReadVarint(ahead, 0) == Some((tag, afterTag)) && ReadValue(tag % 8, afterTag) == Some((value, rest))
    ensures ReadField(ahead) == Some((Field(tag / 8, value), rest))
  {
  }

  /** Reading what the standard encoder wrote gives back every field in order. */
  lemma {:induction false} FieldsRoundTrip(fields: seq<Field>)
    requires AllWellFormed(fields)
    ensures ReadFields(EncodeFields(fields)) == Some(fields)
  {
    if fields != [] {
      var rest := EncodeFields(fields[1..]);
      FieldRoundTrip(fields[0], rest);
      FieldsRoundTrip(fields[1..]);
      FieldsCons(EncodeFields(fields), fields[0], rest);
      assert fields == [fields[0]] + fields[1..];
    }
  }

  lemma FieldsCons(ahead: seq<byte>, field: Field, rest: seq<byte>)
    requires ReadField(ahead) == Some((field, rest)) && ReadFields(rest).Some?
    ensures ReadFields(ahead) == Some([field] + ReadFields(rest).value)
  {
    assert ahead != [];
  }

  // ----- Appended bytes change nothing already read -----

  lemma {:induction false} VarintStable(ahead: seq<byte>, more: seq<byte>, used: nat)
    requires ReadVarint(ahead, used).Some?
    ensures ReadVarint(ahead + more, used) ==
            Some((ReadVarint(ahead, used).value.0, ReadVarint(ahead, used).value.1 + more))
  {
    assert (ahead + more)[1..] == ahead[1..] + more;
    if ahead[0] >= 0x80 {
      VarintStable(ahead[1..], more, used + 1);
    }
  }

  lemma TakeStable(ahead: seq<byte>, more: seq<byte>, size: nat)
    requires size <= |ahead|
    ensures Take(ahead + more, size) == Some((ahead[..size], ahead[size..] + more))
  {
    assert (ahead + more)[..size] == ahead[..size];
    assert (ahead + more)[size..] == ahead[size..] + more;
  }

  lemma FieldStable(ahead: seq<byte>, more: seq<byte>)
    requires ReadField(ahead).Some?
    ensures ReadField(ahead + more) == Some((ReadField(ahead).value.0, ReadField(ahead).value.1 + more))
  {
    VarintStable(ahead, more, 0);
    var (tag, rest) := ReadVarint(ahead, 0).value;
    match tag % 8
    case 0 => VarintStable(rest, more, 0);
    case 1 => TakeStable(rest, more, 8);
    case 2 =>
      VarintStable(rest, more, 0);
      var (size, body) := ReadVarint(rest, 0).value;
      TakeStable(body, more, size);
    case _ => TakeStable(rest, more, 4);
  }

  lemma FieldsStep(ahead: seq<byte>)
    requires ahead != [] && ReadFields(ahead).Some?
    ensures ReadField(ahead).Some? && ReadFields(ReadField(ahead).value.1).Some?
    ensures ReadFields(ahead).value == [ReadField(ahead).value.0] + ReadFields(ReadField(ahead).value.1).value
  {
  }

  /** Concatenated messages read as their fields in sequence. */
  lemma {:induction false} FieldsConcatenate(a: seq<byte>, b: seq<byte>)
    requires ReadFields(a).Some? && ReadFields(b).Some?
    ensures ReadFields(a + b) == Some(ReadFields(a).value + ReadFields(b).value)
    decreases |a|
  {
    if a == [] {
      assert a + b == b;
      assert ReadFields(a).value + ReadFields(b).value == ReadFields(b).value;
    } else {
      FieldsStep(a);
      FieldStable(a, b);
      var (field, rest) := ReadField(a).value;
      FieldsConcatenate(rest, b);
      FieldsJoin(a + b, field, rest + b, ReadFields(rest).value, ReadFields(b).value);
    }
  }

  lemma FieldsJoin(ahead: seq<byte>, field: Field, rest: seq<byte>, first: seq<Field>, second: seq<Field>)
    requires ReadField(ahead) == Some((field, rest)) && ReadFields(rest) == Some(first + second)
    ensures ReadFields(ahead) == Some([field] + first + second)
  {
    FieldsCons(ahead, field, rest);
    assert [field] + (first + second) == [field] + first + second;
  }

  // ----- The index loops of src/errors.ts -----

  /** The outcome of reading at `start`, with an absolute offset in place of the bytes ahead. */
  ghost function AtOffset<T>(bytes: seq<byte>, read: Option<(T, seq<byte>)>): Option<(T, nat)>
    requires read.Some? ==> |read.value.1| <= |bytes|
  {
    match read
    case None => None
    case Some(r) => Some((r.0, |bytes| - |r.1|))
  }

  /** n << k. */
  function ShiftLeft(n: nat, k: nat): nat {
    if k == 0 then n else 2 * ShiftLeft(n, k - 1)
  }

  lemma {:induction false} ShiftAdds(a: nat, b: nat, k: nat)
    ensures ShiftLeft(a + b, k) == ShiftLeft(a, k) + ShiftLeft(b, k)
  {
    if k > 0 {
      ShiftAdds(a, b, k - 1);
    }
  }

  lemma {:induction false} ShiftTwice(n: nat, j: nat, k: nat)
    ensures ShiftLeft(ShiftLeft(n, j), k) == ShiftLeft(n, j + k)
  {
    if k > 0 {
      ShiftTwice(n, j, k - 1);
    }
  }

  lemma SevenBits(n: nat)
    ensures ShiftLeft(n, 7) == 0x80 * n
  {
    assert ShiftLeft(n, 1) == 2 * ShiftLeft(n, 0);
    assert ShiftLeft(n, 2) == 2 * ShiftLeft(n, 1);
    assert ShiftLeft(n, 3) == 2 * ShiftLeft(n, 2);
    assert ShiftLeft(n, 4) == 2 * ShiftLeft(n, 3);
    assert ShiftLeft(n, 5) == 2 * ShiftLeft(n, 4);
    assert ShiftLeft(n, 6) == 2 * ShiftLeft(n, 5);
  }

  /** Seven more bits of a number, the low ones first. */
  lemma ShiftSplit(low: nat, high: nat, k: nat)
    ensures ShiftLeft(low + 0x80 * high, k) == ShiftLeft(low, k) + ShiftLeft(high, k + 7)
  {
    ShiftAdds(low, 0x80 * high, k);
    SevenBits(high);
    ShiftTwice(high, 7, k);
  }

  /** A varint of which the low `shift` bits are already in `value`. */
  ghost function Resumed(value: nat, shift: nat, read: Option<(nat, seq<byte>)>): Option<(nat, seq<byte>)> {
    match read
    case None => None
    case Some(high) => Some((value + ShiftLeft(high.0, shift), high.1))
  }

  lemma VarintStep(ahead: seq<byte>, used: nat, value: nat, shift: nat)
    requires ahead != [] && used < MAX_VARINT_BYTES
    ensures Resumed(value, shift, ReadVarint(ahead, used)) ==
            if ahead[0] < 0x80 then Some((value + ShiftLeft(ahead[0], shift), ahead[1..]))
            else Resumed(value + ShiftLeft(ahead[0] - 0x80, shift), shift + 7, ReadVarint(ahead[1..], used + 1))
  {
    if ahead[0] >= 0x80 && ReadVarint(ahead[1..], used + 1).Some? {
      ShiftSplit(ahead[0] - 0x80, ReadVarint(ahead[1..], used + 1).value.0, shift);
    }
  }

  /** A varint ends inside the buffer, one to ten bytes after its start. */
  lemma {:induction false} VarintInBounds(bytes: seq<byte>, start: nat, used: nat)
    requires start <= |bytes| && used <= MAX_VARINT_BYTES && ReadVarint(bytes[start..], used).Some?
    ensures var end := |bytes| - |ReadVarint(bytes[start..], used).value.1|;
            start < end <= |bytes| && end <= start + MAX_VARINT_BYTES - used
            && bytes[end..] == ReadVarint(bytes[start..], used).value.1
    decreases |bytes| - start
  {
    assert bytes[start..][1..] == bytes[start + 1..];
    if bytes[start] >= 0x80 {
      VarintInBounds(bytes, start + 1, used + 1);
    }
  }

  /** The loop of readVarint from `offset` on, with `value` so far. */
  ghost function VarintLoop(bytes: seq<byte>, offset: nat, used: nat, value: nat): Option<(nat, nat)>
    decreases |bytes| - offset
  {
    if offset >= |bytes| || used >= MAX_VARINT_BYTES then None
    else if bytes[offset] < 0x80 then Some((value + ShiftLeft(bytes[offset], 7 * used), offset + 1))
    else VarintLoop(bytes, offset + 1, used + 1, value + ShiftLeft(bytes[offset] - 0x80, 7 * used))
  }

  /** What is left of a read from `offset` on. */
  ghost function ReadOn(bytes: seq<byte>, offset: nat, used: nat, value: nat): Option<(nat, nat)>
    requires offset <= |bytes|
  {
    AtOffset(bytes, Resumed(value, 7 * used, ReadVarint(bytes[offset..], used)))
  }

  lemma ReadOnStep(bytes: seq<byte>, offset: nat, used: nat, value: nat)
    requires offset < |bytes| && used < MAX_VARINT_BYTES
    ensures ReadOn(bytes, offset, used, value) ==
            if bytes[offset] < 0x80 then Some((value + ShiftLeft(bytes[offset], 7 * used), offset + 1))
            else ReadOn(bytes, offset + 1, used + 1, value + ShiftLeft(bytes[offset] - 0x80, 7 * used))
  {
    VarintStep(bytes[offset..], used, value, 7 * used);
    assert bytes[offset..][1..] == bytes[offset + 1..];
  }

  lemma {:induction false} VarintLoopReads(bytes: seq<byte>, offset: nat, used: nat, value: nat)
    requires offset <= |bytes|
    ensures VarintLoop(bytes, offset, used, value) == ReadOn(bytes, offset, used, value)
    decreases |bytes| - offset
  {
    if offset < |bytes| && used < MAX_VARINT_BYTES {
      ReadOnStep(bytes, offset, used, value);
      if bytes[offset] >= 0x80 {
        VarintLoopReads(bytes, offset + 1, used + 1, value + ShiftLeft(bytes[offset] - 0x80, 7 * used));
      }
    } else {
      assert ReadVarint(bytes[offset..], used) == None;
    }
  }

  lemma VarintLoopStarts(bytes: seq<byte>, start: nat)
    requires start <= |bytes|
    ensures VarintLoop(bytes, start, 0, 0) == AtOffset(bytes, ReadVarint(bytes[start..], 0))
  {
    VarintLoopReads(bytes, start, 0, 0);
  }

  lemma {:induction false} ShiftGrows(a: nat, b: nat, k: nat)
    requires a <= b
    ensures ShiftLeft(a, k) <= ShiftLeft(b, k)
  {
    if k > 0 {
      ShiftGrows(a, b, k - 1);
    }
  }

  /** The bits or-ed in never overlap those below, so or-ing is adding. */
  lemma BitsBelow(value: nat, low: nat, shift: nat)
    requires value < ShiftLeft(1, shift) && low < 0x80
    ensures value + ShiftLeft(low, shift) < ShiftLeft(1, shift + 7)
  {
    ShiftGrows(low, 0x7F, shift);
    ShiftAdds(0x7F, 1, shift);
    ShiftSplit(0, 1, shift);
    ShiftAdds(0, 0, shift);
  }

  /** Shift-and-or over at most ten bytes. */
  method ReadVarintAt(bytes: seq<byte>, start: nat) returns (r: Option<(nat, nat)>)
    requires start <= |bytes|
    ensures r == AtOffset(bytes, ReadVarint(bytes[start..], 0))
  {
    VarintLoopStarts(bytes, start);
    r := OrBytes(bytes, start);
  }

  method OrBytes(bytes: seq<byte>, start: nat) returns (r: Option<(nat, nat)>)
    requires start <= |bytes|
    ensures r == VarintLoop(bytes, start, 0, 0)
  {
    var value: nat, shift: nat, offset := 0, 0, start;
    ghost var used: nat := 0;
    while offset < |bytes| && shift <= 63
      invariant start <= offset <= |bytes| && shift == 7 * used && used <= MAX_VARINT_BYTES
      invariant value < ShiftLeft(1, shift)
      invariant VarintLoop(bytes, start, 0, 0) == VarintLoop(bytes, offset, used, value)
      decreases |bytes| - offset
    {
      var octet := bytes[offset];
      var low: nat := if octet < 0x80 then octet else octet - 0x80;  // octet & 0x7f
      BitsBelow(value, low, shift);
      value, offset := value + ShiftLeft(low, shift), offset + 1;
      if octet < 0x80 {
        return Some((value, offset));
      }
      shift, used := shift + 7, used + 1;
    }
    return None;
  }

  method ReadLengthDelimitedAt(bytes: seq<byte>, start: nat) returns (r: Option<(seq<byte>, nat)>)
    requires start <= |bytes|
    ensures r == AtOffset(bytes, ReadDelimited(bytes[start..]))
    ensures r.Some? ==> start < r.value.1 <= |bytes| && bytes[r.value.1..] == ReadDelimited(bytes[start..]).value.1
  {
    var length := ReadVarintAt(bytes, start);
    if length.None? {
      return None;
    }
    VarintInBounds(bytes, start, 0);
    var (size, offset) := length.value;
    var end := offset + size;
    if size > MAX_SAFE_INTEGER || end > |bytes| {
      return None;
    }
    assert bytes[offset..][..size] == bytes[offset..end] && bytes[offset..][size..] == bytes[end..];
    return Some((bytes[offset..end], end));
  }

  method SkipFieldAt(bytes: seq<byte>, offset: nat, wireType: nat) returns (r: Option<nat>)
    requires offset <= |bytes|
    ensures r.Some? == ReadValue(wireType, bytes[offset..]).Some?
    ensures r.Some? ==> offset <= r.value <= |bytes|
                        && bytes[r.value..] == ReadValue(wireType, bytes[offset..]).value.1
  {
    match wireType
    case 0 =>
      var varint := ReadVarintAt(bytes, offset);
      if varint.Some? {
        VarintInBounds(bytes, offset, 0);
      }
      r := if varint.None? then None else Some(varint.value.1);
    case 1 =>
      r := if offset + 8 > |bytes| then None else Some(offset + 8);
    case 2 =>
      var body := ReadLengthDelimitedAt(bytes, offset);
      r := if body.None? then None else Some(body.value.1);
    case 5 =>
      r := if offset + 4 > |bytes| then None else Some(offset + 4);
    case _ =>
      r := None;
  }

  lemma FieldByTag(ahead: seq<byte>, tag: nat, afterTag: seq<byte>)
    requires ReadVarint(ahead, 0) == Some((tag, afterTag))
    ensures tag % 8 == 2 ==>
              ReadField(ahead) == match ReadDelimited(afterTag)
                                  case None => None
                                  case Some(r) => Some((Field(tag / 8, Delimited(r.0)), r.1))
    ensures ReadField(ahead).Some? == ReadValue(tag % 8, afterTag).Some?
    ensures tag % 8 != 2 && ReadField(ahead).Some? ==>
              var (field, rest) := ReadField(ahead).value;
              field.number == tag / 8 && !field.value.Delimited? && rest == ReadValue(tag % 8, afterTag).value.1
  {
  }

  lemma FieldNeedsTag(ahead: seq<byte>)
    requires ReadVarint(ahead, 0).None?
    ensures ReadField(ahead).None?
  {
  }

  /**
    The lines both decoding loops begin with: read a tag, then skip the field or read its
    bytes. `None` in second place stands for a skipped field.
   */
  method ReadFieldAt(bytes: seq<byte>, offset: nat) returns (r: Option<(nat, Option<seq<byte>>, nat)>)
    requires offset <= |bytes|
    ensures r.Some? == ReadField(bytes[offset..]).Some?
    ensures r.Some? ==>
      var (field, rest) := ReadField(bytes[offset..]).value;
      && offset < r.value.2 <= |bytes|
      && bytes[r.value.2..] == rest
      && field.number == r.value.0
      && r.value.1 == if field.value.Delimited? then Some(field.value.octets) else None
  {
    var tag := ReadVarintAt(bytes, offset);
    if tag.None? {
      FieldNeedsTag(bytes[offset..]);
      return None;
    }
    VarintInBounds(bytes, offset, 0);
    FieldByTag(bytes[offset..], tag.value.0, bytes[tag.value.1..]);
    var fieldNumber, wireType := tag.value.0 / 8, tag.value.0 % 8;
    if wireType != 2 {
      var skipped := SkipFieldAt(bytes, tag.value.1, wireType);
      if skipped.None? {
        return None;
      }
      return Some((fieldNumber, None, skipped.value));
    }
    var field := ReadLengthDelimitedAt(bytes, tag.value.1);
    if field.None? {
      return None;
    }
    return Some((fieldNumber, Some(field.value.0), field.value.1));
  }
}
