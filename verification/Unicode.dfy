/** The well-formedness scan that guards idempotency keys (src/payload.ts). */
module Unicode {
  import opened Common

  predicate IsHigh(u: int) {
    0xD800 <= u <= 0xDBFF
  }

  predicate IsLow(u: int) {
    0xDC00 <= u <= 0xDFFF
  }

  /** A Unicode scalar value: any code point that is not a surrogate. */
  type Scalar = n: int | 0 <= n < 0xD800 || 0xE000 <= n <= 0x10FFFF

  /** UTF-16 encoding form of one scalar (section 3.9 of The Unicode Standard). */
  function EncodeScalar(s: Scalar): Text {
    if s < 0x1_0000 then [s]
    else [0xD800 + (s - 0x1_0000) / 0x400, 0xDC00 + (s - 0x1_0000) % 0x400]
  }

  function Encode(scalars: seq<Scalar>): Text {
    if scalars == [] then [] else EncodeScalar(scalars[0]) + Encode(scalars[1..])
  }

  /** What the scan decides, one code point at a time. */
  predicate WellFormed(value: Text) {
    if value == [] then true
    else if IsHigh(value[0]) then |value| > 1 && IsLow(value[1]) && WellFormed(value[2..])
    else !IsLow(value[0]) && WellFormed(value[1..])
  }

  function DecodePair(high: Unit, low: Unit): (s: Scalar)
    requires IsHigh(high) && IsLow(low)
    ensures EncodeScalar(s) == [high, low]
  {
    0x1_0000 + (high - 0xD800) * 0x400 + (low - 0xDC00)
  }

  lemma {:induction false} EncodedIsWellFormed(scalars: seq<Scalar>)
    ensures WellFormed(Encode(scalars))
  {
    if scalars != [] {
      EncodedIsWellFormed(scalars[1..]);
      var head, tail := EncodeScalar(scalars[0]), Encode(scalars[1..]);
      assert (head + tail)[|head|..] == tail;
    }
  }

  lemma {:induction false} Decode(value: Text) returns (scalars: seq<Scalar>)
    requires WellFormed(value)
    ensures Encode(scalars) == value
  {
    if value == [] {
      scalars := [];
    } else if IsHigh(value[0]) {
      var rest := Decode(value[2..]);
      scalars := [DecodePair(value[0], value[1])] + rest;
      assert value == value[..2] + value[2..];
    } else {
      var rest := Decode(value[1..]);
      scalars := [value[0] as Scalar] + rest;
    }
  }

  /** Distinct scalar sequences never share an encoding, so a key names one string. */
  lemma {:induction false} EncodeInjective(a: seq<Scalar>, b: seq<Scalar>)
    requires Encode(a) == Encode(b)
    ensures a == b
  {
    if a == [] || b == [] {
      assert a == b;
    } else {
      var ea, eb := EncodeScalar(a[0]), EncodeScalar(b[0]);
      var ta, tb := Encode(a[1..]), Encode(b[1..]);
      assert Encode(a) == ea + ta && Encode(b) == eb + tb;
      assert (ea + ta)[0] == (eb + tb)[0];
      assert |ea| == |eb|;
      assert ea == (ea + ta)[..|ea|] && eb == (eb + tb)[..|eb|];
      assert ta == (ea + ta)[|ea|..] && tb == (eb + tb)[|eb|..];
      EncodeInjective(a[1..], b[1..]);
      assert a[0] == b[0] by {
        assert |ea| == 2 ==> ea[0] == eb[0] && ea[1] == eb[1];
      }
      assert a == [a[0]] + a[1..] && b == [b[0]] + b[1..];
    }
  }

  /** The scan: a high surrogate must be followed by a low one, which is skipped. */
  method HasValidUnicodeScalars(value: Text) returns (valid: bool)
    ensures valid == WellFormed(value)
    ensures valid <==> exists scalars: seq<Scalar> :: Encode(scalars) == value
  {
    var index := 0;
    valid := true;
    while index < |value| && valid
      invariant 0 <= index <= |value|
      invariant valid ==> (WellFormed(value) <==> WellFormed(value[index..]))
      invariant !valid ==> !WellFormed(value)
      decreases |value| - index, valid
    {
      var unit := value[index];
      ghost var suffix := value[index..];
      if IsHigh(unit) {
        if !(index + 1 < |value| && IsLow(value[index + 1])) {
          valid := false;
        } else {
          assert suffix[2..] == value[index + 2..];
          index := index + 2;
        }
      } else if IsLow(unit) {
        valid := false;
      } else {
        assert suffix[1..] == value[index + 1..];
        index := index + 1;
      }
    }
    if WellFormed(value) {
      var scalars := Decode(value);
    } else {
      forall scalars: seq<Scalar> | Encode(scalars) == value ensures false {
        EncodedIsWellFormed(scalars);
      }
    }
  }

  /** Bytes TextEncoder produces: a lone surrogate becomes U+FFFD, three bytes. */
  function Utf8Length(value: Text): nat {
    if value == [] then 0
    else if IsHigh(value[0]) && |value| > 1 && IsLow(value[1]) then 4 + Utf8Length(value[2..])
    else (if value[0] < 0x80 then 1 else if value[0] < 0x800 then 2 else 3) + Utf8Length(value[1..])
  }

  /** UTF-8 encoding form of one scalar (section 3 of RFC 3629): the leading byte, then six bits a byte. */
  function Utf8Scalar(s: Scalar): seq<byte> {
    if s < 0x80 then [s]
    else if s < 0x800 then [0xC0 + s / 0x40, 0x80 + s % 0x40]
    else if s < 0x1_0000 then [0xE0 + s / 0x1000, 0x80 + s / 0x40 % 0x40, 0x80 + s % 0x40]
    else [0xF0 + s / 0x4_0000, 0x80 + s / 0x1000 % 0x40, 0x80 + s / 0x40 % 0x40, 0x80 + s % 0x40]
  }

  predicate IsTail(b: int) {
    0x80 <= b <= 0xBF
  }

  /** The leading byte tells the length, the others are tails, and their bits spell the scalar. */
  lemma Utf8Spells(s: Scalar)
    ensures var b: seq<int> := Utf8Scalar(s);
            match |b|
            case 1 => b[0] <= 0x7F && s == b[0]
            case 2 => 0xC2 <= b[0] <= 0xDF && IsTail(b[1]) && s == (b[0] - 0xC0) * 0x40 + (b[1] - 0x80)
            case 3 =>
              0xE0 <= b[0] <= 0xEF && IsTail(b[1]) && IsTail(b[2])
              && s == ((b[0] - 0xE0) * 0x40 + (b[1] - 0x80)) * 0x40 + (b[2] - 0x80)
            case 4 =>
              0xF0 <= b[0] <= 0xF4 && IsTail(b[1]) && IsTail(b[2]) && IsTail(b[3])
              && s == (((b[0] - 0xF0) * 0x40 + (b[1] - 0x80)) * 0x40 + (b[2] - 0x80)) * 0x40 + (b[3] - 0x80)
            case _ => false
  {
    assert s / 0x1000 == s / 0x40 / 0x40 && s / 0x4_0000 == s / 0x1000 / 0x40;
  }

  function Utf8(scalars: seq<Scalar>): seq<byte> {
    if scalars == [] then [] else Utf8Scalar(scalars[0]) + Utf8(scalars[1..])
  }

  const REPLACEMENT: Scalar := 0xFFFD

  /** A text stands for these scalars when a surrogate without its other half counts as U+FFFD. */
  ghost predicate StandsFor(value: Text, scalars: seq<Scalar>)
    decreases |value|
  {
    if value == [] then scalars == []
    else if scalars == [] then false
    else if |value| > 1 && EncodeScalar(scalars[0]) == value[..2] then StandsFor(value[2..], scalars[1..])
    else
      && (if IsHigh(value[0]) then scalars[0] == REPLACEMENT && !(|value| > 1 && IsLow(value[1]))
          else if IsLow(value[0]) then scalars[0] == REPLACEMENT
          else EncodeScalar(scalars[0]) == [value[0]])
      && StandsFor(value[1..], scalars[1..])
  }

  /** The length is that of the UTF-8 bytes of the scalars the text stands for. */
  lemma {:induction false} Utf8LengthIsExact(value: Text) returns (scalars: seq<Scalar>)
    ensures StandsFor(value, scalars) && Utf8Length(value) == |Utf8(scalars)|
    ensures WellFormed(value) ==> Encode(scalars) == value
  {
    if value == [] {
      scalars := [];
    } else if IsHigh(value[0]) && |value| > 1 && IsLow(value[1]) {
      var s := DecodePair(value[0], value[1]);
      var rest := Utf8LengthIsExact(value[2..]);
      scalars := [s] + rest;
      assert value[..2] == [value[0], value[1]] && value == value[..2] + value[2..];
    } else {
      var s: Scalar := if IsHigh(value[0]) || IsLow(value[0]) then REPLACEMENT else value[0];
      var rest := Utf8LengthIsExact(value[1..]);
      scalars := [s] + rest;
      assert |EncodeScalar(s)| == 1 && |Utf8Scalar(s)| == if value[0] < 0x80 then 1 else if value[0] < 0x800 then 2 else 3;
    }
  }

  const MAX_IDEMPOTENCY_KEY_BYTES := 512

  /** Keys the publish preflight lets through. */
  predicate IsIdempotencyKey(key: Text) {
    key != [] && WellFormed(key) && Utf8Length(key) <= MAX_IDEMPOTENCY_KEY_BYTES
  }

  /** A key passes exactly when it writes one to 512 bytes' worth of scalars. */
  lemma KeyLegalIff(key: Text)
    ensures IsIdempotencyKey(key) <==>
            exists scalars: seq<Scalar> :: Encode(scalars) == key && 1 <= |Utf8(scalars)| <= 512
  {
    var scalars := Utf8LengthIsExact(key);
    if IsIdempotencyKey(key) {
      assert scalars != [];
      assert |Utf8Scalar(scalars[0])| >= 1;
      assert Encode(scalars) == key && 1 <= |Utf8(scalars)| <= 512;
    }
    forall other: seq<Scalar> | Encode(other) == key && 1 <= |Utf8(other)| <= 512 ensures IsIdempotencyKey(key) {
      EncodedIsWellFormed(other);
      EncodeInjective(scalars, other);
      assert other != [];
      assert |EncodeScalar(other[0])| >= 1;
    }
  }
}
