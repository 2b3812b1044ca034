/** Shared vocabulary: optional values and JavaScript strings. */
module Common {

  datatype Option<+T> = None | Some(value: T) {
    predicate IsFailure() {
      None?
    }

    function PropagateFailure<U>(): Option<U>
      requires None?
    {
      None
    }

    function Extract(): T
      requires Some?
    {
      value
    }

    function GetOr(default: T): T {
      if Some? then value else default
    }
  }

  /** One UTF-16 code unit; a JavaScript string is a sequence of them. */
  type Unit = n: int | 0 <= n < 0x1_0000

  type Text = seq<Unit>

  /** The units of a text below U+10000. */
  function Units(text: string): Text {
    seq(|text|, i requires 0 <= i < |text| => text[i] as int % 0x1_0000)
  }

  type byte = n: int | 0 <= n < 0x100

  predicate IsDigit(u: Unit) {
    0x30 <= u <= 0x39
  }

  predicate Distinct(texts: seq<Text>) {
    forall i, j :: 0 <= i < j < |texts| ==> texts[i] != texts[j]
  }

  ghost function Elements(texts: seq<Text>): set<Text> {
    set t | t in texts
  }

  /** Adding a new text at the end. */
  lemma DistinctSnoc(texts: seq<Text>, text: Text)
    requires Distinct(texts) && text !in Elements(texts)
    ensures Distinct(texts + [text])
    ensures Elements(texts + [text]) == Elements(texts) + {text}
  {
    assert forall i :: 0 <= i < |texts| ==> texts[i] in Elements(texts);
  }

  /** `__proto__`: assigning to it sets a JavaScript object's prototype and makes no property. */
  const PROTO: Text := [0x5F, 0x5F, 0x70, 0x72, 0x6F, 0x74, 0x6F, 0x5F, 0x5F]

  lemma ProtoText()
    ensures PROTO == Units("__proto__")
  {
  }

  function JoinWith(parts: seq<Text>, separator: Unit): Text {
    if parts == [] then []
    else if |parts| == 1 then parts[0]
    else parts[0] + [separator] + JoinWith(parts[1..], separator)
  }
}
