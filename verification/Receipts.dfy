/** The publish acknowledgement validators of the three SDKs and the labels they report. */
module Receipts {
  import opened Common

  /** One receipt; an absent event id reads as 0, protobuf's default. */
  datatype Receipt = Receipt(key: Text, eventId: int, duplicate: bool)

  const UINT32: nat := 0x1_0000_0000

  /** A decoded acknowledgement; the counts are uint32 fields. */
  datatype Acknowledgement = Acknowledgement(events: seq<Receipt>, acceptedCount: nat, duplicateCount: nat) {
    predicate WellTyped() {
      acceptedCount < UINT32 && duplicateCount < UINT32
    }
  }

  datatype Label = Accepted | Duplicate | Mixed

  /** What each SDK hands to the caller. */
  datatype Summary = Summary(events: seq<Receipt>, acceptedCount: nat, duplicateCount: nat, allDuplicate: bool, result: Label)

  const MAX_BATCH := 1000

  function Duplicates(events: seq<Receipt>): (n: nat)
    ensures n <= |events|
  {
    if events == [] then 0 else (if events[0].duplicate then 1 else 0) + Duplicates(events[1..])
  }

  /** Receipt i answers key i with a positive id, and the counts are those of the flags. */
  predicate Answers(body: Acknowledgement, keys: seq<Text>) {
    && |body.events| == |keys|
    && (forall i :: 0 <= i < |keys| ==> body.events[i].key == keys[i] && body.events[i].eventId > 0)
    && body.duplicateCount == Duplicates(body.events)
    && body.acceptedCount == |keys| - Duplicates(body.events)
  }

  // ----- TypeScript: batchResponse -----

  function NotDuplicate(events: seq<Receipt>): seq<Receipt> {
    if events == [] then []
    else if events[0].duplicate then NotDuplicate(events[1..])
    else [events[0]] + NotDuplicate(events[1..])
  }

  function TsBatchResponse(body: Acknowledgement, keys: seq<Text>): Option<Summary> {
    if |body.events| != |keys| then None
    else if exists i :: 0 <= i < |keys| && (body.events[i].key != keys[i] || body.events[i].eventId <= 0) then None
    else
      var accepted := |NotDuplicate(body.events)|;
      var duplicate: int := |body.events| - accepted;
      if body.acceptedCount != accepted || body.duplicateCount != duplicate then None
      else
        var result := if accepted > 0 && duplicate > 0 then Mixed else if duplicate > 0 then Duplicate else Accepted;
        Some(Summary(body.events, body.acceptedCount, body.duplicateCount, accepted == 0, result))
  }

  // ----- Go: validate*PublishAcknowledgement and publishResultString -----

  /** The tally loop; its counters are uint32. */
  method GoValidate(body: Acknowledgement, expectedKeys: seq<Text>) returns (valid: bool)
    requires body.WellTyped() && |expectedKeys| < UINT32
    ensures valid <==> Answers(body, expectedKeys)
  {
    if body.acceptedCount + body.duplicateCount != |expectedKeys| || |body.events| != |expectedKeys| {
      return false;
    }
    var accepted: nat, duplicate: nat := 0, 0;
    assert body.events[0..] == body.events;
    for index := 0 to |body.events|
      invariant forall i :: 0 <= i < index ==> body.events[i].key == expectedKeys[i] && body.events[i].eventId > 0
      invariant accepted + duplicate == index
      invariant duplicate + Duplicates(body.events[index..]) == Duplicates(body.events)
    {
      var event := body.events[index];
      assert body.events[index..][1..] == body.events[index + 1..];
      if event.eventId <= 0 {
        return false;
      }
      if event.key != expectedKeys[index] {
        return false;
      }
      assert accepted + 1 < UINT32 && duplicate + 1 < UINT32;
      if event.duplicate {
        duplicate := (duplicate + 1) % UINT32;
      } else {
        accepted := (accepted + 1) % UINT32;
      }
    }
    return accepted == body.acceptedCount && duplicate == body.duplicateCount;
  }

  function GoSummary(body: Acknowledgement, keys: seq<Text>): Summary {
    var result := if body.acceptedCount > 0 && body.duplicateCount > 0 then Mixed
                 else if body.duplicateCount > 0 then Duplicate
                 else Accepted;
    Summary(body.events, body.acceptedCount, body.duplicateCount, body.duplicateCount == |keys|, result)
  }

  // ----- Python: _validate_publish_response -----

  function Keys(events: seq<Receipt>): seq<Text> {
    seq(|events|, i requires 0 <= i < |events| => events[i].key)
  }

  predicate PyAccepts(body: Acknowledgement, keys: seq<Text>) {
    !(Keys(body.events) != keys
      || (exists e :: e in body.events && e.eventId <= 0)
      || Duplicates(body.events) != body.duplicateCount
      || body.acceptedCount + body.duplicateCount != |keys|)
  }

  function PySummary(body: Acknowledgement): Summary {
    var duplicate := |body.events| == body.duplicateCount;
    var result := if duplicate then Duplicate else if body.duplicateCount > 0 then Mixed else Accepted;
    Summary(body.events, body.acceptedCount, body.duplicateCount, duplicate, result)
  }

  // ----- They accept the same acknowledgements and say the same about them -----

  lemma {:induction false} AcceptedPlusDuplicate(events: seq<Receipt>)
    ensures |NotDuplicate(events)| + Duplicates(events) == |events|
  {
    if events != [] {
      AcceptedPlusDuplicate(events[1..]);
    }
  }

  lemma ValidatorsAgree(body: Acknowledgement, keys: seq<Text>)
    ensures TsBatchResponse(body, keys).Some? <==> Answers(body, keys)
    ensures PyAccepts(body, keys) <==> Answers(body, keys)
  {
    AcceptedPlusDuplicate(body.events);
    if PyAccepts(body, keys) {
      assert |Keys(body.events)| == |body.events|;
      forall i | 0 <= i < |keys| ensures body.events[i].key == keys[i] && body.events[i].eventId > 0 {
        assert Keys(body.events)[i] == keys[i] && body.events[i] in body.events;
      }
    }
    if Answers(body, keys) {
      assert Keys(body.events) == keys;
    }
  }

  /** The label a count of new and of duplicate events calls for. */
  function LabelFor(accepted: nat, duplicates: nat): Label {
    if duplicates == 0 then Accepted else if accepted == 0 then Duplicate else Mixed
  }

  lemma SummariesAgree(body: Acknowledgement, keys: seq<Text>)
    requires Answers(body, keys) && keys != []
    ensures TsBatchResponse(body, keys) == Some(GoSummary(body, keys))
    ensures PySummary(body) == GoSummary(body, keys)
    ensures body.acceptedCount + body.duplicateCount == |keys|
    ensures GoSummary(body, keys).result == LabelFor(|NotDuplicate(body.events)|, Duplicates(body.events))
    ensures GoSummary(body, keys).events == body.events
    ensures GoSummary(body, keys).allDuplicate <==> forall i :: 0 <= i < |keys| ==> body.events[i].duplicate
    ensures GoSummary(body, keys).result.Duplicate? <==> forall i :: 0 <= i < |keys| ==> body.events[i].duplicate
    ensures GoSummary(body, keys).result.Accepted? <==> forall i :: 0 <= i < |keys| ==> !body.events[i].duplicate
  {
    AcceptedPlusDuplicate(body.events);
    DuplicatesBounds(body.events);
  }

  lemma {:induction false} DuplicatesBounds(events: seq<Receipt>)
    ensures Duplicates(events) == |events| <==> forall i :: 0 <= i < |events| ==> events[i].duplicate
    ensures Duplicates(events) == 0 <==> forall i :: 0 <= i < |events| ==> !events[i].duplicate
  {
    if events != [] {
      DuplicatesBounds(events[1..]);
      assert forall i :: 1 <= i < |events| ==> events[i] == events[1..][i - 1];
    }
  }
}
