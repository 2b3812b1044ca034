/**
  A whole publish call: batch preflight, the retry machine, and receipt validation, against
  a server that keeps one durable record per idempotency key. The server may lose requests
  and replies, receive a request at any later moment, during a later attempt or after the call
  is over, store any part of a batch, answer with any receipts for records it has, and fail in
  any way between.
 */
module Publish {
  import opened Common
  import opened Backoff
  import opened Retry
  import opened RetryRuns
  import opened Receipts
  import Unicode

  // ----- Preflight -----

  datatype PreflightError = InvalidBatchSize | InvalidKey | RepeatedKey

  predicate FaultAt(keys: seq<Text>, i: nat)
    requires i < |keys|
  {
    !Unicode.IsIdempotencyKey(keys[i]) || keys[i] in keys[..i]
  }

  /** The first event at fault decides the error. */
  predicate FirstFault(keys: seq<Text>, i: nat)
    requires i < |keys|
  {
    FaultAt(keys, i) && forall j :: 0 <= j < i ==> !FaultAt(keys, j)
  }

  /** What the publish preflight asks of the keys of a batch. */
  predicate Publishable(keys: seq<Text>) {
    1 <= |keys| <= MAX_BATCH && Distinct(keys) && forall k :: k in keys ==> Unicode.IsIdempotencyKey(k)
  }

  /** The publish checks loop, adding each key to a set. */
  method Preflight(keys: seq<Text>) returns (error: Option<PreflightError>)
    ensures error.None? <==> Publishable(keys)
    ensures error == Some(InvalidBatchSize) <==> !(1 <= |keys| <= 1_000)
    ensures error.Some? && error.value != InvalidBatchSize ==>
              exists i :: 0 <= i < |keys| && FirstFault(keys, i)
                          && error.value == if Unicode.IsIdempotencyKey(keys[i]) then RepeatedKey else InvalidKey
  {
    if |keys| < 1 || |keys| > MAX_BATCH {
      return Some(InvalidBatchSize);
    }
    var seen: set<Text> := {};
    for index := 0 to |keys|
      invariant Distinct(keys[..index]) && seen == Elements(keys[..index])
      invariant forall i :: 0 <= i < index ==> !FaultAt(keys, i)
    {
      var key := keys[index];
      if !Unicode.IsIdempotencyKey(key) {
        assert key in keys && FirstFault(keys, index);
        return Some(InvalidKey);
      }
      if key in seen {
        assert FirstFault(keys, index);
        RepeatedAt(keys, index);
        return Some(RepeatedKey);
      }
      DistinctSnoc(keys[..index], key);
      seen := seen + {key};
      assert keys[..index + 1] == keys[..index] + [key];
    }
    assert keys[..|keys|] == keys;
    assert forall i :: 0 <= i < |keys| ==> !FaultAt(keys, i) && Unicode.IsIdempotencyKey(keys[i]);
    return None;
  }

  lemma RepeatedAt(keys: seq<Text>, index: nat)
    requires index < |keys| && keys[index] in keys[..index]
    ensures !Distinct(keys)
  {
    var i :| 0 <= i < index && keys[..index][i] == keys[index];
    assert keys[i] == keys[index];
  }

  // ----- The server -----

  /** An event as submitted: its idempotency key and everything else it says. */
  datatype Event = Event(key: Text, payload: Text)

  function KeysOf(events: seq<Event>): seq<Text> {
    seq(|events|, i requires 0 <= i < |events| => events[i].key)
  }

  datatype Record = Record(event: Event, id: int)

  /** A receipt in a reply: a record the server has, by its place in the log, or nothing usable. */
  datatype Pick = Stored(index: nat, duplicate: bool) | Unusable

  /** The server gets to event `event` of request number `send` and would store it under `id`. */
  datatype Arrival = Arrival(send: nat, event: nat, id: int)

  /** What arrives, of any request sent so far, before the reply to the latest one. */
  datatype Delivery = Delivery(arrivals: seq<Arrival>, reply: Answer)

  datatype Answer =
    | Fails(outcome: TsReply<Option<Acknowledgement>>)
    | Undecodable
    | Receipts(picks: seq<Pick>, acceptedCount: nat, duplicateCount: nat)

  predicate HasKey(log: seq<Record>, key: Text) {
    exists r :: r in log && r.event.key == key
  }

  /** Store one event under its key, once. */
  function StoreOne(log: seq<Record>, event: Event, id: int): seq<Record> {
    if HasKey(log, event.key) then log else log + [Record(event, id)]
  }

  /** No key of the batch is taken by a different event. */
  predicate Matches(log: seq<Record>, events: seq<Event>) {
    forall i, k :: 0 <= i < |log| && 0 <= k < |events| && log[i].event.key == events[k].key ==> log[i].event == events[k]
  }

  /** The answer to a batch that reuses a key for a different event. */
  const MISMATCH := ApiError(409, Some("already_exists"), Some("IDEMPOTENCY_MISMATCH"), Some(DOMAIN))

  function Arrive(log: seq<Record>, sends: seq<seq<Event>>, a: Arrival): seq<Record> {
    if a.send < |sends| && a.event < |sends[a.send]| then StoreOne(log, sends[a.send][a.event], a.id) else log
  }

  function ArriveAll(log: seq<Record>, sends: seq<seq<Event>>, arrivals: seq<Arrival>): seq<Record>
    decreases |arrivals|
  {
    if arrivals == [] then log else ArriveAll(Arrive(log, sends, arrivals[0]), sends, arrivals[1..])
  }

  /** The log at the reply to the last of these sends. */
  function LogAfter(log: seq<Record>, sends: seq<seq<Event>>, world: seq<Delivery>): seq<Record>
    requires |sends| <= |world|
    decreases |sends|
  {
    if sends == [] then log
    else
      var n := |sends| - 1;
      ArriveAll(LogAfter(log, sends[..n], world), sends, world[n].arrivals)
  }

  function ReceiptOf(log: seq<Record>, p: Pick): Receipt {
    match p
    case Stored(index, duplicate) => if index < |log| then Receipt(log[index].event.key, log[index].id, duplicate) else Receipt([], 0, false)
    case Unusable => Receipt([], 0, false)
  }

  /** What the client meets. `Fails` stands for failures only: successes are Undecodable or Receipts. */
  function ReplyOf(log: seq<Record>, events: seq<Event>, a: Answer): TsReply<Option<Acknowledgement>> {
    match a
    case Fails(outcome) => if outcome.OkReply? then Redirected else outcome
    case Undecodable => OkReply(None)
    case Receipts(picks, accepted, duplicate) =>
      if !Matches(log, events) then ErrorReply(MISMATCH)
      else OkReply(Some(Acknowledgement(seq(|picks|, i requires 0 <= i < |picks| => ReceiptOf(log, picks[i])), accepted, duplicate)))
  }

  /** The caller's side of each attempt. */
  datatype Signal = Signal(abortedBefore: bool, abortedAfter: bool, abortedInWait: bool, expired: bool, pace: TsPace)

  /** Attempt i as the client meets it, every attempt carrying the same batch. */
  function AttemptAt(log: seq<Record>, events: seq<Event>, world: seq<Delivery>, signals: seq<Signal>, i: nat): TsAttempt<Option<Acknowledgement>>
    requires i < |world| == |signals|
  {
    var after := LogAfter(log, Repeat(events, i + 1), world);
    TsAttempt(signals[i].abortedBefore, ReplyOf(after, events, world[i].reply), signals[i].abortedAfter, signals[i].abortedInWait,
               signals[i].expired, signals[i].pace)
  }

  function Attempts(log: seq<Record>, events: seq<Event>, world: seq<Delivery>, signals: seq<Signal>): seq<TsAttempt<Option<Acknowledgement>>>
    requires |world| == |signals|
  {
    seq(|world|, i requires 0 <= i < |world| => AttemptAt(log, events, world, signals, i))
  }

  // ----- One record per key -----

  ghost predicate UniqueKeys(log: seq<Record>) {
    forall i, j :: 0 <= i < j < |log| ==> log[i].event.key != log[j].event.key
  }

  /** b extends a, and every record it adds is one of the events. */
  ghost predicate Grown(a: seq<Record>, b: seq<Record>, events: seq<Event>) {
    a <= b && forall i :: |a| <= i < |b| ==> b[i].event in events
  }

  lemma ArriveKeepsUnique(log: seq<Record>, events: seq<Event>, n: nat, a: Arrival)
    requires UniqueKeys(log)
    ensures UniqueKeys(Arrive(log, Repeat(events, n), a)) && Grown(log, Arrive(log, Repeat(events, n), a), events)
  {
    assert forall i :: 0 <= i < |log| ==> log[i] in log;
    if a.send < n {
      RepeatAt(events, n, a.send);
    }
  }

  lemma {:induction false} ArriveAllKeepsUnique(log: seq<Record>, events: seq<Event>, n: nat, arrivals: seq<Arrival>)
    requires UniqueKeys(log)
    ensures var after := ArriveAll(log, Repeat(events, n), arrivals);
            UniqueKeys(after) && Grown(log, after, events)
    decreases |arrivals|
  {
    if arrivals != [] {
      var next := Arrive(log, Repeat(events, n), arrivals[0]);
      ArriveKeepsUnique(log, events, n, arrivals[0]);
      ArriveAllKeepsUnique(next, events, n, arrivals[1..]);
      GrownTwice(log, next, ArriveAll(log, Repeat(events, n), arrivals), events);
    }
  }

  lemma GrownTwice(a: seq<Record>, b: seq<Record>, c: seq<Record>, events: seq<Event>)
    requires Grown(a, b, events) && Grown(b, c, events)
    ensures Grown(a, c, events)
  {
    forall i | |a| <= i < |c| ensures c[i].event in events {
      if i < |b| {
        assert c[i] == b[i];
      }
    }
  }

  /** Across any number of sends of one batch, no key ever gets a second record. */
  lemma {:induction false} RunKeepsUnique(log: seq<Record>, events: seq<Event>, n: nat, world: seq<Delivery>)
    requires UniqueKeys(log) && n <= |world|
    ensures UniqueKeys(LogAfter(log, Repeat(events, n), world)) && Grown(log, LogAfter(log, Repeat(events, n), world), events)
    decreases n
  {
    if n > 0 {
      RunKeepsUnique(log, events, n - 1, world);
      assert Repeat(events, n)[..n - 1] == Repeat(events, n - 1);
      var before := LogAfter(log, Repeat(events, n - 1), world);
      ArriveAllKeepsUnique(before, events, n, world[n - 1].arrivals);
      GrownTwice(log, before, LogAfter(log, Repeat(events, n), world), events);
    }
  }

  // ----- The call -----

  datatype PublishResult =
    | Receipted(summary: Summary)
    | Refused(preflight: PreflightError)
    | BadReceipts
    | CallFailed(outcome: TsResult<Option<Acknowledgement>>)

  /** Record j of the log is the durable record the receipt names. */
  ghost predicate DurableAt(log: seq<Record>, j: nat, receipt: Receipt) {
    j < |log| && log[j].event.key == receipt.key && log[j].id == receipt.eventId
  }

  ghost predicate Durable(log: seq<Record>, receipt: Receipt) {
    exists j: nat :: DurableAt(log, j, receipt)
  }

  /** The log has the event, and no other record for its key. */
  ghost predicate StoredOnce(log: seq<Record>, event: Event) {
    exists j ::
      && 0 <= j < |log| && log[j].event == event
      && forall i :: 0 <= i < |log| && log[i].event.key == event.key ==> i == j
  }

  /** A reply that decodes gives a receipt exactly when it answers the batch. */
  predicate EndsAs(result: PublishResult, reply: TsReply<Option<Acknowledgement>>, keys: seq<Text>) {
    if reply.OkReply? && reply.body.Some?
    then if Answers(reply.body.value, keys)
         then result.Receipted? && TsBatchResponse(reply.body.value, keys) == Some(result.summary)
         else result.BadReceipts?
    else result.CallFailed?
  }

  /** Receipt i names event i's own durable record, and every event is stored exactly once. */
  ghost predicate Covers(stored: seq<Record>, events: seq<Event>, receipts: seq<Receipt>) {
    && |receipts| == |events|
    && (forall i :: 0 <= i < |events| ==>
          receipts[i].key == events[i].key && receipts[i].eventId > 0
          && StoredOnce(stored, events[i]) && Durable(stored, receipts[i]))
    && (forall i, j, k: nat :: 0 <= i < j < |events| ==> !(DurableAt(stored, k, receipts[i]) && DurableAt(stored, k, receipts[j])))
  }

  /**
    For every interleaving of lost and late requests, lost replies, errors and aborts, once
    everything still under way (`late`) has arrived too: no key is stored twice, nothing but
    this batch is stored, and a returned receipt means that every event is stored exactly once,
    under a key no other event has, and that receipt i names event i's own durable record.
   */
  method PublishBatch(maxAttempts: nat, delay: TsDelays, timeout: real, events: seq<Event>, log: seq<Record>, world: seq<Delivery>,
                      signals: seq<Signal>, late: seq<Arrival>)
    returns (result: PublishResult, stored: seq<Record>, sends: seq<seq<Event>>,
             outcome: TsResult<Option<Acknowledgement>>, legs: seq<Leg<real>>)
    requires 1 <= maxAttempts <= MAX_ATTEMPTS
    requires 0.0 < timeout <= MAX_TIMER_DELAY_MS && |world| == |signals| == maxAttempts
    requires UniqueKeys(log)
    ensures |sends| <= maxAttempts && stored == ArriveAll(LogAfter(log, sends, world), sends, late)
    ensures sends == Repeat(events, |sends|)
    ensures UniqueKeys(stored) && Grown(log, stored, events)
    ensures result.Refused? <==> !Publishable(KeysOf(events))
    ensures result.Refused? ==> sends == [] && stored == log
    ensures sends != [] ==> EndsAs(result, AttemptAt(log, events, world, signals, |sends| - 1).reply, KeysOf(events))
    ensures !result.Refused? ==>
              TsOutcome(delay, timeout, true, Attempts(log, events, world, signals), outcome, |sends|, legs)
    ensures result.CallFailed? ==> result.outcome == if outcome.Returned? then InvalidResponse else outcome
    ensures result.Receipted? ==>
              Covers(stored, events, result.summary.events)
              && result.summary.acceptedCount + result.summary.duplicateCount == |events|
  {
    var refused := Preflight(KeysOf(events));
    if refused.Some? {
      NothingArrives(log, late);
      return Refused(refused.value), log, [], Aborted, [];
    }
    outcome, sends, legs := Send(maxAttempts, delay, timeout, events, log, world, signals);
    stored, result := Deliver(events, log, world, signals, late, outcome, sends);
  }

  /** Once the retry machine is done: everything still under way arrives, and the outcome is judged. */
  method Deliver(events: seq<Event>, log: seq<Record>, world: seq<Delivery>, signals: seq<Signal>, late: seq<Arrival>,
                 outcome: TsResult<Option<Acknowledgement>>, sends: seq<seq<Event>>)
    returns (stored: seq<Record>, result: PublishResult)
    requires Publishable(KeysOf(events)) && UniqueKeys(log)
    requires |sends| <= |world| == |signals| && sends == Repeat(events, |sends|)
    requires outcome.Returned? ==> sends != []
    requires sends != [] ==>
               var reply := AttemptAt(log, events, world, signals, |sends| - 1).reply;
               if reply.OkReply? then outcome == Returned(reply.body) else !outcome.Returned?
    ensures stored == ArriveAll(LogAfter(log, sends, world), sends, late)
    ensures UniqueKeys(stored) && Grown(log, stored, events)
    ensures !result.Refused?
    ensures sends != [] ==> EndsAs(result, AttemptAt(log, events, world, signals, |sends| - 1).reply, KeysOf(events))
    ensures result.CallFailed? ==> result.outcome == if outcome.Returned? then InvalidResponse else outcome
    ensures result.Receipted? ==>
              Covers(stored, events, result.summary.events)
              && result.summary.acceptedCount + result.summary.duplicateCount == |events|
  {
    stored := ArriveAll(LogAfter(log, sends, world), sends, late);
    StoredUnique(log, events, |sends|, world, late);
    if outcome.Returned? && outcome.body.Some? {
      ReceiptsAreDurable(log, events, world, signals, |sends| - 1, outcome.body.value);
    }
    result := Receive(events, outcome, LogAfter(log, sends, world), stored);
  }

  /** What the caller gets from the outcome of the retry machine, whatever was stored after the reply. */
  method Receive(events: seq<Event>, outcome: TsResult<Option<Acknowledgement>>, ghost replied: seq<Record>,
                 ghost stored: seq<Record>)
    returns (result: PublishResult)
    requires Publishable(KeysOf(events)) && UniqueKeys(stored) && Grown(replied, stored, events)
    requires outcome.Returned? && outcome.body.Some? ==>
               Matches(replied, events) &&
               forall i :: 0 <= i < |outcome.body.value.events| && outcome.body.value.events[i].eventId > 0 ==>
                 Durable(replied, outcome.body.value.events[i])
    ensures !result.Refused?
    ensures outcome.Returned? ==> EndsAs(result, OkReply(outcome.body), KeysOf(events))
    ensures !outcome.Returned? ==> result.CallFailed?
    ensures result.CallFailed? ==> result.outcome == if outcome.Returned? then InvalidResponse else outcome
    ensures result.Receipted? ==>
              Covers(stored, events, result.summary.events)
              && result.summary.acceptedCount + result.summary.duplicateCount == |events|
  {
    if !outcome.Returned? || outcome.body.None? {
      return CallFailed(if outcome.Returned? then InvalidResponse else outcome);
    }
    StaysDurable(replied, stored, outcome.body.value);
    StaysMatched(replied, stored, events);
    result := Conclude(events, outcome.body.value, stored);
  }

  lemma StoredUnique(log: seq<Record>, events: seq<Event>, n: nat, world: seq<Delivery>, late: seq<Arrival>)
    requires UniqueKeys(log) && n <= |world|
    ensures var replied := LogAfter(log, Repeat(events, n), world);
            var stored := ArriveAll(replied, Repeat(events, n), late);
            UniqueKeys(stored) && Grown(log, stored, events) && Grown(replied, stored, events)
  {
    var replied := LogAfter(log, Repeat(events, n), world);
    RunKeepsUnique(log, events, n, world);
    ArriveAllKeepsUnique(replied, events, n, late);
    GrownTwice(log, replied, ArriveAll(replied, Repeat(events, n), late), events);
  }

  /** The first k attempts lead on, and attempt k + 1 is answered with a success. */
  ghost predicate SucceedsAt(delay: TsDelays, timeout: real, events: seq<Event>, log: seq<Record>, world: seq<Delivery>,
                             signals: seq<Signal>, k: nat)
    requires k < |world| == |signals|
  {
    && TsAllGoOn(delay, timeout, Attempts(log, events, world, signals), k)
    && !signals[k].abortedBefore && AttemptAt(log, events, world, signals, k).reply.OkReply?
  }

  /** The retry machine on this batch: what the last send was answered with is the outcome. */
  method Send(maxAttempts: nat, delay: TsDelays, timeout: real, events: seq<Event>, log: seq<Record>, world: seq<Delivery>,
              signals: seq<Signal>)
    returns (outcome: TsResult<Option<Acknowledgement>>, sends: seq<seq<Event>>, legs: seq<Leg<real>>)
    requires 1 <= maxAttempts <= MAX_ATTEMPTS
    requires 0.0 < timeout <= MAX_TIMER_DELAY_MS && |world| == |signals| == maxAttempts
    ensures |sends| <= maxAttempts && sends == Repeat(events, |sends|)
    ensures TsOutcome(delay, timeout, true, Attempts(log, events, world, signals), outcome, |sends|, legs)
    ensures outcome.Returned? ==> sends != []
    ensures sends != [] ==>
              var reply := AttemptAt(log, events, world, signals, |sends| - 1).reply;
              if reply.OkReply? then outcome == Returned(reply.body) else !outcome.Returned?
  {
    var attempts := Attempts(log, events, world, signals);
    outcome, sends, legs := Dispatch(maxAttempts, delay, timeout, true, events, attempts);
    if sends != [] {
      AttemptsAt(log, events, world, signals, |sends| - 1);
    }
  }

  /**
    A success after k attempts that lead on is reached: k + 1 requests are sent, so the reply
    that decides `EndsAs` is that success.
   */
  lemma SuccessIsReached(delay: TsDelays, timeout: real, events: seq<Event>, log: seq<Record>, world: seq<Delivery>,
                         signals: seq<Signal>, outcome: TsResult<Option<Acknowledgement>>, sends: nat,
                         legs: seq<Leg<real>>, k: nat)
    requires 0.0 < timeout <= MAX_TIMER_DELAY_MS && k < |world| == |signals|
    requires TsOutcome(delay, timeout, true, Attempts(log, events, world, signals), outcome, sends, legs)
    requires SucceedsAt(delay, timeout, events, log, world, signals, k)
    ensures sends == k + 1 && outcome == Returned(AttemptAt(log, events, world, signals, k).reply.body)
  {
    AttemptsAt(log, events, world, signals, k);
    TsCompletes(delay, timeout, true, Attempts(log, events, world, signals), outcome, sends, legs, k,
                AttemptAt(log, events, world, signals, k).reply.body);
  }

  lemma AttemptsAt(log: seq<Record>, events: seq<Event>, world: seq<Delivery>, signals: seq<Signal>, i: nat)
    requires i < |world| == |signals|
    ensures Attempts(log, events, world, signals)[i] == AttemptAt(log, events, world, signals, i)
  {
  }

  /** Without a request nothing arrives. */
  lemma {:induction false} NothingArrives(log: seq<Record>, arrivals: seq<Arrival>)
    ensures ArriveAll(log, [], arrivals) == log
    decreases |arrivals|
  {
    if arrivals != [] {
      NothingArrives(log, arrivals[1..]);
    }
  }

  /** Late arrivals of this batch take no key of it for another event. */
  lemma StaysMatched(before: seq<Record>, after: seq<Record>, events: seq<Event>)
    requires Matches(before, events) && Grown(before, after, events) && Distinct(KeysOf(events))
    ensures Matches(after, events)
  {
    forall i, k | 0 <= i < |after| && 0 <= k < |events| && after[i].event.key == events[k].key
      ensures after[i].event == events[k]
    {
      if i < |before| {
        assert after[i] == before[i];
      } else {
        var m :| 0 <= m < |events| && events[m] == after[i].event;
        assert KeysOf(events)[m] == KeysOf(events)[k];
      }
    }
  }

  /** What arrives later leaves the records already there. */
  lemma StaysDurable(before: seq<Record>, after: seq<Record>, body: Acknowledgement)
    requires before <= after
    requires forall i :: 0 <= i < |body.events| && body.events[i].eventId > 0 ==> Durable(before, body.events[i])
    ensures forall i :: 0 <= i < |body.events| && body.events[i].eventId > 0 ==> Durable(after, body.events[i])
  {
    forall i | 0 <= i < |body.events| && body.events[i].eventId > 0 ensures Durable(after, body.events[i]) {
      var j: nat :| DurableAt(before, j, body.events[i]);
      assert DurableAt(after, j, body.events[i]);
    }
  }

  /** batchResponse on a decoded acknowledgement of records in `stored`. */
  method Conclude(events: seq<Event>, body: Acknowledgement, ghost stored: seq<Record>) returns (result: PublishResult)
    requires Publishable(KeysOf(events)) && UniqueKeys(stored) && Matches(stored, events)
    requires forall i :: 0 <= i < |body.events| && body.events[i].eventId > 0 ==> Durable(stored, body.events[i])
    ensures EndsAs(result, OkReply(Some(body)), KeysOf(events))
    ensures result.Receipted? ==>
              Covers(stored, events, result.summary.events)
              && result.summary.acceptedCount + result.summary.duplicateCount == |events|
  {
    ValidatorsAgree(body, KeysOf(events));
    var summary := TsBatchResponse(body, KeysOf(events));
    if summary.None? {
      return BadReceipts;
    }
    ReceiptsCoverBatch(stored, events, body);
    result := Receipted(summary.value);
  }

  /** Receipts in a successful reply name records in the log as it stands, and no key is taken. */
  lemma ReceiptsAreDurable(log: seq<Record>, events: seq<Event>, world: seq<Delivery>, signals: seq<Signal>, n: nat,
                           body: Acknowledgement)
    requires n < |world| == |signals| && AttemptAt(log, events, world, signals, n).reply == OkReply(Some(body))
    ensures Matches(LogAfter(log, Repeat(events, n + 1), world), events)
    ensures forall i :: 0 <= i < |body.events| && body.events[i].eventId > 0 ==>
              Durable(LogAfter(log, Repeat(events, n + 1), world), body.events[i])
  {
    var after := LogAfter(log, Repeat(events, n + 1), world);
    var picks := world[n].reply.picks;
    forall i | 0 <= i < |body.events| && body.events[i].eventId > 0
      ensures Durable(after, body.events[i])
    {
      assert body.events[i] == ReceiptOf(after, picks[i]);
      assert DurableAt(after, picks[i].index, body.events[i]);
    }
  }

  lemma ReceiptsCoverBatch(stored: seq<Record>, events: seq<Event>, body: Acknowledgement)
    requires UniqueKeys(stored) && Matches(stored, events) && Distinct(KeysOf(events)) && Answers(body, KeysOf(events))
    requires forall i :: 0 <= i < |body.events| && body.events[i].eventId > 0 ==> Durable(stored, body.events[i])
    ensures Covers(stored, events, body.events)
  {
    forall i | 0 <= i < |events| ensures body.events[i].key == events[i].key && StoredOnce(stored, events[i]) {
      assert KeysOf(events)[i] == events[i].key;
      var j: nat :| DurableAt(stored, j, body.events[i]);
      assert stored[j].event == events[i];
      forall k | 0 <= k < |stored| && stored[k].event.key == events[i].key ensures k == j {
      }
    }
    forall i, j, k: nat | 0 <= i < j < |events|
      ensures !(DurableAt(stored, k, body.events[i]) && DurableAt(stored, k, body.events[j]))
    {
      assert KeysOf(events)[i] != KeysOf(events)[j];
    }
  }

  /**
    A key that already belongs to another event: the batch never gets receipts, and the
    server's refusal is final in all three clients.
   */
  lemma TakenKeyNeverCovered(log: seq<Record>, stored: seq<Record>, events: seq<Event>, receipts: seq<Receipt>)
    requires !Matches(log, events) && log <= stored
    ensures !Covers(stored, events, receipts)
    ensures !TsRetryable(MISMATCH, true) && !PyRetryable(MISMATCH, true) && !GoRetryable(MISMATCH, true)
  {
    var i, k :| 0 <= i < |log| && 0 <= k < |events| && log[i].event.key == events[k].key && log[i].event != events[k];
    assert stored[i] == log[i];
    assert !StoredOnce(stored, events[k]);
  }
}
