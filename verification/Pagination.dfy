/**
  Cursor iteration: Go's pull iterator object and TypeScript's generator, against an
  arbitrary server. `server(i)` is its answer to list call i; "" is no cursor.
 */
module Pagination {
  import opened Common
  import opened Cursors

  datatype Response<E> = Page(events: seq<E>, next: Text) | Failed(code: int)

  datatype IterError = RepeatedCursor | PaginationLimit | ListError(code: int)

  /** What one pull shows the caller. */
  datatype Pull<E> = Event(event: E) | End(error: Option<IterError>)

  // ----- Go -----

  /** The iterator's fields, and what it has requested, received and returned so far. */
  datatype GoState<E> = GoState(cursor: Text, page: seq<E>, index: int, seen: set<Text>, pages: nat, done: bool,
                                err: Option<IterError>, requested: seq<Text>, received: seq<E>, returned: seq<E>)

  function GoStart<E>(cursor: Text): GoState<E> {
    GoState(cursor, [], -1, {}, 0, false, None, [], [], [])
  }

  /** The request side: cursors are never asked for twice, and 10,000 pages is the most. */
  ghost predicate Bounded<E>(s: GoState<E>) {
    && Distinct(s.requested) && s.seen == Elements(s.requested)
    && s.pages <= |s.requested| <= s.pages + 1 && s.pages <= MAX_PAGES && |s.requested| <= MAX_PAGES
    && (s.err.None? ==> s.pages == |s.requested|)
    && (s.pages > 0 ==> s.done == (s.cursor == []))
  }

  /** The event side: what was received is what was returned and then the rest of the page. */
  ghost predicate Exact<E>(s: GoState<E>) {
    && (if s.page == [] then s.index == -1 else -1 <= s.index < |s.page|)
    && s.received == s.returned + Rest(s.page, s.index + 1)
  }

  ghost predicate GoValid<E>(s: GoState<E>) {
    Bounded(s) && Exact(s)
  }

  /** One turn of the loop of Next(); None goes round again, which only an empty page does. */
  function GoStep<E>(server: nat -> Response<E>, s: GoState<E>): (r: (GoState<E>, Option<bool>))
    requires -1 <= s.index
    ensures -1 <= r.0.index && (r.1.None? ==> r.0.pages == s.pages + 1 <= MAX_PAGES)
  {
    if s.index + 1 < |s.page| then
      (s.(index := s.index + 1, returned := s.returned + [s.page[s.index + 1]]), Some(true))
    else if s.done then (s, Some(false))
    else if s.cursor in s.seen then (s.(err := Some(RepeatedCursor)), Some(false))
    else if s.pages >= MAX_PAGES then (s.(err := Some(PaginationLimit)), Some(false))
    else GoFetch(s, server(|s.requested|))
  }

  /** The rest of the turn, given the answer to its list call. */
  function GoFetch<E>(s: GoState<E>, response: Response<E>): (r: (GoState<E>, Option<bool>)) {
    match response
    case Failed(code) => (Refused(s, code), Some(false))
    case Page(events, next) =>
      if events == [] then (Asked(s, [], next), None)
      else (Asked(s, events, next).(index := 0, returned := s.returned + [events[0]]), Some(true))
  }

  /** The state after a list call that failed. */
  function Refused<E>(s: GoState<E>, code: int): GoState<E> {
    s.(seen := s.seen + {s.cursor}, requested := s.requested + [s.cursor], err := Some(ListError(code)))
  }

  /** The state after a list call that answered with a page, before any of it is returned. */
  function Asked<E>(s: GoState<E>, events: seq<E>, next: Text): GoState<E> {
    s.(seen := s.seen + {s.cursor}, requested := s.requested + [s.cursor], pages := s.pages + 1, page := events,
       index := -1, cursor := next, done := next == [], received := s.received + events)
  }

  function GoNext<E>(server: nat -> Response<E>, s: GoState<E>): (r: (GoState<E>, bool))
    requires -1 <= s.index
    ensures -1 <= r.0.index
    decreases MAX_PAGES - s.pages
  {
    if s.err.Some? then (s, false)
    else
      var (next, more) := GoStep(server, s);
      if more.None? then GoNext(server, next) else (next, more.value)
  }

  /** AuditIterator; CDCIterator differs only in the event type. */
  class Iterator<E(0)> {
    var cursor: Text
    var page: seq<E>
    var index: int
    var current: E
    var seen: set<Text>
    var pages: nat
    var done: bool
    var err: Option<IterError>
    ghost var requested: seq<Text>
    ghost var received: seq<E>
    ghost var returned: seq<E>

    ghost function State(): GoState<E>
      reads this
    {
      GoState(cursor, page, index, seen, pages, done, err, requested, received, returned)
    }

    constructor (cursor: Text)
      ensures State() == GoStart(cursor) && GoValid(State())
    {
      this.cursor := cursor;
      page, index, seen, pages, done, err := [], -1, {}, 0, false, None;
      requested, received, returned := [], [], [];
    }

    method Next(server: nat -> Response<E>) returns (more: bool)
      requires GoValid(State())
      modifies this
      ensures (State(), more) == GoNext(server, old(State()))
      ensures GoValid(State())
      ensures more ==> 0 <= index < |page| && current == page[index]
    {
      ghost var start := State();
      GoNextKeepsValid(server, start);
      while err.None?
        invariant -1 <= index && (err.None? ==> pages == |requested| <= MAX_PAGES)
        invariant GoNext(server, State()) == GoNext(server, start)
        decreases MAX_PAGES - pages, err.None?
      {
        var outcome := Turn(server);
        if outcome.Some? {
          return outcome.value;
        }
      }
      return false;
    }

    /** The loop body; None is the end of the body, Some a return from it. */
    method Turn(server: nat -> Response<E>) returns (outcome: Option<bool>)
      requires -1 <= index && err.None? && pages == |requested| <= MAX_PAGES
      modifies this
      ensures (State(), outcome) == GoStep(server, old(State()))
      ensures outcome == Some(true) ==> 0 <= index < |page| && current == page[index]
      ensures -1 <= index && (err.None? ==> pages == |requested| <= MAX_PAGES)
    {
      if index + 1 < |page| {
        index := index + 1;
        current := page[index];
        returned := returned + [current];
        return Some(true);
      }
      if done {
        return Some(false);
      }
      if cursor in seen {
        err := Some(RepeatedCursor);
        return Some(false);
      }
      if pages >= MAX_PAGES {
        err := Some(PaginationLimit);
        return Some(false);
      }
      outcome := Fetch(server(pages));
    }

    /** The end of the loop body: note the cursor, list, and take the answer. */
    method Fetch(response: Response<E>) returns (outcome: Option<bool>)
      modifies this
      ensures (State(), outcome) == GoFetch(old(State()), response)
      ensures outcome == Some(true) ==> 0 <= index < |page| && current == page[index]
    {
      if response.Failed? {
        Refuse(response.code);
        return Some(false);
      }
      Take(response.events, response.next);
      if |page| > 0 {
        index, current, returned := 0, page[0], returned + [page[0]];
        return Some(true);
      }
      return None;
    }

    method Refuse(code: int)
      modifies this
      ensures State() == Refused(old(State()), code)
    {
      seen, requested, err := seen + {cursor}, requested + [cursor], Some(ListError(code));
    }

    method Take(events: seq<E>, next: Text)
      modifies this
      ensures State() == Asked(old(State()), events, next)
    {
      seen, requested := seen + {cursor}, requested + [cursor];
      pages, received := pages + 1, received + events;
      page, index, cursor, done := events, -1, next, next == [];
    }
  }

  lemma StepKeepsBounded<E>(server: nat -> Response<E>, s: GoState<E>)
    requires Bounded(s) && -1 <= s.index && s.err.None?
    ensures Bounded(GoStep(server, s).0)
    ensures GoStep(server, s).1.None? ==> GoStep(server, s).0.err.None?
  {
    if s.cursor !in s.seen {
      DistinctSnoc(s.requested, s.cursor);
    }
  }

  lemma StepKeepsExact<E>(server: nat -> Response<E>, s: GoState<E>)
    requires Exact(s)
    ensures Exact(GoStep(server, s).0)
  {
    if s.index + 1 >= |s.page| && server(|s.requested|).Page? {
      RestIsSuffix(server(|s.requested|).events, 0);
    }
  }

  /**
    In every reachable state: requested cursors are distinct, at most 10,000 are requested,
    and what was returned is a prefix of what the pages held.
   */
  lemma {:induction false} GoNextKeepsValid<E>(server: nat -> Response<E>, s: GoState<E>)
    requires GoValid(s)
    ensures GoValid(GoNext(server, s).0)
    decreases MAX_PAGES - s.pages
  {
    if s.err.None? {
      StepKeepsBounded(server, s);
      StepKeepsExact(server, s);
      if GoStep(server, s).1.None? {
        GoNextKeepsValid(server, GoStep(server, s).0);
      }
    }
  }

  /** Once Next has returned false it changes nothing and returns false forever. */
  lemma {:induction false} GoEndIsFinal<E>(server: nat -> Response<E>, s: GoState<E>)
    requires -1 <= s.index && !GoNext(server, s).1
    ensures GoNext(server, GoNext(server, s).0) == GoNext(server, s)
    decreases MAX_PAGES - s.pages
  {
    if s.err.None? && GoStep(server, s).1.None? {
      GoEndIsFinal(server, GoStep(server, s).0);
    }
  }

  /** Next returns true with one more event handed out, the current one, and otherwise with none. */
  lemma {:induction false} NextHandsOut<E>(server: nat -> Response<E>, s: GoState<E>)
    requires GoValid(s)
    ensures var (t, more) := GoNext(server, s);
            if more then 0 <= t.index < |t.page| && t.returned == s.returned + [t.page[t.index]]
            else t.returned == s.returned
    decreases MAX_PAGES - s.pages
  {
    if s.err.None? {
      StepKeepsBounded(server, s);
      StepKeepsExact(server, s);
      if GoStep(server, s).1.None? {
        NextHandsOut(server, GoStep(server, s).0);
      }
    }
  }

  /** The events of the first n pages the server sends, in order. */
  function PagesOf<E>(server: nat -> Response<E>, n: nat): seq<E> {
    if n == 0 then [] else PagesOf(server, n - 1) + (if server(n - 1).Page? then server(n - 1).events else [])
  }

  lemma {:induction false} NextKeepsReceived<E>(server: nat -> Response<E>, s: GoState<E>)
    requires Bounded(s) && -1 <= s.index && s.received == PagesOf(server, s.pages)
    ensures GoNext(server, s).0.received == PagesOf(server, GoNext(server, s).0.pages)
    decreases MAX_PAGES - s.pages
  {
    if s.err.None? {
      StepKeepsBounded(server, s);
      if GoStep(server, s).1.None? {
        NextKeepsReceived(server, GoStep(server, s).0);
      }
    }
  }

  /** The cursor a list call i has when the server is followed from `cursor`. */
  function CursorAt<E>(server: nat -> Response<E>, cursor: Text, i: nat): Text {
    if i == 0 then cursor else if server(i - 1).Page? then server(i - 1).next else []
  }

  /** Every cursor asked for is the one the answer before it gave. */
  ghost predicate Follows<E>(server: nat -> Response<E>, cursor: Text, s: GoState<E>) {
    && (forall i: nat :: i < |s.requested| ==> s.requested[i] == CursorAt(server, cursor, i))
    && (s.err.None? ==> s.cursor == CursorAt(server, cursor, |s.requested|))
  }

  lemma {:induction false} NextFollows<E>(server: nat -> Response<E>, cursor: Text, s: GoState<E>)
    requires -1 <= s.index && Follows(server, cursor, s)
    ensures Follows(server, cursor, GoNext(server, s).0)
    decreases MAX_PAGES - s.pages
  {
    if s.err.None? {
      StepFollows(server, cursor, s);
      if GoStep(server, s).1.None? {
        NextFollows(server, cursor, GoStep(server, s).0);
      }
    }
  }

  lemma StepFollows<E>(server: nat -> Response<E>, cursor: Text, s: GoState<E>)
    requires -1 <= s.index && s.err.None? && Follows(server, cursor, s)
    ensures Follows(server, cursor, GoStep(server, s).0)
  {
    var r := GoStep(server, s).0;
    if r.requested != s.requested {
      assert r.requested == s.requested + [s.cursor];
    }
  }

  /** The iterator after n calls of Next. */
  function After<E>(server: nat -> Response<E>, cursor: Text, n: nat): (s: GoState<E>)
    ensures -1 <= s.index
  {
    if n == 0 then GoStart(cursor) else GoNext(server, After(server, cursor, n - 1)).0
  }

  /**
    After any number of calls, against any server: at most 10,000 pages were asked for, each
    with the cursor the answer before it gave and none twice, and the events handed out are
    exactly the server's, in order, up to the point reached in the current page.
   */
  lemma {:induction false} EveryReachableState<E>(server: nat -> Response<E>, cursor: Text, n: nat)
    ensures var s := After(server, cursor, n);
            && GoValid(s)
            && |s.seen| == |s.requested| <= 10_000 && s.pages <= |s.seen| <= s.pages + 1
            && PagesOf(server, s.pages) == s.returned + Rest(s.page, s.index + 1)
            && Follows(server, cursor, s)
  {
    ReachableValid(server, cursor, n);
    DistinctSize(After(server, cursor, n).requested);
  }

  lemma {:induction false} ReachableValid<E>(server: nat -> Response<E>, cursor: Text, n: nat)
    ensures GoValid(After(server, cursor, n))
    ensures After(server, cursor, n).received == PagesOf(server, After(server, cursor, n).pages)
    ensures Follows(server, cursor, After(server, cursor, n))
  {
    if n > 0 {
      ReachableValid(server, cursor, n - 1);
      GoNextKeepsValid(server, After(server, cursor, n - 1));
      NextKeepsReceived(server, After(server, cursor, n - 1));
      NextFollows(server, cursor, After(server, cursor, n - 1));
    }
  }

  /** Why an iterator has nothing more to hand out. */
  ghost predicate EndsBecause<E>(server: nat -> Response<E>, s: GoState<E>) {
    match s.err
    case None => s.pages > 0 && s.cursor == [] && s.index + 1 >= |s.page|
    case Some(RepeatedCursor) => s.cursor != [] && s.cursor in s.requested && s.index + 1 >= |s.page|
    case Some(PaginationLimit) => s.cursor != [] && s.cursor !in s.requested && s.pages == |s.requested| == 10_000
    case Some(ListError(code)) => |s.requested| == s.pages + 1 && server(s.pages) == Failed(code)
  }

  /** An error has its cause, and nothing is done before the first page. */
  ghost predicate Explained<E>(server: nat -> Response<E>, s: GoState<E>) {
    (s.done ==> s.pages > 0) && (s.err.Some? ==> EndsBecause(server, s))
  }

  lemma StepExplained<E>(server: nat -> Response<E>, s: GoState<E>)
    requires GoValid(s) && s.err.None? && Explained(server, s)
    ensures Explained(server, GoStep(server, s).0)
    ensures GoStep(server, s).1 == Some(false) ==> EndsBecause(server, GoStep(server, s).0)
  {
    assert s.cursor in s.seen <==> s.cursor in s.requested;
  }

  lemma {:induction false} NextExplained<E>(server: nat -> Response<E>, s: GoState<E>)
    requires GoValid(s) && Explained(server, s)
    ensures Explained(server, GoNext(server, s).0)
    ensures !GoNext(server, s).1 ==> EndsBecause(server, GoNext(server, s).0)
    decreases MAX_PAGES - s.pages
  {
    if s.err.None? {
      StepExplained(server, s);
      StepKeepsBounded(server, s);
      StepKeepsExact(server, s);
      if GoStep(server, s).1.None? {
        NextExplained(server, GoStep(server, s).0);
      }
    }
  }

  lemma {:induction false} ReachableExplained<E>(server: nat -> Response<E>, cursor: Text, n: nat)
    ensures Explained(server, After(server, cursor, n))
  {
    if n > 0 {
      ReachableExplained(server, cursor, n - 1);
      ReachableValid(server, cursor, n - 1);
      NextExplained(server, After(server, cursor, n - 1));
    }
  }

  /**
    Whenever Next returns false: the last page gave no cursor, or one already asked for, or
    10,000 pages have been read, or the list call for the next one failed.
   */
  lemma EndHasReason<E>(server: nat -> Response<E>, cursor: Text, n: nat)
    requires !GoNext(server, After(server, cursor, n)).1
    ensures EndsBecause(server, GoNext(server, After(server, cursor, n)).0)
  {
    ReachableExplained(server, cursor, n);
    ReachableValid(server, cursor, n);
    NextExplained(server, After(server, cursor, n));
  }

  // ----- TypeScript -----

  /** The generator between two pulls: its locals, where it stopped, and what it requested. */
  datatype TsState<E> = TsState(cursor: Text, seen: set<Text>, pages: nat, started: bool, page: seq<E>, index: nat,
                                next: Text, ended: bool, requested: seq<Text>)

  function TsStart<E>(cursor: Text): TsState<E> {
    TsState(cursor, if cursor == [] then {} else {cursor}, 0, false, [], 0, [], false, [])
  }

  function Finish<E>(s: TsState<E>, error: Option<IterError>): (TsState<E>, Option<Pull<E>>) {
    (s.(ended := true), Some(End(error)))
  }

  /** The generator up to its next yield, throw or return, or (None) to the top of a page's events. */
  function TsStep<E>(server: nat -> Response<E>, s: TsState<E>): (r: (TsState<E>, Option<Pull<E>>))
    ensures r.1.None? ==> r.0.pages == s.pages + 1 <= MAX_PAGES
  {
    if s.index < |s.page| then (s.(index := s.index + 1), Some(Event(s.page[s.index])))
    else if s.started && s.next == [] then Finish(s, None)
    else if s.started && s.next in s.seen then Finish(s, Some(RepeatedCursor))
    else
      var t := if s.started then s.(seen := s.seen + {s.next}, cursor := s.next) else s;
      if t.pages + 1 > MAX_PAGES then Finish(t, Some(PaginationLimit))
      else
        match server(|s.requested|)
        case Failed(code) => Finish(Listed(t), Some(ListError(code)))
        case Page(events, next) => (Listed(t).(page := events, index := 0, next := next), None)
  }

  /** One more list call, of the current cursor. */
  function Listed<E>(s: TsState<E>): TsState<E> {
    s.(pages := s.pages + 1, started := true, requested := s.requested + [s.cursor])
  }

  function TsNext<E>(server: nat -> Response<E>, s: TsState<E>): (TsState<E>, Pull<E>)
    decreases MAX_PAGES - s.pages
  {
    if s.ended then (s, End(None))
    else
      var (next, pull) := TsStep(server, s);
      if pull.None? then TsNext(server, next) else (next, pull.value)
  }

  /** After it has returned or thrown, a generator is done: every later pull ends without an error. */
  lemma {:induction false} TsEndIsFinal<E>(server: nat -> Response<E>, s: TsState<E>)
    requires TsNext(server, s).1.End?
    ensures TsNext(server, TsNext(server, s).0) == (TsNext(server, s).0, End(None))
    decreases MAX_PAGES - s.pages
  {
    if !s.ended && TsStep(server, s).1.None? {
      TsEndIsFinal(server, TsStep(server, s).0);
    }
  }

  /** The generator's body, resumed by each pull. */
  class Generator<E(0)> {
    var cursor: Text
    var seen: set<Text>
    var pages: nat
    var started: bool
    var page: seq<E>
    var index: nat
    var next: Text
    var ended: bool
    ghost var requested: seq<Text>

    ghost function State(): TsState<E>
      reads this
    {
      TsState(cursor, seen, pages, started, page, index, next, ended, requested)
    }

    constructor (cursor: Text)
      ensures State() == TsStart(cursor)
    {
      this.cursor := cursor;
      seen := if cursor == [] then {} else {cursor};
      pages, started, page, index, next, ended, requested := 0, false, [], 0, [], false, [];
    }

    method Next(server: nat -> Response<E>) returns (pull: Pull<E>)
      requires pages <= MAX_PAGES && (!ended ==> pages == |requested|)
      modifies this
      ensures pages <= MAX_PAGES && (!ended ==> pages == |requested|)
      ensures (State(), pull) == TsNext(server, old(State()))
    {
      ghost var start := State();
      while !ended
        invariant pages <= MAX_PAGES && (!ended ==> pages == |requested|)
        invariant TsNext(server, State()) == TsNext(server, start)
        decreases MAX_PAGES - pages, !ended
      {
        var pull := Advance(server);
        if pull.Some? {
          return pull.value;
        }
      }
      return End(None);
    }

    /** From where the generator stopped to its next yield, return or throw, or to a fresh page. */
    method Advance(server: nat -> Response<E>) returns (pull: Option<Pull<E>>)
      requires !ended && pages == |requested| <= MAX_PAGES
      modifies this
      ensures (State(), pull) == TsStep(server, old(State()))
      ensures pages <= MAX_PAGES && (!ended ==> pages == |requested|)
    {
      if index < |page| {
        index := index + 1;
        return Some(Event(page[index - 1]));
      }
      if started {
        if next == [] {
          ended := true;
          return Some(End(None));
        }
        if next in seen {
          ended := true;
          return Some(End(Some(RepeatedCursor)));
        }
        seen := seen + {next};
        cursor := next;
      }
      if pages + 1 > MAX_PAGES {
        ended := true;
        return Some(End(Some(PaginationLimit)));
      }
      var response := server(pages);
      pages, started, requested := pages + 1, true, requested + [cursor];
      match response {
        case Failed(code) =>
          ended := true;
          return Some(End(Some(ListError(code))));
        case Page(events, following) =>
          page, index, next := events, 0, following;
          return None;
      }
    }
  }

  // ----- The two are observationally equal -----

  function GoPull<E>(server: nat -> Response<E>, s: GoState<E>): (r: (GoState<E>, Pull<E>))
    requires -1 <= s.index
  {
    var (t, more) := GoNext(server, s);
    (t, if more && 0 <= t.index < |t.page| then Event(t.page[t.index]) else End(t.err))
  }

  /** The two iterators at the same point: same requests, same events left, same cursors known. */
  ghost predicate InStep<E>(g: GoState<E>, t: TsState<E>) {
    && GoValid(g)
    && g.err.None? && !t.ended
    && g.requested == t.requested && g.pages == t.pages == |g.requested|
    && g.page == t.page && g.index + 1 == t.index
    && (t.started <==> g.pages > 0)
    && (if t.started
        then g.cursor == t.next && t.seen == g.seen - {[]}
        else g.cursor == t.cursor && t.seen == {g.cursor} - {[]} && g.page == [] && !g.done)
  }

  lemma StartInStep<E>(cursor: Text)
    ensures InStep(GoStart<E>(cursor), TsStart<E>(cursor))
  {
  }

  /** Where Go asks for a page, so does TypeScript, with the same cursor; otherwise both stop the same way. */
  lemma FetchInStep<E>(server: nat -> Response<E>, g: GoState<E>, t: TsState<E>)
    requires InStep(g, t) && t.index >= |t.page|
    ensures GoStep(server, g).0.requested == TsStep(server, t).0.requested
    ensures GoStep(server, g).1 == Some(false) ==> TsStep(server, t).1 == Some(End(GoStep(server, g).0.err))
    ensures GoStep(server, g).1 != Some(false) ==>
              && TsStep(server, t).1.None?
              && Fetched(server, g) && FetchedInStep(Asked(g, server(|g.requested|).events, server(|g.requested|).next),
                                                     TsStep(server, t).0)
  {
  }

  ghost predicate Fetched<E>(server: nat -> Response<E>, g: GoState<E>) {
    server(|g.requested|).Page?
  }

  /** Both hold the same fresh page, none of it handed out. */
  ghost predicate FetchedInStep<E>(g: GoState<E>, t: TsState<E>) {
    && g.err.None? && !t.ended && t.started && g.pages > 0
    && g.requested == t.requested && g.pages == t.pages == |g.requested|
    && g.page == t.page && g.index == -1 && t.index == 0
    && g.cursor == t.next && t.seen == g.seen - {[]}
  }

  /** Handing out the next event of the page both hold keeps them in step. */
  lemma EventInStep<E>(server: nat -> Response<E>, g: GoState<E>, t: TsState<E>)
    requires InStep(g, t) && t.index < |t.page|
    ensures GoStep(server, g).1 == Some(true) && TsStep(server, t).1 == Some(Event(t.page[t.index]))
    ensures InStep(GoStep(server, g).0, TsStep(server, t).0)
  {
    StepKeepsBounded(server, g);
    StepKeepsExact(server, g);
  }

  /** A page with events: Go has handed out the first, which TypeScript does next. */
  lemma FirstInStep<E>(server: nat -> Response<E>, g: GoState<E>, t: TsState<E>)
    requires InStep(g, t) && t.index >= |t.page| && GoStep(server, g).1 == Some(true)
    ensures TsStep(server, t).1.None?
    ensures InStep(GoStep(server, g).0, TsNext(server, TsStep(server, t).0).0)
    ensures TsNext(server, TsStep(server, t).0).1 == GoPull(server, g).1
  {
    FetchInStep(server, g, t);
    StepKeepsBounded(server, g);
    StepKeepsExact(server, g);
  }

  /** An empty page: both go on to the next cursor. */
  lemma EmptyInStep<E>(server: nat -> Response<E>, g: GoState<E>, t: TsState<E>)
    requires InStep(g, t) && t.index >= |t.page| && GoStep(server, g).1.None?
    ensures TsStep(server, t).1.None?
    ensures InStep(GoStep(server, g).0, TsStep(server, t).0)
  {
    FetchInStep(server, g, t);
    StepKeepsBounded(server, g);
    StepKeepsExact(server, g);
  }

  /** What a pull shows when two iterators in step stop alike. */
  ghost predicate SamePull<E>(g: (GoState<E>, Pull<E>), t: (TsState<E>, Pull<E>)) {
    g.1 == t.1 && g.0.requested == t.0.requested && (g.1.Event? ==> InStep(g.0, t.0))
  }

  /** One pull of each: the same event or the same ending, after the same requests. */
  lemma {:induction false} PullInStep<E>(server: nat -> Response<E>, g: GoState<E>, t: TsState<E>)
    requires InStep(g, t)
    ensures SamePull(GoPull(server, g), TsNext(server, t))
    decreases MAX_PAGES - g.pages
  {
    var (g', more) := GoStep(server, g);
    if t.index < |t.page| {
      EventInStep(server, g, t);
    } else if more.None? {
      EmptyInStep(server, g, t);
      PullInStep(server, g', TsStep(server, t).0);
    } else if more == Some(true) {
      FirstInStep(server, g, t);
    } else {
      FetchInStep(server, g, t);
    }
  }

  /** The events of up to n pulls and, if it came within them, how the iteration ended. */
  function GoRun<E>(server: nat -> Response<E>, s: GoState<E>, n: nat): (seq<Pull<E>>, seq<Text>)
    requires -1 <= s.index
    decreases n
  {
    if n == 0 then ([], s.requested)
    else
      var (next, pull) := GoPull(server, s);
      if pull.End? then ([pull], next.requested)
      else
        var (later, requested) := GoRun(server, next, n - 1);
        ([pull] + later, requested)
  }

  function TsRun<E>(server: nat -> Response<E>, s: TsState<E>, n: nat): (seq<Pull<E>>, seq<Text>)
    decreases n
  {
    if n == 0 then ([], s.requested)
    else
      var (next, pull) := TsNext(server, s);
      if pull.End? then ([pull], next.requested)
      else
        var (later, requested) := TsRun(server, next, n - 1);
        ([pull] + later, requested)
  }

  lemma {:induction false} RunsInStep<E>(server: nat -> Response<E>, g: GoState<E>, t: TsState<E>, n: nat)
    requires InStep(g, t)
    ensures GoRun(server, g, n) == TsRun(server, t, n)
    decreases n
  {
    if n > 0 {
      PullInStep(server, g, t);
      if GoPull(server, g).1.Event? {
        RunsInStep(server, GoPull(server, g).0, TsNext(server, t).0, n - 1);
      }
    }
  }

  /**
    For every server, starting cursor and number of pulls, both SDKs send the same cursors,
    hand out the same events and end the same way.
   */
  lemma IteratorsAgree<E>(server: nat -> Response<E>, cursor: Text, n: nat)
    ensures GoRun(server, GoStart<E>(cursor), n) == TsRun(server, TsStart<E>(cursor), n)
  {
    StartInStep<E>(cursor);
    RunsInStep(server, GoStart<E>(cursor), TsStart<E>(cursor), n);
  }
}
