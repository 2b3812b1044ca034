/**
  SQL queries: run, poll until settled, then read rows page by page, against an arbitrary
  server (src/tables.ts and the query checks of src/ingest.ts).
 */
module QueryMachine {
  import opened Common
  import opened Cursors
  import Unicode

  const MAX_QUERY_BYTES := 262_144
  const MAX_QUERY_TIMEOUT_MS := 600_000.0
  const MAX_QUERY_PAGE_SIZE := 100_000.0
  const MAX_PAGE_TOKEN_BYTES := 4_096
  const MAX_QUERY_POLLS: nat := 1_000
  const MAX_SAFE_INTEGER := 9_007_199_254_740_991.0

  const RUNNING: Text := [0x52, 0x55, 0x4E, 0x4E, 0x49, 0x4E, 0x47]
  const SUCCEEDED: Text := [0x53, 0x55, 0x43, 0x43, 0x45, 0x45, 0x44, 0x45, 0x44]
  const FAILED: Text := [0x46, 0x41, 0x49, 0x4C, 0x45, 0x44]
  const QUERIES: Text := [0x71, 0x75, 0x65, 0x72, 0x69, 0x65, 0x73, 0x2F]

  datatype Failure =
    | InvalidQuery | InvalidTimeout | InvalidPageSize | InvalidPageToken
    | InvalidResponse | TokenWithoutName
    | QueryFailed | PollLimit | Aborted | Network(code: int)
    | RepeatedCursor | PaginationLimit | ResultConsumed
  {
    /** The failures the SDK raises about a request before sending it. */
    predicate IsRefusal() {
      InvalidQuery? || InvalidTimeout? || InvalidPageSize? || InvalidPageToken?
    }
  }

  datatype Result<+T> = Success(value: T) | Failure(error: Failure)

  datatype Call =
    | RunQuery(query: Text, timeoutMs: Option<real>, dryRun: Option<bool>, runPageSize: Option<real>)
    | GetQueryResults(name: Text, token: Option<Text>, pageSize: Option<real>)

  /** What the caller asks for; numbers are whatever JavaScript number was passed. */
  datatype Options = Options(query: Text, timeoutMs: Option<real>, dryRun: bool, pageSize: Option<real>)

  datatype Row = NullRow | ScalarRow | ObjectRow(json: Text)

  /** A query answer; a missing field reads as "" or []. */
  datatype Body = Body(state: Text, name: Text, rows: seq<Row>, token: Text, totalRows: Option<real>, schemaLegal: bool)

  datatype Reply = Lost(code: int) | Answered(body: Body)

  // ----- Checks before sending -----

  predicate IsSpace(u: Unit) {
    0x09 <= u <= 0x0D || u == 0x20 || u == 0xA0 || u == 0x1680 || 0x2000 <= u <= 0x200A
    || u == 0x2028 || u == 0x2029 || u == 0x202F || u == 0x205F || u == 0x3000 || u == 0xFEFF
  }

  predicate IntegerWithin(value: real, most: real) {
    value.Floor as real == value && 0.0 <= value <= most
  }

  predicate PageSizeLegal(size: Option<real>) {
    size.Some? ==> IntegerWithin(size.value, MAX_QUERY_PAGE_SIZE)
  }

  /** One symbol of an identifier: digits and lower-case letters other than i, l, o and u. */
  predicate IsIdUnit(u: Unit) {
    IsDigit(u) || (0x61 <= u <= 0x7A && u != 0x69 && u != 0x6C && u != 0x6F && u != 0x75)
  }

  predicate IsQueryName(name: Text) {
    |name| == 34 && name[..8] == QUERIES && forall i :: 8 <= i < 34 ==> IsIdUnit(name[i])
  }

  predicate TokenLegal(token: Text) {
    Unicode.Utf8Length(token) <= MAX_PAGE_TOKEN_BYTES
  }

  /** preflightRunQuery and preflightGetQueryResults: the refusal raised, if any. */
  function Refusal(call: Call): Option<Failure> {
    match call
    case RunQuery(query, timeoutMs, _, pageSize) =>
      if (forall i :: 0 <= i < |query| ==> IsSpace(query[i])) then Some(InvalidQuery)
      else if Unicode.Utf8Length(query) > MAX_QUERY_BYTES then Some(InvalidQuery)
      else if timeoutMs.Some? && !IntegerWithin(timeoutMs.value, MAX_QUERY_TIMEOUT_MS) then Some(InvalidTimeout)
      else if !PageSizeLegal(pageSize) then Some(InvalidPageSize)
      else None
    case GetQueryResults(name, token, pageSize) =>
      if !IsQueryName(name) then Some(InvalidQuery)
      else if token.Some? && token.value != [] && !TokenLegal(token.value) then Some(InvalidPageToken)
      else if !PageSizeLegal(pageSize) then Some(InvalidPageSize)
      else None
  }

  // ----- Checks on what came back -----

  /** validateQueryResponse. */
  predicate BodyLegal(body: Body) {
    && (body.state == RUNNING || body.state == SUCCEEDED || body.state == FAILED)
    && (body.name != [] ==> IsQueryName(body.name))
    && (body.state == RUNNING ==> body.name != [])
    && (forall i :: 0 <= i < |body.rows| ==> body.rows[i].ObjectRow?)
    && (body.state != SUCCEEDED ==> body.rows == [])
    && TokenLegal(body.token)
    && (body.token != [] ==> body.state == SUCCEEDED && body.name != [])
    && body.schemaLegal
    && (body.totalRows.Some? ==> IntegerWithin(body.totalRows.value, MAX_SAFE_INTEGER))
  }

  /** runQuery and getQueryResults once the request is on its way. */
  function Received(reply: Reply): Result<Body> {
    match reply
    case Lost(code) => Failure(Network(code))
    case Answered(body) => if BodyLegal(body) then Success(body) else Failure(InvalidResponse)
  }

  predicate IsRunning(reply: Reply) {
    reply.Answered? && BodyLegal(reply.body) && reply.body.state == RUNNING
  }

  /** requireSucceeded after a validated answer. */
  function Settled(reply: Reply): Result<Body> {
    match Received(reply)
    case Failure(error) => Failure(error)
    case Success(body) =>
      if body.state == SUCCEEDED then Success(body)
      else if body.state == FAILED then Failure(QueryFailed)
      else Failure(InvalidResponse)
  }

  // ----- Run and poll -----

  function FirstCall(options: Options): Call {
    RunQuery(options.query, options.timeoutMs, if options.dryRun then Some(true) else None, options.pageSize)
  }

  /** Poll i asks, after an answer still running, for the name that answer carried. */
  predicate IsPoll(server: nat -> Reply, aborted: nat -> bool, options: Options, i: nat, call: Call)
    requires i >= 1
  {
    && IsRunning(server(i - 1)) && !aborted(i)
    && call == GetQueryResults(server(i - 1).body.name, None, options.pageSize)
  }

  /**
    `query` up to the settled answer: `server(i)` answers call i, `aborted(p)` is the abort
    signal in the wait before poll p. `sent` lists the calls that left the SDK.
   */
  method RunAndPoll(server: nat -> Reply, aborted: nat -> bool, options: Options)
    returns (outcome: Result<Body>, sent: seq<Call>)
    ensures Refusal(FirstCall(options)).Some? ==> sent == [] && outcome == Failure(Refusal(FirstCall(options)).value)
    ensures Refusal(FirstCall(options)).None? ==> 1 <= |sent| <= 1_001 && sent[0] == FirstCall(options)
    ensures FirstCall(options)
         == RunQuery(options.query, options.timeoutMs, if options.dryRun then Some(true) else None, options.pageSize)
    ensures forall i :: 1 <= i < |sent| ==> IsPoll(server, aborted, options, i, sent[i])
    ensures forall i :: 0 <= i < |sent| ==> Refusal(sent[i]).None?
    ensures outcome.Failure? && outcome.error.IsRefusal() ==> sent == []
    ensures sent != [] && !IsRunning(server(|sent| - 1)) ==> outcome == Settled(server(|sent| - 1))
    ensures sent != [] && IsRunning(server(|sent| - 1)) ==>
              if |sent| == 1_001 then outcome == Failure(PollLimit)
              else aborted(|sent|) && outcome == Failure(Aborted)
  {
    var first := FirstCall(options);
    if Refusal(first).Some? {
      return Failure(Refusal(first).value), [];
    }
    sent := [first];
    var latest := Received(server(0));
    if latest.Failure? {
      return Failure(latest.error), sent;
    }
    var polls: nat := 0;
    while latest.value.state == RUNNING
      invariant polls <= MAX_QUERY_POLLS && |sent| == polls + 1
      invariant sent[0] == first
      invariant forall i :: 1 <= i < |sent| ==> IsPoll(server, aborted, options, i, sent[i])
      invariant forall i :: 0 <= i < |sent| ==> Refusal(sent[i]).None?
      invariant latest.Success? && latest == Received(server(polls))
      decreases MAX_QUERY_POLLS - polls
    {
      if polls + 1 > MAX_QUERY_POLLS {
        return Failure(PollLimit), sent;
      }
      polls := polls + 1;
      if aborted(polls) {
        return Failure(Aborted), sent;
      }
      var call := GetQueryResults(latest.value.name, None, options.pageSize);
      assert IsPoll(server, aborted, options, polls, call);
      if Refusal(call).Some? {
        assert false; // the name comes from a validated answer
      }
      sent := sent + [call];
      latest := Received(server(polls));
      if latest.Failure? {
        return Failure(latest.error), sent;
      }
    }
    return Settled(server(polls)), sent;
  }

  // ----- Rows of a settled query -----

  /** The rows after page `pages` is read out, and how they end: None is a normal end. */
  function Walk(server: nat -> Reply, page: Body, seen: set<Text>, pages: nat): (seq<Row>, Option<Failure>)
    requires 1 <= pages
    decreases MAX_PAGES - pages
  {
    if page.token == [] then ([], None)
    else if page.token in seen then ([], Some(RepeatedCursor))
    else
      match Settled(server(pages - 1))
      case Failure(error) => ([], Some(error))
      case Success(next) =>
        if pages + 1 > MAX_PAGES then ([], Some(PaginationLimit))
        else
          var (rows, end) := Walk(server, next, seen + {page.token}, pages + 1);
          (next.rows + rows, end)
  }

  /** What is still to come from row `index` of a page. */
  function Left(server: nat -> Reply, page: Body, index: nat, seen: set<Text>, pages: nat): (seq<Row>, Option<Failure>)
    requires 1 <= pages
  {
    var (rows, end) := Walk(server, page, seen, pages);
    (Rest(page.rows, index) + rows, end)
  }

  /** All rows of a settled query, and how reading them ends. */
  function Stream(server: nat -> Reply, body: Body): (seq<Row>, Option<Failure>) {
    Left(server, body, 0, {}, 1)
  }

  lemma PageSpent(server: nat -> Reply, page: Body, index: nat, seen: set<Text>, pages: nat)
    requires 1 <= pages && index >= |page.rows|
    ensures Left(server, page, index, seen, pages) == Walk(server, page, seen, pages)
  {
    var rows := Walk(server, page, seen, pages).0;
    assert [] + rows == rows;
  }

  function TokenOf(reply: Reply): Text {
    if reply.Answered? then reply.body.token else []
  }

  /** The rows of n answers to page requests, the first of them answer `from`. */
  function RowsOf(server: nat -> Reply, from: nat, n: nat): seq<Row>
    decreases n
  {
    if n == 0 then []
    else (if server(from).Answered? then server(from).body.rows else []) + RowsOf(server, from + 1, n - 1)
  }

  /** Whether page `pages` is followed by another. */
  predicate Continues(server: nat -> Reply, page: Body, seen: set<Text>, pages: nat)
    requires 1 <= pages
  {
    page.token != [] && page.token !in seen && Settled(server(pages - 1)).Success? && pages < MAX_PAGES
  }

  /** How many pages follow page `pages`. */
  function PagesAfter(server: nat -> Reply, page: Body, seen: set<Text>, pages: nat): nat
    requires 1 <= pages
    decreases MAX_PAGES - pages
  {
    if !Continues(server, page, seen, pages) then 0
    else 1 + PagesAfter(server, Settled(server(pages - 1)).value, seen + {page.token}, pages + 1)
  }

  /** The rows after a page are those of the answers that follow, whole and in order, all of them successes. */
  lemma {:induction false} WalkIsPages(server: nat -> Reply, page: Body, seen: set<Text>, pages: nat)
    requires 1 <= pages <= MAX_PAGES
    ensures var n := PagesAfter(server, page, seen, pages);
            && pages + n <= MAX_PAGES
            && Walk(server, page, seen, pages).0 == RowsOf(server, pages - 1, n)
            && forall i :: pages - 1 <= i < pages - 1 + n ==> Settled(server(i)).Success?
    decreases MAX_PAGES - pages
  {
    if Continues(server, page, seen, pages) {
      WalkIsPages(server, Settled(server(pages - 1)).value, seen + {page.token}, pages + 1);
    }
  }

  /** The last of a page and the n answers that follow it. */
  function LastOf(server: nat -> Reply, page: Body, pages: nat, n: nat): Reply
    requires 1 <= pages
  {
    if n == 0 then Answered(page) else server(pages + n - 2)
  }

  lemma LastStep(server: nat -> Reply, page: Body, pages: nat, next: Body, n: nat)
    requires 1 <= pages && server(pages - 1) == Answered(next)
    ensures LastOf(server, page, pages, n + 1) == LastOf(server, next, pages + 1, n)
  {
  }

  lemma WalkStep(server: nat -> Reply, page: Body, seen: set<Text>, pages: nat)
    requires 1 <= pages && Continues(server, page, seen, pages)
    ensures var next := Settled(server(pages - 1)).value;
            && server(pages - 1) == Answered(next)
            && Walk(server, page, seen, pages).1 == Walk(server, next, seen + {page.token}, pages + 1).1
            && PagesAfter(server, page, seen, pages) == PagesAfter(server, next, seen + {page.token}, pages + 1) + 1
  {
  }

  lemma WalkStops(server: nat -> Reply, page: Body, seen: set<Text>, pages: nat)
    requires 1 <= pages <= MAX_PAGES && !Continues(server, page, seen, pages)
    ensures PagesAfter(server, page, seen, pages) == 0
    ensures Walk(server, page, seen, pages).1.None? <==> page.token == []
  {
  }

  /** Reading ends without an error exactly when the last page carries no continuation token. */
  lemma {:induction false} WalkEndsIff(server: nat -> Reply, page: Body, seen: set<Text>, pages: nat)
    requires 1 <= pages <= MAX_PAGES
    ensures Walk(server, page, seen, pages).1.None? <==>
            TokenOf(LastOf(server, page, pages, PagesAfter(server, page, seen, pages))) == []
    decreases MAX_PAGES - pages
  {
    if Continues(server, page, seen, pages) {
      var next, more := Settled(server(pages - 1)).value, seen + {page.token};
      WalkStep(server, page, seen, pages);
      WalkEndsIff(server, next, more, pages + 1);
      LastStep(server, page, pages, next, PagesAfter(server, next, more, pages + 1));
    } else {
      WalkStops(server, page, seen, pages);
    }
  }

  /** Reading on to the next page changes nothing about what is to come. */
  lemma TurnPage(server: nat -> Reply, page: Body, index: nat, seen: set<Text>, pages: nat)
    requires 1 <= pages < MAX_PAGES && index >= |page.rows|
    requires page.token != [] && page.token !in seen && Settled(server(pages - 1)).Success?
    ensures Left(server, page, index, seen, pages)
         == Left(server, Settled(server(pages - 1)).value, 0, seen + {page.token}, pages + 1)
  {
    var next := Settled(server(pages - 1)).value;
    RestIsSuffix(next.rows, 0);
    assert next.rows[0..] == next.rows;
    var later := Walk(server, next, seen + {page.token}, pages + 1);
    assert Walk(server, page, seen, pages) == (next.rows + later.0, later.1);
    assert Rest(page.rows, index) + (next.rows + later.0) == next.rows + later.0;
  }

  /** Handing out one row moves it from what is left to what was yielded. */
  lemma TakeRow(server: nat -> Reply, page: Body, index: nat, seen: set<Text>, pages: nat, yielded: seq<Row>)
    requires 1 <= pages && index < |page.rows|
    ensures Left(server, page, index, seen, pages).1 == Left(server, page, index + 1, seen, pages).1
    ensures yielded + Left(server, page, index, seen, pages).0
         == yielded + [page.rows[index]] + Left(server, page, index + 1, seen, pages).0
  {
    var rest := Rest(page.rows, index + 1);
    var later := Walk(server, page, seen, pages).0;
    assert ([page.rows[index]] + rest) + later == [page.rows[index]] + (rest + later);
  }

  /** No reading ends in a refused request or in a token without a query name. */
  lemma {:induction false} EndIsNoRefusal(server: nat -> Reply, page: Body, seen: set<Text>, pages: nat)
    requires 1 <= pages
    ensures var end := Walk(server, page, seen, pages).1;
            end.Some? ==> !end.value.IsRefusal() && !end.value.TokenWithoutName?
    decreases MAX_PAGES - pages
  {
    if page.token != [] && page.token !in seen && Settled(server(pages - 1)).Success? && pages < MAX_PAGES {
      EndIsNoRefusal(server, Settled(server(pages - 1)).value, seen + {page.token}, pages + 1);
    }
  }

  datatype Stage = Suspended | Reading(page: Body, index: nat, seen: set<Text>, pages: nat) | Finished

  /** One generator: where it stopped, and the rows it has yielded. */
  datatype Rows = Rows(stage: Stage, yielded: seq<Row>)

  /** What follows the last row of a page. */
  datatype Turn = Fresh(page: Body) | Over(end: Option<Failure>)

  datatype Pull = Yielded(row: Row) | Done | Threw(error: Failure)

  /** A succeeded query. The first page is handed to the first iterator that runs, and to no other. */
  class TableQueryResult {
    const ingest: nat -> Reply
    const queryName: Option<Text>
    const pageSize: Option<real>
    const body: Body
    var firstPage: Option<Body>
    var iterators: seq<Rows>
    ghost var owner: nat
    ghost var tokens: seq<Text>
    ghost var sent: seq<Call>

    /** No page is asked for twice, and none of the requests is one the SDK refuses. */
    ghost predicate Requests()
      reads this
    {
      && |sent| == |tokens| <= MAX_PAGES && Distinct(tokens)
      && forall i :: 0 <= i < |sent| ==> tokens[i] == TokenOf(PageAt(i)) && IsPageRequest(sent[i], tokens[i])
    }

    /** Page i of the result: the settled answer, then what the page requests brought. */
    function PageAt(i: nat): Reply {
      if i == 0 then Answered(body) else ingest(i - 1)
    }

    predicate IsPageRequest(call: Call, token: Text) {
      queryName.Some? && call == GetQueryResults(queryName.value, Some(token), pageSize) && Refusal(call).None?
    }

    ghost predicate AtPage(page: Body, seen: set<Text>, pages: nat)
      reads this
    {
      && BodyLegal(page) && PageAt(|tokens|) == Answered(page) && (queryName.None? ==> page.token == [])
      && seen == Elements(tokens) && |tokens| + 1 == pages <= MAX_PAGES
    }

    ghost predicate Owns(rows: Rows)
      reads this
    {
      match rows.stage
      case Suspended => false
      case Finished => rows.yielded == Stream(ingest, body).0
      case Reading(page, index, seen, pages) =>
        AtPage(page, seen, pages) && Joins(rows.yielded, Left(ingest, page, index, seen, pages))
    }

    /** What was yielded and what is left make up the whole. */
    ghost predicate Joins(yielded: seq<Row>, left: (seq<Row>, Option<Failure>)) {
      yielded + left.0 == Stream(ingest, body).0 && left.1 == Stream(ingest, body).1
    }

    ghost predicate Made() {
      && BodyLegal(body) && body.state == SUCCEEDED && PageSizeLegal(pageSize)
      && queryName == (if body.name == [] then None else Some(body.name))
    }

    /** Every iterator but k has yielded nothing and holds no page. */
    ghost predicate OnlyReader(k: nat)
      reads this
    {
      forall j :: 0 <= j < |iterators| && j != k ==> !iterators[j].stage.Reading? && iterators[j].yielded == []
    }

    ghost predicate Valid()
      reads this
    {
      && Made() && Requests()
      && (if firstPage.Some?
          then firstPage == Some(body) && tokens == []
               && forall k :: 0 <= k < |iterators| ==> iterators[k] == Rows(Suspended, [])
          else owner < |iterators| && Owns(iterators[owner]) && OnlyReader(owner))
    }

    constructor (ingest: nat -> Reply, body: Body, pageSize: Option<real>)
      requires BodyLegal(body) && body.state == SUCCEEDED && PageSizeLegal(pageSize)
      ensures Valid() && iterators == [] && firstPage == Some(body)
      ensures this.ingest == ingest && this.body == body && this.pageSize == pageSize
    {
      this.ingest, this.body, this.pageSize := ingest, body, pageSize;
      queryName := if body.name == [] then None else Some(body.name);
      firstPage, iterators, owner, tokens, sent := Some(body), [], 0, [], [];
    }

    /** rows(): a new generator, not yet running. */
    method Open() returns (k: nat)
      requires Valid()
      modifies this
      ensures Valid() && k == |old(iterators)| && iterators == old(iterators) + [Rows(Suspended, [])]
      ensures firstPage == old(firstPage) && sent == old(sent)
    {
      k := |iterators|;
      iterators := iterators + [Rows(Suspended, [])];
    }

    /** Whether iterator k reads the pages: it already does, or it is the first to run. */
    predicate Reads(k: nat)
      reads this
      requires k < |iterators|
    {
      iterators[k].stage.Reading? || (iterators[k].stage.Suspended? && firstPage.Some?)
    }

    /** What the stream holds after the rows already yielded. */
    ghost function Expected(yielded: seq<Row>): Pull {
      var (rows, end) := Stream(ingest, body);
      if |yielded| < |rows| then Yielded(rows[|yielded|]) else if end.None? then Done else Threw(end.value)
    }

    /** One pull of iterator k, in any order with pulls of the others. */
    method Next(k: nat) returns (pull: Pull)
      requires Valid() && k < |iterators|
      modifies this
      ensures Valid() && |iterators| == |old(iterators)|
      ensures forall j :: 0 <= j < |iterators| && j != k ==> iterators[j] == old(iterators[j])
      ensures pull == if old(Reads(k)) then Expected(old(iterators[k].yielded))
                      else if old(iterators[k].stage).Suspended? then Threw(ResultConsumed) else Done
      ensures iterators[k].yielded == old(iterators[k].yielded) + (if pull.Yielded? then [pull.row] else [])
      ensures !pull.Yielded? ==> iterators[k].stage.Finished?
      ensures !(pull.Threw? && (pull.error.IsRefusal() || pull.error.TokenWithoutName?))
    {
      var yielded := iterators[k].yielded;
      var page: Body, index: nat, seen: set<Text>, pages: nat;
      match iterators[k].stage {
        case Finished =>
          return Done;
        case Suspended =>
          if firstPage.None? {
            iterators := iterators[k := Rows(Finished, yielded)];
            return Threw(ResultConsumed);
          }
          page, index, seen, pages := firstPage.value, 0, {}, 1;
          firstPage := None;
          owner := k;
        case Reading(p, i, s, n) =>
          page, index, seen, pages := p, i, s, n;
      }
      pull := Read(k, page, index, seen, pages);
      EndIsNoRefusal(ingest, body, {}, 1);
    }

    /** The generator body from a page on, up to its next yield, return or throw. */
    method Read(k: nat, first: Body, from: nat, seenBefore: set<Text>, pagesBefore: nat) returns (pull: Pull)
      requires Made() && Requests() && firstPage.None? && owner == k < |iterators| && OnlyReader(k)
      requires AtPage(first, seenBefore, pagesBefore)
      requires Joins(iterators[k].yielded, Left(ingest, first, from, seenBefore, pagesBefore))
      modifies this
      ensures Valid() && |iterators| == |old(iterators)|
      ensures forall j :: 0 <= j < |iterators| && j != k ==> iterators[j] == old(iterators[j])
      ensures pull == Expected(old(iterators[k].yielded))
      ensures iterators[k].yielded == old(iterators[k].yielded) + (if pull.Yielded? then [pull.row] else [])
      ensures !pull.Yielded? ==> iterators[k].stage.Finished?
    {
      var turn, index, seen, pages := Seek(first, from, seenBefore, pagesBefore);
      if turn.Over? {
        pull := Leave(k, turn.end);
      } else {
        pull := Yield(k, turn.page, index, seen, pages);
      }
    }

    /** The reading stands at this row of this page, or is over, with `left` still to come. */
    ghost predicate Stands(turn: Turn, index: nat, seen: set<Text>, pages: nat, left: (seq<Row>, Option<Failure>))
      reads this
    {
      match turn
      case Over(end) => left == ([], end)
      case Fresh(page) => AtPage(page, seen, pages) && left == Left(ingest, page, index, seen, pages)
    }

    /** The loop over pages: on to one with a row left to hand out, or to the end. */
    method Seek(first: Body, from: nat, seenBefore: set<Text>, pagesBefore: nat)
      returns (turn: Turn, index: nat, seen: set<Text>, pages: nat)
      requires Made() && Requests() && AtPage(first, seenBefore, pagesBefore)
      modifies this`tokens, this`sent
      ensures Requests()
      ensures Stands(turn, index, seen, pages, Left(ingest, first, from, seenBefore, pagesBefore))
      ensures turn.Fresh? ==> index < |turn.page.rows|
    {
      turn, index, seen, pages := Fresh(first), from, seenBefore, pagesBefore;
      ghost var left := Left(ingest, first, from, seenBefore, pagesBefore);
      while turn.Fresh? && index >= |turn.page.rows|
        invariant Requests() && Stands(turn, index, seen, pages, left)
        decreases turn.Fresh?, MAX_PAGES - pages
      {
        turn, index, seen, pages := Pass(turn.page, index, seen, pages, left);
      }
    }

    /** The loop body: past the last row of a page. */
    method Pass(page: Body, last: nat, before: set<Text>, count: nat, ghost left: (seq<Row>, Option<Failure>))
      returns (turn: Turn, index: nat, seen: set<Text>, pages: nat)
      requires Made() && Requests() && Stands(Fresh(page), last, before, count, left) && last >= |page.rows|
      modifies this`tokens, this`sent
      ensures Requests() && Stands(turn, index, seen, pages, left)
      ensures turn.Fresh? ==> count < pages <= MAX_PAGES
    {
      turn := NextPage(page, last, before, count);
      index, seen, pages := 0, before + {page.token}, count + 1;
    }

    /** The generator yields row `index` of its page and stops there. */
    method Yield(k: nat, page: Body, index: nat, seen: set<Text>, pages: nat) returns (pull: Pull)
      requires Made() && Requests() && firstPage.None? && owner == k < |iterators| && OnlyReader(k)
      requires AtPage(page, seen, pages) && index < |page.rows|
      requires Joins(iterators[k].yielded, Left(ingest, page, index, seen, pages))
      modifies this`iterators
      ensures Valid() && |iterators| == |old(iterators)|
      ensures forall j :: 0 <= j < |iterators| && j != k ==> iterators[j] == old(iterators[j])
      ensures pull == Expected(old(iterators[k].yielded)) && pull.Yielded?
      ensures iterators[k].yielded == old(iterators[k].yielded) + [pull.row]
    {
      var yielded := iterators[k].yielded;
      TakeRow(ingest, page, index, seen, pages, yielded);
      iterators := iterators[k := Rows(Reading(page, index + 1, seen, pages), yielded + [page.rows[index]])];
      pull := Yielded(page.rows[index]);
    }

    /** After the last row of a page: the next page, or how the reading ends. */
    method NextPage(page: Body, index: nat, seen: set<Text>, pages: nat) returns (turn: Turn)
      requires Made() && Requests() && AtPage(page, seen, pages) && index >= |page.rows|
      modifies this`tokens, this`sent
      ensures Requests()
      ensures turn.Over? ==> Left(ingest, page, index, seen, pages) == ([], turn.end)
      ensures turn.Fresh? ==>
                && AtPage(turn.page, seen + {page.token}, pages + 1)
                && Left(ingest, page, index, seen, pages) == Left(ingest, turn.page, 0, seen + {page.token}, pages + 1)
    {
      PageSpent(ingest, page, index, seen, pages);
      if page.token == [] {
        return Over(None);
      }
      if queryName.None? {
        assert false; // a page with a continuation token has a query name
      }
      if page.token in seen {
        return Over(Some(RepeatedCursor));
      }
      var answer := Request(page.token, pages - 1);
      if answer.Failure? {
        return Over(Some(answer.error));
      }
      if pages + 1 > MAX_PAGES {
        return Over(Some(PaginationLimit));
      }
      TurnPage(ingest, page, index, seen, pages);
      return Fresh(answer.value);
    }

    /** The generator returns, or throws `error`, with nothing left to come. */
    method Leave(k: nat, error: Option<Failure>) returns (pull: Pull)
      requires Made() && Requests() && firstPage.None? && owner == k < |iterators| && OnlyReader(k)
      requires Joins(iterators[k].yielded, ([], error))
      modifies this
      ensures Valid() && |iterators| == |old(iterators)|
      ensures forall j :: 0 <= j < |iterators| && j != k ==> iterators[j] == old(iterators[j])
      ensures pull == Expected(old(iterators[k].yielded)) && !pull.Yielded?
      ensures iterators[k] == Rows(Finished, old(iterators[k].yielded))
    {
      iterators := iterators[k := Rows(Finished, iterators[k].yielded)];
      assert iterators[k].yielded + [] == iterators[k].yielded;
      return if error.None? then Done else Threw(error.value);
    }

    /** Ask for the page after `token`; the check before sending always passes. */
    method Request(token: Text, number: nat) returns (answer: Result<Body>)
      requires Made() && Requests() && queryName.Some? && number == |tokens| < MAX_PAGES
      requires token != [] && TokenLegal(token) && token !in Elements(tokens) && token == TokenOf(PageAt(|tokens|))
      modifies this`tokens, this`sent
      ensures Requests() && tokens == old(tokens) + [token]
      ensures answer == Settled(ingest(number)) && Elements(tokens) == old(Elements(tokens)) + {token}
    {
      var call := GetQueryResults(queryName.value, Some(token), pageSize);
      if Refusal(call).Some? {
        assert false; // name, token and page size were all checked
      }
      DistinctSnoc(tokens, token);
      answer := Settled(ingest(number));
      sent, tokens := sent + [call], tokens + [token];
    }
  }

  /** `query`: a result object exactly when the settled answer is a success. */
  method Query(server: nat -> Reply, aborted: nat -> bool, options: Options, pages: nat -> Reply)
    returns (result: Result<TableQueryResult>, sent: seq<Call>)
    ensures result.Success? ==>
              && sent != [] && Settled(server(|sent| - 1)) == Success(result.value.body)
              && fresh(result.value) && result.value.Valid() && result.value.firstPage == Some(result.value.body)
              && result.value.ingest == pages && result.value.pageSize == options.pageSize
    ensures result.Failure? ==> sent == [] || IsRunning(server(|sent| - 1)) || Settled(server(|sent| - 1)).Failure?
  {
    var outcome;
    outcome, sent := RunAndPoll(server, aborted, options);
    if outcome.Failure? {
      return Failure(outcome.error), sent;
    }
    assert Refusal(sent[0]).None?;
    var table := new TableQueryResult(pages, outcome.value, options.pageSize);
    return Success(table), sent;
  }

  /**
    Any interleaving of any number of iterators: `schedule` says which one is pulled next, a
    number not yet in use opening another. At most one of them yields rows, and what it yields
    is a prefix of the result.
   */
  method Interleave(result: TableQueryResult, schedule: seq<nat>)
    requires result.Valid()
    modifies result
    ensures result.Valid()
    ensures forall j, k :: 0 <= j < k < |result.iterators| ==>
              result.iterators[j].yielded == [] || result.iterators[k].yielded == []
    ensures forall k :: 0 <= k < |result.iterators| ==>
              result.iterators[k].yielded <= Stream(result.ingest, result.body).0
    ensures |result.sent| <= 10_000
    ensures forall i :: 0 <= i < |result.sent| ==>
              result.IsPageRequest(result.sent[i], TokenOf(result.PageAt(i)))
    ensures forall i, j :: 0 <= i < j < |result.sent| ==> result.sent[i] != result.sent[j]
  {
    for step := 0 to |schedule|
      invariant result.Valid()
    {
      if schedule[step] < |result.iterators| {
        var pull := result.Next(schedule[step]);
      } else {
        var k := result.Open();
      }
    }
    OneReader(result);
    RequestsExact(result);
  }

  lemma OneReader(result: TableQueryResult)
    requires result.Valid()
    ensures forall j, k :: 0 <= j < k < |result.iterators| ==>
              result.iterators[j].yielded == [] || result.iterators[k].yielded == []
    ensures forall k :: 0 <= k < |result.iterators| ==>
              result.iterators[k].yielded <= Stream(result.ingest, result.body).0
  {
    var whole := Stream(result.ingest, result.body).0;
    forall k | 0 <= k < |result.iterators| ensures result.iterators[k].yielded <= whole {
      var rows := result.iterators[k];
      if result.firstPage.None? && k == result.owner {
        assert result.Owns(rows);
      } else {
        assert rows.yielded == [];
      }
    }
  }

  lemma RequestsExact(result: TableQueryResult)
    requires result.Requests()
    ensures forall i :: 0 <= i < |result.sent| ==>
              result.IsPageRequest(result.sent[i], TokenOf(result.PageAt(i)))
    ensures forall i, j :: 0 <= i < j < |result.sent| ==> result.sent[i] != result.sent[j]
  {
    assert forall i :: 0 <= i < |result.tokens| ==> result.tokens[i] == TokenOf(result.PageAt(i));
    forall i, j | 0 <= i < j < |result.sent| ensures result.sent[i] != result.sent[j] {
      assert result.tokens[i] != result.tokens[j];
    }
  }
}
