/** The checks and endings of QueryMachine, listed case by case. */
module QueryFacts {
  import opened Common
  import opened Cursors
  import opened QueryMachine
  import Unicode

  // ----- Legal requests -----

  predicate IsWhole(value: real, n: nat) {
    value == n as real
  }

  /** A JavaScript number that is a whole number up to `most`. */
  ghost predicate WholeUpTo(value: real, most: nat) {
    exists n: nat :: n <= most && IsWhole(value, n)
  }

  lemma IntegerIff(value: real, most: nat)
    ensures IntegerWithin(value, most as real) <==> WholeUpTo(value, most)
  {
    if IntegerWithin(value, most as real) {
      var n: nat := value.Floor;
      assert n <= most && IsWhole(value, n);
    }
  }

  /** Crockford's 32 digits in lower case. */
  const ID_UNITS: Text := Units("0123456789") + Units("abcdefgh") + Units("jkmn") + Units("pqrst") + Units("vwxyz")

  lemma InRun(text: Text, first: Unit, u: Unit)
    requires forall i :: 0 <= i < |text| ==> text[i] == first + i
    ensures u in text <==> first <= u < first + |text|
  {
    if first <= u < first + |text| {
      assert text[u - first] == u;
    }
  }

  lemma IdUnitIff(u: Unit)
    ensures IsIdUnit(u) <==> u in ID_UNITS
  {
    InRun(Units("0123456789"), 0x30, u);
    InRun(Units("abcdefgh"), 0x61, u);
    InRun(Units("pqrst"), 0x70, u);
    InRun(Units("vwxyz"), 0x76, u);
    assert Units("jkmn") == [0x6A, 0x6B, 0x6D, 0x6E];
  }

  /** A query name is "queries/" and 26 of those digits. */
  lemma QueryNameIff(name: Text)
    ensures IsQueryName(name) <==>
            exists id: Text :: name == Units("queries/") + id && |id| == 26 && forall u :: u in id ==> u in ID_UNITS
  {
    assert QUERIES == Units("queries/");
    if IsQueryName(name) {
      var id := name[8..];
      assert name == QUERIES + id;
      forall u | u in id ensures u in ID_UNITS {
        var i :| 0 <= i < |id| && id[i] == u;
        assert id[i] == name[i + 8];
        IdUnitIff(u);
      }
    }
    forall id: Text | name == QUERIES + id && |id| == 26 && forall u :: u in id ==> u in ID_UNITS
      ensures IsQueryName(name)
    {
      assert name[..8] == QUERIES;
      forall i | 8 <= i < 34 ensures IsIdUnit(name[i]) {
        assert name[i] == id[i - 8] && id[i - 8] in id;
        IdUnitIff(name[i]);
      }
    }
  }

  /** The white space and line terminators of sections 12.2 and 12.3 of ECMA-262. */
  lemma SpaceListed(u: Unit)
    ensures IsSpace(u) <==>
            u in {0x09, 0x0A, 0x0B, 0x0C, 0x0D, 0x20, 0xA0, 0x1680, 0x2028, 0x2029, 0x202F, 0x205F, 0x3000, 0xFEFF,
                  0x2000, 0x2001, 0x2002, 0x2003, 0x2004, 0x2005, 0x2006, 0x2007, 0x2008, 0x2009, 0x200A}
  {
  }

  /** What keeps a query from being sent, the first reason deciding. */
  lemma RunRefusals(query: Text, timeoutMs: Option<real>, dryRun: Option<bool>, pageSize: Option<real>)
    ensures var refusal := Refusal(RunQuery(query, timeoutMs, dryRun, pageSize));
            var blank := forall u :: u in query ==> IsSpace(u);
            var long := Unicode.Utf8Length(query) > 262_144;
            var badTime := timeoutMs.Some? && !WholeUpTo(timeoutMs.value, 600_000);
            var badSize := pageSize.Some? && !WholeUpTo(pageSize.value, 100_000);
            && (refusal == Some(InvalidQuery) <==> blank || long)
            && (refusal == Some(InvalidTimeout) <==> !blank && !long && badTime)
            && (refusal == Some(InvalidPageSize) <==> !blank && !long && !badTime && badSize)
            && (refusal == None <==> !blank && !long && !badTime && !badSize)
  {
    if timeoutMs.Some? {
      IntegerIff(timeoutMs.value, 600_000);
    }
    if pageSize.Some? {
      IntegerIff(pageSize.value, 100_000);
    }
    assert (forall u :: u in query ==> IsSpace(u)) <==> (forall i :: 0 <= i < |query| ==> IsSpace(query[i]));
  }

  lemma PageRefusals(name: Text, token: Option<Text>, pageSize: Option<real>)
    ensures var refusal := Refusal(GetQueryResults(name, token, pageSize));
            var badName := !IsQueryName(name);
            var badToken := token.Some? && Unicode.Utf8Length(token.value) > 4_096;
            var badSize := pageSize.Some? && !WholeUpTo(pageSize.value, 100_000);
            && (refusal == Some(InvalidQuery) <==> badName)
            && (refusal == Some(InvalidPageToken) <==> !badName && badToken)
            && (refusal == Some(InvalidPageSize) <==> !badName && !badToken && badSize)
            && (refusal == None <==> !badName && !badToken && !badSize)
  {
    if pageSize.Some? {
      IntegerIff(pageSize.value, 100_000);
    }
  }

  // ----- Legal answers -----

  /** What holds of every legal answer, whatever its state. */
  ghost predicate SoundTotals(body: Body) {
    body.schemaLegal && (body.totalRows.Some? ==> WholeUpTo(body.totalRows.value, 0x1F_FFFF_FFFF_FFFF))
  }

  lemma TotalsIff(body: Body)
    ensures SoundTotals(body) <==>
            body.schemaLegal && (body.totalRows.Some? ==> IntegerWithin(body.totalRows.value, MAX_SAFE_INTEGER))
  {
    if body.totalRows.Some? {
      IntegerIff(body.totalRows.value, 0x1F_FFFF_FFFF_FFFF);
    }
  }

  lemma States()
    ensures RUNNING == Units("RUNNING") && SUCCEEDED == Units("SUCCEEDED") && FAILED == Units("FAILED")
    ensures |RUNNING| == 7 && |SUCCEEDED| == 9 && |FAILED| == 6
  {
  }

  /** A running query has a name and nothing to read; a failed one may lack the name. */
  lemma UnsettledIff(body: Body)
    ensures body.state == Units("RUNNING") ==>
              (BodyLegal(body) <==> IsQueryName(body.name) && body.rows == [] && body.token == [] && SoundTotals(body))
    ensures body.state == Units("FAILED") ==>
              (BodyLegal(body) <==>
               (body.name == [] || IsQueryName(body.name)) && body.rows == [] && body.token == [] && SoundTotals(body))
  {
    States();
    TotalsIff(body);
  }

  /** A succeeded query has rows that are objects, and with a token for more it has a name to ask by. */
  lemma SucceededIff(body: Body)
    requires body.state == Units("SUCCEEDED")
    ensures BodyLegal(body) <==>
            && (if body.name == [] then body.token == [] else IsQueryName(body.name))
            && (forall row :: row in body.rows ==> row.ObjectRow?)
            && Unicode.Utf8Length(body.token) <= 4_096 && SoundTotals(body)
  {
    States();
    TotalsIff(body);
    assert (forall row :: row in body.rows ==> row.ObjectRow?) <==>
           forall i :: 0 <= i < |body.rows| ==> body.rows[i].ObjectRow?;
  }

  /** What an answer settles, once it is not awaited any more. */
  lemma SettledIs(reply: Reply)
    ensures reply.Lost? ==> Settled(reply) == Failure(Network(reply.code))
    ensures reply.Answered? && !BodyLegal(reply.body) ==> Settled(reply) == Failure(InvalidResponse)
    ensures reply.Answered? && BodyLegal(reply.body) ==>
              Settled(reply) == if reply.body.state == Units("SUCCEEDED") then Success(reply.body)
                                else if reply.body.state == Units("FAILED") then Failure(QueryFailed)
                                else Failure(InvalidResponse)
    ensures IsRunning(reply) <==> reply.Answered? && BodyLegal(reply.body) && reply.body.state == Units("RUNNING")
    ensures reply.Answered? && BodyLegal(reply.body) ==>
              reply.body.state in {Units("RUNNING"), Units("SUCCEEDED"), Units("FAILED")}
  {
    States();
  }

  // ----- Why reading ends -----

  /** The tokens of a page and the n - 1 answers that follow it. */
  ghost function TokensOf(server: nat -> Reply, page: Body, pages: nat, n: nat): set<Text>
    requires 1 <= pages
  {
    if n == 0 then {} else TokensOf(server, page, pages, n - 1) + {TokenOf(LastOf(server, page, pages, n - 1))}
  }

  lemma {:induction false} TokensStep(server: nat -> Reply, page: Body, pages: nat, next: Body, n: nat)
    requires 1 <= pages && server(pages - 1) == Answered(next)
    ensures TokensOf(server, page, pages, n + 1) == {page.token} + TokensOf(server, next, pages + 1, n)
  {
    if n > 0 {
      TokensStep(server, page, pages, next, n - 1);
      LastStep(server, page, pages, next, n - 1);
    } else {
      assert TokensOf(server, page, pages, 0) == {};
    }
  }

  /** The ending the last page and the answer after it call for, `used` being the tokens already asked for. */
  ghost predicate EndsFor(end: Option<Failure>, token: Text, used: set<Text>, next: Reply, read: nat) {
    if token == [] then end == None
    else if token in used then end == Some(RepeatedCursor)
    else if Settled(next).Failure? then end == Some(Settled(next).error)
    else read == 10_000 && end == Some(PaginationLimit)
  }

  ghost predicate EndsAfter(server: nat -> Reply, page: Body, seen: set<Text>, pages: nat, n: nat, end: Option<Failure>)
    requires 1 <= pages
  {
    EndsFor(end, TokenOf(LastOf(server, page, pages, n)), seen + TokensOf(server, page, pages, n),
            server(pages - 1 + n), pages + n)
  }

  lemma EndStep(server: nat -> Reply, page: Body, seen: set<Text>, pages: nat, next: Body, n: nat, end: Option<Failure>)
    requires 1 <= pages && server(pages - 1) == Answered(next)
    ensures EndsAfter(server, page, seen, pages, n + 1, end)
       <==> EndsAfter(server, next, seen + {page.token}, pages + 1, n, end)
  {
    LastStep(server, page, pages, next, n);
    TokensStep(server, page, pages, next, n);
    assert seen + {page.token} + TokensOf(server, next, pages + 1, n) == seen + TokensOf(server, page, pages, n + 1);
  }

  /**
    After the n pages that follow a page: the last one has no token, or a token already asked
    for, or the request for it fails, or ten thousand pages have been read.
   */
  lemma {:induction false} WalkEndsFor(server: nat -> Reply, page: Body, seen: set<Text>, pages: nat)
    requires 1 <= pages <= MAX_PAGES
    ensures EndsAfter(server, page, seen, pages, PagesAfter(server, page, seen, pages),
                      Walk(server, page, seen, pages).1)
    decreases MAX_PAGES - pages
  {
    if Continues(server, page, seen, pages) {
      var next, more := Settled(server(pages - 1)).value, seen + {page.token};
      WalkStep(server, page, seen, pages);
      WalkEndsFor(server, next, more, pages + 1);
      EndStep(server, page, seen, pages, next, PagesAfter(server, next, more, pages + 1),
              Walk(server, next, more, pages + 1).1);
    } else {
      WalkEndsHere(server, page, seen, pages);
    }
  }

  lemma WalkEndsHere(server: nat -> Reply, page: Body, seen: set<Text>, pages: nat)
    requires 1 <= pages <= MAX_PAGES && !Continues(server, page, seen, pages)
    ensures PagesAfter(server, page, seen, pages) == 0
    ensures EndsAfter(server, page, seen, pages, 0, Walk(server, page, seen, pages).1)
  {
    assert TokensOf(server, page, pages, 0) == {};
  }

  /** A result is the rows of its first page and then those of the pages that follow, all of them settled successes. */
  lemma StreamIsPages(server: nat -> Reply, body: Body)
    ensures var n := PagesAfter(server, body, {}, 1);
            && Stream(server, body).0 == body.rows + RowsOf(server, 0, n)
            && n < 10_000 && forall i :: 0 <= i < n ==> Settled(server(i)).Success?
  {
    WalkIsPages(server, body, {}, 1);
    RestIsSuffix(body.rows, 0);
    assert body.rows[0..] == body.rows;
  }
}
