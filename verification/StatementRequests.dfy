/** What get_statement answers, said over the fields of the request a client sends and of the
    entries in the table: services/kova-ledger/src/server.rs hands the request to the query of
    services/kova-ledger/src/statement.rs. */
module StatementRequests {
  import opened Common
  import opened Ledger
  import opened Cursor
  import opened Statement
  import opened Paging

  // ---- Which entries, which rows, in which order ----------------------------

  /** The entries a request asks for: those of its account, on either side; in its currency, if
      it names one; not before its `from` and not after its `to`, if it has them. */
  predicate Wanted(req: Request, e: Entry) {
    && (e.debit == req.account || e.credit == req.account)
    && (req.currency == "" || e.currency == req.currency)
    && (req.from.Some? ==> req.from.value <= e.createdAt)
    && (req.to.Some? ==> e.createdAt <= req.to.value)
  }

  /** The row shows the entry. */
  predicate Shows(r: Row, e: Entry) {
    && r.entryId == e.id && r.debit == e.debit && r.credit == e.credit
    && r.amount == e.amount && r.currency == e.currency && r.key == e.key
    && r.paymentId == e.paymentId && r.metadata == e.metadata && r.createdAt == e.createdAt
  }

  /** The row is older than a position; of two at the same time, the one whose id has the
      smaller byte where they first differ. */
  ghost predicate OlderThan(r: Row, p: Position) {
    r.createdAt < p.micros || (r.createdAt == p.micros && FirstDifferenceLess(r.entryId, p.id))
  }

  ghost predicate NewestFirst(rows: seq<Row>) {
    forall i, j :: 0 <= i < j < |rows| ==> OlderThan(rows[j], Position(rows[i].createdAt, rows[i].entryId))
  }

  ghost predicate ShowsWanted(r: Row, table: seq<Entry>, req: Request) {
    exists i :: 0 <= i < |table| && Wanted(req, table[i]) && Shows(r, table[i])
  }

  ghost predicate Shown(e: Entry, rows: seq<Row>) {
    exists k :: 0 <= k < |rows| && Shows(rows[k], e)
  }

  /** The positions of the entries a request asks for. */
  ghost function WantedAt(table: seq<Entry>, req: Request): set<nat> {
    set i: nat | i < |table| && Wanted(req, table[i])
  }

  // ---- The query's terms ----------------------------------------------------

  lemma QueryMeansRequest(req: Request, e: Entry)
    requires |req.account| == 16
    ensures Matches(QueryOf(req), e) <==> Wanted(req, e)
    ensures LimitOf(req) == if req.limit == 0 then 20 else req.limit
  {
  }

  lemma RowShowsOnly(r: Row, e: Entry)
    ensures r == RowOf(e) <==> Shows(r, e)
  {
  }

  lemma OlderMeansBefore(r: Row, p: Position)
    ensures OlderThan(r, p) <==> Before(Pos(r), p)
  {
    LexLessMeans(r.entryId, p.id);
  }

  lemma DescendingIsNewestFirst(rows: seq<Row>)
    requires Descending(rows)
    ensures NewestFirst(rows)
  {
    forall i, j | 0 <= i < j < |rows|
      ensures OlderThan(rows[j], Position(rows[i].createdAt, rows[i].entryId))
    {
      OlderMeansBefore(rows[j], Pos(rows[i]));
    }
  }

  lemma FromTableShows(r: Row, table: seq<Entry>, req: Request, bound: Option<Position>)
    requires |req.account| == 16
    ensures FromTable(r, table, QueryOf(req), bound)
            <==> ShowsWanted(r, table, req) && (bound.Some? ==> OlderThan(r, bound.value))
  {
    if bound.Some? {
      OlderMeansBefore(r, bound.value);
    }
    if ShowsWanted(r, table, req) {
      var i :| 0 <= i < |table| && Wanted(req, table[i]) && Shows(r, table[i]);
      RowShowsOnly(r, table[i]);
      QueryMeansRequest(req, table[i]);
    }
  }

  lemma InRowsIsShown(e: Entry, rows: seq<Row>)
    ensures RowOf(e) in rows <==> Shown(e, rows)
  {
    if Shown(e, rows) {
      var k :| 0 <= k < |rows| && Shows(rows[k], e);
      RowShowsOnly(rows[k], e);
    }
  }

  /** There are as many rows as entries asked for. */
  lemma {:induction false} RowsAreCounted(table: seq<Entry>, req: Request)
    requires |req.account| == 16
    ensures |RowsBelow(table, req, None)| == |WantedAt(table, req)|
    decreases |table|
  {
    if |table| == 0 {
      assert WantedAt(table, req) == {};
    } else {
      var n := |table| - 1;
      var e, before := table[n], WantedAt(table[..n], req);
      RowsAreCounted(table[..n], req);
      ConditionsMeanMatches(QueryOf(req), None, e);
      QueryMeansRequest(req, e);
      InsertRowMembers(RowsBelow(table[..n], req, None), RowOf(e));
      assert WantedAt(table, req) == if Wanted(req, e) then before + {n} else before;
    }
  }

  // ---- One call -------------------------------------------------------------

  /** A call is refused, always as an invalid argument, exactly if the account is not sixteen
      bytes, the page is asked to be larger than a hundred rows, or the cursor is not one the
      ledger hands out. */
  lemma ServeRefuses(table: seq<Entry>, req: Request)
    ensures match Serve(table, req)
            case Err(e) => e == InvalidArgument
            case Ok(_) => true
    ensures Serve(table, req).Err?
            <==> |req.account| != 16 || req.limit > 100 || (req.cursor != "" && !IsCursor(req.cursor))
  {
    if req.cursor != "" && IsCursor(req.cursor) {
      var p :| CursorFor(p, req.cursor);
      CursorRoundTrip(p);
    }
    if ParseCursor(req.cursor).Ok? {
      CursorIsCanonical(req.cursor, ParseCursor(req.cursor).value);
      assert CursorFor(ParseCursor(req.cursor).value, req.cursor);
    }
  }

  ghost predicate IsCursor(text: string) {
    exists p: Position :: CursorFor(p, text)
  }

  predicate CursorFor(p: Position, text: string) {
    IsI64(p.micros) && text == CursorText(p)
  }

  /** One page, with the cursor of a position or none: rows for entries asked for that are older
      than the position, newest first and no more than asked for; and if one of those entries
      is left out, the page is full, its last row is newer than every entry left out, and the
      next cursor stands for that row. Otherwise there is no next cursor. */
  lemma OnePage(table: seq<Entry>, req: Request, bound: Option<Position>)
    requires TableOk(table) && |req.account| == 16 && req.limit <= 100 && CursorStandsFor(req.cursor, bound)
    ensures Serve(table, req).Ok?
    ensures var resp, limit := Serve(table, req).value, if req.limit == 0 then 20 else req.limit;
      && NewestFirst(resp.entries) && |resp.entries| <= limit
      && (forall r :: r in resp.entries ==>
            ShowsWanted(r, table, req) && (bound.Some? ==> OlderThan(r, bound.value)))
      && (resp.hasMore <==> LeftOut(table, req, bound, resp.entries))
      && (resp.hasMore ==> |resp.entries| == limit && EndsAt(resp, table, req, bound, resp.entries[limit - 1]))
      && (!resp.hasMore ==> resp.nextCursor == "")
  {
    ServePage(table, req, bound);
    HasMoreMeansUnseen(table, req, bound);
    PageMeans(table, req, bound, RowsBelow(table, req, bound), Serve(table, req).value);
  }

  lemma PageMeans(table: seq<Entry>, req: Request, bound: Option<Position>, rows: seq<Row>, resp: Response)
    requires |req.account| == 16 && Answer(rows, table, QueryOf(req), bound)
    requires resp.entries == Take(rows, LimitOf(req)) && (resp.hasMore <==> |rows| > LimitOf(req))
    requires resp.hasMore ==> CursorStandsFor(resp.nextCursor, Some(Pos(rows[LimitOf(req) - 1])))
    ensures NewestFirst(resp.entries)
    ensures forall r :: r in resp.entries ==>
      ShowsWanted(r, table, req) && (bound.Some? ==> OlderThan(r, bound.value))
    ensures LeftOut(table, req, bound, resp.entries)
            <==> exists i :: 0 <= i < |table| && Matches(QueryOf(req), table[i]) && Under(bound, Pos(RowOf(table[i])))
                   && RowOf(table[i]) !in resp.entries
    ensures resp.hasMore ==> EndsAt(resp, table, req, bound, rows[LimitOf(req) - 1])
  {
    DescendingIsNewestFirst(resp.entries);
    RowsMean(table, req, bound, rows);
    LeftOutMeans(table, req, bound, resp.entries);
    if resp.hasMore {
      PageEnds(table, req, bound, rows, resp, LimitOf(req));
    }
  }

  lemma PageEnds(table: seq<Entry>, req: Request, bound: Option<Position>, rows: seq<Row>, resp: Response, limit: nat)
    requires Descending(rows) && 0 < limit < |rows| && resp.entries == rows[..limit]
    requires forall r :: r in rows <==> ShowsWanted(r, table, req) && (bound.Some? ==> OlderThan(r, bound.value))
    requires CursorStandsFor(resp.nextCursor, Some(Pos(rows[limit - 1])))
    ensures EndsAt(resp, table, req, bound, rows[limit - 1])
  {
    RestIsOlder(rows, limit);
  }

  lemma RowsMean(table: seq<Entry>, req: Request, bound: Option<Position>, rows: seq<Row>)
    requires |req.account| == 16 && Answer(rows, table, QueryOf(req), bound)
    ensures forall r :: r in rows <==> ShowsWanted(r, table, req) && (bound.Some? ==> OlderThan(r, bound.value))
  {
    forall r
      ensures r in rows <==> ShowsWanted(r, table, req) && (bound.Some? ==> OlderThan(r, bound.value))
    {
      FromTableShows(r, table, req, bound);
      AnswerMembers(rows, table, QueryOf(req), bound, r);
    }
  }

  lemma RestIsOlder(rows: seq<Row>, limit: nat)
    requires Descending(rows) && 0 < limit < |rows|
    ensures forall r :: r in rows && r !in rows[..limit] ==> OlderThan(r, Pos(rows[limit - 1]))
  {
    forall r | r in rows && r !in rows[..limit]
      ensures OlderThan(r, Pos(rows[limit - 1]))
    {
      PastPage(rows, limit, r);
      OlderMeansBefore(r, Pos(rows[limit - 1]));
    }
  }

  /** The page ends in this row: the cursor stands for it, and what is left out is older. */
  ghost predicate EndsAt(resp: Response, table: seq<Entry>, req: Request, bound: Option<Position>, last: Row) {
    && CursorStandsFor(resp.nextCursor, Some(Position(last.createdAt, last.entryId)))
    && forall r :: ShowsWanted(r, table, req) && (bound.Some? ==> OlderThan(r, bound.value)) ==>
         r in resp.entries || OlderThan(r, Position(last.createdAt, last.entryId))
  }

  ghost predicate LeftOut(table: seq<Entry>, req: Request, bound: Option<Position>, rows: seq<Row>) {
    exists i :: 0 <= i < |table| && Wanted(req, table[i])
      && (bound.Some? ==> EntryOlder(table[i], bound.value)) && !Shown(table[i], rows)
  }

  ghost predicate EntryOlder(e: Entry, p: Position) {
    e.createdAt < p.micros || (e.createdAt == p.micros && FirstDifferenceLess(e.id, p.id))
  }

  lemma LeftOutMeans(table: seq<Entry>, req: Request, bound: Option<Position>, rows: seq<Row>)
    requires |req.account| == 16
    ensures LeftOut(table, req, bound, rows)
            <==> exists i :: 0 <= i < |table| && Matches(QueryOf(req), table[i]) && Under(bound, Pos(RowOf(table[i])))
                   && RowOf(table[i]) !in rows
  {
    forall i | 0 <= i < |table|
      ensures Matches(QueryOf(req), table[i]) <==> Wanted(req, table[i])
      ensures Under(bound, Pos(RowOf(table[i]))) <==> (bound.Some? ==> EntryOlder(table[i], bound.value))
      ensures RowOf(table[i]) in rows <==> Shown(table[i], rows)
    {
      QueryMeansRequest(req, table[i]);
      InRowsIsShown(table[i], rows);
      if bound.Some? {
        OlderMeansBefore(RowOf(table[i]), bound.value);
      }
    }
  }

  lemma AnswerMembers(rows: seq<Row>, table: seq<Entry>, q: Query, bound: Option<Position>, r: Row)
    requires Answer(rows, table, q, bound)
    ensures r in rows <==> FromTable(r, table, q, bound)
  {
    if FromTable(r, table, q, bound) {
      var i :| 0 <= i < |table| && Matches(q, table[i]) && Under(bound, Pos(r)) && r == RowOf(table[i]);
    }
  }

  // ---- Following the cursors on a fixed table -------------------------------

  /** The rows of so many full pages. */
  function FullPages(calls: nat, limit: nat): (k: nat)
  {
    if calls == 0 then 0 else limit + FullPages(calls - 1, limit)
  }

  lemma {:induction false} FullPagesIsProduct(calls: nat, limit: nat)
    ensures FullPages(calls, limit) == calls * limit
  {
    if calls > 0 {
      FullPagesIsProduct(calls - 1, limit);
      assert calls * limit == limit + (calls - 1) * limit;
    }
  }

  lemma FullPage(table: seq<Entry>, req: Request, bound: Option<Position>, rows: seq<Row>) returns (resp: Response)
    requires TableOk(table) && RequestOk(req) && CursorStandsFor(req.cursor, bound)
    requires rows == RowsBelow(table, req, bound) && |rows| > LimitOf(req)
    ensures Serve(table, req) == Ok(resp) && resp.entries == rows[..LimitOf(req)] && resp.nextCursor != ""
    ensures CursorStandsFor(resp.nextCursor, Some(Pos(rows[LimitOf(req) - 1])))
  {
    ServePage(table, req, bound);
    resp := Serve(table, req).value;
  }

  /** The first k rows came in so many calls, and there are more. */
  predicate CutShort(t: Traversal, rows: seq<Row>, calls: nat, k: nat) {
    t.entries <= rows && |t.entries| == k && !t.ended && t.calls == calls
  }

  /** A page comes first, then what the other calls return. */
  ghost predicate GoesOn(t: Traversal, page: seq<Row>, more: Traversal) {
    t == Traversal(page + more.entries, more.ended, 1 + more.calls)
  }

  lemma OneMorePage(t: Traversal, more: Traversal, rows: seq<Row>, rest: seq<Row>, limit: nat, calls: nat, k: nat)
    requires limit <= |rows| && rest == rows[limit..] && GoesOn(t, rows[..limit], more)
    requires CutShort(more, rest, calls, k)
    ensures CutShort(t, rows, calls + 1, limit + k)
  {
  }

  lemma OneMoreCall(table: seq<Entry>, calls: nat, req: Request, next: Request, rows: seq<Row>, rest: seq<Row>,
                    limit: nat)
    requires calls > 0 && limit <= |rows| && rest == rows[limit..]
    requires GoesOn(Traverse(Copies(table, calls), req), rows[..limit], Traverse(Copies(table, calls - 1), next))
    requires CutShort(Traverse(Copies(table, calls - 1), next), rest, calls - 1, FullPages(calls - 1, limit))
    ensures CutShort(Traverse(Copies(table, calls), req), rows, calls, FullPages(calls, limit))
  {
    var t, more := Traverse(Copies(table, calls), req), Traverse(Copies(table, calls - 1), next);
    OneMorePage(t, more, rows, rest, limit, calls - 1, FullPages(calls - 1, limit));
  }

  lemma NoCalls(table: seq<Entry>, req: Request, rows: seq<Row>)
    ensures CutShort(Traverse(Copies(table, 0), req), rows, 0, 0)
  {
  }

  /** A request whose rows are more than so many calls return. */
  ghost predicate TooFew(table: seq<Entry>, calls: nat, req: Request, bound: Option<Position>, rows: seq<Row>,
                         limit: nat)
  {
    && TableOk(table) && RequestOk(req) && CursorStandsFor(req.cursor, bound) && limit == LimitOf(req)
    && rows == RowsBelow(table, req, bound) && |rows| > FullPages(calls, limit)
  }

  /** Its first call, and the calls after it. */
  lemma FullPageThenRest(table: seq<Entry>, calls: nat, req: Request, bound: Option<Position>, rows: seq<Row>,
                         limit: nat)
      returns (next: Request, edge: Option<Position>, rest: seq<Row>)
    requires calls > 0 && TooFew(table, calls, req, bound, rows, limit)
    ensures TooFew(table, calls - 1, next, edge, rest, limit) && rest == rows[limit..]
    ensures GoesOn(Traverse(Copies(table, calls), req), rows[..limit], Traverse(Copies(table, calls - 1), next))
  {
    var resp := FullPage(table, req, bound, rows);
    next, edge := req.(cursor := resp.nextCursor), Some(Pos(rows[limit - 1]));
    rest := RowsBelow(table, next, edge);
    RowsBelowEdge(table, req, bound, limit);
    TraverseCopies(table, calls, req, resp);
  }

  /** What too few calls return. */
  lemma {:induction false} FixedTraversalPrefix(table: seq<Entry>, calls: nat, req: Request, bound: Option<Position>,
                                                rows: seq<Row>, limit: nat)
    requires TooFew(table, calls, req, bound, rows, limit)
    ensures CutShort(Traverse(Copies(table, calls), req), rows, calls, FullPages(calls, limit))
    decreases calls
  {
    if calls == 0 {
      NoCalls(table, req, rows);
    } else {
      var next, edge, rest := FullPageThenRest(table, calls, req, bound, rows, limit);
      FixedTraversalPrefix(table, calls - 1, next, edge, rest, limit);
      OneMoreCall(table, calls, req, next, rows, rest, limit);
    }
  }

  /** At most `most` rows: the newest of the entries asked for, newest first, each once, with an
      entry for each row, and a row for each entry unless it is older than all rows. The
      traversal has ended exactly if it returned them all. */
  ghost predicate NewestWanted(t: Traversal, table: seq<Entry>, req: Request, most: int) {
    var n := |WantedAt(table, req)|;
    && |t.entries| == (if n <= most then n else most)
    && NewestFirst(t.entries)
    && (forall r :: r in t.entries ==> ShowsWanted(r, table, req))
    && (forall i :: 0 <= i < |table| && Wanted(req, table[i]) ==>
          Shown(table[i], t.entries) || (!t.ended && OlderThanAll(table[i], t.entries)))
    && (t.ended <==> n <= most)
  }

  /** Following the cursors from the start on a table that does not change. With n entries asked
      for and pages of `limit` rows, k calls return the min(n, k * limit) newest of them, and
      all of them take ceil(n / limit) calls, or one if there are none. */
  lemma FixedTableAnswersRequest(table: seq<Entry>, calls: nat, req: Request)
    requires TableOk(table) && |req.account| == 16 && req.limit <= 100 && req.cursor == "" && calls > 0
    ensures
      var t, n := Traverse(Copies(table, calls), req), |WantedAt(table, req)|;
      var limit := if req.limit == 0 then 20 else req.limit;
      && NewestWanted(t, table, req, calls * limit)
      && t.calls == (if !t.ended then calls else if n == 0 then 1 else (n + limit - 1) / limit)
  {
    var limit := LimitOf(req);
    FullPagesIsProduct(calls, limit);
    FixedTraversalShows(table, calls, req, FullPages(calls, limit));
    CeilingIsQuotient(|WantedAt(table, req)|, limit);
  }

  lemma FixedTraversalShows(table: seq<Entry>, calls: nat, req: Request, most: nat)
    requires TableOk(table) && RequestOk(req) && req.cursor == "" && calls > 0 && most == FullPages(calls, LimitOf(req))
    ensures var t := Traverse(Copies(table, calls), req);
      && NewestWanted(t, table, req, most)
      && t.calls == (if t.ended then PagesFor(|WantedAt(table, req)|, LimitOf(req)) else calls)
  {
    var rows := RowsBelow(table, req, None);
    RowsAreCounted(table, req);
    SelectAnswers(table, QueryOf(req), None);
    FixedTraversalIs(table, calls, req, rows, most);
    PrefixOfAnswer(table, req, rows, if |rows| <= most then |rows| else most);
  }

  lemma FixedTraversalIs(table: seq<Entry>, calls: nat, req: Request, rows: seq<Row>, k: nat)
    requires TableOk(table) && RequestOk(req) && req.cursor == "" && calls > 0
    requires rows == RowsBelow(table, req, None) && k == FullPages(calls, LimitOf(req))
    ensures var t, n, limit := Traverse(Copies(table, calls), req), |rows|, LimitOf(req);
      && t.entries == rows[..if n <= k then n else k]
      && (t.ended <==> n <= k)
      && t.calls == (if !t.ended then calls else PagesFor(n, limit))
  {
    if |rows| <= k {
      EnoughPages(|rows|, LimitOf(req), calls);
      FixedTraversal(table, calls, req, None, rows);
    } else {
      FixedTraversalPrefix(table, calls, req, None, rows, LimitOf(req));
    }
  }

  lemma EndedTraversalIs(table: seq<Entry>, calls: nat, req: Request)
    requires TableOk(table) && RequestOk(req) && req.cursor == "" && Traverse(Copies(table, calls), req).ended
    ensures Traverse(Copies(table, calls), req).entries == RowsBelow(table, req, None)
  {
    var rows := RowsBelow(table, req, None);
    if calls > 0 {
      FixedTraversalIs(table, calls, req, rows, FullPages(calls, LimitOf(req)));
      assert rows[..|rows|] == rows;
    }
  }

  lemma {:induction false} EnoughPages(n: nat, limit: nat, calls: nat)
    requires limit > 0 && calls > 0 && n <= FullPages(calls, limit)
    ensures calls >= PagesFor(n, limit)
    decreases calls
  {
    if n > limit {
      EnoughPages(n - limit, limit, calls - 1);
    }
  }

  ghost predicate OlderThanAll(e: Entry, rows: seq<Row>) {
    forall k :: 0 <= k < |rows| ==> EntryOlder(e, Position(rows[k].createdAt, rows[k].entryId))
  }

  lemma PrefixOfAnswer(table: seq<Entry>, req: Request, rows: seq<Row>, k: nat)
    requires |req.account| == 16 && Answer(rows, table, QueryOf(req), None) && k <= |rows|
    ensures NewestFirst(rows[..k])
    ensures forall r :: r in rows[..k] ==> ShowsWanted(r, table, req)
    ensures forall i :: 0 <= i < |table| && Wanted(req, table[i]) ==>
      Shown(table[i], rows[..k]) || (k < |rows| && OlderThanAll(table[i], rows[..k]))
  {
    var page := rows[..k];
    DescendingIsNewestFirst(page);
    forall r | r in page
      ensures ShowsWanted(r, table, req)
    {
      assert r in rows;
      FromTableShows(r, table, req, None);
    }
    forall i | 0 <= i < |table| && Wanted(req, table[i])
      ensures Shown(table[i], page) || (k < |rows| && OlderThanAll(table[i], page))
    {
      QueryMeansRequest(req, table[i]);
      var r := RowOf(table[i]);
      var j :| 0 <= j < |rows| && rows[j] == r;
      if j < k {
        assert page[j] == r;
        InRowsIsShown(table[i], page);
      } else {
        forall m | 0 <= m < |page|
          ensures EntryOlder(table[i], Position(page[m].createdAt, page[m].entryId))
        {
          assert Before(Pos(rows[j]), Pos(rows[m]));
          OlderMeansBefore(r, Pos(page[m]));
        }
      }
    }
  }

  // ---- Following the cursors while the table grows --------------------------

  /** The same over tables that grow between the calls: rows for entries asked for, newest first,
      each once; and once the traversal ends, a row for every entry asked for that was there at
      its first call. */
  lemma GrowingTableAnswersRequest(tables: seq<seq<Entry>>, req: Request)
    requires |tables| > 0 && TablesOk(tables) && Growing(tables)
    requires |req.account| == 16 && req.limit <= 100 && req.cursor == ""
    ensures var t := Traverse(tables, req);
      && NewestFirst(t.entries)
      && (forall r :: r in t.entries ==> ShowsWanted(r, tables[|tables| - 1], req))
      && (t.ended ==> forall i :: 0 <= i < |tables[0]| && Wanted(req, tables[0][i]) ==> Shown(tables[0][i], t.entries))
  {
    PagingGrowingLedger(tables, req, None);
    var t := Traverse(tables, req);
    DescendingIsNewestFirst(t.entries);
    forall r | r in t.entries
      ensures ShowsWanted(r, tables[|tables| - 1], req)
    {
      FromTableShows(r, tables[|tables| - 1], req, None);
    }
    if t.ended {
      CompleteIsShown(t.entries, tables[0], req);
    }
  }

  lemma CompleteIsShown(rows: seq<Row>, table: seq<Entry>, req: Request)
    requires |req.account| == 16 && Complete(rows, table, QueryOf(req), None)
    ensures forall i :: 0 <= i < |table| && Wanted(req, table[i]) ==> Shown(table[i], rows)
  {
    forall i | 0 <= i < |table| && Wanted(req, table[i])
      ensures Shown(table[i], rows)
    {
      QueryMeansRequest(req, table[i]);
      InRowsIsShown(table[i], rows);
    }
  }
}
