/** What a client that follows next_cursor until it is empty receives. */
module Paging {
  import opened Common
  import opened Ledger
  import opened Cursor
  import opened Statement
  import Arithmetic

  // ---- What the query answers -----------------------------------------------

  /** The filter of a request, stated without the builder. */
  predicate Matches(q: Query, e: Entry) {
    && (e.debit == q.account || e.credit == q.account)
    && (q.currency.Some? ==> e.currency == q.currency.value)
    && (q.from.Some? ==> q.from.value <= e.createdAt)
    && (q.to.Some? ==> e.createdAt <= q.to.value)
  }

  predicate Under(bound: Option<Position>, p: Position) {
    bound.Some? ==> Before(p, bound.value)
  }

  lemma ConditionsMeanMatches(q: Query, bound: Option<Position>, e: Entry)
    ensures MeetsAll(Conditions(q, bound), e) <==> Matches(q, e) && Under(bound, Pos(RowOf(e)))
  {
    var cs := Conditions(q, bound);
    var n1 := 1 + (if q.currency.Some? then 1 else 0);
    var n2 := n1 + (if q.from.Some? then 1 else 0);
    var n3 := n2 + (if q.to.Some? then 1 else 0);
    assert cs[0] == OnAccount(q.account);
    assert q.currency.Some? ==> cs[1] == CurrencyIs(q.currency.value);
    assert q.from.Some? ==> cs[n1] == NotBefore(q.from.value);
    assert q.to.Some? ==> cs[n2] == NotAfter(q.to.value);
    assert bound.Some? ==> cs[n3] == PastCursor(bound.value.micros, bound.value.id);
  }

  ghost predicate UniqueIds(table: seq<Entry>) {
    forall i, j :: 0 <= i < j < |table| ==> table[i].id != table[j].id
  }

  /** The rows are exactly those of the matching entries under the bound, newest first. */
  ghost predicate Answer(rows: seq<Row>, table: seq<Entry>, q: Query, bound: Option<Position>) {
    && Descending(rows)
    && (forall r :: r in rows ==> FromTable(r, table, q, bound))
    && (forall i :: 0 <= i < |table| && Matches(q, table[i]) && Under(bound, Pos(RowOf(table[i])))
          ==> RowOf(table[i]) in rows)
  }

  ghost predicate FromTable(r: Row, table: seq<Entry>, q: Query, bound: Option<Position>) {
    exists i :: 0 <= i < |table| && Matches(q, table[i]) && Under(bound, Pos(r)) && r == RowOf(table[i])
  }

  lemma {:induction false} InsertKeepsOrder(rows: seq<Row>, r: Row)
    requires Descending(rows) && forall x :: x in rows ==> Pos(x) != Pos(r)
    ensures Descending(InsertRow(rows, r))
    decreases |rows|
  {
    if |rows| == 0 {
    } else if Before(Pos(rows[0]), Pos(r)) {
      forall j | 0 < j < |rows|
        ensures Before(Pos(rows[j]), Pos(r))
      {
        BeforeIsStrictOrder(Pos(rows[j]), Pos(rows[0]), Pos(r));
      }
    } else {
      InsertKeepsOrder(rows[1..], r);
      InsertRowMembers(rows[1..], r);
      BeforeIsStrictOrder(Pos(rows[0]), Pos(r), Pos(r));
      var tail := InsertRow(rows[1..], r);
      forall j | 0 <= j < |tail|
        ensures Before(Pos(tail[j]), Pos(rows[0]))
      {
        assert tail[j] in tail;
      }
    }
  }

  lemma FromLaterTable(r: Row, table: seq<Entry>, later: seq<Entry>, q: Query, bound: Option<Position>)
    requires table <= later && FromTable(r, table, q, bound)
    ensures FromTable(r, later, q, bound)
  {
    var i :| 0 <= i < |table| && Matches(q, table[i]) && Under(bound, Pos(r)) && r == RowOf(table[i]);
    assert later[i] == table[i];
  }

  lemma AnswerSkips(rows: seq<Row>, init: seq<Entry>, e: Entry, q: Query, bound: Option<Position>)
    requires Answer(rows, init, q, bound) && !(Matches(q, e) && Under(bound, Pos(RowOf(e))))
    ensures Answer(rows, init + [e], q, bound)
  {
    forall r | r in rows
      ensures FromTable(r, init + [e], q, bound)
    {
      FromLaterTable(r, init, init + [e], q, bound);
    }
  }

  lemma AnswerTakes(rows: seq<Row>, init: seq<Entry>, e: Entry, q: Query, bound: Option<Position>)
    requires Answer(rows, init, q, bound) && Matches(q, e) && Under(bound, Pos(RowOf(e)))
    requires forall i :: 0 <= i < |init| ==> init[i].id != e.id
    ensures Answer(InsertRow(rows, RowOf(e)), init + [e], q, bound)
  {
    var table := init + [e];
    InsertRowMembers(rows, RowOf(e));
    assert table[|init|] == e;
    assert FromTable(RowOf(e), table, q, bound);
    forall r | r in rows
      ensures FromTable(r, table, q, bound) && Pos(r) != Pos(RowOf(e))
    {
      assert FromTable(r, init, q, bound);
      FromLaterTable(r, init, table, q, bound);
    }
    InsertKeepsOrder(rows, RowOf(e));
  }

  /** The builder's query answers the request. */
  lemma {:induction false} SelectAnswers(table: seq<Entry>, q: Query, bound: Option<Position>)
    requires UniqueIds(table)
    ensures Answer(Select(table, Conditions(q, bound)), table, q, bound)
    decreases |table|
  {
    if |table| > 0 {
      var init, e := table[..|table| - 1], table[|table| - 1];
      var before := Select(init, Conditions(q, bound));
      SelectAnswers(init, q, bound);
      ConditionsMeanMatches(q, bound, e);
      assert table == init + [e];
      if MeetsAll(Conditions(q, bound), e) {
        AnswerTakes(before, init, e, q, bound);
      } else {
        AnswerSkips(before, init, e, q, bound);
      }
    }
  }

  /** There is only one answer. */
  lemma {:induction false} AnswersAgree(a: seq<Row>, b: seq<Row>)
    requires Descending(a) && Descending(b) && forall r :: r in a <==> r in b
    ensures a == b
    decreases |a|
  {
    assert |b| > 0 ==> b[0] in b;
    assert |a| > 0 ==> a[0] in a;
    if |a| > 0 {
      FirstAgree(a, b);
      forall r
        ensures r in a[1..] <==> r in b[1..]
      {
        TailMembers(a, r);
        TailMembers(b, r);
      }
      AnswersAgree(a[1..], b[1..]);
      assert a == [a[0]] + a[1..] && b == [b[0]] + b[1..];
    }
  }

  lemma FirstAgree(a: seq<Row>, b: seq<Row>)
    requires Descending(a) && Descending(b) && |a| > 0 && |b| > 0
    requires a[0] in b && b[0] in a
    ensures a[0] == b[0]
  {
    BeforeIsStrictOrder(Pos(a[0]), Pos(b[0]), Pos(a[0]));
    var j :| 0 <= j < |b| && b[j] == a[0];
    var i :| 0 <= i < |a| && a[i] == b[0];
  }

  lemma TailMembers(a: seq<Row>, r: Row)
    requires Descending(a) && |a| > 0
    ensures r in a[1..] <==> r in a && r != a[0]
  {
    BeforeIsStrictOrder(Pos(a[0]), Pos(a[0]), Pos(a[0]));
    if r in a && r != a[0] {
      var i :| 0 <= i < |a| && a[i] == r;
      assert a[1..][i - 1] == r;
    }
  }

  // ---- The client loop ------------------------------------------------------

  datatype Traversal = Traversal(entries: seq<Row>, ended: bool, calls: nat)

  /** Follow next_cursor; the i-th call sees the i-th table. The traversal ends when a
      response carries no cursor, and is cut short when the tables run out. */
  ghost function Traverse(tables: seq<seq<Entry>>, req: Request): Traversal
    decreases |tables|
  {
    if |tables| == 0 then Traversal([], false, 0)
    else
      match Serve(tables[0], req)
      case Err(_) => Traversal([], false, 1)
      case Ok(resp) =>
        if resp.nextCursor == "" then Traversal(resp.entries, true, 1)
        else
          var rest := Traverse(tables[1..], req.(cursor := resp.nextCursor));
          Traversal(resp.entries + rest.entries, rest.ended, 1 + rest.calls)
  }

  /** Unique ids, and times that a cursor carries faithfully. */
  ghost predicate TableOk(table: seq<Entry>) {
    UniqueIds(table) && forall i :: 0 <= i < |table| ==> Faithful(table[i].createdAt)
  }

  ghost predicate RequestOk(req: Request) {
    |req.account| == 16 && LimitOf(req) <= 100
  }

  /** What the cursor of a request stands for. */
  ghost predicate CursorStandsFor(cursor: string, bound: Option<Position>) {
    match bound
    case None => cursor == ""
    case Some(p) => Faithful(p.micros) && cursor == CursorText(p)
  }

  function RowsBelow(table: seq<Entry>, req: Request, bound: Option<Position>): seq<Row>
    requires |req.account| == 16
  {
    Select(table, Conditions(QueryOf(req), bound))
  }

  /** The answer to a request whose cursor decodes to a bound. */
  lemma ServeIs(table: seq<Entry>, req: Request, bound: Option<Position>)
    requires RequestOk(req) && BoundOf(if req.cursor == "" then None else Some(req.cursor)) == Ok(bound)
    ensures var rows, limit := RowsBelow(table, req, bound), LimitOf(req);
      Serve(table, req) == Ok(if |rows| <= limit then Response(rows, "", false)
                              else Response(rows[..limit], CursorText(Pos(rows[limit - 1])), true))
  {
  }

  lemma CursorBound(cursor: string, bound: Option<Position>)
    requires CursorStandsFor(cursor, bound)
    ensures BoundOf(if cursor == "" then None else Some(cursor)) == Ok(bound)
  {
    if bound.Some? {
      CursorRoundTrip(bound.value);
      MicrosToNaiveExact(bound.value.micros);
    }
  }

  lemma AnswerIsFaithful(rows: seq<Row>, table: seq<Entry>, q: Query, bound: Option<Position>)
    requires TableOk(table) && Answer(rows, table, q, bound)
    ensures forall r :: r in rows ==> Faithful(r.createdAt)
  {
    forall r | r in rows
      ensures Faithful(r.createdAt)
    {
      assert FromTable(r, table, q, bound);
    }
  }

  /** One call: a page of the rows below the bound, has_more exactly when the page does
      not exhaust them, and then a cursor that stands for the last row of the page. */
  lemma ServePage(table: seq<Entry>, req: Request, bound: Option<Position>)
    requires TableOk(table) && RequestOk(req) && CursorStandsFor(req.cursor, bound)
    ensures var rows, limit := RowsBelow(table, req, bound), LimitOf(req);
      && Answer(rows, table, QueryOf(req), bound)
      && (forall r :: r in rows ==> Faithful(r.createdAt))
      && Serve(table, req).Ok?
      && var resp := Serve(table, req).value;
        && resp.entries == Take(rows, limit)
        && (resp.hasMore <==> |rows| > limit)
        && (resp.hasMore <==> resp.nextCursor != "")
        && (resp.hasMore ==> |resp.entries| == limit && CursorStandsFor(resp.nextCursor, Some(Pos(rows[limit - 1]))))
  {
    var rows := RowsBelow(table, req, bound);
    SelectAnswers(table, QueryOf(req), bound);
    AnswerIsFaithful(rows, table, QueryOf(req), bound);
    CursorBound(req.cursor, bound);
    ServeIs(table, req, bound);
    if |rows| > LimitOf(req) {
      assert rows[LimitOf(req) - 1] in rows;
    }
  }

  ghost predicate Growing(tables: seq<seq<Entry>>) {
    forall i, j :: 0 <= i <= j < |tables| ==> tables[i] <= tables[j]
  }

  ghost predicate TablesOk(tables: seq<seq<Entry>>) {
    forall i :: 0 <= i < |tables| ==> TableOk(tables[i])
  }

  lemma JoinDescending(a: seq<Row>, b: seq<Row>)
    requires Descending(a) && Descending(b) && |a| > 0
    requires forall r :: r in b ==> Before(Pos(r), Pos(a[|a| - 1]))
    ensures Descending(a + b)
  {
    var ab := a + b;
    forall i, j | 0 <= i < j < |ab|
      ensures Before(Pos(ab[j]), Pos(ab[i]))
    {
      if i < |a| <= j {
        assert ab[j] in b;
        BeforeIsStrictOrder(Pos(ab[j]), Pos(a[|a| - 1]), Pos(ab[i]));
      }
    }
  }

  /** Everything returned is a matching row of the given table, each at most once. */
  ghost predicate Sound(rows: seq<Row>, table: seq<Entry>, q: Query, bound: Option<Position>) {
    Descending(rows) && forall r :: r in rows ==> FromTable(r, table, q, bound)
  }

  /** Every matching entry of the table was returned. */
  ghost predicate Complete(rows: seq<Row>, table: seq<Entry>, q: Query, bound: Option<Position>) {
    forall i :: 0 <= i < |table| && Matches(q, table[i]) && Under(bound, Pos(RowOf(table[i]))) ==>
      RowOf(table[i]) in rows
  }

  /** A page of the answer followed by a sound continuation below its last row. */
  lemma PageThenRestIsSound(rows: seq<Row>, limit: nat, rest: seq<Row>, table: seq<Entry>, later: seq<Entry>,
                            q: Query, bound: Option<Position>)
    requires Answer(rows, table, q, bound) && 0 < limit < |rows| && table <= later
    requires Sound(rest, later, q, Some(Pos(rows[limit - 1])))
    ensures Sound(rows[..limit] + rest, later, q, bound)
  {
    var page, edge := rows[..limit], Some(Pos(rows[limit - 1]));
    assert page[|page| - 1] == rows[limit - 1];
    assert rows[limit - 1] in rows;
    forall r | r in rest
      ensures FromTable(r, later, q, bound) && Before(Pos(r), edge.value)
    {
      assert FromTable(r, later, q, edge);
      assert FromTable(rows[limit - 1], table, q, bound);
      EdgeUnderBound(r, edge, bound, edge.value);
      var i :| 0 <= i < |later| && Matches(q, later[i]) && Under(edge, Pos(r)) && r == RowOf(later[i]);
    }
    forall r | r in page
      ensures FromTable(r, later, q, bound)
    {
      assert r in rows;
      FromLaterTable(r, table, later, q, bound);
    }
    JoinDescending(page, rest);
  }

  /** A page of the answer followed by a continuation that misses nothing below it. */
  lemma PageThenRestIsComplete(rows: seq<Row>, limit: nat, rest: seq<Row>, table: seq<Entry>, next: seq<Entry>,
                               q: Query, bound: Option<Position>)
    requires Answer(rows, table, q, bound) && 0 < limit < |rows| && table <= next
    requires Complete(rest, next, q, Some(Pos(rows[limit - 1])))
    ensures Complete(rows[..limit] + rest, table, q, bound)
  {
    forall i | 0 <= i < |table| && Matches(q, table[i]) && Under(bound, Pos(RowOf(table[i])))
      ensures RowOf(table[i]) in rows[..limit] + rest
    {
      var r := RowOf(table[i]);
      assert next[i] == table[i];
      if r !in rows[..limit] {
        PastPage(rows, limit, r);
        assert r in rest;
      }
    }
  }

  /** Paging while the ledger grows: positions strictly decrease over the whole traversal,
      so no row is returned twice; every row returned is a matching row; and if the
      traversal ends, every matching entry the first call could see was returned. */
  lemma {:induction false} PagingGrowingLedger(tables: seq<seq<Entry>>, req: Request, bound: Option<Position>)
    requires |tables| > 0 && TablesOk(tables) && Growing(tables)
    requires RequestOk(req) && CursorStandsFor(req.cursor, bound)
    ensures var t, q := Traverse(tables, req), QueryOf(req);
      && Sound(t.entries, tables[|tables| - 1], q, bound)
      && (t.ended ==> Complete(t.entries, tables[0], q, bound))
    decreases |tables|
  {
    var table, last := tables[0], tables[|tables| - 1];
    var q, limit := QueryOf(req), LimitOf(req);
    assert TableOk(table) && table <= last;
    ServePage(table, req, bound);
    var rows := RowsBelow(table, req, bound);
    var resp := Serve(table, req).value;
    if !resp.hasMore {
      forall r | r in rows
        ensures FromTable(r, last, q, bound)
      {
        FromLaterTable(r, table, last, q, bound);
      }
    } else if |tables| == 1 {
      assert Traverse(tables[1..], req.(cursor := resp.nextCursor)).entries == [];
      PageThenRestIsSound(rows, limit, [], table, last, q, bound);
    } else {
      var next := req.(cursor := resp.nextCursor);
      var later := tables[1..];
      assert forall i :: 0 <= i < |later| ==> later[i] == tables[i + 1];
      assert later[0] == tables[1] && later[|later| - 1] == last && table <= tables[1];
      PagingGrowingLedger(later, next, Some(Pos(rows[limit - 1])));
      var rest := Traverse(later, next);
      PageThenRestIsSound(rows, limit, rest.entries, table, last, q, bound);
      if rest.ended {
        PageThenRestIsComplete(rows, limit, rest.entries, table, tables[1], q, bound);
      }
    }
  }

  lemma EdgeUnderBound(r: Row, edge: Option<Position>, bound: Option<Position>, p: Position)
    requires edge == Some(p) && Under(edge, Pos(r)) && Under(bound, p)
    ensures Under(bound, Pos(r))
  {
    if bound.Some? {
      BeforeIsStrictOrder(Pos(r), p, bound.value);
    }
  }

  /** A row of the answer that is not on the page lies below its last row. */
  lemma PastPage(rows: seq<Row>, limit: nat, r: Row)
    requires Descending(rows) && 0 < limit < |rows| && r in rows && r !in rows[..limit]
    ensures Before(Pos(r), Pos(rows[limit - 1]))
  {
    forall k | 0 <= k < limit
      ensures rows[k] in rows[..limit]
    {
      assert rows[..limit][k] == rows[k];
    }
    var i :| 0 <= i < |rows| && rows[i] == r;
  }

  // ---- A ledger that does not change ----------------------------------------

  /** Pages needed for n rows. */
  function PagesFor(n: nat, limit: nat): (k: nat)
    requires limit > 0
    decreases n
  {
    if n <= limit then 1 else 1 + PagesFor(n - limit, limit)
  }

  lemma {:induction false} PagesForIsCeiling(n: nat, limit: nat)
    requires limit > 0
    ensures var k := PagesFor(n, limit); k >= 1 && n <= k * limit && (k > 1 ==> (k - 1) * limit < n)
    decreases n
  {
    if n > limit {
      PagesForIsCeiling(n - limit, limit);
      var k := PagesFor(n - limit, limit);
      assert (k + 1) * limit == k * limit + limit;
      assert (k - 1) * limit + limit == k * limit;
    }
  }

  lemma CeilingIsQuotient(n: nat, limit: nat)
    requires limit > 0
    ensures PagesFor(n, limit) == if n == 0 then 1 else (n + limit - 1) / limit
  {
    PagesForIsCeiling(n, limit);
    var k := PagesFor(n, limit);
    if n > 0 {
      var x := n + limit - 1;
      var r := x - k * limit;
      assert (k - 1) * limit == k * limit - limit;
      assert 0 <= r < limit;
      Arithmetic.QuotientUnique(x, limit, k, r);
    }
  }

  /** A row of the table below the edge of a page is a row of the answer past the page,
      and the other way round. */
  lemma BelowEdgeIsPastPage(rows: seq<Row>, limit: nat, r: Row, table: seq<Entry>, q: Query, bound: Option<Position>)
    requires Answer(rows, table, q, bound) && 0 < limit < |rows|
    ensures FromTable(r, table, q, Some(Pos(rows[limit - 1]))) <==> r in rows[limit..]
  {
    var edge := Pos(rows[limit - 1]);
    if FromTable(r, table, q, Some(edge)) {
      assert rows[limit - 1] in rows;
      assert FromTable(rows[limit - 1], table, q, bound);
      EdgeUnderBound(r, Some(edge), bound, edge);
      var i :| 0 <= i < |table| && Matches(q, table[i]) && Under(Some(edge), Pos(r)) && r == RowOf(table[i]);
      assert r in rows;
      var j :| 0 <= j < |rows| && rows[j] == r;
      BeforeIsStrictOrder(Pos(r), edge, Pos(r));
      assert j >= limit;
      assert rows[limit..][j - limit] == r;
    }
    if r in rows[limit..] {
      var j :| 0 <= j < |rows[limit..]| && rows[limit..][j] == r;
      assert rows[limit + j] == r;
      assert r in rows;
      assert FromTable(r, table, q, bound);
      var i :| 0 <= i < |table| && Matches(q, table[i]) && Under(bound, Pos(r)) && r == RowOf(table[i]);
    }
  }

  /** The rows below the last row of a page are the rest of the rows. */
  lemma RowsBelowEdge(table: seq<Entry>, req: Request, bound: Option<Position>, limit: nat)
    requires UniqueIds(table) && |req.account| == 16
    requires 0 < limit < |RowsBelow(table, req, bound)|
    ensures var rows := RowsBelow(table, req, bound);
      RowsBelow(table, req, Some(Pos(rows[limit - 1]))) == rows[limit..]
  {
    var q, rows := QueryOf(req), RowsBelow(table, req, bound);
    var edge := Some(Pos(rows[limit - 1]));
    var below := RowsBelow(table, req, edge);
    SelectAnswers(table, q, bound);
    SelectAnswers(table, q, edge);
    forall r
      ensures r in below <==> r in rows[limit..]
    {
      BelowEdgeIsPastPage(rows, limit, r, table, q, bound);
      if FromTable(r, table, q, edge) {
        var i :| 0 <= i < |table| && Matches(q, table[i]) && Under(edge, Pos(r)) && r == RowOf(table[i]);
      }
    }
    AnswersAgree(below, rows[limit..]);
  }

  /** The same table for every call. */
  function Copies<T>(x: T, n: nat): (xs: seq<T>)
    ensures |xs| == n && forall i :: 0 <= i < n ==> xs[i] == x
  {
    if n == 0 then [] else [x] + Copies(x, n - 1)
  }

  lemma TraverseCopies(table: seq<Entry>, n: nat, req: Request, resp: Response)
    requires n > 0 && Serve(table, req) == Ok(resp)
    ensures Traverse(Copies(table, n), req) ==
      if resp.nextCursor == "" then Traversal(resp.entries, true, 1)
      else
        var rest := Traverse(Copies(table, n - 1), req.(cursor := resp.nextCursor));
        Traversal(resp.entries + rest.entries, rest.ended, 1 + rest.calls)
  {
    assert Copies(table, n)[1..] == Copies(table, n - 1);
  }

  lemma PageAndRest(rows: seq<Row>, limit: nat)
    requires 0 < limit < |rows|
    ensures Take(rows, limit) + rows[limit..] == rows
    ensures PagesFor(|rows|, limit) == 1 + PagesFor(|rows[limit..]|, limit)
  {
    assert |rows[limit..]| == |rows| - limit;
  }

  /** A page that is not the last, followed by the traversal of the remaining rows. */
  lemma FixedPageThenRest(table: seq<Entry>, n: nat, req: Request, rows: seq<Row>, limit: nat, resp: Response)
    requires n > 0 && 0 < limit < |rows|
    requires Serve(table, req) == Ok(resp) && resp.entries == Take(rows, limit) && resp.nextCursor != ""
    requires Traverse(Copies(table, n - 1), req.(cursor := resp.nextCursor))
          == Traversal(rows[limit..], true, PagesFor(|rows[limit..]|, limit))
    ensures Traverse(Copies(table, n), req) == Traversal(rows, true, PagesFor(|rows|, limit))
  {
    PageAndRest(rows, limit);
    TraverseCopies(table, n, req, resp);
  }

  lemma {:induction false} FixedTraversal(table: seq<Entry>, n: nat, req: Request, bound: Option<Position>,
                                          rows: seq<Row>)
    requires TableOk(table) && RequestOk(req) && CursorStandsFor(req.cursor, bound)
    requires rows == RowsBelow(table, req, bound) && n >= PagesFor(|rows|, LimitOf(req))
    ensures Traverse(Copies(table, n), req) == Traversal(rows, true, PagesFor(|rows|, LimitOf(req)))
    decreases n
  {
    var limit := LimitOf(req);
    ServePage(table, req, bound);
    var resp := Serve(table, req).value;
    if resp.hasMore {
      var edge := Some(Pos(rows[limit - 1]));
      RowsBelowEdge(table, req, bound, limit);
      var next := req.(cursor := resp.nextCursor);
      FixedTraversal(table, n - 1, next, edge, rows[limit..]);
      FixedPageThenRest(table, n, req, rows, limit, resp);
    } else {
      TraverseCopies(table, n, req, resp);
    }
  }

  /** Paging a fixed ledger: with at least as many calls as pages, the traversal ends after
      exactly max(1, ceil(n / limit)) calls and returns exactly the matching entries,
      newest first. */
  lemma PagingFixedLedger(table: seq<Entry>, calls: nat, req: Request)
    requires TableOk(table) && RequestOk(req) && req.cursor == ""
    requires calls >= PagesFor(|RowsBelow(table, req, None)|, LimitOf(req))
    ensures var t, n, limit := Traverse(Copies(table, calls), req), |RowsBelow(table, req, None)|, LimitOf(req);
      && Answer(t.entries, table, QueryOf(req), None) && |t.entries| == n
      && t.ended
      && t.calls == (if n == 0 then 1 else (n + limit - 1) / limit)
  {
    SelectAnswers(table, QueryOf(req), None);
    FixedTraversal(table, calls, req, None, RowsBelow(table, req, None));
    CeilingIsQuotient(|RowsBelow(table, req, None)|, LimitOf(req));
  }

  /** has_more tells exactly whether an entry the client has not been given remains. */
  lemma HasMoreMeansUnseen(table: seq<Entry>, req: Request, bound: Option<Position>)
    requires TableOk(table) && RequestOk(req) && CursorStandsFor(req.cursor, bound)
    ensures Serve(table, req).Ok?
    ensures Serve(table, req).value.hasMore <==>
      exists i :: 0 <= i < |table| && Matches(QueryOf(req), table[i]) && Under(bound, Pos(RowOf(table[i])))
        && RowOf(table[i]) !in Serve(table, req).value.entries
  {
    ServePage(table, req, bound);
    var q, rows, limit := QueryOf(req), RowsBelow(table, req, bound), LimitOf(req);
    var resp := Serve(table, req).value;
    if resp.hasMore {
      var r := rows[limit];
      assert r in rows;
      assert FromTable(r, table, q, bound);
      var i :| 0 <= i < |table| && Matches(q, table[i]) && Under(bound, Pos(r)) && r == RowOf(table[i]);
      if r in resp.entries {
        var j :| 0 <= j < |resp.entries| && resp.entries[j] == r;
        assert Before(Pos(rows[limit]), Pos(rows[j]));
        BeforeIsStrictOrder(Pos(r), Pos(r), Pos(r));
      }
      assert RowOf(table[i]) !in resp.entries;
    }
  }

  // ---- Outside the faithful times -------------------------------------------

  /** A cursor for a time that is not carried faithfully stands for the start of 1970
      instead: the next page starts over from there whatever was already returned. */
  lemma UnfaithfulCursorRestarts(table: seq<Entry>, req: Request, p: Position)
    requires RequestOk(req) && IsI64(p.micros) && !Faithful(p.micros)
    requires req.cursor == CursorText(p)
    ensures Serve(table, req) == Serve(table, req.(cursor := CursorText(Position(0, p.id))))
  {
    CursorRoundTrip(p);
    CursorRoundTrip(Position(0, p.id));
    MicrosToNaiveExact(p.micros);
    MicrosToNaiveExact(0);
  }

  /** An instance: two entries just before 1970, pages of one row. The second page repeats
      the first, with the same cursor, so the traversal never ends. */
  lemma PreEpochPagingRepeats(table: seq<Entry>, e1: Entry, e2: Entry, req: Request, n: nat)
    requires |req.account| == 16 && req.limit == 1 && req.cursor == "" && req.currency == ""
    requires req.from.None? && req.to.None?
    requires e1.debit == e2.debit == req.account && e1.id != e2.id
    requires e1.createdAt == -1 && e2.createdAt == -2 && table == [e1, e2]
    ensures Traverse(Copies(table, n), req) == Traversal(Copies(RowOf(e1), n), false, n)
  {
    var again := req.(cursor := CursorText(Position(-1, e1.id)));
    PreEpochPage(table, e1, e2, req, None);
    if n > 0 {
      PreEpochPage(table, e1, e2, again, Some(Position(0, e1.id)));
      PreEpochLoop(table, e1, again, n - 1);
      TraverseCopies(table, n, req, Serve(table, req).value);
    }
  }

  /** The page both bounds give: the newer entry, and a cursor that names it. */
  lemma PreEpochPage(table: seq<Entry>, e1: Entry, e2: Entry, req: Request, bound: Option<Position>)
    requires |req.account| == 16 && req.limit == 1 && req.currency == "" && req.from.None? && req.to.None?
    requires table == [e1, e2] && e1.debit == e2.debit == req.account && e1.id != e2.id
    requires e1.createdAt == -1 && e2.createdAt == -2
    requires bound.None? || bound == Some(Position(0, e1.id))
    requires req.cursor == if bound.None? then "" else CursorText(Position(-1, e1.id))
    ensures Serve(table, req) == Ok(Response([RowOf(e1)], CursorText(Position(-1, e1.id)), true))
  {
    if bound.Some? {
      CursorRoundTrip(Position(-1, e1.id));
      MicrosToNaiveExact(-1);
    }
    var q := QueryOf(req);
    var cs := Conditions(q, bound);
    ConditionsMeanMatches(q, bound, e1);
    ConditionsMeanMatches(q, bound, e2);
    assert table[..1] == [e1] && [e1][..0] == [];
    assert Select([e1], cs) == [RowOf(e1)];
    assert Select(table, cs) == InsertRow([RowOf(e1)], RowOf(e2));
    assert InsertRow([RowOf(e1)], RowOf(e2)) == [RowOf(e1), RowOf(e2)];
  }

  lemma {:induction false} PreEpochLoop(table: seq<Entry>, e1: Entry, req: Request, n: nat)
    requires Serve(table, req) == Ok(Response([RowOf(e1)], req.cursor, true)) && req.cursor != ""
    ensures Traverse(Copies(table, n), req) == Traversal(Copies(RowOf(e1), n), false, n)
  {
    if n > 0 {
      PreEpochLoop(table, e1, req, n - 1);
      TraverseCopies(table, n, req, Serve(table, req).value);
      assert req.(cursor := req.cursor) == req;
    }
  }
}
