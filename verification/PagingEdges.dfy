/** Paging a table whose times the cursor may not carry: rows written by something other than
    post_entry, which stamps the current time, can be dated before 1970. */
module PagingEdges {
  import opened Common
  import opened Ledger
  import opened Cursor
  import opened Statement
  import opened Paging

  /** The times a DATETIME(6) column holds, years 1000 to 9999. */
  predicate Stored(micros: int) {
    -30_610_224_000_000_000 <= micros < 253_402_300_800_000_000
  }

  ghost predicate TimesStored(table: seq<Entry>) {
    forall i :: 0 <= i < |table| ==> Stored(table[i].createdAt)
  }

  /** Of those, a cursor fails to carry exactly the ones before 1970 with a fraction of a
      second. */
  lemma UnfaithfulIsFractionBefore1970(micros: int)
    requires Stored(micros)
    ensures IsI64(micros)
    ensures !Faithful(micros) <==> micros < 0 && micros % 1_000_000 != 0
  {
  }

  /** The bound the database gets from a cursor, faithful or not. */
  ghost predicate CursorMeans(cursor: string, bound: Option<Position>) {
    BoundOf(if cursor == "" then None else Some(cursor)) == Ok(bound)
  }

  /** The bound of the page after the one that ends in a row. */
  function NextBound(edge: Row): Position {
    Position(MicrosToNaive(edge.createdAt), edge.entryId)
  }

  /** One call on any table: the first rows under the bound, and a cursor for the last of
      them if there are more. */
  lemma ServeAny(table: seq<Entry>, req: Request, bound: Option<Position>)
    requires UniqueIds(table) && TimesStored(table) && RequestOk(req) && CursorMeans(req.cursor, bound)
    ensures var rows, limit := RowsBelow(table, req, bound), LimitOf(req);
      && Answer(rows, table, QueryOf(req), bound)
      && if |rows| <= limit then Serve(table, req) == Ok(Response(rows, "", false))
         else
           var edge := rows[limit - 1];
           && Serve(table, req) == Ok(Response(rows[..limit], CursorText(Pos(edge)), true))
           && CursorMeans(CursorText(Pos(edge)), Some(NextBound(edge)))
           && Stored(edge.createdAt)
  {
    var rows, limit := RowsBelow(table, req, bound), LimitOf(req);
    SelectAnswers(table, QueryOf(req), bound);
    ServeIs(table, req, bound);
    if |rows| > limit {
      var edge := rows[limit - 1];
      assert edge in rows;
      assert FromTable(edge, table, QueryOf(req), bound);
      UnfaithfulIsFractionBefore1970(edge.createdAt);
      CursorRoundTrip(Pos(edge));
    }
  }

  /** The rows the query orders under a bound. */
  function Rows(table: seq<Entry>, q: Query, bound: Option<Position>): seq<Row> {
    Select(table, Conditions(q, bound))
  }

  /** What n pages return, each but the first starting at the bound its cursor means. */
  function Pages(table: seq<Entry>, q: Query, limit: nat, bound: Option<Position>, n: nat): seq<Row>
    requires limit > 0
    decreases n
  {
    if n == 0 then []
    else
      var rows := Rows(table, q, bound);
      if |rows| <= limit then rows
      else rows[..limit] + Pages(table, q, limit, Some(NextBound(rows[limit - 1])), n - 1)
  }

  lemma FirstPage(table: seq<Entry>, req: Request, bound: Option<Position>, n: nat, rows: seq<Row>)
    requires UniqueIds(table) && TimesStored(table) && RequestOk(req) && CursorMeans(req.cursor, bound)
    requires rows == RowsBelow(table, req, bound)
    ensures |rows| <= LimitOf(req) ==> Traverse(Copies(table, n), req).entries == if n == 0 then [] else rows
    ensures |rows| > LimitOf(req) ==>
      var limit := LimitOf(req);
      var edge := rows[limit - 1];
      var next := req.(cursor := CursorText(Pos(edge)));
      && CursorMeans(next.cursor, Some(NextBound(edge)))
      && Traverse(Copies(table, n), req).entries
         == if n == 0 then [] else rows[..limit] + Traverse(Copies(table, n - 1), next).entries
  {
    if n > 0 {
      ServeAny(table, req, bound);
      TraverseCopies(table, n, req, Serve(table, req).value);
    } else {
      ServeAny(table, req, bound);
    }
  }

  /** What following the cursors returns is those pages. */
  lemma {:induction false} TraverseIsPages(table: seq<Entry>, req: Request, bound: Option<Position>, n: nat)
    requires UniqueIds(table) && TimesStored(table) && RequestOk(req) && CursorMeans(req.cursor, bound)
    ensures Traverse(Copies(table, n), req).entries == Pages(table, QueryOf(req), LimitOf(req), bound, n)
    decreases n
  {
    var rows, limit := RowsBelow(table, req, bound), LimitOf(req);
    FirstPage(table, req, bound, n, rows);
    if n > 0 && |rows| > limit {
      var edge := rows[limit - 1];
      TraverseIsPages(table, req.(cursor := CursorText(Pos(edge))), Some(NextBound(edge)), n - 1);
    }
  }

  /** Each of the first n pages that is not the last page ends in a row whose time the cursor
      carries. */
  predicate EdgesFaithful(table: seq<Entry>, q: Query, limit: nat, bound: Option<Position>, n: nat)
    requires limit > 0
    decreases n
  {
    var rows := Rows(table, q, bound);
    || n == 0 || |rows| <= limit
    || (&& Faithful(rows[limit - 1].createdAt)
        && EdgesFaithful(table, q, limit, Some(NextBound(rows[limit - 1])), n - 1))
  }

  ghost predicate NoRepeats(rows: seq<Row>) {
    forall i, j :: 0 <= i < j < |rows| ==> rows[i] != rows[j]
  }

  lemma DescendingNoRepeats(rows: seq<Row>)
    requires Descending(rows)
    ensures NoRepeats(rows)
  {
    forall i, j | 0 <= i < j < |rows|
      ensures rows[i] != rows[j]
    {
      assert Before(Pos(rows[j]), Pos(rows[i]));
      BeforeIsStrictOrder(Pos(rows[i]), Pos(rows[i]), Pos(rows[i]));
    }
  }

  /** With faithful edges the pages follow each other in order. */
  lemma {:induction false} FaithfulPagesDescend(table: seq<Entry>, q: Query, limit: nat, bound: Option<Position>,
                                                n: nat)
    requires UniqueIds(table) && limit > 0 && EdgesFaithful(table, q, limit, bound, n)
    ensures Sound(Pages(table, q, limit, bound, n + 1), table, q, bound)
    decreases n
  {
    SelectAnswers(table, q, bound);
    var rows := Rows(table, q, bound);
    if |rows| > limit {
      var edge := rows[limit - 1];
      if n > 0 {
        FaithfulEdge(edge);
        FaithfulPagesDescend(table, q, limit, Some(Pos(edge)), n - 1);
      }
      PageThenRestIsSound(rows, limit, Pages(table, q, limit, Some(NextBound(edge)), n), table, table, q, bound);
    }
  }

  lemma FaithfulEdge(edge: Row)
    ensures Faithful(edge.createdAt) <==> NextBound(edge) == Pos(edge)
  {
    MicrosToNaiveExact(edge.createdAt);
  }

  /** After a page that ends in a row the cursor does not carry, the next page starts at or
      above that row, and the row is again among those to come. */
  lemma NextPageStartsOver(table: seq<Entry>, q: Query, bound: Option<Position>, edge: Row)
    requires UniqueIds(table) && TimesStored(table)
    requires edge in Rows(table, q, bound) && !Faithful(edge.createdAt)
    ensures var next := Rows(table, q, Some(NextBound(edge)));
      NextBound(edge) == Position(0, edge.entryId) && edge in next && !Before(Pos(next[0]), Pos(edge))
  {
    SelectAnswers(table, q, bound);
    assert FromTable(edge, table, q, bound);
    var i :| 0 <= i < |table| && Matches(q, table[i]) && edge == RowOf(table[i]);
    UnfaithfulIsFractionBefore1970(edge.createdAt);
    MicrosToNaiveExact(edge.createdAt);
    var again := Some(NextBound(edge));
    SelectAnswers(table, q, again);
    assert Under(again, Pos(RowOf(table[i])));
    var next := Rows(table, q, again);
    var k :| 0 <= k < |next| && next[k] == edge;
    if k > 0 {
      assert Before(Pos(next[k]), Pos(next[0]));
    }
    BeforeIsStrictOrder(Pos(next[0]), Pos(edge), Pos(next[0]));
  }

  lemma {:induction false} PagesFromTable(table: seq<Entry>, q: Query, limit: nat, bound: Option<Position>, n: nat)
    requires UniqueIds(table) && limit > 0
    ensures forall r :: r in Pages(table, q, limit, bound, n) ==> FromTable(r, table, q, None)
    decreases n
  {
    SelectAnswers(table, q, bound);
    var rows := Rows(table, q, bound);
    forall r | r in rows
      ensures FromTable(r, table, q, None)
    {
      assert FromTable(r, table, q, bound);
    }
    if n > 0 && |rows| > limit {
      PagesFromTable(table, q, limit, Some(NextBound(rows[limit - 1])), n - 1);
    }
  }

  /** A matching row that does not come after the end of a page is on it, or above it. */
  lemma OnPageOrAbove(table: seq<Entry>, q: Query, limit: nat, bound: Option<Position>, r: Row)
    requires UniqueIds(table) && FromTable(r, table, q, None) && 0 < limit < |Rows(table, q, bound)|
    requires !Before(Pos(r), Pos(Rows(table, q, bound)[limit - 1])) && Under(bound, Pos(r))
    ensures r in Rows(table, q, bound)[..limit]
  {
    var rows := Rows(table, q, bound);
    SelectAnswers(table, q, bound);
    var i :| 0 <= i < |table| && Matches(q, table[i]) && r == RowOf(table[i]);
    assert r in rows;
    if r !in rows[..limit] {
      PastPage(rows, limit, r);
    }
  }

  /** A row comes twice, or one comes that an earlier page has had. */
  ghost predicate ComesBack(rows: seq<Row>, bound: Option<Position>) {
    !NoRepeats(rows) || exists k :: 0 <= k < |rows| && !Under(bound, Pos(rows[k]))
  }

  lemma RestComesBack(page: seq<Row>, rest: seq<Row>, k: nat, bound: Option<Position>)
    requires k < |rest| && (Under(bound, Pos(rest[k])) ==> rest[k] in page)
    ensures ComesBack(page + rest, bound)
  {
    var all := page + rest;
    assert all[|page| + k] == rest[k];
    if rest[k] in page {
      var i :| 0 <= i < |page| && page[i] == rest[k];
      assert all[i] == all[|page| + k];
    }
  }

  lemma RestRepeats(page: seq<Row>, rest: seq<Row>)
    requires !NoRepeats(rest)
    ensures !NoRepeats(page + rest)
  {
    var i, j :| 0 <= i < j < |rest| && rest[i] == rest[j];
    assert (page + rest)[|page| + i] == (page + rest)[|page| + j];
  }

  lemma {:induction false} UnfaithfulEdgeComesBack(table: seq<Entry>, q: Query, limit: nat, bound: Option<Position>,
                                                   n: nat)
    requires UniqueIds(table) && TimesStored(table) && limit > 0 && !EdgesFaithful(table, q, limit, bound, n)
    ensures ComesBack(Pages(table, q, limit, bound, n + 1), bound)
    decreases n
  {
    var rows := Rows(table, q, bound);
    var edge := rows[limit - 1];
    var rest := Pages(table, q, limit, Some(NextBound(edge)), n);
    PagesFromTable(table, q, limit, Some(NextBound(edge)), n);
    if Faithful(edge.createdAt) {
      FaithfulEdge(edge);
      UnfaithfulEdgeComesBack(table, q, limit, Some(Pos(edge)), n - 1);
      if NoRepeats(rest) {
        var k :| 0 <= k < |rest| && !Under(Some(Pos(edge)), Pos(rest[k]));
        AboveEdgeComesBack(table, q, limit, bound, rest, k);
      } else {
        RestRepeats(rows[..limit], rest);
      }
    } else {
      NextPageStartsOver(table, q, bound, edge);
      assert rest[0] == Rows(table, q, Some(NextBound(edge)))[0];
      AboveEdgeComesBack(table, q, limit, bound, rest, 0);
    }
  }

  lemma AboveEdgeComesBack(table: seq<Entry>, q: Query, limit: nat, bound: Option<Position>, rest: seq<Row>, k: nat)
    requires UniqueIds(table) && 0 < limit < |Rows(table, q, bound)|
    requires k < |rest| && FromTable(rest[k], table, q, None)
    requires !Before(Pos(rest[k]), Pos(Rows(table, q, bound)[limit - 1]))
    ensures ComesBack(Rows(table, q, bound)[..limit] + rest, bound)
  {
    if Under(bound, Pos(rest[k])) {
      OnPageOrAbove(table, q, limit, bound, rest[k]);
    }
    RestComesBack(Rows(table, q, bound)[..limit], rest, k, bound);
  }

  lemma PagesRepeatIff(table: seq<Entry>, q: Query, limit: nat, n: nat)
    requires UniqueIds(table) && TimesStored(table) && limit > 0
    ensures NoRepeats(Pages(table, q, limit, None, n + 1)) <==> EdgesFaithful(table, q, limit, None, n)
  {
    if EdgesFaithful(table, q, limit, None, n) {
      FaithfulPagesDescend(table, q, limit, None, n);
      DescendingNoRepeats(Pages(table, q, limit, None, n + 1));
    } else {
      UnfaithfulEdgeComesBack(table, q, limit, None, n);
    }
  }

  /** On a fixed table, following the cursors returns no row twice on n + 1 pages if and
      only if each of the first n pages that is not the last ends in a row whose time the
      cursor carries. */
  lemma RepeatsIffUnfaithfulEdge(table: seq<Entry>, n: nat, req: Request)
    requires UniqueIds(table) && TimesStored(table) && RequestOk(req) && req.cursor == ""
    ensures NoRepeats(Traverse(Copies(table, n + 1), req).entries)
            <==> EdgesFaithful(table, QueryOf(req), LimitOf(req), None, n)
  {
    TraverseIsPages(table, req, None, n + 1);
    PagesRepeatIff(table, QueryOf(req), LimitOf(req), n);
  }

  // ---- Nothing is skipped ---------------------------------------------------

  /** The bound after a page is its last row, or above it. */
  lemma NextBoundNotBelow(edge: Row, p: Position)
    requires Stored(edge.createdAt) && Under(Some(Pos(edge)), p)
    ensures Under(Some(NextBound(edge)), p)
  {
    UnfaithfulIsFractionBefore1970(edge.createdAt);
    MicrosToNaiveExact(edge.createdAt);
  }

  lemma CompleteBelowEdge(rows: seq<Row>, table: seq<Entry>, q: Query, edge: Row)
    requires Stored(edge.createdAt) && Complete(rows, table, q, Some(NextBound(edge)))
    ensures Complete(rows, table, q, Some(Pos(edge)))
  {
    forall i | 0 <= i < |table| && Matches(q, table[i]) && Under(Some(Pos(edge)), Pos(RowOf(table[i])))
      ensures RowOf(table[i]) in rows
    {
      NextBoundNotBelow(edge, Pos(RowOf(table[i])));
    }
  }

  ghost predicate TablesStored(tables: seq<seq<Entry>>) {
    forall i :: 0 <= i < |tables| ==> UniqueIds(tables[i]) && TimesStored(tables[i])
  }

  /** Over any growing ledger, whether or not the cursors carry its times: a traversal that
      ends has returned every matching entry its first call could see. A time that is not
      carried can bring rows back, but never skips one. */
  lemma {:induction false} GrowingLedgerComplete(tables: seq<seq<Entry>>, req: Request, bound: Option<Position>)
    requires |tables| > 0 && TablesStored(tables) && Growing(tables)
    requires RequestOk(req) && CursorMeans(req.cursor, bound)
    ensures var t := Traverse(tables, req);
      t.ended ==> Complete(t.entries, tables[0], QueryOf(req), bound)
    decreases |tables|
  {
    ServeAny(tables[0], req, bound);
    var rows, limit := RowsBelow(tables[0], req, bound), LimitOf(req);
    if |rows| > limit && |tables| > 1 {
      var edge, later := rows[limit - 1], tables[1..];
      var next := req.(cursor := CursorText(Pos(edge)));
      assert forall i :: 0 <= i < |later| ==> later[i] == tables[i + 1];
      GrowingLedgerComplete(later, next, Some(NextBound(edge)));
      var rest := Traverse(later, next);
      if rest.ended {
        CompleteBelowEdge(rest.entries, later[0], QueryOf(req), edge);
        PageThenRestIsComplete(rows, limit, rest.entries, tables[0], later[0], QueryOf(req), bound);
      }
    }
  }
}
