/** services/kova-ledger/src/statement.rs and the get_statement adapter of server.rs: a
    keyset-paginated query over the entries table. */
module Statement {
  import opened Common
  import opened Ledger
  import opened Cursor

  // ---- Rows and their order -------------------------------------------------

  /** The columns the statement query selects. */
  datatype Row = Row(entryId: Id, debit: Id, credit: Id, amount: int, currency: string, key: string,
                     paymentId: Option<Id>, metadata: Option<string>, createdAt: int)

  function RowOf(e: Entry): Row {
    Row(e.id, e.debit, e.credit, e.amount, e.currency, e.key, e.paymentId, e.metadata, e.createdAt)
  }

  function Pos(r: Row): Position {
    Position(r.createdAt, r.entryId)
  }

  /** The order of (created_at, id). */
  predicate Before(p: Position, q: Position) {
    p.micros < q.micros || (p.micros == q.micros && LexLess(p.id, q.id))
  }

  lemma BeforeIsStrictOrder(p: Position, q: Position, r: Position)
    ensures !Before(p, p)
    ensures Before(p, q) && Before(q, r) ==> Before(p, r)
    ensures p == q || Before(p, q) || Before(q, p)
    ensures !(Before(p, q) && Before(q, p))
  {
    LexIrreflexive(p.id);
    LexTotal(p.id, q.id);
    if LexLess(p.id, q.id) && LexLess(q.id, r.id) {
      LexTransitive(p.id, q.id, r.id);
    }
    if LexLess(p.id, q.id) && LexLess(q.id, p.id) {
      LexTransitive(p.id, q.id, p.id);
    }
  }

  predicate Descending(rows: seq<Row>) {
    forall i, j :: 0 <= i < j < |rows| ==> Before(Pos(rows[j]), Pos(rows[i]))
  }

  // ---- The query ------------------------------------------------------------

  /** One condition pushed on the query builder. */
  datatype Condition =
    | OnAccount(account: Id)
    | CurrencyIs(currency: string)
    | NotBefore(from: int)
    | NotAfter(to: int)
    | PastCursor(time: int, id: Id)

  predicate Meets(c: Condition, e: Entry) {
    match c
    case OnAccount(a) => e.debit == a || e.credit == a
    case CurrencyIs(cur) => e.currency == cur
    case NotBefore(t) => e.createdAt >= t
    case NotAfter(t) => e.createdAt <= t
    case PastCursor(t, id) => e.createdAt < t || (e.createdAt == t && LexLess(e.id, id))
  }

  predicate MeetsAll(cs: seq<Condition>, e: Entry) {
    forall i :: 0 <= i < |cs| ==> Meets(cs[i], e)
  }

  /** ORDER BY created_at DESC, id DESC: a row goes before the first smaller one. */
  function InsertRow(rows: seq<Row>, r: Row): seq<Row> {
    if |rows| == 0 || Before(Pos(rows[0]), Pos(r)) then [r] + rows
    else [rows[0]] + InsertRow(rows[1..], r)
  }

  /** The ordered rows of the query, before LIMIT. */
  function Select(table: seq<Entry>, cs: seq<Condition>): seq<Row> {
    if |table| == 0 then []
    else
      var rows := Select(table[..|table| - 1], cs);
      var e := table[|table| - 1];
      if MeetsAll(cs, e) then InsertRow(rows, RowOf(e)) else rows
  }

  function Take(rows: seq<Row>, n: nat): seq<Row> {
    if |rows| <= n then rows else rows[..n]
  }

  // ---- get_statement --------------------------------------------------------

  datatype Query = Query(account: Id, currency: Option<string>, from: Option<int>, to: Option<int>)

  datatype Page = Page(entries: seq<Row>, nextCursor: Option<string>, hasMore: bool)

  function Conditions(q: Query, bound: Option<Position>): seq<Condition> {
    [OnAccount(q.account)]
    + (if q.currency.Some? then [CurrencyIs(q.currency.value)] else [])
    + (if q.from.Some? then [NotBefore(q.from.value)] else [])
    + (if q.to.Some? then [NotAfter(q.to.value)] else [])
    + (if bound.Some? then [PastCursor(bound.value.micros, bound.value.id)] else [])
  }

  /** The page cut from the ordered rows below the bound. */
  function PageOf(rows: seq<Row>, limit: nat): Page
    requires limit > 0
  {
    if |rows| > limit
    then Page(rows[..limit], Some(CursorText(Pos(rows[limit - 1]))), true)
    else Page(rows, None, false)
  }

  /** The bound a cursor stands for, with its time as the database will see it. */
  function BoundOf(cursor: Option<string>): Result<Option<Position>> {
    match cursor
    case None => Ok(None)
    case Some(text) =>
      match ParseCursor(text)
      case Err(e) => Err(e)
      case Ok(p) => Ok(Some(Position(MicrosToNaive(p.micros), p.id)))
  }

  function StatementPage(table: seq<Entry>, q: Query, cursor: Option<string>, limit: nat): Result<Page>
  {
    if limit == 0 || limit > 100 then Err(InvalidArgument)
    else
      match BoundOf(cursor)
      case Err(e) => Err(e)
      case Ok(bound) => Ok(PageOf(Select(table, Conditions(q, bound)), limit))
  }

  lemma {:induction false} InsertRowMembers(rows: seq<Row>, r: Row)
    ensures |InsertRow(rows, r)| == |rows| + 1
    ensures forall x :: x in InsertRow(rows, r) <==> x == r || x in rows
    decreases |rows|
  {
    if |rows| > 0 && !Before(Pos(rows[0]), Pos(r)) {
      InsertRowMembers(rows[1..], r);
      assert rows == [rows[0]] + rows[1..];
    }
  }

  /** The builder grows by pushes, one for each filter present. */
  method BuildQuery(q: Query, bound: Option<Position>) returns (qb: seq<Condition>)
    ensures qb == Conditions(q, bound)
  {
    qb := [OnAccount(q.account)];
    if q.currency.Some? {
      qb := qb + [CurrencyIs(q.currency.value)];
    }
    if q.from.Some? {
      qb := qb + [NotBefore(q.from.value)];
    }
    if q.to.Some? {
      qb := qb + [NotAfter(q.to.value)];
    }
    if bound.Some? {
      qb := qb + [PastCursor(bound.value.micros, bound.value.id)];
    }
  }

  /** From the fetched rows, of which there are at most one more than the limit, to the
      page. */
  method FillPage(ghost all: seq<Row>, rows: seq<Row>, limit: nat) returns (page: Page)
    requires limit > 0 && rows == Take(all, limit + 1)
    ensures page == PageOf(all, limit)
  {
    var hasMore := |rows| > limit;
    var take := if hasMore then limit else |rows|;
    var entries := [];
    var i := 0;
    while i < take
      invariant 0 <= i <= take
      invariant entries == rows[..i]
    {
      entries := entries + [rows[i]];
      i := i + 1;
    }
    var nextCursor := None;
    if hasMore {
      var last := entries[|entries| - 1];
      var text := EncodeCursor(last.createdAt, last.entryId);
      nextCursor := Some(text);
    }
    page := Page(entries, nextCursor, hasMore);
  }

  /** get_statement: check the limit, build the query, fetch one row more than the limit
      and fill the page. */
  method GetStatement(table: seq<Entry>, account: Id, currency: Option<string>, cursor: Option<string>,
                      limit: nat, from: Option<int>, to: Option<int>)
      returns (r: Result<Page>)
    ensures r == StatementPage(table, Query(account, currency, from, to), cursor, limit)
  {
    if limit == 0 || limit > 100 {
      return Err(InvalidArgument);
    }
    var bound := None;
    if cursor.Some? {
      var decoded := DecodeCursor(cursor.value);
      if decoded.Err? {
        return Err(decoded.error);
      }
      bound := Some(Position(MicrosToNaive(decoded.value.micros), decoded.value.id));
    }
    var qb := BuildQuery(Query(account, currency, from, to), bound);
    var rows := Take(Select(table, qb), limit + 1);
    var page := FillPage(Select(table, qb), rows, limit);
    r := Ok(page);
  }

  // ---- The gRPC adapter -----------------------------------------------------

  datatype Request = Request(account: seq<Byte>, currency: string, cursor: string, limit: nat,
                             from: Option<int>, to: Option<int>)

  datatype Response = Response(entries: seq<Row>, nextCursor: string, hasMore: bool)

  function QueryOf(req: Request): Query
    requires |req.account| == 16
  {
    Query(req.account, if req.currency == "" then None else Some(req.currency), req.from, req.to)
  }

  function LimitOf(req: Request): nat {
    if req.limit == 0 then 20 else req.limit
  }

  /** On the wire the empty string stands for no cursor, in both directions. */
  function Serve(table: seq<Entry>, req: Request): Result<Response>
  {
    if |req.account| != 16 then Err(InvalidArgument)
    else
      match StatementPage(table, QueryOf(req), if req.cursor == "" then None else Some(req.cursor), LimitOf(req))
      case Err(e) => Err(e)
      case Ok(page) =>
        Ok(Response(page.entries, if page.nextCursor.Some? then page.nextCursor.value else "", page.hasMore))
  }
}
