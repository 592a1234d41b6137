/** The statement of an account and its balance agree: a client that pages through all of an
    account's entries in a currency can compute what get_balance answers. */
module StatementBalance {
  import opened Common
  import opened Ledger
  import opened Idempotency
  import opened Statement
  import opened Paging
  import opened Balance
  import opened StatementRequests

  /** What one row does to the balance of an account. */
  function RowDelta(r: Row, account: Id): int {
    (if r.credit == account then r.amount else 0) - (if r.debit == account then r.amount else 0)
  }

  function SignedSum(rows: seq<Row>, account: Id): int {
    if |rows| == 0 then 0 else RowDelta(rows[0], account) + SignedSum(rows[1..], account)
  }

  /** Where a row goes in the order does not matter to the sum. */
  lemma {:induction false} SumOfInserted(rows: seq<Row>, r: Row, account: Id)
    ensures SignedSum(InsertRow(rows, r), account) == SignedSum(rows, account) + RowDelta(r, account)
  {
    if |rows| > 0 && !Before(Pos(rows[0]), Pos(r)) {
      SumOfInserted(rows[1..], r, account);
      assert InsertRow(rows, r) == [rows[0]] + InsertRow(rows[1..], r);
    } else {
      assert InsertRow(rows, r) == [r] + rows;
    }
  }

  /** All entries of an account in a currency. */
  function WholeAccount(account: Id, currency: string): Query {
    Query(account, Some(currency), None, None)
  }

  lemma WholeAccountMatches(account: Id, currency: string, e: Entry)
    ensures MeetsAll(Conditions(WholeAccount(account, currency), None), e) <==> Touches(e, account, currency)
  {
    ConditionsMeanMatches(WholeAccount(account, currency), None, e);
  }

  /** The query adds up to the balance and returns as many rows as the balance counts. */
  lemma {:induction false} RowsAddUp(table: seq<Entry>, account: Id, currency: string)
    ensures var rows := Select(table, Conditions(WholeAccount(account, currency), None));
      SignedSum(rows, account) == Net(table, account, currency) && |rows| == CountRows(table, account, currency)
  {
    if |table| > 0 {
      var init, e := table[..|table| - 1], table[|table| - 1];
      RowsAddUp(init, account, currency);
      WholeAccountMatches(account, currency, e);
      var before := Select(init, Conditions(WholeAccount(account, currency), None));
      SumOfInserted(before, RowOf(e), account);
      InsertRowMembers(before, RowOf(e));
    }
  }

  /** The first row of the statement carries the time of the balance. */
  lemma FirstRowIsLatest(table: seq<Entry>, rows: seq<Row>, account: Id, currency: string)
    requires Answer(rows, table, WholeAccount(account, currency), None)
    ensures MaxCreatedAt(table, account, currency) == if |rows| == 0 then None else Some(rows[0].createdAt)
  {
    var q, latest := WholeAccount(account, currency), MaxCreatedAt(table, account, currency);
    if latest.Some? {
      var i :| 0 <= i < |table| && Touches(table[i], account, currency) && table[i].createdAt == latest.value;
      assert Matches(q, table[i]) && RowOf(table[i]) in rows;
      var k :| 0 <= k < |rows| && rows[k] == RowOf(table[i]);
      assert k > 0 ==> Before(Pos(rows[k]), Pos(rows[0]));
    }
    if |rows| > 0 {
      assert rows[0] in rows;
      assert FromTable(rows[0], table, q, None);
      var j :| 0 <= j < |table| && Matches(q, table[j]) && rows[0] == RowOf(table[j]);
      assert Touches(table[j], account, currency);
    }
  }

  /** Follow the cursors of an account's statement in a supported currency, without time
      filters, to the end: the signed sum of the rows returned, as the column holds it, is
      the balance get_balance answers, their number its entry count, and the time of the
      first one its as_of. */
  lemma StatementAddsUpToBalance(table: seq<Entry>, calls: nat, req: Request)
    requires TableOk(table) && |req.account| == 16 && req.limit <= 100 && req.cursor == ""
    requires Supported(req.currency) && req.from.None? && req.to.None?
    requires Traverse(Copies(table, calls), req).ended
    ensures var rows := Traverse(Copies(table, calls), req).entries;
      match GetBalance(table, req.account, req.currency)
      case Err(_) => false
      case Ok(b) =>
        && ColumnShows(SignedSum(rows, req.account), b.balance) && b.entryCount == |rows|
        && b.asOf == if |rows| == 0 then None else Some(rows[0].createdAt)
  {
    var rows := RowsBelow(table, req, None);
    assert QueryOf(req) == WholeAccount(req.account, req.currency);
    EndedTraversalIs(table, calls, req);
    SelectAnswers(table, QueryOf(req), None);
    RowsAddUp(table, req.account, req.currency);
    LiveBalanceIsNet(table, req.account, req.currency);
    FirstRowIsLatest(table, rows, req.account, req.currency);
  }
}
