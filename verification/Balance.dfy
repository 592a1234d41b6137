/** services/kova-ledger/src/balance.rs and the live balance of reconciliation.rs: a
    balance is an aggregate over the entries, and balances are conserved. */
module Balance {
  import opened Common
  import opened Idempotency
  import opened Ledger
  import Decimals

  datatype BalanceResult = BalanceResult(balance: int, entryCount: nat, asOf: Option<int>)

  // ---- The aggregate query --------------------------------------------------

  /** The WHERE clause of the query. */
  predicate Touches(e: Entry, account: Id, currency: string) {
    (e.credit == account || e.debit == account) && e.currency == currency
  }

  /** SUM skips NULLs and is NULL when nothing was summed. */
  function AddToSum(sum: Option<int>, row: Option<int>): Option<int> {
    match row
    case None => sum
    case Some(v) => Some(Coalesce(sum) + v)
  }

  function Coalesce(sum: Option<int>): int {
    match sum
    case None => 0
    case Some(v) => v
  }

  function SumCredits(es: seq<Entry>, account: Id, currency: string): Option<int> {
    if |es| == 0 then None
    else
      var e := es[|es| - 1];
      AddToSum(SumCredits(es[..|es| - 1], account, currency),
               if Touches(e, account, currency) && e.credit == account then Some(e.amount) else None)
  }

  function SumDebits(es: seq<Entry>, account: Id, currency: string): Option<int> {
    if |es| == 0 then None
    else
      var e := es[|es| - 1];
      AddToSum(SumDebits(es[..|es| - 1], account, currency),
               if Touches(e, account, currency) && e.debit == account then Some(e.amount) else None)
  }

  function CountRows(es: seq<Entry>, account: Id, currency: string): nat {
    if |es| == 0 then 0
    else CountRows(es[..|es| - 1], account, currency) + (if Touches(es[|es| - 1], account, currency) then 1 else 0)
  }

  /** MAX(created_at): absent exactly when no row matched, else the latest time of the
      matching rows. */
  function MaxCreatedAt(es: seq<Entry>, account: Id, currency: string): (latest: Option<int>)
    ensures latest.None? <==> CountRows(es, account, currency) == 0
    ensures latest.None? ==> forall i :: 0 <= i < |es| ==> !Touches(es[i], account, currency)
    ensures latest.Some? ==>
      && (exists i :: 0 <= i < |es| && Touches(es[i], account, currency) && es[i].createdAt == latest.value)
      && (forall i :: 0 <= i < |es| && Touches(es[i], account, currency) ==> es[i].createdAt <= latest.value)
  {
    if |es| == 0 then None
    else
      var before := MaxCreatedAt(es[..|es| - 1], account, currency);
      var e := es[|es| - 1];
      assert forall i :: 0 <= i < |es| - 1 ==> es[i] == es[..|es| - 1][i];
      if !Touches(e, account, currency) then before
      else if before.Some? && before.value >= e.createdAt then before
      else Some(e.createdAt)
  }

  /** CAST(... AS DECIMAL(19,4)) keeps a value in range and clamps one outside it. */
  function CastToColumn(units: int): int {
    if units >= Decimals.COLUMN_LIMIT then Decimals.COLUMN_LIMIT - 1
    else if units <= -Decimals.COLUMN_LIMIT then 1 - Decimals.COLUMN_LIMIT
    else units
  }

  function LiveBalance(es: seq<Entry>, account: Id, currency: string): int {
    CastToColumn(Coalesce(SumCredits(es, account, currency)) - Coalesce(SumDebits(es, account, currency)))
  }

  function GetBalance(es: seq<Entry>, account: Id, currency: string): Result<BalanceResult> {
    if !Supported(currency) then Err(InvalidArgument)
    else Ok(BalanceResult(LiveBalance(es, account, currency), CountRows(es, account, currency),
                          MaxCreatedAt(es, account, currency)))
  }

  /** What a DECIMAL(19,4) column shows of a number of ten-thousandths: the number itself, or
      the nearest one of nineteen digits. */
  ghost predicate ColumnShows(units: int, shown: int) {
    && (-10_000_000_000_000_000_000 < units < 10_000_000_000_000_000_000 ==> shown == units)
    && (units >= 10_000_000_000_000_000_000 ==> shown == 9_999_999_999_999_999_999)
    && (units <= -10_000_000_000_000_000_000 ==> shown == -9_999_999_999_999_999_999)
  }

  // ---- The signed fold ------------------------------------------------------

  /** What one entry does to one balance. */
  function Delta(e: Entry, account: Id, currency: string): int {
    if e.currency != currency then 0
    else (if e.credit == account then e.amount else 0) - (if e.debit == account then e.amount else 0)
  }

  function Net(es: seq<Entry>, account: Id, currency: string): int {
    if |es| == 0 then 0
    else Net(es[..|es| - 1], account, currency) + Delta(es[|es| - 1], account, currency)
  }

  /** The query answers the signed sum of the entries, clamped to its column type; in
      particular an account without entries has balance zero. */
  lemma {:induction false} LiveBalanceIsNet(es: seq<Entry>, account: Id, currency: string)
    ensures Coalesce(SumCredits(es, account, currency)) - Coalesce(SumDebits(es, account, currency))
         == Net(es, account, currency)
    ensures LiveBalance(es, account, currency) == CastToColumn(Net(es, account, currency))
    ensures ColumnShows(Net(es, account, currency), LiveBalance(es, account, currency))
  {
    if |es| > 0 {
      LiveBalanceIsNet(es[..|es| - 1], account, currency);
    }
  }

  /** The positions of the entries that touch an account in a currency. */
  ghost function Touching(es: seq<Entry>, account: Id, currency: string): set<nat> {
    set i: nat | i < |es| && Touches(es[i], account, currency)
  }

  lemma {:induction false} CountIsTouching(es: seq<Entry>, account: Id, currency: string)
    ensures CountRows(es, account, currency) == |Touching(es, account, currency)|
  {
    if |es| == 0 {
      assert Touching(es, account, currency) == {};
    } else {
      var n := |es| - 1;
      var before := Touching(es[..n], account, currency);
      CountIsTouching(es[..n], account, currency);
      assert Touching(es, account, currency) == if Touches(es[n], account, currency) then before + {n} else before;
    }
  }

  /** What get_balance answers: an error exactly for an unsupported currency, else the
      signed sum of the entries as the column holds it, the number of entries that touch
      the account, and a time unless there are none. */
  lemma GetBalanceIsNet(es: seq<Entry>, account: Id, currency: string)
    ensures match GetBalance(es, account, currency)
            case Err(e) => e == InvalidArgument && !Supported(currency)
            case Ok(b) =>
              && Supported(currency) && ColumnShows(Net(es, account, currency), b.balance)
              && b.entryCount == |Touching(es, account, currency)|
              && (b.asOf.None? <==> Touching(es, account, currency) == {})
  {
    LiveBalanceIsNet(es, account, currency);
    CountIsTouching(es, account, currency);
  }

  lemma NetPush(es: seq<Entry>, e: Entry, account: Id, currency: string)
    ensures Net(es + [e], account, currency) == Net(es, account, currency) + Delta(e, account, currency)
  {
    assert (es + [e])[..|es|] == es;
  }

  /** The fold over a prefix and the fold over the rest add up. */
  lemma {:induction false} NetSplit(es: seq<Entry>, k: nat, account: Id, currency: string)
    requires k <= |es|
    ensures Net(es, account, currency) == Net(es[..k], account, currency) + Net(es[k..], account, currency)
  {
    if k == |es| {
      assert es[..k] == es;
    } else {
      var init := es[..|es| - 1];
      NetSplit(init, k, account, currency);
      assert init[..k] == es[..k];
      assert es[k..][..|es[k..]| - 1] == init[k..];
    }
  }

  // ---- Conservation ---------------------------------------------------------

  ghost function Pick(accounts: set<Id>): Id
    requires accounts != {}
    ensures Pick(accounts) in accounts
  {
    var a :| a in accounts; a
  }

  /** The sum of the balances of a set of accounts. */
  ghost function Total(accounts: set<Id>, es: seq<Entry>, currency: string): int {
    if accounts == {} then 0
    else
      var a := Pick(accounts);
      Net(es, a, currency) + Total(accounts - {a}, es, currency)
  }

  /** What the entries carry across the boundary of a set of accounts. */
  ghost function Crossing(accounts: set<Id>, es: seq<Entry>, currency: string): int {
    if |es| == 0 then 0
    else Crossing(accounts, es[..|es| - 1], currency) + CrossingOne(accounts, es[|es| - 1], currency)
  }

  ghost function CrossingOne(accounts: set<Id>, e: Entry, currency: string): int {
    if e.currency != currency then 0
    else (if e.credit in accounts then e.amount else 0) - (if e.debit in accounts then e.amount else 0)
  }

  lemma {:induction false} TotalLast(accounts: set<Id>, es: seq<Entry>, currency: string)
    requires |es| > 0
    ensures Total(accounts, es, currency)
         == Total(accounts, es[..|es| - 1], currency) + CrossingOne(accounts, es[|es| - 1], currency)
    decreases accounts
  {
    if accounts != {} {
      var a := Pick(accounts);
      TotalLast(accounts - {a}, es, currency);
    }
  }

  lemma {:induction false} TotalEmpty(accounts: set<Id>, currency: string)
    ensures Total(accounts, [], currency) == 0
    decreases accounts
  {
    if accounts != {} {
      TotalEmpty(accounts - {Pick(accounts)}, currency);
    }
  }

  /** The total of any set of accounts is exactly what crossed its boundary. */
  lemma {:induction false} TotalIsCrossing(accounts: set<Id>, es: seq<Entry>, currency: string)
    ensures Total(accounts, es, currency) == Crossing(accounts, es, currency)
    decreases |es|
  {
    if |es| == 0 {
      TotalEmpty(accounts, currency);
      assert es == [];
    } else {
      TotalLast(accounts, es, currency);
      TotalIsCrossing(accounts, es[..|es| - 1], currency);
    }
  }

  /** No entry in the currency has one side inside the set and the other outside. */
  ghost predicate Closed(accounts: set<Id>, es: seq<Entry>, currency: string) {
    forall i :: 0 <= i < |es| && es[i].currency == currency
      ==> (es[i].credit in accounts <==> es[i].debit in accounts)
  }

  /** Double entry: the balances of a closed set of accounts sum to zero. */
  lemma {:induction false} Conservation(accounts: set<Id>, es: seq<Entry>, currency: string)
    requires Closed(accounts, es, currency)
    ensures Total(accounts, es, currency) == 0
    decreases |es|
  {
    if |es| == 0 {
      TotalEmpty(accounts, currency);
      assert es == [];
    } else {
      var init := es[..|es| - 1];
      assert Closed(accounts, init, currency) by {
        assert forall i :: 0 <= i < |init| ==> init[i] == es[i];
      }
      Conservation(accounts, init, currency);
      TotalLast(accounts, es, currency);
    }
  }

  /** A valid entry moves its amount out of exactly one account and into exactly one
      other, in its own currency only. */
  lemma EntryMovesTwoBalances(es: seq<Entry>, e: Entry, account: Id, currency: string)
    requires ValidEntry(e)
    ensures Net(es + [e], account, currency) - Net(es, account, currency)
         == if currency == e.currency && account == e.credit then e.amount
            else if currency == e.currency && account == e.debit then -e.amount
            else 0
  {
    NetPush(es, e, account, currency);
  }
}
