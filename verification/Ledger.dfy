/** The ledger_entries table: its rows and the constraints its schema keeps on them. */
module Ledger {
  import opened Common
  import opened Idempotency
  import Decimals

  /** One row. The amount is in ten-thousandths, the time in microseconds since 1970. */
  datatype Entry = Entry(id: Id, debit: Id, credit: Id, amount: int, currency: string, key: string,
                         payloadHash: Option<Digest>, paymentId: Option<Id>, metadata: Option<string>,
                         createdAt: int)

  ghost predicate ValidEntry(e: Entry) {
    && 0 < e.amount < Decimals.COLUMN_LIMIT
    && e.debit != e.credit
    && Supported(e.currency)
  }

  /** What the primary key, the unique key and the checks of the schema guarantee. */
  ghost predicate ValidTable(es: seq<Entry>) {
    && (forall i :: 0 <= i < |es| ==> ValidEntry(es[i]))
    && (forall i, j :: 0 <= i < j < |es| ==> es[i].id != es[j].id)
    && (forall i, j :: 0 <= i < j < |es| ==> es[i].key != es[j].key)
  }

  predicate HasKey(es: seq<Entry>, key: string) {
    exists i :: 0 <= i < |es| && es[i].key == key
  }

  predicate HasId(es: seq<Entry>, id: Id) {
    exists i :: 0 <= i < |es| && es[i].id == id
  }

  /** The position of the row with the given key. */
  function Find(es: seq<Entry>, key: string): (i: nat)
    requires HasKey(es, key)
    ensures i < |es| && es[i].key == key
  {
    if es[|es| - 1].key == key then |es| - 1 else Find(es[..|es| - 1], key)
  }
}
