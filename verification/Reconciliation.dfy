/** services/kova-ledger/src/reconciliation.rs: the end-of-day pass, with postings coming in
    between any two of its statements. */
module Reconciliation {
  import opened Common
  import opened Ledger
  import opened Balance
  import Arithmetic
  import Decimals

  datatype Snapshot = Snapshot(account: Id, currency: string, balance: int, at: int)

  const DAY: int := 86_400_000_000

  function DayOf(micros: int): int {
    micros / DAY
  }

  /** What happens between two statements: a posting commits, or time passes. */
  datatype Event = Post(entry: Entry) | Tick(micros: nat)

  /** No posting commits; time may pass. */
  ghost predicate NoPost(evs: seq<Event>) {
    forall i :: 0 <= i < |evs| ==> evs[i].Tick?
  }

  ghost predicate Quiet(others: seq<seq<Event>>) {
    forall i :: 0 <= i < |others| ==> NoPost(others[i])
  }

  /** Days start at midnight UTC. */
  lemma DayMeans(micros: int, day: int)
    ensures DayOf(micros) == day <==> day * 86_400_000_000 <= micros < (day + 1) * 86_400_000_000
  {
    assert micros == DayOf(micros) * 86_400_000_000 + micros % 86_400_000_000;
  }

  // ---- Queries --------------------------------------------------------------

  predicate ActiveOn(es: seq<Entry>, account: Id, day: int) {
    exists i :: 0 <= i < |es| && DayOf(es[i].createdAt) == day && (es[i].debit == account || es[i].credit == account)
  }

  predicate Uses(es: seq<Entry>, account: Id, currency: string) {
    exists i :: 0 <= i < |es| && es[i].currency == currency && (es[i].debit == account || es[i].credit == account)
  }

  predicate IsFor(s: Snapshot, account: Id, currency: string) {
    s.account == account && s.currency == currency
  }

  /** ORDER BY snapshot_at DESC LIMIT 1 among the snapshots of a pair. */
  function Latest(snaps: seq<Snapshot>, account: Id, currency: string): (i: Option<nat>)
    ensures i.Some? ==> i.value < |snaps| && IsFor(snaps[i.value], account, currency)
  {
    if |snaps| == 0 then None
    else
      var before := Latest(snaps[..|snaps| - 1], account, currency);
      var last := snaps[|snaps| - 1];
      if IsFor(last, account, currency) && (before.None? || snaps[before.value].at < last.at)
      then Some(|snaps| - 1) else before
  }

  ghost predicate TimesIncrease(snaps: seq<Snapshot>) {
    forall i, j :: 0 <= i < j < |snaps| ==> snaps[i].at < snaps[j].at
  }

  // ---- What a pass does -----------------------------------------------------

  /** One pair a pass compared: how much of the ledger its live balance covered, and the
      snapshot it was compared with. */
  datatype Visit = Visit(account: Id, currency: string, readAt: nat, against: Option<nat>)

  /** Whether the entries committed after the read behind the old snapshot and up to this
      read changed the balance. `covered[i]` is the number of entries snapshot i covered. */
  ghost predicate Changed(v: Visit, es: seq<Entry>, covered: seq<nat>)
    requires v.readAt <= |es| && (v.against.Some? ==> v.against.value < |covered|)
  {
    && v.against.Some?
    && covered[v.against.value] <= v.readAt
    && Net(es[covered[v.against.value]..v.readAt], v.account, v.currency) != 0
  }

  ghost predicate VisitsOk(visits: seq<Visit>, es: seq<Entry>, covered: seq<nat>) {
    forall i :: 0 <= i < |visits| ==>
      && visits[i].readAt <= |es|
      && (visits[i].against.Some? ==> visits[i].against.value < |covered|)
  }

  ghost function CountChanged(visits: seq<Visit>, es: seq<Entry>, covered: seq<nat>): nat
    requires VisitsOk(visits, es, covered)
  {
    if |visits| == 0 then 0
    else
      CountChanged(visits[..|visits| - 1], es, covered)
      + (if Changed(visits[|visits| - 1], es, covered) then 1 else 0)
  }

  lemma {:induction false} CountGrows(visits: seq<Visit>, es: seq<Entry>, covered: seq<nat>, es': seq<Entry>,
                                      covered': seq<nat>)
    requires VisitsOk(visits, es, covered) && es <= es' && covered <= covered'
    ensures VisitsOk(visits, es', covered') && CountChanged(visits, es', covered') == CountChanged(visits, es, covered)
    decreases |visits|
  {
    if |visits| > 0 {
      var v := visits[|visits| - 1];
      CountGrows(visits[..|visits| - 1], es, covered, es', covered');
      if v.against.Some? && covered[v.against.value] <= v.readAt {
        assert es[covered[v.against.value]..v.readAt] == es'[covered[v.against.value]..v.readAt];
      }
    }
  }

  lemma CountPush(visits: seq<Visit>, v: Visit, es: seq<Entry>, covered: seq<nat>)
    requires VisitsOk(visits, es, covered) && v.readAt <= |es|
    requires v.against.Some? ==> v.against.value < |covered|
    ensures VisitsOk(visits + [v], es, covered)
    ensures CountChanged(visits + [v], es, covered)
         == CountChanged(visits, es, covered) + (if Changed(v, es, covered) then 1 else 0)
  {
    assert (visits + [v])[..|visits|] == visits;
  }

  /** Balances fit the column for every prefix of the ledger. */
  ghost predicate Bounded(es: seq<Entry>) {
    forall k: nat, a: Id, c: string :: k <= |es| ==> Decimals.FitsColumn(Net(es[..k], a, c))
  }

  /** Comparing a live balance with a snapshot compares the ledger at two reads. */
  lemma ComparisonIsDelta(es: seq<Entry>, early: nat, late: nat, account: Id, currency: string)
    requires early <= late <= |es| && Bounded(es)
    ensures LiveBalance(es[..late], account, currency) - LiveBalance(es[..early], account, currency)
         == Net(es[early..late], account, currency)
  {
    LiveBalanceIsNet(es[..late], account, currency);
    LiveBalanceIsNet(es[..early], account, currency);
    NetSplit(es[..late], early, account, currency);
    assert es[..late][..early] == es[..early];
    assert es[..late][early..] == es[early..late];
    assert Decimals.FitsColumn(Net(es[..late], account, currency));
    assert Decimals.FitsColumn(Net(es[..early], account, currency));
  }

  /** So what a pass reports as a mismatch is ordinary activity: one valid posting after a
      snapshot makes both its accounts differ from their snapshots, while all balances
      still sum to zero. */
  lemma MismatchIsActivity(es: seq<Entry>, e: Entry, accounts: set<Id>)
    requires ValidEntry(e) && Bounded(es + [e])
    requires forall i :: 0 <= i < |es + [e]| ==> (es + [e])[i].debit in accounts && (es + [e])[i].credit in accounts
    ensures LiveBalance(es + [e], e.credit, e.currency) == LiveBalance(es, e.credit, e.currency) + e.amount
    ensures LiveBalance(es + [e], e.debit, e.currency) == LiveBalance(es, e.debit, e.currency) - e.amount
    ensures Total(accounts, es + [e], e.currency) == 0
  {
    var es' := es + [e];
    assert es'[..|es'|] == es' && es'[..|es|] == es && es'[|es|..|es'|] == [e];
    ComparisonIsDelta(es', |es|, |es'|, e.credit, e.currency);
    ComparisonIsDelta(es', |es|, |es'|, e.debit, e.currency);
    assert [e][..0] == [];
    Conservation(accounts, es', e.currency);
  }

  ghost predicate Covers(visits: seq<Visit>, account: Id, currency: string) {
    exists k :: 0 <= k < |visits| && visits[k].account == account && visits[k].currency == currency
  }

  ghost predicate PairsDistinct(visits: seq<Visit>) {
    forall j, k :: 0 <= j < k < |visits| ==>
      visits[j].account != visits[k].account || visits[j].currency != visits[k].currency
  }

  /** Each visit compared with the latest snapshot there was before the pass. */
  ghost predicate Against(visits: seq<Visit>, snaps: seq<Snapshot>) {
    forall k :: 0 <= k < |visits| ==> visits[k].against == Latest(snaps, visits[k].account, visits[k].currency)
  }

  /** Past the snapshots there were before, there is one for each visit, taken at its
      read. */
  ghost predicate Recorded(visits: seq<Visit>, before: seq<Snapshot>, snaps: seq<Snapshot>, covered: seq<nat>) {
    && before <= snaps && |snaps| == |covered| == |before| + |visits|
    && forall k :: 0 <= k < |visits| ==>
         && IsFor(snaps[|before| + k], visits[k].account, visits[k].currency)
         && covered[|before| + k] == visits[k].readAt
  }

  /** Where a pass stands: the pairs visited so far, and a count that is exactly the number
      of them whose balance changed since their previous snapshot. */
  ghost predicate PassOk(visits: seq<Visit>, mismatches: nat, before: seq<Snapshot>, es: seq<Entry>,
                         snaps: seq<Snapshot>, covered: seq<nat>) {
    && VisitsOk(visits, es, covered) && PairsDistinct(visits)
    && Against(visits, before) && Recorded(visits, before, snaps, covered)
    && (Bounded(es) ==> mismatches == CountChanged(visits, es, covered))
  }

  lemma {:induction false} LatestUnaffected(before: seq<Snapshot>, snaps: seq<Snapshot>, account: Id, currency: string)
    requires before <= snaps
    requires forall i :: |before| <= i < |snaps| ==> !IsFor(snaps[i], account, currency)
    ensures Latest(snaps, account, currency) == Latest(before, account, currency)
    decreases |snaps|
  {
    if |snaps| == |before| {
      assert snaps == before;
    } else {
      LatestUnaffected(before, snaps[..|snaps| - 1], account, currency);
    }
  }

  lemma {:induction false} LatestAtLeast(snaps: seq<Snapshot>, i: nat, account: Id, currency: string)
    requires TimesIncrease(snaps) && i < |snaps| && IsFor(snaps[i], account, currency)
    ensures Latest(snaps, account, currency).Some? && Latest(snaps, account, currency).value >= i
    decreases |snaps|
  {
    if i < |snaps| - 1 {
      LatestAtLeast(snaps[..|snaps| - 1], i, account, currency);
    }
  }

  lemma BoundedPrefix(es: seq<Entry>, es': seq<Entry>)
    requires es <= es' && Bounded(es')
    ensures Bounded(es)
  {
    forall k: nat, a: Id, c: string | k <= |es|
      ensures Decimals.FitsColumn(Net(es[..k], a, c))
    {
      assert es[..k] == es'[..k];
    }
  }

  /** A pair not visited before adds one visit, and one to the count if it changed. */
  lemma VisitPair(visits: seq<Visit>, mismatches: nat, before: seq<Snapshot>, es: seq<Entry>, snaps: seq<Snapshot>,
                  covered: seq<nat>, v: Visit, mismatch: bool, es': seq<Entry>, s: Snapshot)
    requires PassOk(visits, mismatches, before, es, snaps, covered) && es <= es'
    requires !Covers(visits, v.account, v.currency) && IsFor(s, v.account, v.currency)
    requires v.readAt <= |es'| && v.against == Latest(snaps, v.account, v.currency)
    requires Bounded(es') ==> (mismatch <==> Changed(v, es', covered))
    ensures PassOk(visits + [v], mismatches + (if mismatch then 1 else 0), before, es', snaps + [s],
                   covered + [v.readAt])
  {
    var covered' := covered + [v.readAt];
    forall i | |before| <= i < |snaps|
      ensures !IsFor(snaps[i], v.account, v.currency)
    {
      assert IsFor(snaps[i], visits[i - |before|].account, visits[i - |before|].currency);
    }
    LatestUnaffected(before, snaps, v.account, v.currency);
    CountGrows(visits, es, covered, es', covered');
    CountPush(visits, v, es', covered');
    if Bounded(es') {
      BoundedPrefix(es, es');
      assert Changed(v, es', covered) <==> Changed(v, es', covered');
    }
  }

  lemma ActivePush(es: seq<Entry>, i: nat, day: int)
    requires i < |es|
    ensures forall a: Id :: ActiveOn(es[..i + 1], a, day) <==>
      ActiveOn(es[..i], a, day) || (DayOf(es[i].createdAt) == day && (es[i].debit == a || es[i].credit == a))
  {
    forall a: Id
      ensures ActiveOn(es[..i + 1], a, day) <==>
        ActiveOn(es[..i], a, day) || (DayOf(es[i].createdAt) == day && (es[i].debit == a || es[i].credit == a))
    {
      assert es[..i + 1][i] == es[i];
      assert forall k :: 0 <= k < i ==> es[..i + 1][k] == es[..i][k];
    }
  }

  lemma UsesPush(es: seq<Entry>, i: nat, account: Id)
    requires i < |es|
    ensures forall c: string :: Uses(es[..i + 1], account, c) <==>
      Uses(es[..i], account, c) || (es[i].currency == c && (es[i].debit == account || es[i].credit == account))
  {
    forall c: string
      ensures Uses(es[..i + 1], account, c) <==>
        Uses(es[..i], account, c) || (es[i].currency == c && (es[i].debit == account || es[i].credit == account))
    {
      assert es[..i + 1][i] == es[i];
      assert forall k :: 0 <= k < i ==> es[..i + 1][k] == es[..i][k];
    }
  }

  lemma UsesGrows(es: seq<Entry>, es': seq<Entry>, account: Id, currency: string)
    requires es <= es' && Uses(es, account, currency)
    ensures Uses(es', account, currency)
  {
    var i :| 0 <= i < |es| && es[i].currency == currency && (es[i].debit == account || es[i].credit == account);
    assert es'[i] == es[i];
  }

  predicate IsSide(e: Entry, account: Id) {
    e.debit == account || e.credit == account
  }

  /** The entry was created on the day of the given time. */
  predicate SameDay(e: Entry, now: int) {
    0 <= e.createdAt - (now - now % 86_400_000_000) < 86_400_000_000
  }

  ghost predicate HasEntryOfDay(es: seq<Entry>, account: Id, now: int) {
    exists i :: 0 <= i < |es| && SameDay(es[i], now) && IsSide(es[i], account)
  }

  /** The visits cover every account with an entry of the day, in the currency of each of its
      entries of any day, and no account without one. */
  ghost predicate SweepsDay(visits: seq<Visit>, es: seq<Entry>, now: int) {
    && (forall a: Id, j :: HasEntryOfDay(es, a, now) && 0 <= j < |es| && IsSide(es[j], a) ==>
          Covers(visits, a, es[j].currency))
    && (forall k :: 0 <= k < |visits| ==> HasEntryOfDay(es, visits[k].account, now))
  }

  lemma SameDayMeans(e: Entry, now: int)
    ensures SameDay(e, now) <==> DayOf(e.createdAt) == DayOf(now)
  {
    DayMeans(e.createdAt, DayOf(now));
    assert now - now % 86_400_000_000 == DayOf(now) * 86_400_000_000;
  }

  lemma ActiveMeans(es: seq<Entry>, account: Id, now: int)
    ensures ActiveOn(es, account, DayOf(now)) <==> HasEntryOfDay(es, account, now)
  {
    forall i | 0 <= i < |es|
      ensures SameDay(es[i], now) <==> DayOf(es[i].createdAt) == DayOf(now)
    {
      SameDayMeans(es[i], now);
    }
    if ActiveOn(es, account, DayOf(now)) {
      var i :| 0 <= i < |es| && DayOf(es[i].createdAt) == DayOf(now)
        && (es[i].debit == account || es[i].credit == account);
      assert SameDay(es[i], now) && IsSide(es[i], account);
    }
  }

  lemma CoveredIsSwept(visits: seq<Visit>, es: seq<Entry>, now: int)
    requires forall a: Id :: ActiveOn(es, a, DayOf(now)) ==> CoversAccount(visits, es, a)
    requires forall k :: 0 <= k < |visits| ==> ActiveOn(es, visits[k].account, DayOf(now))
    ensures SweepsDay(visits, es, now)
  {
    forall a: Id, j | HasEntryOfDay(es, a, now) && 0 <= j < |es| && IsSide(es[j], a)
      ensures Covers(visits, a, es[j].currency)
    {
      ActiveMeans(es, a, now);
      assert Uses(es, a, es[j].currency) && CoversAccount(visits, es, a);
    }
    forall k | 0 <= k < |visits|
      ensures HasEntryOfDay(es, visits[k].account, now)
    {
      ActiveMeans(es, visits[k].account, now);
    }
  }

  class LedgerDatabase {
    var entries: seq<Entry>
    var snapshots: seq<Snapshot>
    var clock: int
    /** How many entries each snapshot's balance was computed from. */
    ghost var covered: seq<nat>

    /** Every snapshot holds the balance at its read. */
    ghost predicate Valid()
      reads this
    {
      && |covered| == |snapshots| && TimesIncrease(snapshots)
      && forall i :: 0 <= i < |snapshots| ==>
           && covered[i] <= |entries| && snapshots[i].at < clock
           && snapshots[i].balance == LiveBalance(entries[..covered[i]], snapshots[i].account, snapshots[i].currency)
    }

    /** A posting commits. */
    method Commit(e: Entry)
      requires Valid()
      modifies this`entries
      ensures Valid() && entries == old(entries) + [e]
    {
      ghost var before := entries;
      entries := entries + [e];
      assert forall k :: 0 <= k <= |before| ==> entries[..k] == before[..k];
    }

    /** Postings and time between two statements. */
    method Others(evs: seq<Event>)
      requires Valid()
      modifies this`entries, this`clock
      ensures Valid() && old(entries) <= entries && old(clock) <= clock
      ensures NoPost(evs) ==> entries == old(entries)
    {
      var i := 0;
      while i < |evs|
        invariant 0 <= i <= |evs|
        invariant Valid() && old(entries) <= entries && old(clock) <= clock
        invariant NoPost(evs) ==> entries == old(entries)
      {
        match evs[i] {
          case Post(e) => Commit(e);
          case Tick(d) => clock := clock + d;
        }
        i := i + 1;
      }
    }

    /** Accounts with an entry created today, each once. */
    method ActiveAccounts() returns (rows: seq<Id>)
      ensures forall i, j :: 0 <= i < j < |rows| ==> rows[i] != rows[j]
      ensures forall a: Id :: a in rows <==> ActiveOn(entries, a, DayOf(clock))
    {
      rows := [];
      var i := 0;
      while i < |entries|
        invariant 0 <= i <= |entries|
        invariant forall i, j :: 0 <= i < j < |rows| ==> rows[i] != rows[j]
        invariant forall a: Id :: a in rows <==> ActiveOn(entries[..i], a, DayOf(clock))
      {
        var e := entries[i];
        ghost var was := rows;
        if DayOf(e.createdAt) == DayOf(clock) {
          if e.debit !in rows {
            rows := rows + [e.debit];
          }
          if e.credit !in rows {
            rows := rows + [e.credit];
          }
        }
        ActivePush(entries, i, DayOf(clock));
        i := i + 1;
      }
      assert entries[..i] == entries;
    }

    /** Currencies of an account, each once. */
    method CurrenciesOf(account: Id) returns (rows: seq<string>)
      ensures forall i, j :: 0 <= i < j < |rows| ==> rows[i] != rows[j]
      ensures forall c: string :: c in rows <==> Uses(entries, account, c)
    {
      rows := [];
      var i := 0;
      while i < |entries|
        invariant 0 <= i <= |entries|
        invariant forall i, j :: 0 <= i < j < |rows| ==> rows[i] != rows[j]
        invariant forall c: string :: c in rows <==> Uses(entries[..i], account, c)
      {
        var e := entries[i];
        if (e.debit == account || e.credit == account) && e.currency !in rows {
          rows := rows + [e.currency];
        }
        UsesPush(entries, i, account);
        i := i + 1;
      }
      assert entries[..i] == entries;
    }

    /** INSERT of a snapshot, stamped with the current time; the clock moves on. */
    method InsertSnapshot(account: Id, currency: string, balance: int, ghost readAt: nat)
      requires Valid() && readAt <= |entries|
      requires balance == LiveBalance(entries[..readAt], account, currency)
      modifies this`snapshots, this`clock, this`covered
      ensures Valid() && clock == old(clock) + 1
      ensures snapshots == old(snapshots) + [Snapshot(account, currency, balance, old(clock))]
      ensures covered == old(covered) + [readAt]
    {
      snapshots := snapshots + [Snapshot(account, currency, balance, clock)];
      covered := covered + [readAt];
      clock := clock + 1;
    }

    /** Compare a live balance with the latest snapshot of its pair. */
    method Compare(account: Id, currency: string, live: int, ghost readAt: nat) returns (mismatch: bool, ghost v: Visit)
      requires Valid() && readAt <= |entries| && live == LiveBalance(entries[..readAt], account, currency)
      requires forall i :: 0 <= i < |covered| ==> covered[i] <= readAt
      ensures v == Visit(account, currency, readAt, Latest(snapshots, account, currency))
      ensures v.against.Some? ==> v.against.value < |covered|
      ensures Bounded(entries) ==> (mismatch <==> Changed(v, entries, covered))
    {
      var snap := Latest(snapshots, account, currency);
      v := Visit(account, currency, readAt, snap);
      mismatch := false;
      if snap.Some? {
        if live != snapshots[snap.value].balance {
          mismatch := true;
        }
        SnapshotDelta(entries, snapshots, covered, v, live);
      }
    }

    /** One pair: read the live balance, compare it with the latest snapshot, and insert a
        fresh snapshot. */
    method CheckPair(account: Id, currency: string, first: seq<Event>, second: seq<Event>,
                     ghost visits: seq<Visit>, mismatches: nat, ghost before: seq<Snapshot>)
        returns (mismatches': nat, ghost visits': seq<Visit>)
      requires Valid() && PassOk(visits, mismatches, before, entries, snapshots, covered)
      requires !Covers(visits, account, currency)
      modifies this
      ensures Valid() && PassOk(visits', mismatches', before, entries, snapshots, covered)
      ensures old(entries) <= entries && old(clock) <= clock && old(covered) <= covered
      ensures |visits'| == |visits| + 1 && visits <= visits'
      ensures visits'[|visits|].account == account && visits'[|visits|].currency == currency
      ensures NoPost(first) && NoPost(second) ==> entries == old(entries) && visits'[|visits|].readAt == |entries|
    {
      Others(first);
      var live := LiveBalance(entries, account, currency);
      ghost var seen := entries;
      assert seen[..|seen|] == seen;
      Others(second);
      assert entries[..|seen|] == seen;
      var mismatch;
      ghost var v;
      mismatch, v := Compare(account, currency, live, |seen|);
      ghost var s := Snapshot(account, currency, live, clock);
      VisitPair(visits, mismatches, before, old(entries), snapshots, covered, v, mismatch, entries, s);
      InsertSnapshot(account, currency, live, |seen|);
      visits' := visits + [v];
      mismatches' := mismatches;
      if mismatch {
        mismatches' := mismatches' + 1;
      }
    }

    /** The inner loop: every currency of one account. */
    method CheckAccount(account: Id, others: seq<seq<Event>>, tick: nat,
                        ghost visits: seq<Visit>, mismatches: nat, ghost before: seq<Snapshot>)
        returns (mismatches': nat, ghost visits': seq<Visit>, tick': nat)
      requires Valid() && PassOk(visits, mismatches, before, entries, snapshots, covered)
      requires forall k :: 0 <= k < |visits| ==> visits[k].account != account
      modifies this
      ensures Valid() && PassOk(visits', mismatches', before, entries, snapshots, covered)
      ensures old(entries) <= entries && old(clock) <= clock && old(covered) <= covered
      ensures visits <= visits' && AllOf(visits', |visits|, account)
      ensures CoversAccount(visits', old(entries), account)
      ensures Quiet(others) ==> entries == old(entries) && ReadFrom(visits', |visits|, entries)
    {
      Others(At(others, tick));
      PassGrows(visits, mismatches, before, old(entries), entries, snapshots, covered);
      ghost var start := entries;
      var currencies := CurrenciesOf(account);
      mismatches', visits', tick' := mismatches, visits, tick + 1;
      var i := 0;
      while i < |currencies|
        invariant 0 <= i <= |currencies|
        invariant Valid() && PassOk(visits', mismatches', before, entries, snapshots, covered)
        invariant start <= entries && old(clock) <= clock && old(covered) <= covered
        invariant Extends(visits, visits', account, currencies[..i])
        invariant Quiet(others) ==> entries == start && ReadFrom(visits', |visits|, entries)
      {
        NotCovered(visits, visits', account, currencies, i);
        ghost var was := visits';
        assert currencies[i] in currencies;
        mismatches', visits' := CheckPair(account, currencies[i], At(others, tick'), At(others, tick' + 1),
                                          visits', mismatches', before);
        ExtendsPush(visits, was, visits', account, currencies, i);
        if Quiet(others) {
          ReadPush(was, visits', |visits|, entries);
        }
        tick' := tick' + 2;
        i := i + 1;
      }
      assert currencies[..i] == currencies;
      ExtendsCovers(visits, visits', account, currencies, old(entries), start);
    }

    /** reconciliation_pass. `others` scripts what happens before each statement. The
        returned count is the number of visited pairs that had a snapshot and whose
        balance changed between the read behind that snapshot and this pass's read. */
    method ReconciliationPass(others: seq<seq<Event>>) returns (mismatches: nat, ghost visits: seq<Visit>)
      requires Valid()
      modifies this
      ensures Valid() && old(entries) <= entries && old(clock) <= clock
      ensures PassOk(visits, mismatches, old(snapshots), entries, snapshots, covered)
      ensures old(covered) <= covered && SweepsDay(visits, old(entries), old(clock))
      ensures forall a: Id :: ActiveOn(old(entries), a, DayOf(old(clock))) ==> CoversAccount(visits, old(entries), a)
      ensures forall k :: 0 <= k < |visits| ==> ActiveOn(old(entries), visits[k].account, DayOf(old(clock)))
      ensures Quiet(others) ==> entries == old(entries) && ReadFrom(visits, 0, entries)
    {
      ghost var before, es, day := snapshots, entries, DayOf(clock);
      var rows := ActiveAccounts();
      mismatches, visits := 0, [];
      var tick := 0;
      var i := 0;
      while i < |rows|
        invariant 0 <= i <= |rows|
        invariant Valid() && PassOk(visits, mismatches, before, entries, snapshots, covered)
        invariant es <= entries && old(clock) <= clock && old(covered) <= covered
        invariant Swept(visits, es, rows[..i])
        invariant Quiet(others) ==> entries == es && ReadFrom(visits, 0, es)
      {
        ghost var was, now := visits, entries;
        assert rows[i] !in rows[..i] && rows[i] in rows;
        mismatches, visits, tick := CheckAccount(rows[i], others, tick, visits, mismatches, before);
        SweptPush(was, visits, es, now, rows, i);
        if Quiet(others) {
          ReadJoin(was, visits, es);
        }
        i := i + 1;
      }
      assert rows[..i] == rows;
      CoveredIsSwept(visits, es, old(clock));
    }

    /** Two passes with `pause` in between, the second one starting at `restart`. If no
        posting commits from the beginning of the first one to the end of the second, and
        both start on the same day, the second one finds nothing to report, however much
        time passes at any point. */
    method PassTwice(during: seq<seq<Event>>, pause: seq<Event>, during': seq<seq<Event>>)
        returns (first: nat, second: nat, ghost restart: int)
      requires Valid() && Bounded(entries) && Quiet(during) && NoPost(pause) && Quiet(during')
      modifies this
      ensures Valid() && entries == old(entries)
      ensures old(clock) <= restart <= clock
      ensures DayOf(restart) == DayOf(old(clock)) ==> second == 0
    {
      ghost var today := DayOf(clock);
      ghost var v1, v2;
      ghost var before := snapshots;
      first, v1 := ReconciliationPass(during);
      Others(pause);
      restart := clock;
      ghost var between, reads1 := snapshots, covered;
      second, v2 := ReconciliationPass(during');
      if DayOf(restart) == today {
        SecondPassQuiet(v1, v2, before, between, reads1, entries, today, covered);
      }
    }

    /** The same with one posting between the passes, of any date. The second pass reports
        each of its accounts that had a posting on that day and one in its currency before;
        if that goes for both, it reports exactly two mismatches. */
    method PassPostPass(e: Entry, during: seq<seq<Event>>, pause: seq<Event>, during': seq<seq<Event>>)
        returns (first: nat, second: nat, ghost restart: int)
      requires Valid() && ValidEntry(e) && Bounded(entries + [e]) && Quiet(during) && NoPost(pause) && Quiet(during')
      modifies this
      ensures Valid() && entries == old(entries) + [e]
      ensures old(clock) <= restart <= clock
      ensures DayOf(restart) == DayOf(old(clock)) ==>
        var known := KnownSides(old(entries), e, DayOf(restart));
        second >= known && (known == 2 ==> second == 2)
    {
      ghost var today := DayOf(clock);
      ghost var v1, v2;
      ghost var before, es := snapshots, entries;
      first, v1 := ReconciliationPass(during);
      Others(pause);
      Commit(e);
      restart := clock;
      ghost var between, reads1 := snapshots, covered;
      second, v2 := ReconciliationPass(during');
      if DayOf(restart) == today {
        SecondPassSees(v1, v2, before, between, reads1, es, e, today, covered);
      }
    }
  }

  /** From position `from` on, every visit read the whole ledger for a pair in use. */
  ghost predicate ReadFrom(visits: seq<Visit>, from: nat, es: seq<Entry>) {
    forall k :: from <= k < |visits| ==>
      visits[k].readAt == |es| && Uses(es, visits[k].account, visits[k].currency)
  }

  lemma ReadPush(visits: seq<Visit>, visits': seq<Visit>, from: nat, es: seq<Entry>)
    requires ReadFrom(visits, from, es) && visits <= visits' && |visits'| == |visits| + 1
    requires visits'[|visits|].readAt == |es|
    requires Uses(es, visits'[|visits|].account, visits'[|visits|].currency)
    ensures ReadFrom(visits', from, es)
  {
    forall k | from <= k < |visits'|
      ensures visits'[k].readAt == |es| && Uses(es, visits'[k].account, visits'[k].currency)
    {
      if k < |visits| {
        assert visits'[k] == visits[k];
      }
    }
  }

  /** One visit was added for each of the currencies, in their order. */
  ghost predicate Extends(visits: seq<Visit>, visits': seq<Visit>, account: Id, currencies: seq<string>) {
    && visits <= visits' && |visits'| == |visits| + |currencies|
    && forall k :: |visits| <= k < |visits'| ==>
         visits'[k].account == account && visits'[k].currency == currencies[k - |visits|]
  }

  lemma ExtendsPush(visits: seq<Visit>, was: seq<Visit>, visits': seq<Visit>, account: Id, currencies: seq<string>,
                    i: nat)
    requires i < |currencies| && Extends(visits, was, account, currencies[..i])
    requires was <= visits' && |visits'| == |was| + 1
    requires visits'[|was|].account == account && visits'[|was|].currency == currencies[i]
    ensures Extends(visits, visits', account, currencies[..i + 1])
  {
    forall k | |visits| <= k < |visits'|
      ensures visits'[k].account == account && visits'[k].currency == currencies[..i + 1][k - |visits|]
    {
      if k < |was| {
        assert visits'[k] == was[k];
      }
    }
  }

  lemma NotCovered(visits: seq<Visit>, visits': seq<Visit>, account: Id, currencies: seq<string>, i: nat)
    requires i < |currencies| && Extends(visits, visits', account, currencies[..i])
    requires forall k :: 0 <= k < |visits| ==> visits[k].account != account
    requires forall j, k :: 0 <= j < k < |currencies| ==> currencies[j] != currencies[k]
    ensures !Covers(visits', account, currencies[i])
  {
    forall k | 0 <= k < |visits'|
      ensures visits'[k].account != account || visits'[k].currency != currencies[i]
    {
      if k >= |visits| {
        assert visits'[k].currency == currencies[..i][k - |visits|];
      }
    }
  }

  ghost predicate AllOf(visits: seq<Visit>, from: nat, account: Id) {
    forall k :: from <= k < |visits| ==> visits[k].account == account
  }

  /** Every currency the account is used with has a visit. */
  ghost predicate CoversAccount(visits: seq<Visit>, es: seq<Entry>, account: Id) {
    forall c: string :: Uses(es, account, c) ==> Covers(visits, account, c)
  }

  lemma ExtendsCovers(visits: seq<Visit>, visits': seq<Visit>, account: Id, currencies: seq<string>,
                      es: seq<Entry>, es': seq<Entry>)
    requires Extends(visits, visits', account, currencies) && es <= es'
    requires forall c: string :: c in currencies <==> Uses(es', account, c)
    ensures AllOf(visits', |visits|, account) && CoversAccount(visits', es, account)
  {
    forall c: string | Uses(es, account, c)
      ensures Covers(visits', account, c)
    {
      UsesGrows(es, es', account, c);
      var k :| 0 <= k < |currencies| && currencies[k] == c;
      assert visits'[|visits| + k].currency == c;
    }
  }

  /** The visits are of the given accounts only, and cover each of them. */
  ghost predicate Swept(visits: seq<Visit>, es: seq<Entry>, accounts: seq<Id>) {
    && (forall k :: 0 <= k < |visits| ==> visits[k].account in accounts)
    && (forall a: Id :: a in accounts ==> CoversAccount(visits, es, a))
  }

  lemma SweptPush(visits: seq<Visit>, visits': seq<Visit>, es: seq<Entry>, es': seq<Entry>, accounts: seq<Id>, i: nat)
    requires i < |accounts| && Swept(visits, es, accounts[..i]) && visits <= visits' && es <= es'
    requires AllOf(visits', |visits|, accounts[i]) && CoversAccount(visits', es', accounts[i])
    ensures Swept(visits', es, accounts[..i + 1])
  {
    assert accounts[..i + 1] == accounts[..i] + [accounts[i]];
    forall k | 0 <= k < |visits'|
      ensures visits'[k].account in accounts[..i + 1]
    {
      if k < |visits| {
        assert visits'[k] == visits[k];
      }
    }
    forall a: Id, c: string | a in accounts[..i + 1] && Uses(es, a, c)
      ensures Covers(visits', a, c)
    {
      if a == accounts[i] {
        UsesGrows(es, es', a, c);
      } else {
        CoversGrows(visits, visits', a, c);
      }
    }
  }

  lemma ReadJoin(visits: seq<Visit>, visits': seq<Visit>, es: seq<Entry>)
    requires ReadFrom(visits, 0, es) && visits <= visits' && ReadFrom(visits', |visits|, es)
    ensures ReadFrom(visits', 0, es)
  {
    assert forall k :: 0 <= k < |visits| ==> visits'[k] == visits[k];
  }

  lemma CoversGrows(visits: seq<Visit>, visits': seq<Visit>, account: Id, currency: string)
    requires visits <= visits' && Covers(visits, account, currency)
    ensures Covers(visits', account, currency)
  {
    var k :| 0 <= k < |visits| && visits[k].account == account && visits[k].currency == currency;
    assert visits'[k] == visits[k];
  }

  lemma PassGrows(visits: seq<Visit>, mismatches: nat, before: seq<Snapshot>, es: seq<Entry>, es': seq<Entry>,
                  snaps: seq<Snapshot>, covered: seq<nat>)
    requires PassOk(visits, mismatches, before, es, snaps, covered) && es <= es'
    ensures PassOk(visits, mismatches, before, es', snaps, covered)
  {
    CountGrows(visits, es, covered, es', covered);
    if Bounded(es') {
      BoundedPrefix(es, es');
    }
  }

  /** The comparison of a visit is exactly whether its balance changed. */
  lemma SnapshotDelta(es: seq<Entry>, snaps: seq<Snapshot>, covered: seq<nat>, v: Visit, live: int)
    requires |covered| == |snaps| && v.readAt <= |es| && live == LiveBalance(es[..v.readAt], v.account, v.currency)
    requires v.against.Some? && v.against.value < |snaps| && covered[v.against.value] <= v.readAt
    requires snaps[v.against.value].balance == LiveBalance(es[..covered[v.against.value]], v.account, v.currency)
    ensures Bounded(es) ==> (live != snaps[v.against.value].balance <==> Changed(v, es, covered))
    ensures Bounded(es) ==>
      live - snaps[v.against.value].balance == Net(es[covered[v.against.value]..v.readAt], v.account, v.currency)
  {
    if Bounded(es) {
      ComparisonIsDelta(es, covered[v.against.value], v.readAt, v.account, v.currency);
    }
  }

  /** After an undisturbed pass the latest snapshot of a visited pair covers the whole
      ledger. */
  lemma UpToDate(visits: seq<Visit>, before: seq<Snapshot>, snaps: seq<Snapshot>, covered: seq<nat>, es: seq<Entry>,
                 account: Id, currency: string)
    requires Recorded(visits, before, snaps, covered) && TimesIncrease(snaps)
    requires forall k :: 0 <= k < |visits| ==> visits[k].readAt == |es|
    requires Covers(visits, account, currency)
    ensures var i := Latest(snaps, account, currency); i.Some? && covered[i.value] == |es|
  {
    var k :| 0 <= k < |visits| && visits[k].account == account && visits[k].currency == currency;
    LatestAtLeast(snaps, |before| + k, account, currency);
    var i := Latest(snaps, account, currency).value;
    assert covered[|before| + (i - |before|)] == visits[i - |before|].readAt;
  }

  /** An account with a posting on the day, and one in the currency. */
  ghost predicate Known(es: seq<Entry>, account: Id, currency: string, day: int) {
    ActiveOn(es, account, day) && Uses(es, account, currency)
  }

  /** How many of the accounts of an entry were known. */
  ghost function KnownSides(es: seq<Entry>, e: Entry, day: int): nat {
    (if Known(es, e.debit, e.currency, day) then 1 else 0) + (if Known(es, e.credit, e.currency, day) then 1 else 0)
  }

  ghost predicate OneOf(v: Visit, e: Entry) {
    (v.account == e.debit || v.account == e.credit) && v.currency == e.currency
  }

  /** One more entry adds to what is active and used only its own accounts and currency. */
  lemma StillKnown(es: seq<Entry>, e: Entry, account: Id, currency: string, day: int)
    requires ActiveOn(es + [e], account, day) && Uses(es + [e], account, currency)
    requires Known(es, e.debit, e.currency, day) && Known(es, e.credit, e.currency, day)
    ensures ActiveOn(es, account, day) && Uses(es, account, currency)
  {
    var es' := es + [e];
    ActivePush(es', |es|, day);
    UsesPush(es', |es|, account);
    assert es'[..|es|] == es && es'[..|es| + 1] == es';
  }

  /** After an undisturbed pass and one entry, a visit of the next undisturbed pass differs
      from its snapshot exactly if the entry touched it. */
  lemma ChangedIsTouched(visits: seq<Visit>, before: seq<Snapshot>, snaps: seq<Snapshot>, covered: seq<nat>,
                         es: seq<Entry>, e: Entry, v: Visit, covered': seq<nat>)
    requires Recorded(visits, before, snaps, covered) && TimesIncrease(snaps) && covered <= covered'
    requires forall k :: 0 <= k < |visits| ==> visits[k].readAt == |es|
    requires Covers(visits, v.account, v.currency) && v.against == Latest(snaps, v.account, v.currency)
    requires v.readAt == |es| + 1 && ValidEntry(e)
    ensures v.against.Some? && v.against.value < |covered'|
    ensures Changed(v, es + [e], covered') <==> OneOf(v, e)
  {
    UpToDate(visits, before, snaps, covered, es, v.account, v.currency);
    var es' := es + [e];
    assert covered'[v.against.value] == |es|;
    assert es'[|es|..v.readAt] == [e];
    assert [e][..0] == [];
    assert Net([e], v.account, v.currency) == Delta(e, v.account, v.currency);
  }

  lemma SecondPassQuiet(v1: seq<Visit>, v2: seq<Visit>, before: seq<Snapshot>, snaps: seq<Snapshot>,
                        covered: seq<nat>, es: seq<Entry>, day: int, covered': seq<nat>)
    requires Recorded(v1, before, snaps, covered) && TimesIncrease(snaps) && covered <= covered'
    requires ReadFrom(v1, 0, es) && forall a: Id :: ActiveOn(es, a, day) ==> CoversAccount(v1, es, a)
    requires VisitsOk(v2, es, covered') && Against(v2, snaps) && ReadFrom(v2, 0, es)
    requires forall k :: 0 <= k < |v2| ==> ActiveOn(es, v2[k].account, day)
    ensures CountChanged(v2, es, covered') == 0
  {
    forall k | 0 <= k < |v2|
      ensures !Changed(v2[k], es, covered')
    {
      assert CoversAccount(v1, es, v2[k].account);
      UpToDate(v1, before, snaps, covered, es, v2[k].account, v2[k].currency);
    }
    NoneChanged(v2, es, covered');
  }

  lemma SecondPassSees(v1: seq<Visit>, v2: seq<Visit>, before: seq<Snapshot>, snaps: seq<Snapshot>, covered: seq<nat>,
                       es: seq<Entry>, e: Entry, day: int, covered': seq<nat>)
    requires Recorded(v1, before, snaps, covered) && TimesIncrease(snaps) && covered <= covered' && ValidEntry(e)
    requires forall k :: 0 <= k < |v1| ==> v1[k].readAt == |es|
    requires forall a: Id :: ActiveOn(es, a, day) ==> CoversAccount(v1, es, a)
    requires VisitsOk(v2, es + [e], covered') && PairsDistinct(v2) && Against(v2, snaps)
    requires ReadFrom(v2, 0, es + [e])
    requires forall k :: 0 <= k < |v2| ==> ActiveOn(es + [e], v2[k].account, day)
    requires forall a: Id :: ActiveOn(es + [e], a, day) ==> CoversAccount(v2, es + [e], a)
    ensures var known := KnownSides(es, e, day);
      CountChanged(v2, es + [e], covered') >= known && (known == 2 ==> CountChanged(v2, es + [e], covered') == 2)
  {
    var es' := es + [e];
    var d, c := Known(es, e.debit, e.currency, day), Known(es, e.credit, e.currency, day);
    forall k | 0 <= k < |v2| && Known(es, v2[k].account, v2[k].currency, day)
      ensures Changed(v2[k], es', covered') <==> OneOf(v2[k], e)
    {
      assert CoversAccount(v1, es, v2[k].account);
      ChangedIsTouched(v1, before, snaps, covered, es, e, v2[k], covered');
    }
    KnownIsVisited(v2, es, e, e.debit, day);
    KnownIsVisited(v2, es, e, e.credit, day);
    AtLeastChanged(v2, es', covered', e, d, c);
    if d && c {
      forall k | 0 <= k < |v2|
        ensures Changed(v2[k], es', covered') <==> OneOf(v2[k], e)
      {
        StillKnown(es, e, v2[k].account, v2[k].currency, day);
      }
      TwoChanged(v2, es', covered', e);
    }
  }

  lemma KnownIsVisited(visits: seq<Visit>, es: seq<Entry>, e: Entry, account: Id, day: int)
    requires forall a: Id :: ActiveOn(es + [e], a, day) ==> CoversAccount(visits, es + [e], a)
    ensures Known(es, account, e.currency, day) ==> Covers(visits, account, e.currency)
  {
    if Known(es, account, e.currency, day) {
      var i :| 0 <= i < |es| && DayOf(es[i].createdAt) == day && (es[i].debit == account || es[i].credit == account);
      assert (es + [e])[i] == es[i];
      assert ActiveOn(es + [e], account, day);
      UsesGrows(es, es + [e], account, e.currency);
      assert CoversAccount(visits, es + [e], account);
    }
  }

  /** At least the known pairs of the entry count. */
  lemma {:induction false} AtLeastChanged(visits: seq<Visit>, es: seq<Entry>, covered: seq<nat>, e: Entry, d: bool,
                                          c: bool)
    requires VisitsOk(visits, es, covered) && PairsDistinct(visits) && e.debit != e.credit
    requires forall k :: 0 <= k < |visits| && visits[k].currency == e.currency ==>
      ((d && visits[k].account == e.debit) || (c && visits[k].account == e.credit) ==> Changed(visits[k], es, covered))
    ensures CountChanged(visits, es, covered)
         >= (if d && Covers(visits, e.debit, e.currency) then 1 else 0)
            + (if c && Covers(visits, e.credit, e.currency) then 1 else 0)
    decreases |visits|
  {
    if |visits| > 0 {
      AtLeastChanged(visits[..|visits| - 1], es, covered, e, d, c);
      CoversLast(visits, e.debit, e.currency);
      CoversLast(visits, e.credit, e.currency);
    }
  }

  /** Of distinct pairs, as many are of a given account as it is covered. */
  lemma {:induction false} TwoChanged(visits: seq<Visit>, es: seq<Entry>, covered: seq<nat>, e: Entry)
    requires VisitsOk(visits, es, covered) && PairsDistinct(visits) && e.debit != e.credit
    requires forall k :: 0 <= k < |visits| ==> (Changed(visits[k], es, covered) <==> OneOf(visits[k], e))
    ensures CountChanged(visits, es, covered)
         == (if Covers(visits, e.debit, e.currency) then 1 else 0)
            + (if Covers(visits, e.credit, e.currency) then 1 else 0)
    decreases |visits|
  {
    if |visits| > 0 {
      var n := |visits| - 1;
      TwoChanged(visits[..n], es, covered, e);
      CoversLast(visits, e.debit, e.currency);
      CoversLast(visits, e.credit, e.currency);
    }
  }

  lemma CoversLast(visits: seq<Visit>, account: Id, currency: string)
    requires |visits| > 0 && PairsDistinct(visits)
    ensures var last, init := visits[|visits| - 1], visits[..|visits| - 1];
      && (Covers(visits, account, currency) <==>
            (last.account == account && last.currency == currency) || Covers(init, account, currency))
      && !((last.account == account && last.currency == currency) && Covers(init, account, currency))
  {
    var n := |visits| - 1;
    assert forall k :: 0 <= k < n ==> visits[..n][k] == visits[k];
  }

  lemma {:induction false} NoneChanged(visits: seq<Visit>, es: seq<Entry>, covered: seq<nat>)
    requires VisitsOk(visits, es, covered)
    requires forall k :: 0 <= k < |visits| ==> !Changed(visits[k], es, covered)
    ensures CountChanged(visits, es, covered) == 0
    decreases |visits|
  {
    if |visits| > 0 {
      NoneChanged(visits[..|visits| - 1], es, covered);
    }
  }

  // ---- When a pass runs -----------------------------------------------------

  /** The scheduler ticks once an hour and only runs a pass near midnight. */
  predicate InWindow(seconds: nat) {
    var h, m := seconds / 3600 % 24, seconds / 60 % 60;
    (h == 23 && m >= 55) || (h == 0 && m <= 5)
  }

  /** From five minutes before midnight until six minutes after it. */
  lemma WindowMeans(seconds: nat)
    ensures InWindow(seconds) <==> seconds % 86_400 >= 86_100 || seconds % 86_400 < 360
  {
    var day, t := seconds / 86_400, seconds % 86_400;
    Arithmetic.QuotientUnique(seconds / 3600, 24, day, t / 3600);
    Arithmetic.QuotientUnique(seconds / 60, 60, day * 24 + t / 3600, t / 60 % 60);
  }

  /** So whether a pass ever runs is decided by the minute the service was started in: if
      it is between :06 and :54, no hourly tick ever falls into the window. */
  lemma PassEverRunsIff(start: nat)
    ensures (exists k: nat :: InWindow(start + 3600 * k)) <==> (start / 60 % 60 >= 55 || start / 60 % 60 <= 5)
  {
    var m := start / 60 % 60;
    forall k: nat
      ensures InWindow(start + 3600 * k) ==> m >= 55 || m <= 5
    {
      TickMinute(start, k);
    }
    if m >= 55 || m <= 5 {
      var k := HoursUntil(start / 3600, if m >= 55 then 23 else 0);
      TickMinute(start, k);
      assert InWindow(start + 3600 * k);
    }
  }

  lemma HoursUntil(hour: nat, target: nat) returns (k: nat)
    requires target < 24
    ensures (hour + k) % 24 == target
  {
    var h := hour % 24;
    k := if h <= target then target - h else target + 24 - h;
    Arithmetic.QuotientUnique(hour + k, 24, if h <= target then hour / 24 else hour / 24 + 1, target);
  }

  lemma TickMinute(start: nat, k: nat)
    ensures (start + 3600 * k) / 60 % 60 == start / 60 % 60
    ensures (start + 3600 * k) / 3600 == start / 3600 + k
  {
    var q, r := start / 3600, start % 3600;
    Arithmetic.QuotientUnique(start + 3600 * k, 3600, q + k, r);
    var minutes := start / 60;
    assert (start + 3600 * k) / 60 == minutes + 60 * k by {
      Arithmetic.QuotientUnique(start + 3600 * k, 60, minutes + 60 * k, start % 60);
    }
    Arithmetic.QuotientUnique(minutes + 60 * k, 60, minutes / 60 + k, minutes % 60);
  }
}
