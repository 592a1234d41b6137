/** The ledger as a whole: clients page through it while post_entry calls run. */
module System {
  import opened Common
  import opened Ledger
  import opened Cursor
  import opened Statement
  import Posting
  import PostingProofs
  import Paging
  import PagingEdges
  import opened StatementRequests

  /** The tables the page calls of a client see, each at some point of a run. */
  function TablesAt(s0: Posting.State, evs: seq<Posting.Event>, cuts: seq<nat>): (tables: seq<seq<Entry>>)
    requires forall i :: 0 <= i < |cuts| ==> cuts[i] <= |evs|
    ensures |tables| == |cuts|
    ensures forall i :: 0 <= i < |cuts| ==> tables[i] == Posting.Run(s0, evs[..cuts[i]]).entries
  {
    seq(|cuts|, i requires 0 <= i < |cuts| => Posting.Run(s0, evs[..cuts[i]]).entries)
  }

  ghost predicate Ordered(cuts: seq<nat>, end: nat) {
    && (forall i :: 0 <= i < |cuts| ==> cuts[i] <= end)
    && (forall i, j :: 0 <= i <= j < |cuts| ==> cuts[i] <= cuts[j])
  }

  /** A run only ever adds entries. */
  lemma TablesGrow(s0: Posting.State, evs: seq<Posting.Event>, a: nat, b: nat)
    requires a <= b <= |evs|
    ensures Posting.Run(s0, evs[..a]).entries <= Posting.Run(s0, evs[..b]).entries
  {
    assert evs[..b] == evs[..a] + evs[a..b];
    Posting.RunConcat(s0, evs[..a], evs[a..b]);
    PostingProofs.RunAppends(Posting.Run(s0, evs[..a]), evs[a..b]);
  }

  ghost predicate Dated(es: seq<Entry>) {
    forall i :: 0 <= i < |es| ==> Faithful(es[i].createdAt)
  }

  lemma TableIsOk(s0: Posting.State, evs: seq<Posting.Event>, a: nat)
    requires Posting.Initial(s0) && a <= |evs| && Dated(Posting.Run(s0, evs).entries)
    ensures Paging.TableOk(Posting.Run(s0, evs[..a]).entries)
  {
    PostingProofs.EntryOutboxBijection(s0, evs[..a]);
    TablesGrow(s0, evs, a, |evs|);
    assert evs[..|evs|] == evs;
    var es, all := Posting.Run(s0, evs[..a]).entries, Posting.Run(s0, evs).entries;
    assert forall i :: 0 <= i < |es| ==> es[i] == all[i];
  }

  /** Whatever the posting calls do between the page calls, aborts, crashes and retries
      included: the rows a client receives show committed entries that its request asks for,
      newest first, so none is returned twice; and once the traversal ends, every entry asked
      for that was committed before its first call was returned. */
  lemma PagingWhilePosting(s0: Posting.State, evs: seq<Posting.Event>, cuts: seq<nat>, req: Request)
    requires Posting.Initial(s0) && Dated(Posting.Run(s0, evs).entries)
    requires |cuts| > 0 && Ordered(cuts, |evs|)
    requires |req.account| == 16 && req.limit <= 100 && req.cursor == ""
    ensures var t := Paging.Traverse(TablesAt(s0, evs, cuts), req);
      && NewestFirst(t.entries)
      && (forall r :: r in t.entries ==> ShowsWanted(r, Posting.Run(s0, evs).entries, req))
      && (t.ended ==>
            var first := Posting.Run(s0, evs[..cuts[0]]).entries;
            forall i :: 0 <= i < |first| && Wanted(req, first[i]) ==> Shown(first[i], t.entries))
  {
    var tables := TablesAt(s0, evs, cuts);
    forall i | 0 <= i < |tables|
      ensures Paging.TableOk(tables[i])
    {
      TableIsOk(s0, evs, cuts[i]);
    }
    forall i, j | 0 <= i <= j < |tables|
      ensures tables[i] <= tables[j]
    {
      TablesGrow(s0, evs, cuts[i], cuts[j]);
    }
    GrowingTableAnswersRequest(tables, req);
    var t, last := Paging.Traverse(tables, req), |tables| - 1;
    TablesGrow(s0, evs, cuts[last], |evs|);
    assert evs[..|evs|] == evs;
    forall r | r in t.entries
      ensures ShowsWanted(r, Posting.Run(s0, evs).entries, req)
    {
      assert ShowsWanted(r, tables[last], req);
    }
  }

  /** The second half needs no more than times the column can hold. */
  lemma PagingWhilePostingIsComplete(s0: Posting.State, evs: seq<Posting.Event>, cuts: seq<nat>, req: Request)
    requires Posting.Initial(s0) && PagingEdges.TimesStored(Posting.Run(s0, evs).entries)
    requires |cuts| > 0 && Ordered(cuts, |evs|)
    requires |req.account| == 16 && req.limit <= 100 && req.cursor == ""
    ensures var t, first := Paging.Traverse(TablesAt(s0, evs, cuts), req), Posting.Run(s0, evs[..cuts[0]]).entries;
      t.ended ==> forall i :: 0 <= i < |first| && Wanted(req, first[i]) ==> Shown(first[i], t.entries)
  {
    var tables := TablesAt(s0, evs, cuts);
    forall i | 0 <= i < |tables|
      ensures Paging.UniqueIds(tables[i]) && PagingEdges.TimesStored(tables[i])
    {
      PostingProofs.EntryOutboxBijection(s0, evs[..cuts[i]]);
      TablesGrow(s0, evs, cuts[i], |evs|);
      assert evs[..|evs|] == evs;
      assert forall k :: 0 <= k < |tables[i]| ==> tables[i][k] == Posting.Run(s0, evs).entries[k];
    }
    forall i, j | 0 <= i <= j < |tables|
      ensures tables[i] <= tables[j]
    {
      TablesGrow(s0, evs, cuts[i], cuts[j]);
    }
    PagingEdges.GrowingLedgerComplete(tables, req, None);
    var t := Paging.Traverse(tables, req);
    if t.ended {
      CompleteIsShown(t.entries, tables[0], req);
    }
  }
}
