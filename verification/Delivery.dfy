/** From a posting to its message: post_entry calls and outbox workers on one database. The
    outbox row a commit makes visible is the row the workers then find. */
module Delivery {
  import opened Ledger
  import Posting
  import PostingProofs
  import Outbox
  import OutboxProofs

  datatype State = State(ledger: Posting.State, outbox: Outbox.State)

  /** A statement of a posting call, with the creation time its outbox row gets if it is the
      commit that makes one visible, or a step of a worker. */
  datatype Event = Post(ev: Posting.Event, at: int) | Deliver(step: Outbox.Event)

  function Step(s: State, e: Event): State {
    match e
    case Post(ev, at) =>
      var ledger := Posting.Step(s.ledger, ev);
      State(ledger, if |ledger.outbox| > |s.ledger.outbox| then Outbox.Step(s.outbox, Outbox.Insert(at)) else s.outbox)
    case Deliver(ev) => if ev.Insert? then s else s.(outbox := Outbox.Step(s.outbox, ev))
  }

  function Run(s: State, evs: seq<Event>): State {
    if |evs| == 0 then s else Step(Run(s, evs[..|evs| - 1]), evs[|evs| - 1])
  }

  /** Workers start on an empty outbox. */
  function Start(ledger: Posting.State): State {
    State(ledger, Outbox.EMPTY)
  }

  lemma OneRowAtMost(s: Posting.State, ev: Posting.Event)
    ensures |s.outbox| <= |Posting.Step(s, ev).outbox| <= |s.outbox| + 1
  {
  }

  lemma WorkersKeepRows(s: Outbox.State, ev: Outbox.Event)
    ensures |Outbox.Step(s, ev).created| == |s.created| + (if ev.Insert? then 1 else 0)
  {
  }

  /** Seen from either side, what happened is a run of that side alone, and both see the
      same rows. */
  lemma {:induction false} Sides(s0: Posting.State, evs: seq<Event>)
      returns (posts: seq<Posting.Event>, steps: seq<Outbox.Event>)
    requires s0.outbox == []
    ensures var s := Run(Start(s0), evs);
      && s.ledger == Posting.Run(s0, posts) && s.outbox == Outbox.Run(Outbox.EMPTY, steps)
      && |s.outbox.created| == |s.ledger.outbox|
    decreases |evs|
  {
    posts, steps := [], [];
    if |evs| > 0 {
      posts, steps := Sides(s0, evs[..|evs| - 1]);
      var before := Run(Start(s0), evs[..|evs| - 1]);
      match evs[|evs| - 1]
      case Post(ev, at) =>
        OneRowAtMost(before.ledger, ev);
        Posting.RunPush(s0, posts, ev);
        posts := posts + [ev];
        if |Posting.Step(before.ledger, ev).outbox| > |before.ledger.outbox| {
          Outbox.RunPush(Outbox.EMPTY, steps, Outbox.Insert(at));
          steps := steps + [Outbox.Insert(at)];
        }
      case Deliver(ev) =>
        if !ev.Insert? {
          WorkersKeepRows(before.outbox, ev);
          Outbox.RunPush(Outbox.EMPTY, steps, ev);
          steps := steps + [ev];
        }
    }
  }

  ghost predicate LogExists(s: Outbox.State) {
    forall k :: 0 <= k < |s.log| ==> s.log[k] < |s.created|
  }

  /** Only rows of the table are published. */
  lemma {:induction false} PublishedRowsExist(evs: seq<Outbox.Event>)
    ensures LogExists(Outbox.Run(Outbox.EMPTY, evs)) && OutboxProofs.Inv(Outbox.Run(Outbox.EMPTY, evs))
    decreases |evs|
  {
    if |evs| == 0 {
      OutboxProofs.EmptyKeepsInv();
    } else {
      PublishedRowsExist(evs[..|evs| - 1]);
      var before := Outbox.Run(Outbox.EMPTY, evs[..|evs| - 1]);
      StepPublishesExisting(before, evs[|evs| - 1]);
      OutboxProofs.StepKeepsInv(before, evs[|evs| - 1]);
    }
  }

  lemma StepPublishesExisting(s: Outbox.State, ev: Outbox.Event)
    requires OutboxProofs.Inv(s) && LogExists(s)
    ensures LogExists(Outbox.Step(s, ev))
  {
    if ev.Publish? && ev.worker in s.open {
      var b := s.open[ev.worker];
      assert OutboxProofs.BatchOk(s, b);
      if b.published < |b.rows| {
        assert Outbox.Pending(s, b.rows[b.published]);
      }
    }
  }

  /** Every publication announces a committed entry; `legacy` entries were there before. */
  ghost predicate AnnouncesCommitted(s: State, legacy: nat) {
    forall k :: 0 <= k < |s.outbox.log| ==>
      var r := s.outbox.log[k];
      && r < |s.ledger.outbox| && legacy + r < |s.ledger.entries|
      && PostingProofs.Announces(s.ledger.outbox[r], s.ledger.entries[legacy + r])
  }

  /** Behind the old entries there is one outbox row for each entry, which names no other. */
  ghost predicate OneRowEach(ledger: Posting.State, legacy: nat) {
    && legacy + |ledger.outbox| == |ledger.entries|
    && forall i, r :: legacy <= i < |ledger.entries| && 0 <= r < |ledger.outbox| ==>
         (ledger.outbox[r].entryId == ledger.entries[i].id <==> legacy + r == i)
  }

  /** A row was published once for each aborted batch that sent it, for the batch that has it
      in flight, and for its mark. */
  ghost predicate Accounted(s: Outbox.State) {
    && (forall r: nat :: OutboxProofs.Balanced(s, r))
    && (forall r :: r in s.marked ==> r in s.log)
  }

  lemma LogIsAccounted(steps: seq<Outbox.Event>)
    ensures Accounted(Outbox.Run(Outbox.EMPTY, steps))
  {
    OutboxProofs.PublicationAccounting(steps);
    var s := Outbox.Run(Outbox.EMPTY, steps);
    forall r: nat | r in s.marked
      ensures r in s.log
    {
      assert OutboxProofs.Times(s.log, r) >= 1;
      PublishedIsLogged(s.log, r);
    }
  }

  lemma LogAnnounces(s: State, legacy: nat)
    requires LogExists(s.outbox) && |s.outbox.created| == |s.ledger.outbox| && PostingProofs.Paired(s.ledger, legacy)
    ensures AnnouncesCommitted(s, legacy)
  {
  }

  /** In every run of any number of postings and workers, with failures on both sides: every
      publication announces a committed entry; every entry committed since the start has
      exactly one outbox row; the publications of each row are accounted for, and what is
      marked was published. */
  lemma EveryEntryIsDelivered(s0: Posting.State, evs: seq<Event>)
    requires Posting.Initial(s0)
    ensures var s, legacy := Run(Start(s0), evs), |s0.entries|;
      && AnnouncesCommitted(s, legacy) && OneRowEach(s.ledger, legacy)
      && |s.outbox.created| == |s.ledger.outbox| && Accounted(s.outbox)
  {
    var s, legacy := Run(Start(s0), evs), |s0.entries|;
    var posts, steps := Sides(s0, evs);
    PostingProofs.EntryOutboxBijection(s0, posts);
    RowsNameEntries(s.ledger, legacy);
    PublishedRowsExist(steps);
    LogAnnounces(s, legacy);
    LogIsAccounted(steps);
  }

  lemma RowsNameEntries(ledger: Posting.State, legacy: nat)
    requires PostingProofs.Paired(ledger, legacy) && ValidTable(ledger.entries)
    ensures OneRowEach(ledger, legacy)
  {
    forall i, r | legacy <= i < |ledger.entries| && 0 <= r < |ledger.outbox|
      ensures ledger.outbox[r].entryId == ledger.entries[i].id <==> legacy + r == i
    {
      assert PostingProofs.Announces(ledger.outbox[r], ledger.entries[legacy + r]);
    }
  }

  lemma {:induction false} PublishedIsLogged(log: seq<nat>, r: nat)
    ensures OutboxProofs.Times(log, r) > 0 <==> r in log
    decreases |log|
  {
    if |log| > 0 {
      PublishedIsLogged(log[..|log| - 1], r);
      assert log == log[..|log| - 1] + [log[|log| - 1]];
    }
  }
}
