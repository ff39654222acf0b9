/** What the screen promises over any sequence of events: the ordering of its
    calls into the note model, exactly-once and never properties of leaving,
    saving and receiving a shared note, and the pin item tracking the pin flag. */
module ScreenProperties {
  import opened Menu
  import opened Controller

  predicate IsFolderOp(e: Effect)
  {
    e.MoveToDeleted? || e.MoveToArchive? || e.RestoreNote?
  }

  predicate IsRequest(e: Effect)
  {
    e.SaveNote? || e.DeleteNoteForever?
  }

  predicate HasTicket(e: Effect)
  {
    e.SaveNote? || e.DeleteNoteForever? || e.Leave?
  }

  /** `e` is a request whose completion leaves the screen, with ticket `t`. */
  predicate LeavesOn(e: Effect, t: nat)
  {
    (e.SaveNote? && e.thenLeave && e.ticket == t) || (e.DeleteNoteForever? && e.ticket == t)
  }

  ghost predicate TicketsBelow(tr: seq<Effect>, n: nat)
  {
    forall i | 0 <= i < |tr| && HasTicket(tr[i]) :: tr[i].ticket < n
  }

  ghost predicate RequestsDistinct(tr: seq<Effect>)
  {
    forall i, j | 0 <= i < j < |tr| && IsRequest(tr[i]) && IsRequest(tr[j]) :: tr[i].ticket != tr[j].ticket
  }

  /** Some request among the first `k` calls of `tr` leaves on completion of `t`. */
  ghost predicate RequestedBefore(tr: seq<Effect>, k: int, t: nat)
    requires 0 <= k <= |tr|
  {
    exists j | 0 <= j < k :: LeavesOn(tr[j], t)
  }

  ghost predicate LeavesAnswerRequests(tr: seq<Effect>)
  {
    forall k | 0 <= k < |tr| && tr[k].Leave? :: RequestedBefore(tr, k, tr[k].ticket)
  }

  ghost predicate LeavesDistinct(tr: seq<Effect>)
  {
    forall i, j | 0 <= i < j < |tr| && tr[i].Leave? && tr[j].Leave? :: tr[i].ticket != tr[j].ticket
  }

  ghost predicate FolderOpsThenSave(tr: seq<Effect>)
  {
    forall i | 0 <= i < |tr| && IsFolderOp(tr[i]) :: i + 1 < |tr| && tr[i + 1].SaveNote? && tr[i + 1].thenLeave
  }

  ghost predicate PendingAwaitLeave(s: Screen)
  {
    forall t | t in s.pending :: RequestedBefore(s.trace, |s.trace|, t) && Leave(t) !in s.trace
  }

  ghost predicate HasLeft(tr: seq<Effect>)
  {
    exists k | 0 <= k < |tr| :: tr[k].Leave?
  }

  ghost predicate PinInSync(s: Screen)
  {
    forall i | 0 <= i < |s.menu| && s.menu[i].handler == OnPin :: s.menu[i].look == PinLook(s.pinned)
  }

  /** The invariant every reachable screen satisfies. */
  ghost predicate Valid(s: Screen)
  {
    && TicketsBelow(s.trace, s.nextTicket)
    && RequestsDistinct(s.trace)
    && LeavesAnswerRequests(s.trace)
    && LeavesDistinct(s.trace)
    && FolderOpsThenSave(s.trace)
    && PendingAwaitLeave(s)
    && (s.exited <==> HasLeft(s.trace))
    && PinInSync(s)
  }

  // ---------------------------------------------------------------------
  // Preservation of the invariant

  lemma RequestedBeforeAppend(tr: seq<Effect>, e: Effect, k: int, t: nat)
    requires 0 <= k <= |tr|
    ensures RequestedBefore(tr + [e], k, t) == RequestedBefore(tr, k, t)
    ensures k == |tr| ==> (RequestedBefore(tr + [e], k + 1, t) <==> RequestedBefore(tr, k, t) || LeavesOn(e, t))
  {
    var tr' := tr + [e];
    if RequestedBefore(tr', k, t) {
      var j :| 0 <= j < k && LeavesOn(tr'[j], t);
      assert tr[j] == tr'[j];
    }
    if RequestedBefore(tr, k, t) {
      var j :| 0 <= j < k && LeavesOn(tr[j], t);
      assert tr[j] == tr'[j];
    }
    if k == |tr| {
      if RequestedBefore(tr', k + 1, t) && !LeavesOn(e, t) {
        var j :| 0 <= j < k + 1 && LeavesOn(tr'[j], t);
        assert j < k && tr[j] == tr'[j];
      }
      if LeavesOn(e, t) {
        assert LeavesOn(tr'[k], t);
      }
      if RequestedBefore(tr, k, t) {
        var j :| 0 <= j < k && LeavesOn(tr[j], t);
        assert tr[j] == tr'[j];
      }
    }
  }

  lemma TicketsBelowAppend(tr: seq<Effect>, e: Effect, n: nat, n': nat)
    requires TicketsBelow(tr, n) && n <= n' && (HasTicket(e) ==> e.ticket < n')
    ensures TicketsBelow(tr + [e], n')
  {
  }

  lemma RequestsDistinctAppend(tr: seq<Effect>, e: Effect, n: nat)
    requires TicketsBelow(tr, n) && RequestsDistinct(tr) && (IsRequest(e) ==> e.ticket >= n)
    ensures RequestsDistinct(tr + [e])
  {
    var tr' := tr + [e];
    forall i, j | 0 <= i < j < |tr'| && IsRequest(tr'[i]) && IsRequest(tr'[j])
      ensures tr'[i].ticket != tr'[j].ticket
    {
      assert tr'[i] == tr[i];
      if j < |tr| {
        assert tr'[j] == tr[j];
      }
    }
  }

  lemma LeavesAnswerAppend(tr: seq<Effect>, e: Effect)
    requires LeavesAnswerRequests(tr) && (e.Leave? ==> RequestedBefore(tr, |tr|, e.ticket))
    ensures LeavesAnswerRequests(tr + [e])
  {
    var tr' := tr + [e];
    forall k | 0 <= k < |tr'| && tr'[k].Leave?
      ensures RequestedBefore(tr', k, tr'[k].ticket)
    {
      if k < |tr| {
        assert tr'[k] == tr[k];
        RequestedBeforeAppend(tr, e, k, tr[k].ticket);
      } else {
        RequestedBeforeAppend(tr, e, |tr|, e.ticket);
      }
    }
  }

  lemma LeavesDistinctAppend(tr: seq<Effect>, e: Effect)
    requires LeavesDistinct(tr) && (e.Leave? ==> Leave(e.ticket) !in tr)
    ensures LeavesDistinct(tr + [e])
  {
    var tr' := tr + [e];
    forall i, j | 0 <= i < j < |tr'| && tr'[i].Leave? && tr'[j].Leave?
      ensures tr'[i].ticket != tr'[j].ticket
    {
      assert tr'[i] == tr[i];
      if j < |tr| {
        assert tr'[j] == tr[j];
      } else {
        assert tr[i] == Leave(tr[i].ticket);
      }
    }
  }

  lemma FolderOpsAppend(tr: seq<Effect>, e: Effect)
    requires FolderOpsThenSave(tr) && !IsFolderOp(e)
    ensures FolderOpsThenSave(tr + [e])
  {
    var tr' := tr + [e];
    forall i | 0 <= i < |tr'| && IsFolderOp(tr'[i])
      ensures i + 1 < |tr'| && tr'[i + 1].SaveNote? && tr'[i + 1].thenLeave
    {
      assert tr'[i] == tr[i];
      assert i + 1 < |tr| ==> tr'[i + 1] == tr[i + 1];
    }
  }

  lemma FolderOpsAppendPair(tr: seq<Effect>, op: Effect, save: Effect)
    requires FolderOpsThenSave(tr) && save.SaveNote? && save.thenLeave
    ensures FolderOpsThenSave(tr + [op] + [save])
  {
    var tr' := tr + [op] + [save];
    forall i | 0 <= i < |tr'| && IsFolderOp(tr'[i])
      ensures i + 1 < |tr'| && tr'[i + 1].SaveNote? && tr'[i + 1].thenLeave
    {
      if i < |tr| {
        assert tr'[i] == tr[i];
        assert i + 1 < |tr| ==> tr'[i + 1] == tr[i + 1];
      }
    }
  }

  lemma HasLeftAppend(tr: seq<Effect>, e: Effect)
    ensures HasLeft(tr + [e]) <==> HasLeft(tr) || e.Leave?
  {
    var tr' := tr + [e];
    if HasLeft(tr) {
      var k :| 0 <= k < |tr| && tr[k].Leave?;
      assert tr'[k] == tr[k];
    }
    if HasLeft(tr') && !e.Leave? {
      var k :| 0 <= k < |tr'| && tr'[k].Leave?;
      assert k < |tr| && tr[k] == tr'[k];
    }
    if e.Leave? {
      assert tr'[|tr|].Leave?;
    }
  }

  /** The part of the invariant that speaks of the trace and tickets only. */
  ghost predicate TicketsValid(tr: seq<Effect>, n: nat)
  {
    TicketsBelow(tr, n) && RequestsDistinct(tr) && LeavesAnswerRequests(tr) && LeavesDistinct(tr)
  }

  /** Appending one call keeps TicketsValid when a request takes the next
      ticket and a leave answers an earlier request not answered yet. */
  lemma TicketsValidAppend(tr: seq<Effect>, e: Effect, n: nat)
    requires TicketsValid(tr, n)
    requires IsRequest(e) ==> e.ticket == n
    requires e.Leave? ==> e.ticket < n && RequestedBefore(tr, |tr|, e.ticket) && Leave(e.ticket) !in tr
    ensures TicketsValid(tr + [e], if IsRequest(e) then n + 1 else n)
  {
    var n' := if IsRequest(e) then n + 1 else n;
    TicketsBelowAppend(tr, e, n, n');
    RequestsDistinctAppend(tr, e, n);
    LeavesAnswerAppend(tr, e);
    LeavesDistinctAppend(tr, e);
  }

  /** Pending callbacks still await their leave after one more call. */
  lemma PendingAppend(tr: seq<Effect>, e: Effect, pending: set<nat>, pending': set<nat>)
    requires forall t | t in pending :: RequestedBefore(tr, |tr|, t) && Leave(t) !in tr
    requires forall t | t in pending' :: t in pending || (LeavesOn(e, t) && Leave(t) !in tr)
    requires e.Leave? ==> e.ticket !in pending'
    ensures forall t | t in pending' :: RequestedBefore(tr + [e], |tr + [e]|, t) && Leave(t) !in tr + [e]
  {
    forall t | t in pending'
      ensures RequestedBefore(tr + [e], |tr + [e]|, t) && Leave(t) !in tr + [e]
    {
      RequestedBeforeAppend(tr, e, |tr|, t);
    }
  }

  /** Appending a call that carries no ticket and is no folder operation. */
  lemma AppendQuietValid(s: Screen, e: Effect)
    requires Valid(s) && !HasTicket(e) && !IsFolderOp(e)
    ensures Valid(s.(trace := s.trace + [e]))
  {
    TicketsValidAppend(s.trace, e, s.nextTicket);
    FolderOpsAppend(s.trace, e);
    HasLeftAppend(s.trace, e);
    PendingAppend(s.trace, e, s.pending, s.pending);
  }

  lemma FreshTicketNotLeft(s: Screen)
    requires TicketsBelow(s.trace, s.nextTicket)
    ensures Leave(s.nextTicket) !in s.trace
  {
    forall k | 0 <= k < |s.trace|
      ensures s.trace[k] != Leave(s.nextTicket)
    {
      if s.trace[k].Leave? {
        assert HasTicket(s.trace[k]);
      }
    }
  }

  /** Appending a request with a fresh ticket; a request that leaves on
      completion becomes pending. */
  lemma AppendRequestValid(s: Screen, e: Effect)
    requires Valid(s) && IsRequest(e) && e.ticket == s.nextTicket
    ensures var r := s.(trace := s.trace + [e],
                        pending := if LeavesOn(e, e.ticket) then s.pending + {e.ticket} else s.pending,
                        nextTicket := s.nextTicket + 1);
            Valid(r)
  {
    TicketsValidAppend(s.trace, e, s.nextTicket);
    FolderOpsAppend(s.trace, e);
    HasLeftAppend(s.trace, e);
    FreshTicketNotLeft(s);
    PendingAppend(s.trace, e, s.pending, if LeavesOn(e, e.ticket) then s.pending + {e.ticket} else s.pending);
  }

  lemma RequestSaveValid(s: Screen, thenLeave: bool)
    requires Valid(s)
    ensures Valid(RequestSave(s, thenLeave))
  {
    AppendRequestValid(s, SaveNote(s.nextTicket, thenLeave));
  }

  /** A folder operation followed at once by the back path. */
  lemma FolderMoveValid(s: Screen, op: Effect)
    requires Valid(s) && IsFolderOp(op)
    ensures Valid(OnBackPressed(s.(trace := s.trace + [op])))
  {
    var tr := s.trace;
    var e := SaveNote(s.nextTicket, true);
    TicketsValidAppend(tr, op, s.nextTicket);
    TicketsValidAppend(tr + [op], e, s.nextTicket);
    FolderOpsAppendPair(tr, op, e);
    HasLeftAppend(tr, op);
    HasLeftAppend(tr + [op], e);
    FreshTicketNotLeft(s);
    PendingAppend(tr, op, s.pending, s.pending);
    PendingAppend(tr + [op], e, s.pending, s.pending + {e.ticket});
  }

  lemma CompleteValid(s: Screen, t: nat)
    requires Valid(s)
    ensures Valid(Complete(s, t))
  {
    if t in s.pending {
      var e := Leave(t);
      var j :| 0 <= j < |s.trace| && LeavesOn(s.trace[j], t);
      assert HasTicket(s.trace[j]);
      TicketsValidAppend(s.trace, e, s.nextTicket);
      FolderOpsAppend(s.trace, e);
      HasLeftAppend(s.trace, e);
      PendingAppend(s.trace, e, s.pending, s.pending - {t});
    }
  }

  // One lemma per handler: each keeps the invariant.

  lemma CreateValid(s: Screen, selected: Option<Note>, action: IntentAction)
    requires Valid(s)
    ensures Valid(OnCreate(s, selected, action))
  {
    if s.isFirstInstance && action == ActionSend {
      AppendQuietValid(s.(menu := []), ReceiveSharedNote);
    }
  }

  lemma CreateOptionsMenuValid(s: Screen, present: bool)
    requires Valid(s)
    ensures Valid(OnCreateOptionsMenu(s, present))
  {
  }

  lemma PinValid(s: Screen)
    requires Valid(s)
    ensures Valid(Pin(s))
  {
  }

  lemma ShareValid(s: Screen)
    requires Valid(s)
    ensures Valid(Share(s))
  {
    AppendQuietValid(s, ShareNote);
  }

  lemma LabelValid(s: Screen, catalog: seq<string>, chosen: Option<seq<string>>)
    requires Valid(s)
    ensures Valid(Label(s, catalog, chosen))
  {
    AppendQuietValid(s, OfferLabels(catalog, s.labels));
  }

  lemma DeleteValid(s: Screen)
    requires Valid(s)
    ensures Valid(Delete(s))
  {
    FolderMoveValid(s, MoveToDeleted);
  }

  lemma ArchiveValid(s: Screen)
    requires Valid(s)
    ensures Valid(Archive(s))
  {
    FolderMoveValid(s, MoveToArchive);
  }

  lemma RestoreValid(s: Screen)
    requires Valid(s)
    ensures Valid(Restore(s))
  {
    FolderMoveValid(s, RestoreNote);
  }

  lemma DeleteForeverValid(s: Screen, confirmed: bool)
    requires Valid(s)
    ensures Valid(DeleteForever(s, confirmed))
  {
    if confirmed {
      AppendRequestValid(s, DeleteNoteForever(s.nextTicket));
    }
  }

  lemma OptionsItemValid(s: Screen, isHome: bool)
    requires Valid(s)
    ensures Valid(OnOptionsItemSelected(s, isHome))
  {
    RequestSaveValid(s, true);
  }

  lemma StepPreservesValid(s: Screen, e: Event)
    requires Valid(s)
    ensures Valid(Step(s, e))
  {
    match e
    case Create(selected, action) => CreateValid(s, selected, action);
    case CreateOptionsMenu(present) => CreateOptionsMenuValid(s, present);
    case PinTapped => PinValid(s);
    case ShareTapped => ShareValid(s);
    case LabelsTapped(catalog, chosen) => LabelValid(s, catalog, chosen);
    case DeleteTapped => DeleteValid(s);
    case ArchiveTapped => ArchiveValid(s);
    case RestoreTapped => RestoreValid(s);
    case DeleteForeverTapped(confirmed) => DeleteForeverValid(s, confirmed);
    case OptionsItemSelected(isHome) => OptionsItemValid(s, isHome);
    case BackPressed => RequestSaveValid(s, true);
    case SaveInstanceState => RequestSaveValid(s, false);
    case Completed(t) => CompleteValid(s, t);
  }

  lemma InitialValid(defaults: Note)
    ensures Valid(Initial(defaults))
  {
  }

  lemma {:induction false} RunPreservesValid(s: Screen, evs: seq<Event>)
    requires Valid(s)
    ensures Valid(Run(s, evs))
    decreases |evs|
  {
    if evs != [] {
      StepPreservesValid(s, evs[0]);
      RunPreservesValid(Step(s, evs[0]), evs[1..]);
    }
  }

  lemma {:induction false} ReachableValid(defaults: Note, evs: seq<Event>)
    ensures Valid(Run(Initial(defaults), evs))
  {
    InitialValid(defaults);
    RunPreservesValid(Initial(defaults), evs);
  }

  // ---------------------------------------------------------------------
  // Leaving the screen

  /** In every valid screen: the screen left only from the completion of a
      request made earlier whose callback leaves; each request led to leaving
      at most once; and a save without callback (the instance-state snapshot)
      is never answered by leaving. */
  lemma LeavingFollowsRequests(s: Screen)
    requires Valid(s)
    ensures forall k | 0 <= k < |s.trace| && s.trace[k].Leave? ::
      exists j | 0 <= j < k :: LeavesOn(s.trace[j], s.trace[k].ticket)
    ensures forall i, j | 0 <= i < j < |s.trace| && s.trace[i].Leave? && s.trace[j].Leave? ::
      s.trace[i] != s.trace[j]
    ensures forall i, k | 0 <= i < |s.trace| && s.trace[i].SaveNote? && !s.trace[i].thenLeave && 0 <= k < |s.trace| && s.trace[k].Leave? ::
      s.trace[k].ticket != s.trace[i].ticket
    ensures s.exited <==> exists k | 0 <= k < |s.trace| :: s.trace[k].Leave?
  {
    var tr := s.trace;
    forall i, k | 0 <= i < |tr| && tr[i].SaveNote? && !tr[i].thenLeave && 0 <= k < |tr| && tr[k].Leave?
      ensures tr[k].ticket != tr[i].ticket
    {
      var j :| 0 <= j < k && LeavesOn(tr[j], tr[k].ticket);
      assert IsRequest(tr[i]) && IsRequest(tr[j]) && i != j;
      if i < j {
        assert tr[i].ticket != tr[j].ticket;
      } else {
        assert tr[j].ticket != tr[i].ticket;
      }
    }
  }

  /** In every valid screen a folder operation is followed at once by a save
      whose completion leaves, and leaving on that save comes after it. */
  lemma FolderOpLeavesAfterSave(s: Screen)
    requires Valid(s)
    ensures forall i, k | 0 <= i < |s.trace| && IsFolderOp(s.trace[i]) && 0 <= k < |s.trace| && s.trace[k].Leave? ::
      i + 1 < |s.trace| && s.trace[i + 1].SaveNote? && s.trace[i + 1].thenLeave &&
      (s.trace[k].ticket == s.trace[i + 1].ticket ==> i + 1 < k)
  {
    var tr := s.trace;
    forall i, k | 0 <= i < |tr| && IsFolderOp(tr[i]) && 0 <= k < |tr| && tr[k].Leave?
      ensures i + 1 < |tr| && tr[i + 1].SaveNote? && tr[i + 1].thenLeave &&
              (tr[k].ticket == tr[i + 1].ticket ==> i + 1 < k)
    {
      var j :| 0 <= j < k && LeavesOn(tr[j], tr[k].ticket);
      if j < i + 1 {
        assert tr[j].ticket != tr[i + 1].ticket;
      } else if i + 1 < j {
        assert tr[i + 1].ticket != tr[j].ticket;
      }
    }
  }

  lemma FreshTicketNotPending(s: Screen)
    requires Valid(s)
    ensures s.nextTicket !in s.pending
  {
    forall t | t in s.pending
      ensures t < s.nextTicket
    {
      var j :| 0 <= j < |s.trace| && LeavesOn(s.trace[j], t);
      assert HasTicket(s.trace[j]);
    }
  }

  /** Back requests a save and does not leave; the screen leaves in that
      save's completion, once. */
  lemma BackLeavesOnlyInSaveCompletion(s: Screen)
    requires Valid(s)
    ensures var t := s.nextTicket;
            var b := OnBackPressed(s);
            var r := Complete(b, t);
            && b.exited == s.exited
            && b.trace == s.trace + [SaveNote(t, true)]
            && r.exited
            && r.trace == b.trace + [Leave(t)]
            && Complete(r, t) == r
  {
    FreshTicketNotPending(s);
  }

  /** The home item of the toolbar takes the same path as back; other items
      selected through onOptionsItemSelected change nothing. */
  lemma HomeIsBack(s: Screen, isHome: bool)
    ensures isHome ==> OnOptionsItemSelected(s, isHome) == OnBackPressed(s)
    ensures !isHome ==> OnOptionsItemSelected(s, isHome) == s
  {
  }

  /** Tapping Unarchive runs the same handler as tapping Restore. */
  lemma UnarchiveTapRestores(s: Screen, confirmed: bool, catalog: seq<string>, chosen: Option<seq<string>>)
    ensures TapEvent(MenuFor(Archived, s.pinned)[3].handler, confirmed, catalog, chosen) == RestoreTapped
    ensures TapEvent(MenuFor(Deleted, s.pinned)[3].handler, confirmed, catalog, chosen) == RestoreTapped
    ensures Step(s, TapEvent(MenuFor(Archived, s.pinned)[3].handler, confirmed, catalog, chosen)) == Restore(s)
  {
  }

  /** The instance-state snapshot requests a save and never leaves, neither
      now nor when that save completes. */
  lemma SnapshotSavesWithoutLeaving(s: Screen)
    requires Valid(s)
    ensures var t := s.nextTicket;
            var r := OnSaveInstanceState(s);
            && r.trace == s.trace + [SaveNote(t, false)]
            && r.exited == s.exited
            && Complete(r, t) == r
  {
    FreshTicketNotPending(s);
  }

  /** The folder operation a folder command issues. */
  function FolderOpOf(e: Event): Effect
    requires e.DeleteTapped? || e.ArchiveTapped? || e.RestoreTapped?
  {
    match e
    case DeleteTapped => MoveToDeleted
    case ArchiveTapped => MoveToArchive
    case RestoreTapped => RestoreNote
  }

  /** Delete, Archive and Restore issue their folder operation strictly before
      a save, do not leave at once, and leave in that save's completion. */
  lemma FolderCommandSavesThenLeaves(s: Screen, e: Event)
    requires Valid(s)
    requires e.DeleteTapped? || e.ArchiveTapped? || e.RestoreTapped?
    ensures var t := s.nextTicket;
            var d := Step(s, e);
            var r := Complete(d, t);
            && d.trace == s.trace + [FolderOpOf(e), SaveNote(t, true)]
            && d.exited == s.exited
            && r.exited
            && r.trace == d.trace + [Leave(t)]
  {
    FreshTicketNotPending(s);
  }

  /** A confirmed Delete Forever requests the permanent delete and leaves in its
      completion, with no save in between; a cancelled one changes nothing. */
  lemma DeleteForeverLeavesWithoutSave(s: Screen)
    requires Valid(s)
    ensures var t := s.nextTicket;
            var d := DeleteForever(s, true);
            var r := Complete(d, t);
            && d.exited == s.exited
            && r.exited
            && r.trace == s.trace + [DeleteNoteForever(t), Leave(t)]
            && SaveRequests(r.trace) == SaveRequests(s.trace)
    ensures DeleteForever(s, false) == s
  {
    FreshTicketNotPending(s);
    var t := s.nextTicket;
    SaveRequestsAppend(s.trace, [DeleteNoteForever(t), Leave(t)]);
    assert [DeleteNoteForever(t), Leave(t)][..1] == [DeleteNoteForever(t)];
  }

  /** The code has no guard between a confirmed Delete Forever and its
      completion: back or the instance-state snapshot arriving in between
      still request a save of the note being deleted. */
  lemma SaveAfterDeleteForever(s: Screen)
    ensures var d := DeleteForever(s, true);
            && SaveRequests(OnBackPressed(d).trace) == SaveRequests(s.trace) + 1
            && SaveRequests(OnSaveInstanceState(d).trace) == SaveRequests(s.trace) + 1
            && OnBackPressed(d).exited == s.exited
  {
    var t := s.nextTicket;
    assert [DeleteNoteForever(t), SaveNote(t + 1, true)][..1] == [DeleteNoteForever(t)];
    assert [DeleteNoteForever(t), SaveNote(t + 1, false)][..1] == [DeleteNoteForever(t)];
    assert OnBackPressed(DeleteForever(s, true)).trace == s.trace + [DeleteNoteForever(t), SaveNote(t + 1, true)];
    assert OnSaveInstanceState(DeleteForever(s, true)).trace == s.trace + [DeleteNoteForever(t), SaveNote(t + 1, false)];
    SaveRequestsAppend(s.trace, [DeleteNoteForever(t), SaveNote(t + 1, true)]);
    SaveRequestsAppend(s.trace, [DeleteNoteForever(t), SaveNote(t + 1, false)]);
  }

  // ---------------------------------------------------------------------
  // Counting calls

  /** The calls the screen issues on each event, in order. */
  function Emitted(s: Screen, e: Event): seq<Effect>
  {
    var t := s.nextTicket;
    match e
    case Create(_, action) => if s.isFirstInstance && action == ActionSend then [ReceiveSharedNote] else []
    case CreateOptionsMenu(_) => []
    case PinTapped => []
    case ShareTapped => [ShareNote]
    case LabelsTapped(catalog, _) => [OfferLabels(catalog, s.labels)]
    case DeleteTapped => [MoveToDeleted, SaveNote(t, true)]
    case ArchiveTapped => [MoveToArchive, SaveNote(t, true)]
    case RestoreTapped => [RestoreNote, SaveNote(t, true)]
    case DeleteForeverTapped(confirmed) => if confirmed then [DeleteNoteForever(t)] else []
    case OptionsItemSelected(isHome) => if isHome then [SaveNote(t, true)] else []
    case BackPressed => [SaveNote(t, true)]
    case SaveInstanceState => [SaveNote(t, false)]
    case Completed(u) => if u in s.pending then [Leave(u)] else []
  }

  /** Every event only appends to the trace, and appends what Emitted lists. */
  lemma StepEmits(s: Screen, e: Event)
    ensures Step(s, e).trace == s.trace + Emitted(s, e)
  {
    match e
    case DeleteTapped =>
      assert s.trace + [MoveToDeleted] + [SaveNote(s.nextTicket, true)] == s.trace + Emitted(s, e);
    case ArchiveTapped =>
      assert s.trace + [MoveToArchive] + [SaveNote(s.nextTicket, true)] == s.trace + Emitted(s, e);
    case RestoreTapped =>
      assert s.trace + [RestoreNote] + [SaveNote(s.nextTicket, true)] == s.trace + Emitted(s, e);
    case _ =>
  }

  /** The number of save requests in `tr`. */
  function SaveRequests(tr: seq<Effect>): nat
    decreases |tr|
  {
    if tr == [] then 0 else SaveRequests(tr[..|tr| - 1]) + (if tr[|tr| - 1].SaveNote? then 1 else 0)
  }

  lemma {:induction false} SaveRequestsAppend(a: seq<Effect>, b: seq<Effect>)
    ensures SaveRequests(a + b) == SaveRequests(a) + SaveRequests(b)
    decreases |b|
  {
    if b == [] {
      assert a + b == a;
    } else {
      assert (a + b)[..|a + b| - 1] == a + b[..|b| - 1];
      SaveRequestsAppend(a, b[..|b| - 1]);
    }
  }

  /** The events whose handling requests a save. */
  predicate RequestsSaving(e: Event)
  {
    e.BackPressed? || e.SaveInstanceState? || (e.OptionsItemSelected? && e.isHome)
    || e.DeleteTapped? || e.ArchiveTapped? || e.RestoreTapped?
  }

  function SavingEvents(evs: seq<Event>): nat
    decreases |evs|
  {
    if evs == [] then 0 else (if RequestsSaving(evs[0]) then 1 else 0) + SavingEvents(evs[1..])
  }

  lemma EmittedSaves(s: Screen, e: Event)
    ensures SaveRequests(Emitted(s, e)) == if RequestsSaving(e) then 1 else 0
  {
    var em := Emitted(s, e);
    if |em| == 1 {
      assert em[..0] == [];
    } else if |em| == 2 {
      assert em[..1] == [em[0]] && em[..1][..0] == [];
      assert SaveRequests(em[..1]) == if em[0].SaveNote? then 1 else 0;
    }
  }

  lemma StepSaves(s: Screen, e: Event)
    ensures SaveRequests(Step(s, e).trace) == SaveRequests(s.trace) + (if RequestsSaving(e) then 1 else 0)
  {
    StepEmits(s, e);
    SaveRequestsAppend(s.trace, Emitted(s, e));
    EmittedSaves(s, e);
  }

  /** Over any sequence of events, exactly one save is requested per back press,
      home selection, instance-state snapshot, and Delete, Archive or Restore
      command: none by Delete Forever, by a completion or by anything else. */
  lemma {:induction false} RunSaves(s: Screen, evs: seq<Event>)
    ensures SaveRequests(Run(s, evs).trace) == SaveRequests(s.trace) + SavingEvents(evs)
    decreases |evs|
  {
    if evs != [] {
      StepSaves(s, evs[0]);
      RunSaves(Step(s, evs[0]), evs[1..]);
    }
  }

  // ---------------------------------------------------------------------
  // One-time initialisation

  /** The number of shared-note receptions in `tr`. */
  function SharedReceptions(tr: seq<Effect>): nat
    decreases |tr|
  {
    if tr == [] then 0 else SharedReceptions(tr[..|tr| - 1]) + (if tr[|tr| - 1] == ReceiveSharedNote then 1 else 0)
  }

  lemma {:induction false} SharedReceptionsAppend(a: seq<Effect>, b: seq<Effect>)
    ensures SharedReceptions(a + b) == SharedReceptions(a) + SharedReceptions(b)
    decreases |b|
  {
    if b == [] {
      assert a + b == a;
    } else {
      assert (a + b)[..|a + b| - 1] == a + b[..|b| - 1];
      SharedReceptionsAppend(a, b[..|b| - 1]);
    }
  }

  predicate HasCreate(evs: seq<Event>)
  {
    exists k | 0 <= k < |evs| :: evs[k].Create?
  }

  /** The first onCreate among `evs` comes from a share intent. */
  predicate FirstCreateShares(evs: seq<Event>)
    decreases |evs|
  {
    if evs == [] then false
    else if evs[0].Create? then evs[0].action == ActionSend
    else FirstCreateShares(evs[1..])
  }

  lemma EmittedReceptions(s: Screen, e: Event)
    ensures SharedReceptions(Emitted(s, e)) == if e.Create? && s.isFirstInstance && e.action == ActionSend then 1 else 0
  {
    var em := Emitted(s, e);
    if |em| == 1 {
      assert em[..0] == [];
    } else if |em| == 2 {
      assert em[..1] == [em[0]] && em[..1][..0] == [];
      assert SharedReceptions(em[..1]) == if em[0] == ReceiveSharedNote then 1 else 0;
    }
  }

  lemma StepReceptions(s: Screen, e: Event)
    ensures SharedReceptions(Step(s, e).trace) ==
      SharedReceptions(s.trace) + (if e.Create? && s.isFirstInstance && e.action == ActionSend then 1 else 0)
  {
    StepEmits(s, e);
    SharedReceptionsAppend(s.trace, Emitted(s, e));
    EmittedReceptions(s, e);
  }

  lemma StepFirstInstance(s: Screen, e: Event)
    ensures Step(s, e).isFirstInstance == (s.isFirstInstance && !e.Create?)
  {
  }

  /** receiveSharedNote is called at most once over any sequence of events:
      exactly when the first onCreate of a screen not yet set up comes from a
      share intent. Set-up happens at the first onCreate and never again. */
  lemma {:induction false} RunReceptions(s: Screen, evs: seq<Event>)
    ensures SharedReceptions(Run(s, evs).trace) ==
      SharedReceptions(s.trace) + (if s.isFirstInstance && FirstCreateShares(evs) then 1 else 0)
    ensures Run(s, evs).isFirstInstance == (s.isFirstInstance && !HasCreate(evs))
    decreases |evs|
  {
    if evs != [] {
      StepReceptions(s, evs[0]);
      StepFirstInstance(s, evs[0]);
      RunReceptions(Step(s, evs[0]), evs[1..]);
      if HasCreate(evs[1..]) {
        var k :| 0 <= k < |evs[1..]| && evs[1..][k].Create?;
        assert evs[k + 1].Create?;
      }
      if HasCreate(evs) && !evs[0].Create? {
        var k :| 0 <= k < |evs| && evs[k].Create?;
        assert evs[1..][k - 1].Create?;
      }
    }
  }

  lemma ReceiveSharedAtMostOnce(defaults: Note, evs: seq<Event>)
    ensures SharedReceptions(Run(Initial(defaults), evs).trace) == if FirstCreateShares(evs) then 1 else 0
  {
    RunReceptions(Initial(defaults), evs);
  }

  /** Once set up, the screen keeps its new-note flag and the first-instance
      flag stays cleared, whatever happens next. */
  lemma {:induction false} SetUpIsFinal(s: Screen, evs: seq<Event>)
    requires !s.isFirstInstance
    ensures !Run(s, evs).isFirstInstance
    ensures Run(s, evs).isNewNote == s.isNewNote
    decreases |evs|
  {
    if evs != [] {
      SetUpIsFinal(Step(s, evs[0]), evs[1..]);
    }
  }

  // ---------------------------------------------------------------------
  // Pin

  /** Pin negates the pin flag and the pin item then shows Unpin exactly when
      the note is pinned; two pins give back the original screen. */
  lemma PinTwiceRestores(s: Screen)
    requires PinInSync(s)
    ensures Pin(s).pinned == !s.pinned
    ensures PinInSync(Pin(s))
    ensures Pin(Pin(s)) == s
  {
    var m := Pin(Pin(s)).menu;
    assert |m| == |s.menu|;
    forall i | 0 <= i < |m|
      ensures m[i] == s.menu[i]
    {
    }
  }
}
