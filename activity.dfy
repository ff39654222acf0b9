/** The note-editing screen as an object whose handlers update its fields in
    place. Each handler is proved to take the screen exactly where the
    corresponding function of module Controller does, and to keep the
    invariant of module ScreenProperties. */
module Activity {
  import opened Menu
  import opened Controller
  import ScreenProperties

  class NotallyActivity {
    // Fields of the note model the screen edits.
    var folder: Folder
    var pinned: bool
    var labels: seq<string>
    var isFirstInstance: bool
    var isNewNote: bool
    // The screen's view state: its options menu and the label chips.
    var menu: seq<Entry>
    var labelChips: seq<string>
    // Requests whose completion callback leaves the screen, and the next ticket.
    var pending: set<nat>
    var nextTicket: nat
    var exited: bool
    // The calls issued to collaborators so far.
    var trace: seq<Effect>

    function State(): Screen
      reads this
    {
      Screen(folder, pinned, labels, labelChips, isFirstInstance, isNewNote, menu, pending, nextTicket, exited, trace)
    }

    ghost predicate Valid()
      reads this
    {
      ScreenProperties.Valid(State())
    }

    constructor (defaults: Note)
      ensures Valid() && State() == Initial(defaults)
    {
      folder, pinned, labels := defaults.folder, defaults.pinned, defaults.labels;
      isFirstInstance, isNewNote := true, false;
      menu, labelChips := [], [];
      pending, nextTicket, exited := {}, 0, false;
      trace := [];
      new;
      ScreenProperties.InitialValid(defaults);
    }

    /** onCreate: set up once, from the selected note if there is one. */
    method OnCreate(selected: Option<Note>, action: IntentAction)
      requires Valid()
      modifies this
      ensures Valid() && State() == Controller.OnCreate(old(State()), selected, action)
    {
      ScreenProperties.CreateValid(State(), selected, action);
      menu := [];
      if isFirstInstance {
        match selected {
          case Some(n) =>
            isNewNote, folder, pinned, labels := false, n.folder, n.pinned, n.labels;
          case None =>
            isNewNote := true;
        }
        if action == ActionSend {
          trace := trace + [ReceiveSharedNote];
        }
        isFirstInstance := false;
      }
    }

    /** onCreateOptionsMenu: Pin (bound to the pin flag), Share, Labels, then
        the folder's own commands. */
    method OnCreateOptionsMenu(present: bool)
      requires Valid()
      modifies this
      ensures Valid() && State() == Controller.OnCreateOptionsMenu(old(State()), present)
    {
      ghost var before := State();
      if present {
        menu := MenuFor(folder, pinned);
      }
      ScreenProperties.CreateOptionsMenuValid(before, present);
    }

    /** pin: negate the pin flag and rebind the pin item. */
    method Pin()
      requires Valid()
      modifies this
      ensures Valid() && State() == Controller.Pin(old(State()))
      ensures pinned == !old(pinned)
    {
      ghost var before := State();
      pinned := !pinned;
      menu := BindPinned(menu, pinned);
      ScreenProperties.PinValid(before);
    }

    method Share()
      requires Valid()
      modifies this
      ensures Valid() && State() == Controller.Share(old(State()))
    {
      ghost var before := State();
      trace := trace + [ShareNote];
      ScreenProperties.ShareValid(before);
    }

    /** label: offer the fetched catalog with the current labels; a choice
        replaces the note's labels and is bound to the chips. */
    method Label(catalog: seq<string>, chosen: Option<seq<string>>)
      requires Valid()
      modifies this
      ensures Valid() && State() == Controller.Label(old(State()), catalog, chosen)
      ensures chosen.Some? ==> labels == chosen.value && labelChips == chosen.value
      ensures chosen.None? ==> labels == old(labels) && labelChips == old(labelChips)
    {
      ghost var before := State();
      trace := trace + [OfferLabels(catalog, labels)];
      if chosen.Some? {
        labels := chosen.value;
        labelChips := chosen.value;
      }
      ScreenProperties.LabelValid(before, catalog, chosen);
    }

    /** saveNote on the note model, with or without a callback that leaves.
        Delete, Archive and Restore call it right after their folder operation,
        where the invariant is not yet restored, so it does not require it; it
        keeps the invariant whenever it held before. */
    method RequestSave(thenLeave: bool)
      modifies this
      ensures State() == Controller.RequestSave(old(State()), thenLeave)
      ensures old(Valid()) ==> Valid()
    {
      ghost var before := State();
      if ScreenProperties.Valid(before) {
        ScreenProperties.RequestSaveValid(before, thenLeave);
      }
      var t := nextTicket;
      trace := trace + [SaveNote(t, thenLeave)];
      if thenLeave {
        pending := pending + {t};
      }
      nextTicket := t + 1;
    }

    method OnBackPressed()
      requires Valid()
      modifies this
      ensures Valid() && State() == Controller.OnBackPressed(old(State()))
      ensures exited == old(exited)
    {
      RequestSave(true);
    }

    method OnSaveInstanceState()
      requires Valid()
      modifies this
      ensures Valid() && State() == Controller.OnSaveInstanceState(old(State()))
      ensures exited == old(exited)
    {
      RequestSave(false);
    }

    method OnOptionsItemSelected(isHome: bool)
      requires Valid()
      modifies this
      ensures Valid() && State() == Controller.OnOptionsItemSelected(old(State()), isHome)
    {
      if isHome {
        OnBackPressed();
      }
    }

    /** delete, archive and restore: the folder operation, then the back path. */
    method Delete()
      requires Valid()
      modifies this
      ensures Valid() && State() == Controller.Delete(old(State()))
    {
      ghost var before := State();
      trace := trace + [MoveToDeleted];
      RequestSave(true);
      ScreenProperties.DeleteValid(before);
    }

    method Archive()
      requires Valid()
      modifies this
      ensures Valid() && State() == Controller.Archive(old(State()))
    {
      ghost var before := State();
      trace := trace + [MoveToArchive];
      RequestSave(true);
      ScreenProperties.ArchiveValid(before);
    }

    method Restore()
      requires Valid()
      modifies this
      ensures Valid() && State() == Controller.Restore(old(State()))
    {
      ghost var before := State();
      trace := trace + [RestoreNote];
      RequestSave(true);
      ScreenProperties.RestoreValid(before);
    }

    /** deleteForever: on confirmation, delete permanently; the completion of
        the delete leaves the screen without a save. */
    method DeleteForever(confirmed: bool)
      requires Valid()
      modifies this
      ensures Valid() && State() == Controller.DeleteForever(old(State()), confirmed)
    {
      ghost var before := State();
      if confirmed {
        var t := nextTicket;
        trace := trace + [DeleteNoteForever(t)];
        pending := pending + {t};
        nextTicket := t + 1;
      }
      ScreenProperties.DeleteForeverValid(before, confirmed);
    }

    /** The note model completes request `t` and runs its callback, if any. */
    method Complete(t: nat)
      requires Valid()
      modifies this
      ensures Valid() && State() == Controller.Complete(old(State()), t)
    {
      ghost var before := State();
      if t in pending {
        pending := pending - {t};
        trace := trace + [Leave(t)];
        exited := true;
      }
      ScreenProperties.CompleteValid(before, t);
    }
  }
}
