/** The note-editing screen as a state machine. A `Screen` holds the fields of
    the note model the screen edits (folder, pin flag, labels, the first-instance
    and new-note flags), the screen's own view state (its options menu and the
    label chips), the completion callbacks still outstanding, and the trace of
    calls it has issued to collaborators it does not own. Each handler of the
    screen is one function from the old screen to the new one. */
module Controller {
  import opened Menu

  datatype Option<T> = None | Some(value: T)

  /** The snapshot of an existing note that the screen is opened with. */
  datatype Note = Note(folder: Folder, pinned: bool, labels: seq<string>)

  /** The action of the intent that started the screen. */
  datatype IntentAction = ActionSend | OtherAction

  /** A call the screen issues to a collaborator. The note model's operations
      are opaque: only the fact and the order of the calls are recorded.
      Requests whose completion runs a callback carry a ticket; `Leave(t)` is
      the screen leaving from inside the completion of request `t`. */
  datatype Effect =
    | ReceiveSharedNote
    | ShareNote
    | OfferLabels(catalog: seq<string>, current: seq<string>)
    | MoveToDeleted
    | MoveToArchive
    | RestoreNote
    | SaveNote(ticket: nat, thenLeave: bool)
    | DeleteNoteForever(ticket: nat)
    | Leave(ticket: nat)

  /** What can happen to the screen: lifecycle calls, taps on its menu items
      (with the answer of the dialog or label picker they open), and the note
      model completing an earlier request. */
  datatype Event =
    | Create(selected: Option<Note>, action: IntentAction)
    | CreateOptionsMenu(present: bool)
    | PinTapped
    | ShareTapped
    | LabelsTapped(catalog: seq<string>, chosen: Option<seq<string>>)
    | DeleteTapped
    | ArchiveTapped
    | RestoreTapped
    | DeleteForeverTapped(confirmed: bool)
    | OptionsItemSelected(isHome: bool)
    | BackPressed
    | SaveInstanceState
    | Completed(ticket: nat)

  datatype Screen = Screen(
    folder: Folder,
    pinned: bool,
    labels: seq<string>,
    labelChips: seq<string>,
    isFirstInstance: bool,
    isNewNote: bool,
    menu: seq<Entry>,
    pending: set<nat>,
    nextTicket: nat,
    exited: bool,
    trace: seq<Effect>)

  /** A screen whose note model holds `defaults` and has not been set up yet. */
  function Initial(defaults: Note): (s: Screen)
  {
    Screen(defaults.folder, defaults.pinned, defaults.labels, [], true, false, [], {}, 0, false, [])
  }

  /** onCreate: the one-time set-up, guarded by the first-instance flag. A newly
      created screen instance has no options menu until it is asked for one. */
  function OnCreate(s: Screen, selected: Option<Note>, action: IntentAction): (r: Screen)
    ensures !r.isFirstInstance && r.menu == []
    ensures s.isFirstInstance ==> (r.isNewNote <==> selected.None?)
    ensures s.isFirstInstance && selected.Some? ==>
      r.folder == selected.value.folder && r.pinned == selected.value.pinned && r.labels == selected.value.labels
    ensures !s.isFirstInstance || selected.None? ==>
      r.folder == s.folder && r.pinned == s.pinned && r.labels == s.labels
    ensures r.trace == s.trace + (if s.isFirstInstance && action == ActionSend then [ReceiveSharedNote] else [])
    ensures !s.isFirstInstance ==> r == s.(menu := [])
    ensures r.pending == s.pending && r.nextTicket == s.nextTicket && r.exited == s.exited
    ensures r.labelChips == s.labelChips
  {
    var instance := s.(menu := []);
    if !instance.isFirstInstance then instance
    else
      var setUp := match selected
        case Some(n) => instance.(isNewNote := false, folder := n.folder, pinned := n.pinned, labels := n.labels)
        case None => instance.(isNewNote := true);
      var shared := if action == ActionSend then setUp.(trace := setUp.trace + [ReceiveSharedNote]) else setUp;
      shared.(isFirstInstance := false)
  }

  /** onCreateOptionsMenu: builds the menu for the current folder and pin flag
      (nothing when the platform passes no menu). */
  function OnCreateOptionsMenu(s: Screen, present: bool): (r: Screen)
  {
    if present then s.(menu := MenuFor(s.folder, s.pinned)) else s
  }

  /** bindPinned applied to the menu: the pin item shows the look of `pinned`. */
  function BindPinned(menu: seq<Entry>, pinned: bool): (r: seq<Entry>)
    ensures |r| == |menu|
    ensures forall i | 0 <= i < |r| :: r[i].handler == menu[i].handler
    ensures forall i | 0 <= i < |r| :: r[i].look == if menu[i].handler == OnPin then PinLook(pinned) else menu[i].look
  {
    seq(|menu|, i requires 0 <= i < |menu| =>
      if menu[i].handler == OnPin then menu[i].(look := PinLook(pinned)) else menu[i])
  }

  /** pin: negates the pin flag, then rebinds the pin item. */
  function Pin(s: Screen): (r: Screen)
  {
    var pinned := !s.pinned;
    s.(pinned := pinned, menu := BindPinned(s.menu, pinned))
  }

  /** The share item: the share hook is called. */
  function Share(s: Screen): (r: Screen)
  {
    s.(trace := s.trace + [ShareNote])
  }

  /** label: the label catalog fetched from the note model is offered with the
      note's current labels; a choice replaces the labels and is bound to the chips. */
  function Label(s: Screen, catalog: seq<string>, chosen: Option<seq<string>>): (r: Screen)
    ensures r.trace == s.trace + [OfferLabels(catalog, s.labels)]
    ensures chosen.Some? ==> r.labels == chosen.value && r.labelChips == chosen.value
    ensures chosen.None? ==> r.labels == s.labels && r.labelChips == s.labelChips
    ensures r.(trace := s.trace, labels := s.labels, labelChips := s.labelChips) == s
  {
    var offered := s.(trace := s.trace + [OfferLabels(catalog, s.labels)]);
    match chosen
    case None => offered
    case Some(c) => offered.(labels := c, labelChips := c)
  }

  /** saveNote on the note model; with `thenLeave` its completion leaves the screen. */
  function RequestSave(s: Screen, thenLeave: bool): (r: Screen)
  {
    var t := s.nextTicket;
    s.(trace := s.trace + [SaveNote(t, thenLeave)],
       pending := if thenLeave then s.pending + {t} else s.pending,
       nextTicket := t + 1)
  }

  /** onBackPressed: requests a save and leaves only from that save's completion. */
  function OnBackPressed(s: Screen): (r: Screen)
  {
    RequestSave(s, true)
  }

  /** onSaveInstanceState: requests a save whose completion does nothing. */
  function OnSaveInstanceState(s: Screen): (r: Screen)
  {
    RequestSave(s, false)
  }

  /** onOptionsItemSelected: the toolbar's home item behaves like back. */
  function OnOptionsItemSelected(s: Screen, isHome: bool): (r: Screen)
  {
    if isHome then OnBackPressed(s) else s
  }

  /** delete, archive and restore: the folder operation, then the back path. */
  function Delete(s: Screen): (r: Screen)
  {
    OnBackPressed(s.(trace := s.trace + [MoveToDeleted]))
  }

  function Archive(s: Screen): (r: Screen)
  {
    OnBackPressed(s.(trace := s.trace + [MoveToArchive]))
  }

  function Restore(s: Screen): (r: Screen)
  {
    OnBackPressed(s.(trace := s.trace + [RestoreNote]))
  }

  /** deleteForever: once the dialog is confirmed, the permanent delete is
      requested and its completion leaves the screen directly, without a save. */
  function DeleteForever(s: Screen, confirmed: bool): (r: Screen)
    ensures !confirmed ==> r == s
  {
    if !confirmed then s
    else
      var t := s.nextTicket;
      s.(trace := s.trace + [DeleteNoteForever(t)], pending := s.pending + {t}, nextTicket := t + 1)
  }

  /** The note model completes request `t`: a pending callback leaves the
      screen once; any other completion runs no callback of the screen. */
  function Complete(s: Screen, t: nat): (r: Screen)
  {
    if t in s.pending then
      s.(pending := s.pending - {t}, exited := true, trace := s.trace + [Leave(t)])
    else s
  }

  function Step(s: Screen, e: Event): Screen
  {
    match e
    case Create(selected, action) => OnCreate(s, selected, action)
    case CreateOptionsMenu(present) => OnCreateOptionsMenu(s, present)
    case PinTapped => Pin(s)
    case ShareTapped => Share(s)
    case LabelsTapped(catalog, chosen) => Label(s, catalog, chosen)
    case DeleteTapped => Delete(s)
    case ArchiveTapped => Archive(s)
    case RestoreTapped => Restore(s)
    case DeleteForeverTapped(confirmed) => DeleteForever(s, confirmed)
    case OptionsItemSelected(isHome) => OnOptionsItemSelected(s, isHome)
    case BackPressed => OnBackPressed(s)
    case SaveInstanceState => OnSaveInstanceState(s)
    case Completed(t) => Complete(s, t)
  }

  /** The screen after the events `evs`, in order. */
  function Run(s: Screen, evs: seq<Event>): Screen
    decreases |evs|
  {
    if evs == [] then s else Run(Step(s, evs[0]), evs[1..])
  }

  /** The event a tap on a menu item bound to `h` delivers, given the answers
      of the dialog and the label picker that the handler may open. */
  function TapEvent(h: Handler, confirmed: bool, catalog: seq<string>, chosen: Option<seq<string>>): Event
  {
    match h
    case OnPin => PinTapped
    case OnShare => ShareTapped
    case OnLabel => LabelsTapped(catalog, chosen)
    case OnDelete => DeleteTapped
    case OnArchive => ArchiveTapped
    case OnRestore => RestoreTapped
    case OnDeleteForever => DeleteForeverTapped(confirmed)
  }
}
