/** The options menu of the note-editing screen: which commands it offers for
    the note's folder, and how the pin command looks for the note's pin flag.
    Menu resources (string and drawable ids) are represented by enumerations. */
module Menu {

  /** The folder a note currently sits in. */
  datatype Folder = Notes | Deleted | Archived

  /** Titles of the menu items. */
  datatype Title =
    | PinTitle | UnpinTitle | ShareTitle | LabelsTitle | DeleteTitle
    | ArchiveTitle | RestoreTitle | DeleteForeverTitle | UnarchiveTitle

  /** Icons of the menu items (Delete Forever reuses the delete icon). */
  datatype Icon =
    | PinIcon | UnpinIcon | ShareIcon | LabelIcon | DeleteIcon
    | ArchiveIcon | RestoreIcon | UnarchiveIcon

  datatype Look = Look(title: Title, icon: Icon)

  /** The screen's private handlers a menu item can be bound to. */
  datatype Handler = OnPin | OnShare | OnLabel | OnDelete | OnArchive | OnRestore | OnDeleteForever

  datatype Entry = Entry(look: Look, handler: Handler)

  /** How the pin item is shown: Unpin while the note is pinned, Pin otherwise. */
  function PinLook(pinned: bool): (r: Look)
    ensures r.title == UnpinTitle <==> pinned
    ensures r.icon == UnpinIcon <==> pinned
    ensures r.title == PinTitle <==> !pinned
    ensures r.icon == PinIcon <==> !pinned
  {
    if pinned then Look(UnpinTitle, UnpinIcon) else Look(PinTitle, PinIcon)
  }

  /** The commands that depend on the folder, in the order they are added. */
  function FolderEntries(folder: Folder): seq<Entry>
  {
    match folder
    case Notes =>
      [Entry(Look(DeleteTitle, DeleteIcon), OnDelete), Entry(Look(ArchiveTitle, ArchiveIcon), OnArchive)]
    case Deleted =>
      [Entry(Look(RestoreTitle, RestoreIcon), OnRestore), Entry(Look(DeleteForeverTitle, DeleteIcon), OnDeleteForever)]
    case Archived =>
      [Entry(Look(UnarchiveTitle, UnarchiveIcon), OnRestore)]
  }

  /** The whole options menu built for a note in `folder` whose pin flag is `pinned`. */
  function MenuFor(folder: Folder, pinned: bool): (r: seq<Entry>)
    ensures 4 <= |r| <= 5
    ensures r[0] == Entry(PinLook(pinned), OnPin)
    ensures r[1] == Entry(Look(ShareTitle, ShareIcon), OnShare)
    ensures r[2] == Entry(Look(LabelsTitle, LabelIcon), OnLabel)
  {
    [Entry(PinLook(pinned), OnPin),
     Entry(Look(ShareTitle, ShareIcon), OnShare),
     Entry(Look(LabelsTitle, LabelIcon), OnLabel)]
    + FolderEntries(folder)
  }

  /** Reference table of the commands available per folder: Pin, Share and
      Labels everywhere; Delete and Archive for active notes; Restore for
      deleted and archived notes; Delete Forever for deleted notes only. */
  predicate Offered(folder: Folder, h: Handler)
  {
    match h
    case OnPin => true
    case OnShare => true
    case OnLabel => true
    case OnDelete => folder == Notes
    case OnArchive => folder == Notes
    case OnRestore => folder != Notes
    case OnDeleteForever => folder == Deleted
  }

  predicate HasHandler(menu: seq<Entry>, h: Handler)
  {
    exists i | 0 <= i < |menu| :: menu[i].handler == h
  }

  /** The menu offers exactly the commands of the reference table, each once. */
  lemma MenuOffersExactly(folder: Folder, pinned: bool)
    ensures forall h :: HasHandler(MenuFor(folder, pinned), h) <==> Offered(folder, h)
    ensures forall i, j | 0 <= i < j < |MenuFor(folder, pinned)| ::
      MenuFor(folder, pinned)[i].handler != MenuFor(folder, pinned)[j].handler
  {
    var m := MenuFor(folder, pinned);
    forall h ensures HasHandler(m, h) <==> Offered(folder, h) {
      if Offered(folder, h) {
        match h
        case OnPin => assert m[0].handler == h;
        case OnShare => assert m[1].handler == h;
        case OnLabel => assert m[2].handler == h;
        case OnDelete => assert m[3].handler == h;
        case OnArchive => assert m[4].handler == h;
        case OnRestore => assert m[3].handler == h;
        case OnDeleteForever => assert m[4].handler == h;
      }
    }
  }

  /** Unarchive is shown only for archived notes, and is bound to the same
      restore handler as the Restore item of deleted notes. */
  lemma UnarchiveUsesRestore(folder: Folder, pinned: bool)
    ensures forall i | 0 <= i < |MenuFor(folder, pinned)| && MenuFor(folder, pinned)[i].look.title == UnarchiveTitle ::
      folder == Archived && i == 3 && MenuFor(folder, pinned)[i].handler == OnRestore
    ensures folder == Archived ==> MenuFor(folder, pinned)[3].look.title == UnarchiveTitle
    ensures folder == Deleted ==> MenuFor(folder, pinned)[3] == Entry(Look(RestoreTitle, RestoreIcon), OnRestore)
  {
  }
}
