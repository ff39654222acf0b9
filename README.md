# Notally note screen: command dispatch and lifecycle

This project models the controller of Notally's note-editing screen
(`NotallyActivity`): the options menu it builds for the note's folder, the pin
toggle and how the pin item is drawn, the one-time set-up on `onCreate`, the
order in which back, the instance-state snapshot, Delete, Archive, Restore and
Delete Forever call into the note model and leave the screen, and the label
callback.

The note model (`NotallyModel`) is an opaque collaborator. Its operations
(`saveNote`, `moveBaseNoteToDeleted`, `moveBaseNoteToArchive`,
`restoreBaseNote`, `deleteBaseNoteForever`) and the hooks `receiveSharedNote`,
`shareNote` and `labelNote` are recorded as calls, in order, in a trace of
`Effect`s, and are given no semantics. The label catalog that
`getAllLabelsAsList` fetches is not a call of the trace: it is an input of the
label event, and appears in the trace only as the catalog passed to
`labelNote` (`OfferLabels`). A
folder operation does not change the folder field. `saveNote` and
`deleteBaseNoteForever` take a completion callback. Each such request gets a
ticket; a request whose callback leaves the screen (`super.onBackPressed()`)
stays pending until the event `Completed(t)` delivers its completion, which
records `Leave(t)` and marks the screen exited.

Files:

- `menu.dfy` (module `Menu`): the folder-to-commands table of
  `onCreateOptionsMenu` and the pin look of `bindPinned`, with a reference
  table of the commands each folder offers.
- `controller.dfy` (module `Controller`): the screen's state as a datatype, one
  function per handler, `Step` and `Run` over sequences of events.
- `properties.dfy` (module `ScreenProperties`): the invariant every reachable
  screen keeps and the lemmas about orderings and counts of calls.
- `activity.dfy` (module `Activity`): class `NotallyActivity`, whose methods
  update its fields in place and are proved to agree with the functions of
  `Controller` and to keep the invariant.

Inputs from the platform are parameters: the selected note and the intent
action of `onCreate`, whether a menu object was passed, whether the selected
options item is the toolbar's home item, the answer of the Delete Forever
dialog, the label catalog and the labels picked in the label picker, and the
moment the note model completes a request.

## Model

| member | source | states |
|---|---|---|
| Menu.PinLook | app/src/main/java/com/omgodse/notally/activities/NotallyActivity.kt:157-169 | the pin item shows the Unpin title and icon exactly when the note is pinned, and the Pin title and icon exactly when it is not |
| Menu.MenuFor | app/src/main/java/com/omgodse/notally/activities/NotallyActivity.kt:64-70 | whatever the folder, the menu has four or five items and starts with Pin (drawn for the current pin flag), Share and Labels, in that order |
| Menu.MenuOffersExactly | app/src/main/java/com/omgodse/notally/activities/NotallyActivity.kt:72-84 | the menu's handlers are exactly those of the reference table (Delete and Archive for active notes, Restore and Delete Forever for deleted notes, Restore for archived notes), each once |
| Menu.UnarchiveUsesRestore | app/src/main/java/com/omgodse/notally/activities/NotallyActivity.kt:77-83 | Unarchive appears only for archived notes, as the fourth item, bound to the same restore handler as the Restore item of deleted notes |
| Controller.OnCreate | app/src/main/java/com/omgodse/notally/activities/NotallyActivity.kt:48-60 | set-up runs only while the first-instance flag is set and always clears it; the new-note flag is set exactly when no note was selected; a selected note's folder, pin flag and labels are loaded; receiveSharedNote is called only for a share intent; a later onCreate leaves the note state, the flags and the trace unchanged |
| Controller.BindPinned | app/src/main/java/com/omgodse/notally/activities/NotallyActivity.kt:157-169 | rebinding changes only the look of the pin item, which becomes the look of the given pin flag |
| Controller.Label | app/src/main/java/com/omgodse/notally/activities/NotallyActivity.kt:114-122 | the catalog is offered with the note's current labels; a chosen list replaces the note's labels and is the list bound to the chips; nothing else changes |
| Controller.DeleteForever | app/src/main/java/com/omgodse/notally/activities/NotallyActivity.kt:139-149 | a cancelled Delete Forever changes nothing |
| ScreenProperties.StepPreservesValid | app/src/main/java/com/omgodse/notally/activities/NotallyActivity.kt:32-154 | every handler keeps the invariant: tickets fresh and distinct, every leave answers an earlier request with a leaving callback and happens once, folder operations are followed at once by a leaving save, pending callbacks have not run, exited exactly when a leave happened, the pin item matches the pin flag |
| ScreenProperties.RunPreservesValid | app/src/main/java/com/omgodse/notally/activities/NotallyActivity.kt:32-154 | the invariant holds after any sequence of events from a screen that satisfies it |
| ScreenProperties.ReachableValid | app/src/main/java/com/omgodse/notally/activities/NotallyActivity.kt:32-154 | every screen reached from a fresh one by any events satisfies the invariant |
| ScreenProperties.LeavingFollowsRequests | app/src/main/java/com/omgodse/notally/activities/NotallyActivity.kt:32-145 | the screen leaves only in the completion of an earlier request whose callback leaves, at most once per request; a snapshot save is never answered by leaving; the exited flag holds exactly when a leave occurred |
| ScreenProperties.FolderOpLeavesAfterSave | app/src/main/java/com/omgodse/notally/activities/NotallyActivity.kt:32-137 | a folder operation is followed at once by a leaving save, and any leave on that save comes after it |
| ScreenProperties.BackLeavesOnlyInSaveCompletion | app/src/main/java/com/omgodse/notally/activities/NotallyActivity.kt:32-34 | back requests one save and does not leave; completing that save leaves the screen, and completing it again changes nothing |
| ScreenProperties.HomeIsBack | app/src/main/java/com/omgodse/notally/activities/NotallyActivity.kt:89-94 | the toolbar's home item takes exactly the back path; any other item changes nothing here |
| ScreenProperties.SnapshotSavesWithoutLeaving | app/src/main/java/com/omgodse/notally/activities/NotallyActivity.kt:36-39 | the instance-state snapshot requests one save, does not leave, and the completion of that save does not leave either |
| ScreenProperties.FolderCommandSavesThenLeaves | app/src/main/java/com/omgodse/notally/activities/NotallyActivity.kt:124-137 | Delete, Archive and Restore call their folder operation strictly before a save, do not leave at once, and leave in that save's completion |
| ScreenProperties.UnarchiveTapRestores | app/src/main/java/com/omgodse/notally/activities/NotallyActivity.kt:81-83 | tapping Unarchive delivers the same event, and reaches the same screen, as tapping Restore |
| ScreenProperties.DeleteForeverLeavesWithoutSave | app/src/main/java/com/omgodse/notally/activities/NotallyActivity.kt:139-149 | a confirmed Delete Forever calls the permanent delete and then leaves in its completion, with no save request in between; a cancelled one changes nothing |
| ScreenProperties.SaveAfterDeleteForever | app/src/main/java/com/omgodse/notally/activities/NotallyActivity.kt:32-39 | back or the instance-state snapshot arriving between a confirmed Delete Forever and its completion still request one save each, and back does not leave by itself |
| ScreenProperties.StepEmits | app/src/main/java/com/omgodse/notally/activities/NotallyActivity.kt:32-154 | every event only appends to the trace of calls, and appends exactly the calls of the per-event table Emitted |
| ScreenProperties.StepSaves | app/src/main/java/com/omgodse/notally/activities/NotallyActivity.kt:32-149 | an event adds one save request if it is back, home, a snapshot, Delete, Archive or Restore, and none otherwise |
| ScreenProperties.RunSaves | app/src/main/java/com/omgodse/notally/activities/NotallyActivity.kt:124-149 | over any sequence of events, the saves requested are exactly one per back, home, snapshot, Delete, Archive and Restore: Delete Forever and completions never save |
| ScreenProperties.RunReceptions | app/src/main/java/com/omgodse/notally/activities/NotallyActivity.kt:48-60 | over any events, receiveSharedNote is called once if the screen was not set up and its first onCreate comes from a share intent, otherwise never; the first-instance flag is cleared exactly when an onCreate happened |
| ScreenProperties.ReceiveSharedAtMostOnce | app/src/main/java/com/omgodse/notally/activities/NotallyActivity.kt:55-57 | from a fresh screen, receiveSharedNote is called at most once, and exactly when the first onCreate comes from a share intent |
| ScreenProperties.SetUpIsFinal | app/src/main/java/com/omgodse/notally/activities/NotallyActivity.kt:48-60 | once set up, no later event sets the screen up again or changes its new-note flag |
| ScreenProperties.PinTwiceRestores | app/src/main/java/com/omgodse/notally/activities/NotallyActivity.kt:151-154 | pin negates the pin flag, the pin item then matches it, and pinning twice gives back the original screen |
| Activity.NotallyActivity.OnCreate | app/src/main/java/com/omgodse/notally/activities/NotallyActivity.kt:42-61 | the in-place set-up reaches the state of Controller.OnCreate and keeps the invariant |
| Activity.NotallyActivity.OnCreateOptionsMenu | app/src/main/java/com/omgodse/notally/activities/NotallyActivity.kt:64-87 | builds the menu of Menu.MenuFor for the current folder and pin flag, when a menu is passed |
| Activity.NotallyActivity.Pin | app/src/main/java/com/omgodse/notally/activities/NotallyActivity.kt:151-154 | negates the pin flag in place and rebinds the pin item, keeping the invariant |
| Activity.NotallyActivity.Share | app/src/main/java/com/omgodse/notally/activities/NotallyActivity.kt:69 | calls the share hook |
| Activity.NotallyActivity.Label | app/src/main/java/com/omgodse/notally/activities/NotallyActivity.kt:114-122 | a chosen list becomes both the note's labels and the chips' labels; without a choice both stay |
| Activity.NotallyActivity.RequestSave | app/src/main/java/com/omgodse/notally/activities/NotallyActivity.kt:33 | records a save request with a fresh ticket, pending exactly when its callback leaves, and keeps the invariant whenever it held before |
| Activity.NotallyActivity.OnBackPressed | app/src/main/java/com/omgodse/notally/activities/NotallyActivity.kt:32-34 | requests a leaving save and does not leave |
| Activity.NotallyActivity.OnSaveInstanceState | app/src/main/java/com/omgodse/notally/activities/NotallyActivity.kt:36-39 | requests a save without callback and does not leave |
| Activity.NotallyActivity.OnOptionsItemSelected | app/src/main/java/com/omgodse/notally/activities/NotallyActivity.kt:89-94 | the home item runs the back path |
| Activity.NotallyActivity.Delete | app/src/main/java/com/omgodse/notally/activities/NotallyActivity.kt:124-127 | moves to deleted, then takes the back path |
| Activity.NotallyActivity.Archive | app/src/main/java/com/omgodse/notally/activities/NotallyActivity.kt:134-137 | moves to the archive, then takes the back path |
| Activity.NotallyActivity.Restore | app/src/main/java/com/omgodse/notally/activities/NotallyActivity.kt:129-132 | restores, then takes the back path |
| Activity.NotallyActivity.DeleteForever | app/src/main/java/com/omgodse/notally/activities/NotallyActivity.kt:139-149 | on confirmation requests the permanent delete with a leaving callback; otherwise changes nothing |
| Activity.NotallyActivity.Complete | app/src/main/java/com/omgodse/notally/activities/NotallyActivity.kt:143-145 | the completion of a pending request leaves the screen once; any other completion changes nothing |

## Left out

- The note model's operations are opaque: what `saveNote` writes, how the folder operations change the note, what `deleteBaseNoteForever` removes, and whether any of them fails are not modelled, so the folder field changes only when a selected note is loaded.
- `setStateFromBaseNote` is not part of this model; loading a selected note is modelled as taking its folder, pin flag and labels, and the note's other fields are not modelled.
- The default values of a fresh note model are not part of this model; its folder, pin flag and labels are the parameter `defaults` of `Initial` and of the constructor. The new-note flag of a fresh screen is fixed to false: every handler other than `onCreate` leaves it alone and nothing reads it, and the first `onCreate` sets it (`Controller.OnCreate`, `ScreenProperties.SetUpIsFinal`).
- Completion callbacks: the model assumes the note model delivers each request's completion at most once; a completion for an unknown ticket, or delivered again, runs no callback.
- `onCreate` is modelled on the same state for a re-created screen, with the options menu cleared because a new screen instance has none until `onCreateOptionsMenu`. Callbacks registered by an earlier instance are treated as the current screen's.
- The label chips are the labels this class last bound through `getLabelGroup().bindLabels`. They are kept on re-creation because binding the chips of a new instance from the note's labels is done by the concrete screens, which are not part of this model.
- `setContentView`, view binding, `isSaveFromParentEnabled`, `setupToolbar`, `accessContext` and `insertLabel` are platform plumbing or plain delegations with nothing to state.
- The super calls `super.onCreate`, `super.onSaveInstanceState` (which runs before `saveNote` is requested), `super.onCreateOptionsMenu` and `super.onOptionsItemSelected`, and their return values, belong to the platform and are not modelled; the platform's saved-state bundle is not part of the model, so the order of `super.onSaveInstanceState` and `saveNote` has no effect on it.
- Menu string and drawable resources are represented by enumerations, not resource ids.
- The coroutine of `label()` (the fetch on the IO dispatcher, cancellation with the screen's scope) is collapsed into one event that carries the fetched catalog and the picker's answer; a fetch cancelled by the screen's teardown is not modelled.
- The dialog of Delete Forever is its answer, a boolean of the event.
- `shareNote`, `receiveSharedNote` and `labelNote` are hooks implemented elsewhere; they are recorded as calls only.
- Events delivered after the screen has left are handled like any other, as the code has no guard against them.
- DeleteForeverLeavesWithoutSave: "no save" is promised only when the delete's completion comes next. The code has no guard between a confirmed Delete Forever and its completion, so back, home or the snapshot arriving in between still request a save (`ScreenProperties.SaveAfterDeleteForever`); this is an observation about the code as written, not executed.
