/** The Notes screen: the search filter over the loaded notes, the title
    shown for a note, and the editor form with its save path. Writes to the
    `notes` collection either succeed or fail as a whole (`writeOk`). */
module Notes {
  import opened Common
  import opened Store

  /** A loaded note: the document id and its data. */
  datatype Note = Note(id: string, title: string, content: string, updatedAt: Option<int>)

  datatype SaveOutcome = Skipped | Saved | Failed

  // ---------------------------------------------------------------------------
  // Search

  /** The search text, lower-cased, occurs in the lower-cased title or content. */
  predicate Matches(note: Note, search: string)
  {
    var q := ToLower(search);
    Includes(ToLower(note.title), q) || Includes(ToLower(note.content), q)
  }

  /** The callback given to `filter`. */
  function Matcher(search: string): Note -> bool
  {
    note => Matches(note, search)
  }

  /** `filteredNotes`: the notes that match the search, in their original
      order; no matching note is dropped and no other note is kept. */
  function FilteredNotes(notes: seq<Note>, search: string): (kept: seq<Note>)
    ensures IsSubsequence(kept, notes)
    ensures forall i :: 0 <= i < |kept| ==> Matches(kept[i], search)
    // a consequence of the multiset clause below, stated for callers that index `notes`
    ensures forall i :: 0 <= i < |notes| && Matches(notes[i], search) ==> notes[i] in kept
    ensures forall m :: multiset(kept)[m] == if Matches(m, search) then multiset(notes)[m] else 0
    ensures |kept| <= |notes|
  {
    var kept := Filter(notes, Matcher(search));
    assert forall i :: 0 <= i < |notes| && Matches(notes[i], search) ==> multiset(kept)[notes[i]] > 0;
    kept
  }

  /** An empty search keeps every note. */
  lemma EmptySearchKeepsAll(notes: seq<Note>)
    ensures FilteredNotes(notes, "") == notes
  {
    forall i | 0 <= i < |notes| ensures Matcher("")(notes[i]) {
      assert OccursAt(ToLower(notes[i].title), "", 0);
    }
    FilterKeepsAll(notes, Matcher(""));
  }

  /** Filtering an already filtered list with the same search changes nothing. */
  lemma FilterIdempotent(notes: seq<Note>, search: string)
    ensures FilteredNotes(FilteredNotes(notes, search), search) == FilteredNotes(notes, search)
  {
    FilterTwice(notes, Matcher(search));
  }

  /** The title shown on a note card: the title, or "Untitled Note" when it is empty. */
  function DisplayTitle(note: Note): (shown: string)
    ensures shown != ""
    ensures note.title != "" ==> shown == note.title
    ensures note.title == "" ==> shown == "Untitled Note"
  {
    if note.title != "" then note.title else "Untitled Note"
  }

  /** The guard of `handleSaveNote`: saving proceeds unless both the title
      and the body are blank after trimming. */
  function CanSaveNote(title: string, body: string): (ok: bool)
    ensures ok <==> HasVisibleChar(title) || HasVisibleChar(body)
  {
    !(IsBlank(title) && IsBlank(body))
  }

  // ---------------------------------------------------------------------------
  // Editor

  /** The editor's form state. */
  class NotesEditor {
    var noteTitle: string
    var noteBody: string
    var editingId: Option<string>
    var isInputVisible: bool

    constructor ()
      ensures noteTitle == "" && noteBody == "" && editingId == None && !isInputVisible
    {
      noteTitle, noteBody, editingId, isInputVisible := "", "", None, false;
    }

    /** The "+" button shows the editor; the form keeps what it holds. */
    method ShowInput()
      modifies this
      ensures isInputVisible
      ensures noteTitle == old(noteTitle) && noteBody == old(noteBody) && editingId == old(editingId)
    {
      isInputVisible := true;
    }

    /** `resetForm`: empties the form, leaves edit mode and hides the editor. */
    method ResetForm()
      modifies this
      ensures noteTitle == "" && noteBody == "" && editingId == None && !isInputVisible
    {
      noteTitle := "";
      noteBody := "";
      editingId := None;
      isInputVisible := false;
    }

    /** `startEditing`: loads a note into the form and shows the editor. */
    method StartEditing(note: Note)
      modifies this
      ensures noteTitle == note.title && noteBody == note.content
      ensures editingId == Some(note.id) && isInputVisible
    {
      noteTitle := note.title;
      noteBody := note.content;
      editingId := Some(note.id);
      isInputVisible := true;
    }

    /** `handleSaveNote`: nothing happens when title and body are both blank;
        otherwise the note being edited is updated, or a new note is added
        under `newId`, stamped `now`. Only a successful write resets the
        form. An update of a note that no longer exists fails. */
    method SaveNote(store: NoteCollection, newId: string, now: int, writeOk: bool)
      returns (outcome: SaveOutcome)
      requires newId !in store.docs
      modifies this, store
      ensures outcome == Skipped <==> !CanSaveNote(old(noteTitle), old(noteBody))
      ensures outcome == Failed <==>
        && CanSaveNote(old(noteTitle), old(noteBody))
        && (!writeOk || (Truthy(old(editingId)) && old(editingId).value !in old(store.docs)))
      ensures outcome != Saved ==>
        && store.docs == old(store.docs)
        && noteTitle == old(noteTitle) && noteBody == old(noteBody)
        && editingId == old(editingId) && isInputVisible == old(isInputVisible)
      ensures outcome == Saved ==>
        noteTitle == "" && noteBody == "" && editingId == None && !isInputVisible
      ensures outcome == Saved && Truthy(old(editingId)) ==>
        store.docs == old(store.docs)[old(editingId).value := NoteDoc(old(noteTitle), old(noteBody), Some(now))]
      ensures outcome == Saved && !Truthy(old(editingId)) ==>
        store.docs == old(store.docs)[newId := NoteDoc(old(noteTitle), old(noteBody), Some(now))]
    {
      if !CanSaveNote(noteTitle, noteBody) {
        return Skipped;
      }
      var noteData := NoteDoc(noteTitle, noteBody, Some(now));
      if Truthy(editingId) {
        if !writeOk || editingId.value !in store.docs {
          return Failed;
        }
        store.docs := store.docs[editingId.value := noteData];
      } else {
        if !writeOk {
          return Failed;
        }
        store.docs := store.docs[newId := noteData];
      }
      ResetForm();
      outcome := Saved;
    }
  }

  /** `deleteNote` once the user confirms: the delete is issued without
      waiting for it (`deleteOk` says whether it lands); the form is not touched. */
  method DeleteNote(id: string, store: NoteCollection, confirmed: bool, deleteOk: bool)
    modifies store
    ensures store.docs == if confirmed && deleteOk then old(store.docs) - {id} else old(store.docs)
  {
    if confirmed && deleteOk {
      store.docs := store.docs - {id};
    }
  }
}
