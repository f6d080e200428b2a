/** The Schedule screen: the list built from the `habits` snapshot and the
    habit form with its add, edit, delete and reset paths. Writes to the
    `habits` collection either succeed or fail as a whole. */
module Schedule {
  import opened Common
  import opened Store

  /** A row of the habit list. */
  datatype HabitItem = HabitItem(
    key: string,
    name: string,
    startTime: string,
    endTime: string,
    createdAt: Option<int>)

  datatype SaveOutcome = NotLoggedIn | MissingFields | Saved | Failed

  /** The snapshot handler: one row per document, in snapshot order, the data
      spread first and the document id written over any stored `key`. */
  method CollectHabits(snapshot: seq<HabitSnapshot>) returns (habitsData: seq<HabitItem>)
    ensures |habitsData| == |snapshot|
    ensures forall i :: 0 <= i < |snapshot| ==> habitsData[i].key == snapshot[i].id
    ensures forall i :: 0 <= i < |snapshot| ==>
      && habitsData[i].name == snapshot[i].data.name
      && habitsData[i].startTime == snapshot[i].data.startTime
      && habitsData[i].endTime == snapshot[i].data.endTime
      && habitsData[i].createdAt == snapshot[i].data.createdAt
  {
    habitsData := [];
    for n := 0 to |snapshot|
      invariant |habitsData| == n
      invariant forall i :: 0 <= i < n ==>
        && habitsData[i].key == snapshot[i].id
        && habitsData[i].name == snapshot[i].data.name
        && habitsData[i].startTime == snapshot[i].data.startTime
        && habitsData[i].endTime == snapshot[i].data.endTime
        && habitsData[i].createdAt == snapshot[i].data.createdAt
    {
      var doc := snapshot[n];
      var data := doc.data;
      habitsData := habitsData + [HabitItem(doc.id, data.name, data.startTime, data.endTime, data.createdAt)];
    }
  }

  /** The field check of `handleSaveHabit`: name, start and end must each
      be non-blank after trimming. */
  function HabitFieldsComplete(name: string, startTime: string, endTime: string): (ok: bool)
    ensures ok <==> HasVisibleChar(name) && HasVisibleChar(startTime) && HasVisibleChar(endTime)
  {
    !(IsBlank(name) || IsBlank(startTime) || IsBlank(endTime))
  }

  /** The habit form's state. */
  class HabitForm {
    var habitName: string
    var startTime: string
    var endTime: string
    var editingId: Option<string>

    constructor ()
      ensures habitName == "" && startTime == "" && endTime == "" && editingId == None
    {
      habitName, startTime, endTime, editingId := "", "", "", None;
    }

    /** `resetForm`: empties the three fields and leaves edit mode. */
    method ResetForm()
      modifies this
      ensures habitName == "" && startTime == "" && endTime == "" && editingId == None
    {
      habitName := "";
      startTime := "";
      endTime := "";
      editingId := None;
    }

    /** `handleEditPress`: loads a row into the form and enters edit mode for it. */
    method EditPress(item: HabitItem)
      modifies this
      ensures habitName == item.name && startTime == item.startTime && endTime == item.endTime
      ensures editingId == Some(item.key)
    {
      habitName := item.name;
      startTime := item.startTime;
      endTime := item.endTime;
      editingId := Some(item.key);
    }

    /** `handleDeletePress` once the user confirms: the delete is issued
        without waiting for it (`deleteOk` says whether it lands), and the
        form is reset exactly when it was editing the deleted habit. */
    method DeletePress(id: string, store: HabitCollection, confirmed: bool, deleteOk: bool)
      modifies this, store
      ensures store.docs == if confirmed && deleteOk then old(store.docs) - {id} else old(store.docs)
      ensures confirmed && old(editingId) == Some(id) ==>
        habitName == "" && startTime == "" && endTime == "" && editingId == None
      ensures !confirmed || old(editingId) != Some(id) ==>
        && habitName == old(habitName) && startTime == old(startTime)
        && endTime == old(endTime) && editingId == old(editingId)
    {
      if !confirmed {
        return;
      }
      if deleteOk {
        store.docs := store.docs - {id};
      }
      if editingId == Some(id) {
        ResetForm();
      }
    }

    /** The write of `handleSaveHabit`: a merging update of the habit being
        edited, or an add under `newId` stamped `now`. The form is only read. */
    method WriteHabit(store: HabitCollection, newId: string, now: int, writeOk: bool)
      returns (written: bool)
      requires newId !in store.docs
      modifies store
      ensures written <==> writeOk && (Truthy(editingId) ==> editingId.value in old(store.docs))
      ensures !written ==> store.docs == old(store.docs)
      ensures written && Truthy(editingId) ==>
        store.docs == old(store.docs)[editingId.value :=
          MergeHabitFields(old(store.docs)[editingId.value], habitName, startTime, endTime)]
      ensures written && !Truthy(editingId) ==>
        store.docs == old(store.docs)[newId := HabitDoc(habitName, startTime, endTime, Some(now), None)]
    {
      if Truthy(editingId) {
        var id := editingId.value;
        if !writeOk || id !in store.docs {
          return false;
        }
        store.docs := store.docs[id := MergeHabitFields(store.docs[id], habitName, startTime, endTime)];
      } else {
        if !writeOk {
          return false;
        }
        store.docs := store.docs[newId := HabitDoc(habitName, startTime, endTime, Some(now), None)];
      }
      written := true;
    }

    /** `handleSaveHabit`: refuses without a signed-in user or with a blank
        field; otherwise updates the name and times of the habit being
        edited (keeping its other fields) or adds a new habit under `newId`
        stamped `now`. Only a successful write resets the form. An update of
        a habit that no longer exists fails. */
    method SaveHabit(userId: Option<string>, store: HabitCollection, newId: string, now: int, writeOk: bool)
      returns (outcome: SaveOutcome)
      requires newId !in store.docs
      modifies this, store
      ensures outcome == NotLoggedIn <==> !Truthy(userId)
      ensures outcome == MissingFields <==>
        Truthy(userId) && !HabitFieldsComplete(old(habitName), old(startTime), old(endTime))
      ensures outcome == Failed <==>
        && Truthy(userId) && HabitFieldsComplete(old(habitName), old(startTime), old(endTime))
        && (!writeOk || (Truthy(old(editingId)) && old(editingId).value !in old(store.docs)))
      ensures outcome != Saved ==>
        && store.docs == old(store.docs)
        && habitName == old(habitName) && startTime == old(startTime)
        && endTime == old(endTime) && editingId == old(editingId)
      ensures outcome == Saved ==>
        habitName == "" && startTime == "" && endTime == "" && editingId == None
      ensures outcome == Saved && Truthy(old(editingId)) ==>
        var id := old(editingId).value;
        store.docs == old(store.docs)[id := MergeHabitFields(old(store.docs)[id], old(habitName), old(startTime), old(endTime))]
      ensures outcome == Saved && !Truthy(old(editingId)) ==>
        store.docs == old(store.docs)[newId :=
          HabitDoc(old(habitName), old(startTime), old(endTime), Some(now), None)]
    {
      if !Truthy(userId) {
        return NotLoggedIn;
      }
      if !HabitFieldsComplete(habitName, startTime, endTime) {
        return MissingFields;
      }
      var written := WriteHabit(store, newId, now, writeOk);
      if !written {
        return Failed;
      }
      ResetForm();
      outcome := Saved;
    }
  }
}
