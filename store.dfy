/** The remote document store the screens read and write, abstracted to the
    documents of one signed-in user. Collections are maps from document id to
    document; the daily status collection is keyed by a day index instead of
    a date string. Server timestamps are plain integers supplied by the caller. */
module Store {
  import opened Common

  type HabitId = string

  /** A `daily_status` document. Either field may be missing. */
  datatype StatusDoc = StatusDoc(completed: Option<seq<HabitId>>, updatedAt: Option<int>)

  /** A `habits` document. `storedKey` is a `key` field a document might carry
      in its data; the app never writes one. */
  datatype HabitDoc = HabitDoc(
    name: string,
    startTime: string,
    endTime: string,
    createdAt: Option<int>,
    storedKey: Option<string>)

  /** A `notes` document. */
  datatype NoteDoc = NoteDoc(title: string, content: string, updatedAt: Option<int>)

  /** One document of a query snapshot: its id and its data. */
  datatype HabitSnapshot = HabitSnapshot(id: string, data: HabitDoc)

  /** The completed list of a status document; a missing document or field reads as []. */
  function CompletedOf(doc: Option<StatusDoc>): (ids: seq<HabitId>)
    ensures doc.None? || doc.value.completed.None? ==> ids == []
    ensures doc.Some? && doc.value.completed.Some? ==> ids == doc.value.completed.value
  {
    if doc.Some? && doc.value.completed.Some? then doc.value.completed.value else []
  }

  predicate NoDuplicates(s: seq<HabitId>)
  {
    forall i, j :: 0 <= i < j < |s| ==> s[i] != s[j]
  }

  /** Firestore's `arrayUnion(x)`: appends `x` unless it is already present. */
  function ArrayUnion(s: seq<HabitId>, x: HabitId): (r: seq<HabitId>)
    ensures x in r
    ensures forall y :: y in r <==> y in s || y == x
    ensures x in s ==> r == s
    ensures x !in s ==> |r| == |s| + 1 && r[..|s|] == s && r[|s|] == x
    ensures NoDuplicates(s) ==> NoDuplicates(r)
  {
    if x in s then s else s + [x]
  }

  /** Firestore's `arrayRemove(x)`: drops every occurrence of `x`, keeping the
      order of the other elements. */
  function ArrayRemove(s: seq<HabitId>, x: HabitId): (r: seq<HabitId>)
    ensures x !in r
    ensures forall y :: y in r <==> y in s && y != x
    ensures multiset(r) == multiset(s)[x := 0]
    ensures IsSubsequence(r, s)
    ensures |r| <= |s|
    ensures x !in s ==> r == s
    ensures NoDuplicates(s) ==> NoDuplicates(r)
  {
    if s == [] then []
    else if s[0] == x then
      assert s == [s[0]] + s[1..];
      ArrayRemove(s[1..], x)
    else
      var rest := ArrayRemove(s[1..], x);
      assert NoDuplicates(s) ==> s[0] !in s[1..] && NoDuplicates(s[1..]) by {
        if NoDuplicates(s) {
          forall i, j | 0 <= i < j < |s[1..]| ensures s[1..][i] != s[1..][j] {
            assert s[1..][i] == s[i + 1] && s[1..][j] == s[j + 1];
          }
        }
      }
      assert s == [s[0]] + s[1..];
      [s[0]] + rest
  }

  /** The `daily_status` collection: day index to status document. */
  class StatusStore {
    var days: map<int, StatusDoc>

    constructor (days: map<int, StatusDoc>)
      ensures this.days == days
    {
      this.days := days;
    }

    /** A point read of one day's document. */
    function Read(day: int): (doc: Option<StatusDoc>)
      reads this
      ensures doc.Some? <==> day in days
      ensures doc.Some? ==> doc.value == days[day]
    {
      if day in days then Some(days[day]) else None
    }
  }

  /** A merging `update` of a habit document with a new name and times:
      the three fields are replaced and every other field is kept. */
  function MergeHabitFields(doc: HabitDoc, name: string, startTime: string, endTime: string): (merged: HabitDoc)
    ensures merged.name == name && merged.startTime == startTime && merged.endTime == endTime
    ensures merged.createdAt == doc.createdAt && merged.storedKey == doc.storedKey
  {
    doc.(name := name, startTime := startTime, endTime := endTime)
  }

  /** The `habits` collection: document id to habit document. */
  class HabitCollection {
    var docs: map<string, HabitDoc>

    constructor (docs: map<string, HabitDoc>)
      ensures this.docs == docs
    {
      this.docs := docs;
    }
  }

  /** The `notes` collection: document id to note document. */
  class NoteCollection {
    var docs: map<string, NoteDoc>

    constructor (docs: map<string, NoteDoc>)
      ensures this.docs == docs
    {
      this.docs := docs;
    }
  }
}
