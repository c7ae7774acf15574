/**
 * The application state of the notes page and the handlers that change it:
 * start-up seeding, save, the two single deletes, selection, select-all and
 * bulk delete, and opening a note in the editor.
 */
module Store {
  import opened Wrappers
  import opened Collections
  import opened Text
  import opened Notes

  /** How a delete request ended: refused for a protected note, not carried out, or carried out. */
  datatype DeleteOutcome = Refused | Declined | Applied

  /**
   * The record Save builds. Its id is the open note's id when that is truthy
   * and otherwise the current time; it is protected and view-only exactly
   * when the open id is the welcome note's.
   */
  function Composed(current: Option<NoteId>, form: Form, now: int, date: string): (n: Note)
    ensures n.id == WelcomeId <==> current == Some(WelcomeId)
    ensures n.protected <==> n.id == WelcomeId
    ensures n.viewOnly == n.protected
    ensures IsOpen(current) ==> n.id == current.value
    ensures !IsOpen(current) ==> n.id == Stamp(now)
    ensures n.title == Trim(form.title) && (n.title == [] <==> AllWhiteSpace(form.title))
    ensures n.content == form.content && n.date == date
  {
    var welcome := current == Some(WelcomeId);
    Note(if IsOpen(current) then current.value else Stamp(now),
         Trim(form.title), form.content, date,
         form.fontStyle, form.fontSize, form.sheetStyle, welcome, welcome)
  }

  class NoteStore {
    /** The note list, newest first. */
    var notes: seq<Note>
    /** The ids ticked for bulk delete. */
    var selected: set<NoteId>
    /** The id of the note open in the editor; None while a new note is composed. */
    var current: Option<NoteId>
    /** The last snapshot written to local storage. */
    var stored: seq<Note>

    /** The invariant the handlers keep (see Notes.WellFormed). */
    ghost predicate Valid()
      reads this
    {
      WellFormed(notes) && SelectionExcludesProtected(notes, selected)
    }

    /**
     * Start-up: the list read from storage, with the welcome note put in
     * front when no note carries its id. Storage is rewritten on a first run
     * or when the welcome note had to be added.
     */
    constructor Start(loaded: seq<Note>, firstLoad: bool)
      ensures !HasId(loaded, WelcomeId) ==> notes == [WelcomeNote] + loaded
      ensures HasId(loaded, WelcomeId) ==> notes == loaded
      ensures stored == if firstLoad || !HasId(loaded, WelcomeId) then notes else loaded
      ensures selected == {} && current == None
      ensures HasId(notes, WelcomeId)
      ensures UniqueIds(loaded) && FlagsDerived(loaded) ==> Valid()
    {
      var list := loaded;
      var snapshot := loaded;
      if firstLoad || !HasId(list, WelcomeId) {
        if !HasId(list, WelcomeId) {
          list := [WelcomeNote] + list;
          assert list[0].id == WelcomeId;
          assert list[1..] == loaded;
        }
        snapshot := list;
      }
      notes := list;
      stored := snapshot;
      selected := {};
      current := None;
    }

    /** The add button: the editor opens on a new, unsaved note. */
    method OpenForCreate()
      modifies this
      ensures current == None
      ensures notes == old(notes) && selected == old(selected) && stored == old(stored)
      ensures old(Valid()) ==> Valid()
    {
      current := None;
    }

    /**
     * Opening a note in the editor. The open id is set first, also for a
     * view-only note, which is then shown read-only instead (`readOnly`).
     */
    method EditNote(note: Note) returns (readOnly: bool)
      modifies this
      ensures current == Some(note.id)
      ensures readOnly == note.viewOnly
      ensures notes == old(notes) && selected == old(selected) && stored == old(stored)
      ensures old(Valid()) ==> Valid()
    {
      current := Some(note.id);
      readOnly := note.viewOnly;
    }

    /**
     * A click on a note card: a view-only note is shown read-only without
     * touching the open id; any other note is opened with EditNote.
     */
    method ClickNote(note: Note) returns (readOnly: bool)
      modifies this
      ensures readOnly == note.viewOnly
      ensures current == if note.viewOnly then old(current) else Some(note.id)
      ensures notes == old(notes) && selected == old(selected) && stored == old(stored)
      ensures old(Valid()) ==> Valid()
    {
      if note.viewOnly {
        readOnly := true;
      } else {
        readOnly := EditNote(note);
      }
    }

    /**
     * The save button. An all-blank title or an empty content is rejected and
     * nothing changes. Otherwise, with no truthy open id the composed note is
     * put in front; with one, it replaces the first note carrying that id, and
     * if there is none the list stays as it was. Storage is rewritten either way.
     */
    method Save(form: Form, now: int, date: string) returns (saved: bool)
      modifies this
      ensures saved <==> Trim(form.title) != [] && form.content != []
      ensures !saved ==> notes == old(notes) && stored == old(stored)
      ensures saved && !IsOpen(old(current)) ==>
        && |notes| == |old(notes)| + 1
        && notes[0] == Composed(old(current), form, now, date)
        && notes[0].id == Stamp(now) && notes[0].title == Trim(form.title)
        && !notes[0].protected && !notes[0].viewOnly
        && notes[1..] == old(notes)
      ensures saved && IsOpen(old(current)) ==>
        var i := FindIndex(old(notes), old(current).value);
        && |notes| == |old(notes)|
        && (i == -1 ==> notes == old(notes))
        && (i != -1 ==> notes == old(notes)[i := Composed(old(current), form, now, date)])
        && (i != -1 ==> notes[i].protected == notes[i].viewOnly == (old(current) == Some(WelcomeId)))
      ensures saved ==> stored == notes
      ensures selected == old(selected) && current == old(current)
      ensures old(Valid()) && (IsOpen(old(current)) || !HasId(old(notes), Stamp(now))) ==> Valid()
    {
      var title := Trim(form.title);
      if title == [] || form.content == [] {
        return false;
      }
      var note := Composed(current, form, now, date);
      if IsOpen(current) {
        var index := FindIndex(notes, current.value);
        if index != -1 {
          if Valid() {
            ReplaceKeepsWellFormed(notes, index, note);
            assert forall m | m in notes[index := note] :: m == note || m in notes;
          }
          notes := notes[index := note];
        }
      } else {
        if Valid() && !HasId(notes, Stamp(now)) {
          PrependKeepsWellFormed(notes, note);
        }
        notes := [note] + notes;
      }
      stored := notes;
      saved := true;
    }

    /**
     * The editor's delete button. A protected open note is refused. Otherwise,
     * with a truthy open id and the user's confirmation, every note carrying
     * that id is removed and storage is rewritten. The selection is left as
     * it is, so it may keep the deleted id.
     */
    method DeleteCurrent(confirmed: bool) returns (outcome: DeleteOutcome)
      modifies this
      ensures outcome == Refused <==> old(current).Some? && IsProtectedId(old(notes), old(current).value)
      ensures outcome == Applied <==> outcome != Refused && IsOpen(old(current)) && confirmed
      ensures outcome == Applied ==> notes == Without(old(notes), old(current).value) && stored == notes
      ensures outcome != Applied ==> notes == old(notes) && stored == old(stored)
      ensures selected == old(selected) && current == old(current)
      ensures old(UniqueIds(notes)) ==> ProtectedKept(old(notes), notes)
      ensures old(Valid()) ==> Valid()
    {
      if current.Some? && IsProtectedId(notes, current.value) {
        return Refused;
      }
      if IsOpen(current) && confirmed {
        RemoveAll(current.value);
        outcome := Applied;
      } else {
        outcome := Declined;
      }
    }

    /**
     * A left swipe on the card whose `data-id` attribute reads `datasetId`:
     * the string is compared with the ids as it is, so a note with a numeric
     * id is never found nor removed. An empty attribute does nothing; a
     * protected note is refused; otherwise the delete goes ahead on
     * confirmation.
     */
    method SwipeDelete(datasetId: string, confirmed: bool) returns (outcome: DeleteOutcome)
      modifies this
      ensures outcome == Refused <==> datasetId != "" && IsProtectedId(old(notes), Str(datasetId))
      ensures outcome == Applied <==> datasetId != "" && outcome != Refused && confirmed
      ensures outcome == Applied ==> notes == Without(old(notes), Str(datasetId)) && stored == notes
      ensures outcome != Applied ==> notes == old(notes) && stored == old(stored)
      ensures forall n | n in old(notes) && n.id.Stamp? :: n in notes
      ensures selected == old(selected) && current == old(current)
      ensures old(UniqueIds(notes)) ==> ProtectedKept(old(notes), notes)
      ensures old(Valid()) ==> Valid()
    {
      if datasetId == "" {
        return Declined;
      }
      if IsProtectedId(notes, Str(datasetId)) {
        return Refused;
      }
      var applied := DeleteNoteById(datasetId, confirmed);
      outcome := if applied then Applied else Declined;
    }

    /** The delete itself once the swipe handler has passed it: on confirmation, filter and store. */
    method DeleteNoteById(datasetId: string, confirmed: bool) returns (applied: bool)
      modifies this
      ensures applied == confirmed
      ensures applied ==> notes == Without(old(notes), Str(datasetId)) && stored == notes
      ensures !applied ==> notes == old(notes) && stored == old(stored)
      ensures selected == old(selected) && current == old(current)
      ensures old(UniqueIds(notes)) && !IsProtectedId(old(notes), Str(datasetId)) ==> ProtectedKept(old(notes), notes)
      ensures old(Valid()) && !IsProtectedId(old(notes), Str(datasetId)) ==> Valid()
    {
      applied := confirmed;
      if confirmed {
        RemoveAll(Str(datasetId));
      }
    }

    /** Remove every note carrying `id` and write the snapshot. */
    method RemoveAll(id: NoteId)
      modifies this
      ensures notes == Without(old(notes), id) && stored == notes
      ensures selected == old(selected) && current == old(current)
      ensures old(UniqueIds(notes)) && !IsProtectedId(old(notes), id) ==> ProtectedKept(old(notes), notes)
      ensures old(Valid()) && !IsProtectedId(old(notes), id) ==> Valid()
    {
      var keep := (n: Note) => n.id != id;
      if UniqueIds(notes) {
        FilterKeepsUniqueIds(notes, keep);
        if !IsProtectedId(notes, id) {
          WithoutKeepsProtected(notes, id);
        }
      }
      if Valid() && !IsProtectedId(notes, id) {
        assert id != WelcomeId by {
          var k :| 0 <= k < |notes| && notes[k].id == WelcomeId;
          FindUnique(notes, k);
        }
        var k :| 0 <= k < |notes| && notes[k].id == WelcomeId;
        assert notes[k] in Without(notes, id);
      }
      notes := Without(notes, id);
      stored := notes;
    }

    /**
     * A note's checkbox. A protected note is left out; otherwise ticking adds
     * the id and unticking removes it.
     */
    method ToggleSelection(id: NoteId, checked: bool)
      modifies this
      ensures IsProtectedId(old(notes), id) ==> selected == old(selected)
      ensures !IsProtectedId(old(notes), id) ==>
        selected == if checked then old(selected) + {id} else old(selected) - {id}
      ensures notes == old(notes) && stored == old(stored) && current == old(current)
      ensures old(Valid()) ==> Valid()
    {
      if IsProtectedId(notes, id) {
        return;
      }
      if checked {
        if Valid() {
          forall n | n in notes && n.protected ensures n.id != id {
            var k :| 0 <= k < |notes| && notes[k] == n;
            FindUnique(notes, k);
          }
        }
        selected := selected + {id};
      } else {
        selected := selected - {id};
      }
    }

    /**
     * The select-all checkbox. Ticking it adds the id of every unprotected
     * note to the selection, one note at a time; unticking empties it.
     */
    method SelectAll(checked: bool)
      modifies this
      ensures checked ==> selected == old(selected) + SelectableIds(notes)
      ensures !checked ==> selected == {}
      ensures notes == old(notes) && stored == old(stored) && current == old(current)
      ensures old(Valid()) ==> Valid()
    {
      if checked {
        var i := 0;
        while i < |notes|
          invariant 0 <= i <= |notes|
          invariant selected == old(selected) + SelectableIds(notes[..i])
          invariant notes == old(notes) && stored == old(stored) && current == old(current)
        {
          assert notes[..i + 1] == notes[..i] + [notes[i]];
          SelectableIdsSnoc(notes[..i], notes[i]);
          if !notes[i].protected {
            selected := selected + {notes[i].id};
          }
          i := i + 1;
        }
        assert notes[..i] == notes;
        if old(Valid()) {
          SelectAllExcludesProtected(notes, old(selected));
        }
      } else {
        selected := {};
      }
    }

    /**
     * The delete-selected button. With something selected and the user's
     * confirmation, the notes that are selected and not protected are
     * removed, storage is rewritten and the selection is emptied.
     */
    method DeleteSelected(confirmed: bool) returns (applied: bool)
      modifies this
      ensures applied <==> old(selected) != {} && confirmed
      ensures applied ==> notes == Unselected(old(notes), old(selected)) && stored == notes && selected == {}
      ensures !applied ==> notes == old(notes) && stored == old(stored) && selected == old(selected)
      ensures ProtectedKept(old(notes), notes)
      ensures applied ==> forall n | n in notes :: n in old(notes) && (n.id !in old(selected) || n.protected)
      ensures applied ==> IsSubsequence(notes, old(notes))
      ensures current == old(current)
      ensures old(Valid()) ==> Valid()
    {
      applied := |selected| > 0 && confirmed;
      if applied {
        if Valid() {
          UnselectedKeepsWellFormed(notes, selected);
        }
        notes := Unselected(notes, selected);
        stored := notes;
        selected := {};
      }
    }
  }
}
