/**
 * The note records, the searches and filters the handlers run over the note
 * list, and the select-all indicator, with the facts the store relies on.
 */
module Notes {
  import opened Wrappers
  import opened Collections

  /**
   * A note id is either a string (the welcome note's) or a number (the
   * Date.now() of its creation). Strict equality never equates the two kinds,
   * so the tag keeps a numeric id distinct from its decimal spelling.
   */
  datatype NoteId = Str(name: string) | Stamp(ms: int)

  const WelcomeId: NoteId := Str("welcome-note")

  datatype Note = Note(
    id: NoteId,
    title: string,
    content: string,
    date: string,
    fontStyle: string,
    fontSize: string,
    sheetStyle: string,
    protected: bool,
    viewOnly: bool)

  /** The values in the editor when Save is pressed; the title is trimmed by Save itself. */
  datatype Form = Form(title: string, content: string, fontStyle: string, fontSize: string, sheetStyle: string)

  /** The body of the seeded note: rich text whose exact markup the model does not depend on. */
  const WelcomeContent: string := "<p>Welcome to Notes</p>"

  /** The note seeded at start-up: protected and view-only. */
  const WelcomeNote: Note := Note(
    WelcomeId, "Welcome to Notes", WelcomeContent, "January 31, 2025",
    "Arial, sans-serif", "16px", "plain", true, true)

  /** JavaScript truthiness of an id: the empty string and the number 0 are falsy. */
  predicate Truthy(id: NoteId): (t: bool)
    ensures t <==> id != Str("") && id != Stamp(0)
  {
    match id
    case Str(name) => name != ""
    case Stamp(ms) => ms != 0
  }

  /** Truthiness of the editor's current id, where None stands for null. */
  predicate IsOpen(current: Option<NoteId>): (open: bool)
    ensures open <==> current != None && current != Some(Str("")) && current != Some(Stamp(0))
  {
    current.Some? && Truthy(current.value)
  }

  // ---------------------------------------------------------------------------
  // Searching the note list: some, findIndex, find
  // ---------------------------------------------------------------------------

  /** Array.prototype.some on the id: some note carries `id`. */
  predicate HasId(s: seq<Note>, id: NoteId): (h: bool)
    ensures s == [] ==> !h
    ensures forall n | n in s && n.id == id :: h
  {
    exists i | 0 <= i < |s| :: s[i].id == id
  }

  /** Array.prototype.findIndex on the id: the first position holding `id`, or -1. */
  function FindIndex(s: seq<Note>, id: NoteId): (r: int)
    ensures -1 <= r < |s|
    ensures r >= 0 ==> s[r].id == id && forall k | 0 <= k < r :: s[k].id != id
    ensures r == -1 <==> !HasId(s, id)
  {
    if s == [] then -1
    else if s[0].id == id then 0
    else
      var j := FindIndex(s[1..], id);
      assert HasId(s, id) ==> HasId(s[1..], id) by {
        if HasId(s, id) {
          var i :| 0 <= i < |s| && s[i].id == id;
          assert s[1..][i - 1].id == id;
        }
      }
      if j == -1 then -1 else j + 1
  }

  /** Array.prototype.find on the id: the first note holding `id`. */
  function Find(s: seq<Note>, id: NoteId): (r: Option<Note>)
    ensures r.Some? <==> HasId(s, id)
    ensures r.Some? ==> r.value in s && r.value.id == id
    ensures r.Some? ==> exists i | 0 <= i < |s| :: s[i] == r.value && forall k | 0 <= k < i :: s[k].id != id
  {
    var i := FindIndex(s, id);
    if i == -1 then None else Some(s[i])
  }

  /** The guard of the delete and toggle handlers: the note found for `id` exists and is protected. */
  predicate IsProtectedId(s: seq<Note>, id: NoteId): (p: bool)
    ensures p <==> var i := FindIndex(s, id); i >= 0 && s[i].protected
    ensures p ==> HasId(s, id)
  {
    var f := Find(s, id);
    f.Some? && f.value.protected
  }

  // ---------------------------------------------------------------------------
  // The filters of the delete handlers and of the select-all indicator
  // ---------------------------------------------------------------------------

  /** The single-delete filter: every note whose id differs from `id`. */
  function Without(s: seq<Note>, id: NoteId): (r: seq<Note>)
    ensures forall n | n in r :: n in s && n.id != id
    ensures forall n | n in s && n.id != id :: n in r
    ensures !HasId(r, id)
    ensures IsSubsequence(r, s)
  {
    var r := Filter(s, (n: Note) => n.id != id);
    assert forall i | 0 <= i < |r| :: r[i] in r;
    r
  }

  /** The bulk-delete filter: the notes that are not selected, or are protected. */
  function Unselected(s: seq<Note>, selected: set<NoteId>): (r: seq<Note>)
    ensures forall n | n in r :: n in s && (n.id !in selected || n.protected)
    ensures forall n | n in s && n.protected :: n in r
    ensures forall n | n in s && n.id !in selected :: n in r
    ensures IsSubsequence(r, s)
  {
    Filter(s, (n: Note) => n.id !in selected || n.protected)
  }

  /** The notes a user may select: the unprotected ones. */
  function Selectable(s: seq<Note>): (r: seq<Note>)
    ensures forall n | n in r :: n in s && !n.protected
    ensures forall n | n in s && !n.protected :: n in r
    ensures IsSubsequence(r, s)
  {
    Filter(s, (n: Note) => !n.protected)
  }

  /** The ids that occur in `s`. */
  function Ids(s: seq<Note>): (r: set<NoteId>)
    ensures forall n | n in s :: n.id in r
    ensures forall id | id in r :: HasId(s, id)
  {
    if s == [] then {}
    else
      var rest := Ids(s[1..]);
      assert forall id | id in rest :: HasId(s, id) by {
        forall id | id in rest ensures HasId(s, id) {
          var i :| 0 <= i < |s| - 1 && s[1..][i].id == id;
          assert s[i + 1].id == id;
        }
      }
      {s[0].id} + rest
  }

  /** The ids select-all adds: those of the unprotected notes. */
  function SelectableIds(s: seq<Note>): (r: set<NoteId>)
    ensures forall n | n in s && !n.protected :: n.id in r
    ensures r <= Ids(s)
  {
    set n | n in s && !n.protected :: n.id
  }

  /** The select-all checkbox: the selection is as large as the list of unprotected notes, which is not empty. */
  predicate SelectAllChecked(s: seq<Note>, selected: set<NoteId>): (checked: bool)
    ensures checked ==> selected != {} && SelectableIds(s) != {}
    ensures s == [] ==> !checked
  {
    var sel := Selectable(s);
    assert |sel| > 0 ==> sel[0] in s && !sel[0].protected && sel[0].id in SelectableIds(s);
    |selected| == |sel| && |sel| > 0
  }

  /** The delete-selected button is shown exactly when something is selected. */
  function DeleteSelectedShown(selected: set<NoteId>): (shown: bool)
    ensures shown <==> selected != {}
  {
    |selected| > 0
  }

  // ---------------------------------------------------------------------------
  // The invariant the handlers keep
  // ---------------------------------------------------------------------------

  predicate UniqueIds(s: seq<Note>) {
    forall i, j | 0 <= i < j < |s| :: s[i].id != s[j].id
  }

  /** Save derives both flags from the id: only the welcome note is protected, and view-only equals protected. */
  predicate FlagsDerived(s: seq<Note>) {
    forall n | n in s :: n.protected == (n.id == WelcomeId) && n.viewOnly == n.protected
  }

  /** The note list as the handlers keep it: distinct ids, derived flags, and the welcome note present. */
  predicate WellFormed(s: seq<Note>) {
    UniqueIds(s) && FlagsDerived(s) && HasId(s, WelcomeId)
  }

  /** No protected note of the list is selected. */
  predicate SelectionExcludesProtected(s: seq<Note>, selected: set<NoteId>) {
    forall n | n in s && n.protected :: n.id !in selected
  }

  /** Protected notes of `before` are all still in `after`. */
  predicate ProtectedKept(before: seq<Note>, after: seq<Note>) {
    forall n | n in before && n.protected :: n in after
  }

  // ---------------------------------------------------------------------------
  // Lemmas
  // ---------------------------------------------------------------------------

  /** The seeded note is protected and view-only, and on its own it is a well-formed list. */
  lemma WelcomeNoteWellFormed()
    ensures WelcomeNote.id == WelcomeId && WelcomeNote.protected && WelcomeNote.viewOnly
    ensures WellFormed([WelcomeNote])
  {
    assert [WelcomeNote][0].id == WelcomeId;
  }

  /** With distinct ids, the note found for an id is the only note carrying it. */
  lemma FindUnique(s: seq<Note>, i: nat)
    requires UniqueIds(s) && i < |s|
    ensures Find(s, s[i].id) == Some(s[i])
  {
  }

  /** Filtering keeps the ids distinct. */
  lemma {:induction false} FilterKeepsUniqueIds(s: seq<Note>, keep: Note -> bool)
    requires UniqueIds(s)
    ensures UniqueIds(Filter(s, keep))
  {
    if s != [] {
      FilterKeepsUniqueIds(s[1..], keep);
      var rest := Filter(s[1..], keep);
      if keep(s[0]) {
        var r := [s[0]] + rest;
        forall i, j | 0 <= i < j < |r| ensures r[i].id != r[j].id {
          if i == 0 {
            assert r[j] in s[1..];
            var k :| 0 <= k < |s| - 1 && s[1..][k] == r[j];
            assert s[k + 1] == r[j];
          } else {
            assert r[i] == rest[i - 1] && r[j] == rest[j - 1];
          }
        }
      }
    }
  }

  /**
   * Single delete keeps every protected note when ids are distinct: if the
   * note found for `id` is not protected, no protected note carries `id`.
   */
  lemma WithoutKeepsProtected(s: seq<Note>, id: NoteId)
    requires UniqueIds(s)
    requires !IsProtectedId(s, id)
    ensures ProtectedKept(s, Without(s, id))
  {
  }

  /**
   * Without distinct ids single delete can remove a protected note: the guard
   * looks only at the first note carrying the id, the filter removes them all.
   */
  lemma DuplicateIdLosesProtected()
    ensures var plain := Note(WelcomeId, "t", "c", "d", "f", "z", "plain", false, false);
      var s := [plain, WelcomeNote];
      !IsProtectedId(s, WelcomeId) && WelcomeNote in s && WelcomeNote !in Without(s, WelcomeId)
  {
  }

  /** The filter of a delete removes exactly one note when the id occurs once. */
  lemma {:induction false} WithoutRemovesOne(s: seq<Note>, id: NoteId)
    requires UniqueIds(s) && HasId(s, id)
    ensures |Without(s, id)| == |s| - 1
  {
    if s[0].id == id {
      FilterKeepsAll(s[1..], (n: Note) => n.id != id);
    } else {
      assert HasId(s[1..], id) by {
        var i :| 0 <= i < |s| && s[i].id == id;
        assert s[1..][i - 1].id == id;
      }
      WithoutRemovesOne(s[1..], id);
    }
  }

  /** Over notes with distinct ids, the set of ids is as large as the list. */
  lemma {:induction false} IdsCardinality(s: seq<Note>)
    requires UniqueIds(s)
    ensures |Ids(s)| == |s|
  {
    if s != [] {
      IdsCardinality(s[1..]);
      assert s[0].id !in Ids(s[1..]);
    }
  }

  /** The ids of the selectable list are exactly the selectable ids. */
  lemma SelectableIdsAreIds(s: seq<Note>)
    ensures Ids(Selectable(s)) == SelectableIds(s)
  {
    var sel := Selectable(s);
    forall id | id in Ids(sel) ensures id in SelectableIds(s) {
      var i :| 0 <= i < |sel| && sel[i].id == id;
      assert sel[i] in sel;
    }
  }

  /**
   * When ids are distinct and the selection holds only selectable ids, the
   * size comparison of the indicator means what it is meant to: every
   * selectable note is selected, and there is at least one.
   */
  lemma SelectAllCheckedMeaning(s: seq<Note>, selected: set<NoteId>)
    requires UniqueIds(s)
    requires selected <= SelectableIds(s)
    ensures SelectAllChecked(s, selected) <==> selected == SelectableIds(s) && selected != {}
  {
    FilterKeepsUniqueIds(s, (n: Note) => !n.protected);
    IdsCardinality(Selectable(s));
    SelectableIdsAreIds(s);
    var all := SelectableIds(s);
    if |selected| == |all| {
      assert |all - selected| == |all| - |selected|;
      assert all - selected == {};
    }
  }

  /**
   * The indicator compares sizes, not sets: a stale id left in the selection
   * by a single delete makes it report "all selected" while a selectable note
   * is not selected.
   */
  lemma StaleSelectionChecksSelectAll()
    ensures var a := Note(Stamp(1), "a", "c", "d", "f", "z", "plain", false, false);
      var s := [a, WelcomeNote];
      SelectAllChecked(s, {Stamp(2)}) && Stamp(1) in SelectableIds(s) && Stamp(1) !in {Stamp(2)}
  {
    var a := Note(Stamp(1), "a", "c", "d", "f", "z", "plain", false, false);
    var s := [a, WelcomeNote];
    assert Selectable(s) == [a] by {
      assert Selectable([WelcomeNote]) == [];
    }
    assert a in s;
  }

  /** Save's create branch keeps the invariant when the new id is fresh and its flags are derived. */
  lemma PrependKeepsWellFormed(s: seq<Note>, n: Note)
    requires WellFormed(s) && !HasId(s, n.id)
    requires n.protected == (n.id == WelcomeId) && n.viewOnly == n.protected
    ensures WellFormed([n] + s)
  {
    var r := [n] + s;
    assert r[1..] == s;
    assert HasId(r, WelcomeId) by {
      var i :| 0 <= i < |s| && s[i].id == WelcomeId;
      assert r[i + 1].id == WelcomeId;
    }
  }

  /** Save's update branch keeps the invariant: the same id at the same place, flags derived again. */
  lemma ReplaceKeepsWellFormed(s: seq<Note>, i: nat, n: Note)
    requires WellFormed(s) && i < |s| && n.id == s[i].id
    requires n.protected == (n.id == WelcomeId) && n.viewOnly == n.protected
    ensures WellFormed(s[i := n])
  {
    var r := s[i := n];
    assert forall m | m in r :: m == n || m in s;
    assert HasId(r, WelcomeId) by {
      var k :| 0 <= k < |s| && s[k].id == WelcomeId;
      assert r[k].id == WelcomeId;
    }
  }

  /** Bulk delete keeps the invariant: protected notes, the welcome note among them, all stay. */
  lemma UnselectedKeepsWellFormed(s: seq<Note>, selected: set<NoteId>)
    requires WellFormed(s)
    ensures WellFormed(Unselected(s, selected))
  {
    FilterKeepsUniqueIds(s, (n: Note) => n.id !in selected || n.protected);
    var k :| 0 <= k < |s| && s[k].id == WelcomeId;
    assert s[k] in Unselected(s, selected);
  }

  /** One step of the single-delete filter. */
  lemma WithoutCons(n: Note, s: seq<Note>, id: NoteId)
    ensures Without([n] + s, id) == if n.id != id then [n] + Without(s, id) else Without(s, id)
  {
  }

  /** One step of select-all's forEach: a note appended adds its id exactly when it is unprotected. */
  lemma SelectableIdsSnoc(s: seq<Note>, n: Note)
    ensures SelectableIds(s + [n]) == SelectableIds(s) + (if n.protected then {} else {n.id})
  {
    assert forall m | m in s + [n] :: m in s || m == n;
  }

  /** Select-all adds no protected id: with distinct ids, no protected note shares an id with an unprotected one. */
  lemma SelectAllExcludesProtected(s: seq<Note>, selected: set<NoteId>)
    requires UniqueIds(s) && SelectionExcludesProtected(s, selected)
    ensures SelectionExcludesProtected(s, selected + SelectableIds(s))
  {
    forall n | n in s && n.protected ensures n.id !in SelectableIds(s) {
      var k :| 0 <= k < |s| && s[k] == n;
      forall m | m in s && !m.protected ensures m.id != n.id {
        var j :| 0 <= j < |s| && s[j] == m;
      }
    }
  }

  /** One step of the selectable filter. */
  lemma SelectableCons(n: Note, s: seq<Note>)
    ensures Selectable([n] + s) == if !n.protected then [n] + Selectable(s) else Selectable(s)
  {
  }
}
