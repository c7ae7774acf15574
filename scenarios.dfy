/**
 * Sessions that use only the store's contracts, as a user would drive the
 * page: first start-up, create then edit, and a stale selection.
 */
module Scenarios {
  import opened Wrappers
  import opened Text
  import opened Notes
  import opened Store

  const Plain := Form("", "", "Arial, sans-serif", "16px", "plain")

  /** Empty storage on first run gives the welcome note alone, and it cannot be swiped away. */
  method FirstRun() {
    var app := new NoteStore.Start([], true);
    assert app.notes == [WelcomeNote];
    assert app.stored == app.notes;
    var outcome := app.SwipeDelete("welcome-note", true);
    assert FindIndex([WelcomeNote], WelcomeId) == 0;
    assert outcome == Refused;
    assert app.notes == [WelcomeNote];
  }

  /** A note created and then retitled is one record, still at its place. */
  method CreateThenRetitle() {
    var app := new NoteStore.Start([], true);
    app.OpenForCreate();
    assert Trim("A") == "A";
    var saved := app.Save(Plain.(title := "A", content := "B"), 1000, "June 1, 2025");
    assert saved && |app.notes| == 2 && app.notes[0].id == Stamp(1000);
    var readOnly := app.ClickNote(app.notes[0]);
    assert !readOnly && app.current == Some(Stamp(1000));
    assert Trim("A2") == "A2";
    assert FindIndex(app.notes, Stamp(1000)) == 0;
    saved := app.Save(Plain.(title := "A2", content := "B"), 2000, "June 2, 2025");
    assert |app.notes| == 2 && app.notes[0].title == "A2" && app.notes[0].id == Stamp(1000);
    assert app.notes[1] == WelcomeNote;
  }

  const NoteA := Note(Stamp(1000), "A", "a", "June 1, 2025", "Arial, sans-serif", "16px", "plain", false, false)
  const NoteB := Note(Stamp(2000), "B", "b", "June 2, 2025", "Arial, sans-serif", "16px", "plain", false, false)

  /** The loaded list [B, A] has no welcome note, so start-up seeds it in front. */
  lemma StaleSeeds()
    ensures !HasId([NoteB, NoteA], WelcomeId)
  {
  }

  /** The editor's delete guard finds B, which is not protected. */
  lemma StaleFind()
    ensures Find([WelcomeNote, NoteB, NoteA], Stamp(2000)) == Some(NoteB)
  {
    assert FindIndex([WelcomeNote, NoteB, NoteA], Stamp(2000)) == 1;
  }

  /** Deleting B from [welcome, B, A] leaves [welcome, A]. */
  lemma StaleWithout()
    ensures Without([WelcomeNote, NoteB, NoteA], Stamp(2000)) == [WelcomeNote, NoteA]
  {
    WithoutCons(NoteA, [], Stamp(2000));
    WithoutCons(NoteB, [NoteA], Stamp(2000));
    WithoutCons(WelcomeNote, [NoteB, NoteA], Stamp(2000));
  }

  /** With B's id still selected, the indicator reads as ticked over [welcome, A]. */
  lemma StaleChecked()
    ensures SelectAllChecked([WelcomeNote, NoteA], {Stamp(2000)})
  {
    SelectableCons(NoteA, []);
    SelectableCons(WelcomeNote, [NoteA]);
  }

  /**
   * Deleting a ticked note from the editor leaves its id selected; the
   * select-all box then reads as ticked although the remaining note is not.
   */
  method StaleSelection() {
    StaleSeeds();
    var app := new NoteStore.Start([NoteB, NoteA], false);
    assert app.notes == [WelcomeNote, NoteB, NoteA];
    StaleFind();
    assert !IsProtectedId(app.notes, Stamp(2000));
    app.ToggleSelection(Stamp(2000), true);
    assert app.selected == {Stamp(2000)};
    var readOnly := app.EditNote(NoteB);
    assert app.current == Some(Stamp(2000));
    var outcome := app.DeleteCurrent(true);
    assert outcome == Applied;
    StaleWithout();
    assert app.notes == [WelcomeNote, NoteA] && app.selected == {Stamp(2000)};
    StaleChecked();
    assert SelectAllChecked(app.notes, app.selected) && Stamp(1000) !in app.selected;
  }
}
