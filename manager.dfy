/**
 * NoteManager: the note list held in `this.notes` and its copy in the
 * browser's localStorage, with the operations the page calls.
 */
module Manager {
  import opened Text
  import opened Notes
  import opened View

  /** The one key the notes are written under. */
  const StorageKey := "cooseNotes"

  /** The browser's localStorage: each key holds a note list, as written by JSON.stringify. */
  class LocalStorage {
    var items: map<string, seq<Note>>

    constructor (items: map<string, seq<Note>>)
      ensures this.items == items
    {
      this.items := items;
    }
  }

  /** `loadNotes`: the list stored under the key, or no notes when nothing is stored. */
  function Load(items: map<string, seq<Note>>): (r: seq<Note>)
    ensures StorageKey !in items ==> r == []
  {
    if StorageKey in items then items[StorageKey] else []
  }

  /** What `saveNotes` writes is what `loadNotes` reads back. */
  lemma LoadAfterSave(items: map<string, seq<Note>>, ns: seq<Note>)
    ensures Load(items[StorageKey := ns]) == ns
  {
  }

  class NoteManager {
    var notes: seq<Note>
    const store: LocalStorage

    /** The stored copy reloads to exactly the list in memory. */
    ghost predicate Valid()
      reads this, store
    {
      Load(store.items) == notes
    }

    /** `this.notes = this.loadNotes()`; rendering and event wiring are not modelled. */
    constructor (store: LocalStorage)
      ensures this.store == store && Valid()
      ensures notes == Load(store.items)
    {
      this.store := store;
      notes := Load(store.items);
    }

    /** `saveNotes`: writes the whole list under the key and leaves every other key alone. */
    method SaveNotes()
      modifies store
      ensures Valid()
      ensures store.items == old(store.items)[StorageKey := notes]
    {
      store.items := store.items[StorageKey := notes];
      LoadAfterSave(old(store.items), notes);
    }

    /**
     * `addNote`: blank input is rejected and nothing changes; otherwise the
     * trimmed text is appended with `order` equal to the old length and the
     * list is saved.
     * `id` and `timestamp` stand for `Date.now()` and `toLocaleString()`.
     */
    method AddNote(input: string, id: int, timestamp: string) returns (added: bool)
      requires Valid()
      modifies this`notes, store
      ensures Valid()
      ensures added <==> !IsBlank(input)
      ensures !added ==> notes == old(notes) && store.items == old(store.items)
      ensures added ==> notes == Appended(old(notes), id, Trim(input), timestamp)
      ensures added ==> store.items == old(store.items)[StorageKey := notes]
      ensures added ==> Tidy(notes[|notes| - 1].content)
    {
      var content := Trim(input);
      if content == [] {
        return false;
      }
      var note := Note(id, content, timestamp, |notes|);
      notes := notes + [note];
      SaveNotes();
      added := true;
    }

    /** `updateOrder`: sets each note's `order` to its index, one note at a time. */
    method UpdateOrder()
      modifies this`notes
      ensures notes == Reranked(old(notes))
    {
      var i := 0;
      while i < |notes|
        invariant 0 <= i <= |notes| == |old(notes)|
        invariant forall k | 0 <= k < i :: notes[k] == old(notes)[k].(order := k)
        invariant forall k | i <= k < |notes| :: notes[k] == old(notes)[k]
      {
        notes := notes[i := notes[i].(order := i)];
        i := i + 1;
      }
    }

    /**
     * `deleteNote`: when `confirmed` (the answer to `confirm`), every note
     * with the id is filtered out, the rest are re-ranked and the list is
     * saved; otherwise nothing changes.
     */
    method DeleteNote(id: int, confirmed: bool)
      requires Valid()
      modifies this`notes, store
      ensures Valid()
      ensures !confirmed ==> notes == old(notes) && store.items == old(store.items)
      ensures confirmed ==> notes == Deleted(old(notes), id)
      ensures confirmed ==> store.items == old(store.items)[StorageKey := notes]
    {
      if confirmed {
        notes := Without(notes, id);
        UpdateOrder();
        SaveNotes();
      }
    }

    /**
     * `saveEdit`: blank input is rejected and nothing changes; otherwise the
     * first note with the id gets the trimmed text and the list is saved.
     * The source looks the note up without a null check once the text passed,
     * so the id must then be present.
     */
    method SaveEdit(id: int, input: string) returns (saved: bool)
      requires Valid()
      requires !IsBlank(input) ==> HasId(notes, id)
      modifies this`notes, store
      ensures Valid()
      ensures saved <==> !IsBlank(input)
      ensures !saved ==> notes == old(notes) && store.items == old(store.items)
      ensures saved ==> notes == Edited(old(notes), id, Trim(input))
      ensures saved ==> store.items == old(store.items)[StorageKey := notes]
    {
      var content := Trim(input);
      if content == [] {
        return false;
      }
      ghost var edited := Edited(notes, id, content);
      var k := IndexOfId(notes, id).value;
      notes := notes[k := notes[k].(content := content)];
      assert notes == edited;
      SaveNotes();
      saved := true;
    }

    /**
     * `updateNotesOrder`: rebuilds the list from the ids in page order,
     * stamping each found note with its page position, then saves it.
     */
    method UpdateNotesOrder(ids: seq<int>)
      requires Valid() && Distinct(ids)
      modifies this`notes, store
      ensures Valid()
      ensures notes == Reordered(old(notes), ids)
      ensures store.items == old(store.items)[StorageKey := notes]
    {
      var newOrder := [];
      var i := 0;
      while i < |ids|
        invariant 0 <= i <= |ids|
        invariant newOrder == Reordered(notes, ids[..i])
      {
        assert ids[..i + 1][..i] == ids[..i];
        match IndexOfId(notes, ids[i]) {
          case Some(j) =>
            newOrder := newOrder + [notes[j].(order := i)];
          case None =>
        }
        i := i + 1;
      }
      assert ids[..i] == ids;
      notes := newOrder;
      SaveNotes();
    }

    /** The notes in the order the page shows them: a sorted copy, the list left as it is. */
    method RenderedNotes() returns (view: seq<Note>)
      ensures SortedByOrder(view) && multiset(view) == multiset(notes)
      ensures DenseOrder(notes) ==> view == notes
    {
      view := SortByOrder(notes);
      if DenseOrder(notes) {
        DenseViewIsList(notes);
      }
    }
  }

  /** The texts the walkthrough below types in as notes trim to themselves. */
  lemma SessionInputs()
    ensures Trim("Buy milk") == "Buy milk" && Trim("Call Sam") == "Call Sam"
  {
    assert !IsSpace('B') && !IsSpace('k') && !IsSpace('C') && !IsSpace('m');
    TidyIffOwnTrim("Buy milk");
    TidyIffOwnTrim("Call Sam");
  }

  /** Three spaces are blank text. */
  lemma ThreeSpacesBlank()
    ensures IsBlank("   ")
  {
    var blank := "   ";
    assert forall i | 0 <= i < |blank| :: blank[i] == ' ';
  }

  /** The lists the walkthrough below passes through after its reorder and its delete. */
  lemma SessionLists(a: Note, b: Note)
    requires a.id == 1 && b.id == 2
    ensures Reordered([a, b], [2, 1]) == [b.(order := 0), a.(order := 1)]
    ensures Deleted([b.(order := 0), a.(order := 1)], 2) == [a.(order := 0)]
  {
    assert [a, b][1].id == 2 && [a, b][0].id == 1;
    assert IndexOfId([a, b], 2) == Some(1);
    ReorderedAllFound([a, b], [2, 1]);
    assert Without([a.(order := 1)], 2) == [a.(order := 1)] by {
      assert [a.(order := 1)][1..] == [];
    }
    assert [b.(order := 0), a.(order := 1)][1..] == [a.(order := 1)];
  }

  /** First session on an empty store: two notes typed in. */
  method TypeTwoNotes(store: LocalStorage) returns (m: NoteManager)
    requires store.items == map[]
    modifies store
    ensures fresh(m) && m.store == store && m.Valid()
    ensures m.notes == [Note(1, "Buy milk", "t1", 0), Note(2, "Call Sam", "t2", 1)]
  {
    SessionInputs();
    m := new NoteManager(store);
    assert m.notes == [];
    var ok := m.AddNote("Buy milk", 1, "t1");
    assert m.notes == [Note(1, "Buy milk", "t1", 0)];
    ok := m.AddNote("Call Sam", 2, "t2");
  }

  /** Still in the first session: an edit to blank text is refused and changes nothing. */
  method FirstSession(store: LocalStorage) returns (m: NoteManager)
    requires store.items == map[]
    modifies store
    ensures fresh(m) && m.store == store && m.Valid()
    ensures m.notes == [Note(1, "Buy milk", "t1", 0), Note(2, "Call Sam", "t2", 1)]
  {
    m := TypeTwoNotes(store);
    ghost var before := m.notes;
    ThreeSpacesBlank();
    var ok := m.SaveEdit(1, "   ");
    assert !ok && m.notes == before;
  }

  /**
   * Two sessions over one store: notes added, a blank edit refused, a
   * reorder and a delete; then a fresh manager loads the list the first one
   * left, and shows it.
   */
  method Sessions() returns (left: seq<Note>, reloaded: seq<Note>, shown: seq<Note>)
    ensures left == [Note(1, "Buy milk", "t1", 0)]
    ensures reloaded == left && shown == reloaded
  {
    var a := Note(1, "Buy milk", "t1", 0);
    var b := Note(2, "Call Sam", "t2", 1);
    SessionLists(a, b);
    var store := new LocalStorage(map[]);
    var m := FirstSession(store);
    m.UpdateNotesOrder([2, 1]);
    m.DeleteNote(2, true);
    left := m.notes;
    var again := new NoteManager(store);
    reloaded := again.notes;
    shown := again.RenderedNotes();
  }
}
