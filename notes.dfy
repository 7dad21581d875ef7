/**
  The notes list and the list of expanded ("open") note ids.
*/
module Notes {
  import opened Text

  type NoteId = int

  datatype Note = Note(id: NoteId, content: string)

  /** `ids.filter(x => x !== id)`. */
  function RemoveId(ids: seq<NoteId>, id: NoteId): (r: seq<NoteId>)
    ensures |r| <= |ids|
    ensures forall x :: x in r <==> x in ids && x != id
  {
    if ids == [] then []
    else (if ids[0] == id then [] else [ids[0]]) + RemoveId(ids[1..], id)
  }

  predicate NoDuplicates(ids: seq<NoteId>) {
    forall j, k :: 0 <= j < k < |ids| ==> ids[j] != ids[k]
  }

  /** `toggleNote`: close an open note, or open a closed one at the end of the list. */
  function ToggleNote(openIds: seq<NoteId>, id: NoteId): (r: seq<NoteId>)
    ensures id in r <==> id !in openIds
    ensures forall x :: x != id ==> (x in r <==> x in openIds)
  {
    if id in openIds then RemoveId(openIds, id) else openIds + [id]
  }

  /** `updateNote`: replace the content of the notes with id `id`. */
  function UpdateNote(notes: seq<Note>, id: NoteId, newContent: string): (r: seq<Note>)
    ensures |r| == |notes|
    ensures forall i :: 0 <= i < |r| ==> r[i].id == notes[i].id
    ensures forall i :: 0 <= i < |r| ==> r[i].content == (if notes[i].id == id then newContent else notes[i].content)
  {
    if notes == [] then []
    else [if notes[0].id == id then notes[0].(content := newContent) else notes[0]] + UpdateNote(notes[1..], id, newContent)
  }

  /** `notes.filter(note => note.id !== id)`. */
  function RemoveNote(notes: seq<Note>, id: NoteId): (r: seq<Note>)
    ensures |r| <= |notes|
    ensures forall n :: n in r <==> n in notes && n.id != id
  {
    if notes == [] then []
    else (if notes[0].id == id then [] else [notes[0]]) + RemoveNote(notes[1..], id)
  }

  /** `deleteNote`: drop the note from the list and from the open ids. */
  function DeleteNote(notes: seq<Note>, openIds: seq<NoteId>, id: NoteId): (r: (seq<Note>, seq<NoteId>))
    ensures forall n :: n in r.0 <==> n in notes && n.id != id
    ensures forall x :: x in r.1 <==> x in openIds && x != id
  {
    (RemoveNote(notes, id), RemoveId(openIds, id))
  }

  /**
    `addNote` with the new id supplied by the caller: a note whose content
    is blank is not added; otherwise it is appended, untrimmed, and toggled
    open.
  */
  function AddNote(notes: seq<Note>, openIds: seq<NoteId>, content: string, newId: NoteId): (r: (seq<Note>, seq<NoteId>))
    ensures AllWhitespace(content) ==> r == (notes, openIds)
    ensures !AllWhitespace(content) ==> r.0 == notes + [Note(newId, content)]
    ensures !AllWhitespace(content) ==> r.1 == ToggleNote(openIds, newId)
    ensures !AllWhitespace(content) && newId !in openIds ==> newId in r.1
  {
    TrimEmptyIffBlank(content);
    if Trim(content) != [] then (notes + [Note(newId, content)], ToggleNote(openIds, newId))
    else (notes, openIds)
  }

  // ---------------------------------------------------------------------
  // Properties
  // ---------------------------------------------------------------------

  /** Removing an id that is not there changes nothing. */
  lemma {:induction false} RemoveAbsentId(ids: seq<NoteId>, id: NoteId)
    requires id !in ids
    ensures RemoveId(ids, id) == ids
  {
    if ids != [] {
      RemoveAbsentId(ids[1..], id);
    }
  }

  /** Filtering keeps the relative order of the remaining ids. */
  lemma {:induction false} RemoveIdConcat(a: seq<NoteId>, b: seq<NoteId>, id: NoteId)
    ensures RemoveId(a + b, id) == RemoveId(a, id) + RemoveId(b, id)
  {
    if a == [] {
      assert a + b == b;
    } else {
      assert (a + b)[0] == a[0];
      assert (a + b)[1..] == a[1..] + b;
      RemoveIdConcat(a[1..], b, id);
    }
  }

  /** Opening a closed note and toggling it again restores the open list exactly. */
  lemma ToggleTwiceRestores(openIds: seq<NoteId>, id: NoteId)
    requires id !in openIds
    ensures ToggleNote(ToggleNote(openIds, id), id) == openIds
  {
    RemoveIdConcat(openIds, [id], id);
    RemoveAbsentId(openIds, id);
    assert RemoveId([id], id) == [];
  }

  /** Filtering keeps a list free of duplicates. */
  lemma {:induction false} RemoveIdNoDuplicates(ids: seq<NoteId>, id: NoteId)
    requires NoDuplicates(ids)
    ensures NoDuplicates(RemoveId(ids, id))
  {
    if ids != [] {
      RemoveIdNoDuplicates(ids[1..], id);
      assert ids[0] !in ids[1..];
    }
  }

  /** Toggling keeps the open list free of duplicates. */
  lemma ToggleNoDuplicates(openIds: seq<NoteId>, id: NoteId)
    requires NoDuplicates(openIds)
    ensures NoDuplicates(ToggleNote(openIds, id))
  {
    if id in openIds {
      RemoveIdNoDuplicates(openIds, id);
    }
  }

  /** Updating a note twice is the same as updating it once with the later content. */
  lemma UpdateNoteLastWins(notes: seq<Note>, id: NoteId, first: string, second: string)
    ensures UpdateNote(UpdateNote(notes, id, first), id, second) == UpdateNote(notes, id, second)
  {
    var a := UpdateNote(UpdateNote(notes, id, first), id, second);
    var b := UpdateNote(notes, id, second);
    assert |a| == |b|;
    forall i | 0 <= i < |a|
      ensures a[i] == b[i]
    {
    }
  }

  /** Deleting a note keeps the other notes in their original order. */
  lemma {:induction false} RemoveNoteConcat(a: seq<Note>, b: seq<Note>, id: NoteId)
    ensures RemoveNote(a + b, id) == RemoveNote(a, id) + RemoveNote(b, id)
  {
    if a == [] {
      assert a + b == b;
    } else {
      assert (a + b)[0] == a[0];
      assert (a + b)[1..] == a[1..] + b;
      RemoveNoteConcat(a[1..], b, id);
    }
  }
}
