/**
  The file store: a flat list of file and folder records linked by parent ids,
  and `removeFile`, which deletes a record together with everything below it.
*/
module FileTree {
  import opened Wrappers

  type Id = string

  datatype Kind = File | Folder

  /**
    A file or folder record. `parentId` is `None` at the top level; `src` is
    the preview URL of an uploaded file (`None` when there is none).
  */
  datatype Item = Item(id: Id, name: string, kind: Kind, parentId: Option<Id>, src: Option<string>)

  predicate HasId(items: seq<Item>, id: Id) {
    exists j :: 0 <= j < |items| && items[j].id == id
  }

  function Ids(items: seq<Item>): set<Id> {
    set j | 0 <= j < |items| :: items[j].id
  }

  predicate UniqueIds(items: seq<Item>) {
    forall j, k :: 0 <= j < k < |items| ==> items[j].id != items[k].id
  }

  // ---------------------------------------------------------------------
  // Which ids the recursive descent collects
  // ---------------------------------------------------------------------

  /** Does `items[j]` sit directly inside one of the ids of `s`? */
  predicate ChildOf(item: Item, s: set<Id>) {
    item.parentId.Some? && item.parentId.value in s
  }

  /** `s` contains every folder whose parent is in `s`: the descent is closed in `s`. */
  ghost predicate ClosedUnderSubfolders(items: seq<Item>, s: set<Id>) {
    forall j :: 0 <= j < |items| && items[j].kind == Folder && ChildOf(items[j], s) ==> items[j].id in s
  }

  /**
    `x` is an id whose children the descent from `target` lists: the target
    itself and, transitively, every folder inside a listed id. (It lies in
    every set that holds `target` and is closed under subfolders.)
  */
  ghost predicate Descended(items: seq<Item>, target: Id, x: Id) {
    forall s :: target in s && ClosedUnderSubfolders(items, s) ==> x in s
  }

  /** `x` is collected: a descended id, or the id of a file directly inside a descended id. */
  ghost predicate Collected(items: seq<Item>, target: Id, x: Id) {
    Descended(items, target, x)
    || exists j :: 0 <= j < |items| && items[j].id == x && items[j].kind == File
                   && items[j].parentId.Some? && Descended(items, target, items[j].parentId.value)
  }

  /** The ids that `removeFile(target)` deletes. */
  ghost function DeletedIds(items: seq<Item>, target: Id): set<Id> {
    set x | x in Ids(items) + {target} && Collected(items, target, x)
  }

  lemma DescendedStep(items: seq<Item>, target: Id, j: int)
    requires 0 <= j < |items| && items[j].kind == Folder && items[j].parentId.Some?
    requires Descended(items, target, items[j].parentId.value)
    ensures Descended(items, target, items[j].id)
  {
    forall s | target in s && ClosedUnderSubfolders(items, s)
      ensures items[j].id in s
    {
      assert ChildOf(items[j], s);
    }
  }

  /** The invariant of the descent: what has been gathered so far is all collected. */
  ghost predicate Gathered(items: seq<Item>, target: Id, expanded: set<Id>, ids: set<Id>) {
    && target in expanded && expanded <= ids <= Ids(items) + {target}
    && (forall x :: x in expanded ==> Descended(items, target, x))
    && (forall x :: x in ids ==> Collected(items, target, x))
  }

  /** Have the children of `x` been gathered? */
  ghost predicate ChildrenGathered(items: seq<Item>, x: Id, expanded: set<Id>, ids: set<Id>) {
    forall k :: 0 <= k < |items| && items[k].parentId == Some(x) ==>
                (items[k].kind == Folder ==> items[k].id in expanded) && (items[k].kind == File ==> items[k].id in ids)
  }

  /**
    The `children.forEach` step for the descended id `x`: gathers the ids of
    the files directly inside `x` and marks its subfolders for descent;
    `found` are the subfolders not descended before.
  */
  method GatherChildren(items: seq<Item>, target: Id, x: Id, expanded: set<Id>, ids: set<Id>)
    returns (expanded': set<Id>, ids': set<Id>, found: set<Id>)
    requires Gathered(items, target, expanded, ids) && x in expanded
    ensures Gathered(items, target, expanded', ids')
    ensures expanded' == expanded + found && found !! expanded && ids <= ids'
    ensures ChildrenGathered(items, x, expanded', ids')
    ensures forall y :: ChildrenGathered(items, y, expanded, ids) ==> ChildrenGathered(items, y, expanded', ids')
  {
    expanded', ids', found := expanded, ids, {};
    for j := 0 to |items|
      invariant Gathered(items, target, expanded', ids')
      invariant expanded' == expanded + found && found !! expanded && ids <= ids'
      invariant forall k :: 0 <= k < j && items[k].parentId == Some(x) ==>
                            (items[k].kind == Folder ==> items[k].id in expanded') && (items[k].kind == File ==> items[k].id in ids')
    {
      var child := items[j];
      if child.parentId == Some(x) {
        if child.kind == Folder {
          DescendedStep(items, target, j);
          if child.id !in expanded' {
            expanded', ids', found := expanded' + {child.id}, ids' + {child.id}, found + {child.id};
          }
        } else {
          assert Collected(items, target, child.id);
          ids' := ids' + {child.id};
        }
      }
    }
  }

  /**
    `getAllDescendantIds`: the ids of `target`, of every folder below it and of
    every file directly inside `target` or one of those folders.
  */
  method DescendantIds(items: seq<Item>, target: Id) returns (ids: set<Id>)
    ensures forall x :: x in ids <==> Collected(items, target, x)
    ensures ids <= Ids(items) + {target}
  {
    var expanded: set<Id> := {target};
    var pending: set<Id> := {target};
    ids := {target};
    ghost var bound := Ids(items) + {target};
    assert Descended(items, target, target);
    while pending != {}
      invariant Gathered(items, target, expanded, ids) && pending <= expanded
      invariant forall x :: x in expanded && x !in pending ==> ChildrenGathered(items, x, expanded, ids)
      decreases bound - expanded, pending
    {
      var x :| x in pending;
      var found;
      expanded, ids, found := GatherChildren(items, target, x, expanded, ids);
      pending := (pending - {x}) + found;
    }
    assert ClosedUnderSubfolders(items, expanded) by {
      forall j | 0 <= j < |items| && items[j].kind == Folder && ChildOf(items[j], expanded)
        ensures items[j].id in expanded
      {
        assert ChildrenGathered(items, items[j].parentId.value, expanded, ids);
      }
    }
    forall y | Collected(items, target, y)
      ensures y in ids
    {
      if !Descended(items, target, y) {
        var j :| 0 <= j < |items| && items[j].id == y && items[j].kind == File
                 && items[j].parentId.Some? && Descended(items, target, items[j].parentId.value);
        assert ChildrenGathered(items, items[j].parentId.value, expanded, ids);
      }
    }
  }

  // ---------------------------------------------------------------------
  // Removal
  // ---------------------------------------------------------------------

  /** The items whose id is not in `doomed`, in their original order (the final `filter`). */
  function Without(items: seq<Item>, doomed: set<Id>): (r: seq<Item>)
    ensures |r| <= |items|
    ensures forall it :: it in r <==> it in items && it.id !in doomed
  {
    if items == [] then []
    else (if items[0].id in doomed then [] else [items[0]]) + Without(items[1..], doomed)
  }

  /** First file record with id `id` (`find(item => item.id === id && item.type === 'file')`). */
  function FindFile(items: seq<Item>, id: Id): (r: Option<Item>)
    ensures r.Some? ==> r.value in items && r.value.id == id && r.value.kind == File
    ensures r.Some? ==> exists j :: FirstFileAt(items, id, j) && items[j] == r.value
    ensures r.None? ==> forall it :: it in items && it.id == id ==> it.kind != File
  {
    if items == [] then None
    else if items[0].id == id && items[0].kind == File then
      assert FirstFileAt(items, id, 0);
      Some(items[0])
    else
      var r := FindFile(items[1..], id);
      if r.Some? then
        var j :| FirstFileAt(items[1..], id, j) && items[1..][j] == r.value;
        FirstFileShift(items, id, j);
        r
      else r
  }

  /** `items[j]` is the first file record with id `id`. */
  predicate FirstFileAt(items: seq<Item>, id: Id, j: int) {
    0 <= j < |items| && items[j].id == id && items[j].kind == File
    && forall k :: 0 <= k < j ==> !(items[k].id == id && items[k].kind == File)
  }

  lemma FirstFileShift(items: seq<Item>, id: Id, j: int)
    requires items != [] && !(items[0].id == id && items[0].kind == File)
    requires FirstFileAt(items[1..], id, j)
    ensures FirstFileAt(items, id, j + 1) && items[j + 1] == items[1..][j]
  {
    forall k | 0 < k < j + 1
      ensures !(items[k].id == id && items[k].kind == File)
    {
      assert items[k] == items[1..][k - 1];
    }
  }

  /** Does the record have a preview URL (a non-empty `src`)? */
  predicate HasPreview(it: Item) {
    it.src.Some? && it.src.value != []
  }

  /** The preview URLs released for the deleted ids: those of the files found that have one. */
  function ReleasedPreviews(items: seq<Item>, doomed: set<Id>): (r: set<string>)
    ensures forall u :: u in r ==>
      exists it :: it in items && it.kind == File && it.id in doomed && HasPreview(it) && it.src.value == u
  {
    set x | x in doomed && FindFile(items, x).Some? && HasPreview(FindFile(items, x).value)
      :: FindFile(items, x).value.src.value
  }

  /**
    `removeFile(target)`: when no record has id `target` the list is returned
    unchanged and nothing is released; otherwise every collected id is
    deleted and the preview URLs of the deleted files are released.
  */
  method RemoveFile(items: seq<Item>, target: Id) returns (remaining: seq<Item>, released: set<string>)
    ensures !HasId(items, target) ==> remaining == items && released == {}
    ensures HasId(items, target) ==>
      remaining == Without(items, DeletedIds(items, target))
      && released == ReleasedPreviews(items, DeletedIds(items, target))
  {
    if !HasId(items, target) {
      return items, {};
    }
    var idsToDelete := DescendantIds(items, target);
    assert idsToDelete == DeletedIds(items, target);
    released := ReleasedPreviews(items, idsToDelete);
    remaining := Without(items, idsToDelete);
  }

  // ---------------------------------------------------------------------
  // Properties of removal
  // ---------------------------------------------------------------------

  /** The target itself is always deleted. */
  lemma TargetDeleted(items: seq<Item>, target: Id)
    ensures target in DeletedIds(items, target)
  {
    assert Descended(items, target, target);
  }

  /**
    With unique ids, deletion is transitive through folders: whatever sits
    inside a deleted folder is deleted too.
  */
  lemma InsideDeletedFolderDeleted(items: seq<Item>, target: Id, f: int, c: int)
    requires UniqueIds(items)
    requires 0 <= f < |items| && items[f].kind == Folder && items[f].id in DeletedIds(items, target)
    requires 0 <= c < |items| && items[c].parentId == Some(items[f].id)
    ensures items[c].id in DeletedIds(items, target)
  {
    if items[c].kind == Folder {
      DescendedStep(items, target, c);
    } else {
      assert Collected(items, target, items[c].id);
    }
  }

  /** Filtering keeps relative order: it distributes over concatenation. */
  lemma {:induction false} WithoutConcat(a: seq<Item>, b: seq<Item>, doomed: set<Id>)
    ensures Without(a + b, doomed) == Without(a, doomed) + Without(b, doomed)
  {
    if a != [] {
      assert (a + b)[0] == a[0];
      assert (a + b)[1..] == a[1..] + b;
      WithoutConcat(a[1..], b, doomed);
    } else {
      assert a + b == b;
    }
  }

  /** Filtering by ids no item has changes nothing. */
  lemma {:induction false} WithoutNothing(items: seq<Item>, doomed: set<Id>)
    requires forall j :: 0 <= j < |items| ==> items[j].id !in doomed
    ensures Without(items, doomed) == items
  {
    if items != [] {
      WithoutNothing(items[1..], doomed);
    }
  }

  /**
    With unique ids, the released previews are exactly those of the deleted
    file records that have one.
  */
  lemma ReleasedAreDeletedFiles(items: seq<Item>, doomed: set<Id>)
    requires UniqueIds(items)
    ensures ReleasedPreviews(items, doomed) ==
      set it | it in items && it.kind == File && it.id in doomed && HasPreview(it) :: it.src.value
  {
    var deletedFiles := set it | it in items && it.kind == File && it.id in doomed && HasPreview(it) :: it.src.value;
    forall u | u in deletedFiles
      ensures u in ReleasedPreviews(items, doomed)
    {
      var it :| it in items && it.kind == File && it.id in doomed && HasPreview(it) && it.src.value == u;
      var found := FindFile(items, it.id);
      UniqueIdsSameRecord(items, found.value, it);
    }
  }

  lemma UniqueIdsSameRecord(items: seq<Item>, a: Item, b: Item)
    requires UniqueIds(items) && a in items && b in items && a.id == b.id
    ensures a == b
  {
    var j :| 0 <= j < |items| && items[j] == a;
    var k :| 0 <= k < |items| && items[k] == b;
  }
}
