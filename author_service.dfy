/**
 * The author service: a table of authors keyed by their numeric id, with
 * save, lookups, delete and the null-skipping partial update.
 */
module AuthorServices {
  import opened Wrappers
  import opened Entities
  import Repository

  /** Every stored author carries the id it is stored under. */
  ghost predicate KeyedById(rows: map<int, Author>) {
    forall id | id in rows :: rows[id].id == Some(id)
  }

  /**
   * The merge at the heart of a partial update: each of `name` and `age` is taken
   * from the patch when it is non-null there, and kept from the stored author otherwise.
   */
  function Merge(existing: Author, patch: Author): Author {
    existing.(name := if patch.name.Some? then patch.name else existing.name,
              age := if patch.age.Some? then patch.age else existing.age)
  }

  /** The table after a successful partial update of the author stored under `id`. */
  function PatchedRows(rows: map<int, Author>, id: int, patch: Author): map<int, Author>
    requires id in rows
  {
    rows[id := Merge(rows[id], patch)]
  }

  /** The merged author keeps its id; a non-null patch field wins, a null one keeps the stored value. */
  lemma MergeFields(existing: Author, patch: Author)
    ensures Merge(existing, patch).id == existing.id
    ensures patch.name.Some? ==> Merge(existing, patch).name == patch.name
    ensures patch.name.None? ==> Merge(existing, patch).name == existing.name
    ensures patch.age.Some? ==> Merge(existing, patch).age == patch.age
    ensures patch.age.None? ==> Merge(existing, patch).age == existing.age
  {
  }

  /** A partial update never nulls out a field that was set. */
  lemma MergeNeverErases(existing: Author, patch: Author)
    ensures existing.name.Some? ==> Merge(existing, patch).name.Some?
    ensures existing.age.Some? ==> Merge(existing, patch).age.Some?
  {
  }

  /** A patch with both fields null changes nothing. */
  lemma MergeEmptyPatch(existing: Author, patch: Author)
    requires patch.name.None? && patch.age.None?
    ensures Merge(existing, patch) == existing
  {
  }

  /** Merging the same patch twice gives the author merging it once gives. */
  lemma MergeIdempotent(existing: Author, patch: Author)
    ensures Merge(Merge(existing, patch), patch) == Merge(existing, patch)
  {
  }

  /**
   * Applying the same partial update twice leaves the same table as applying it once,
   * and the update touches no key but `id`.
   */
  lemma {:induction false} PatchedRowsIdempotent(rows: map<int, Author>, id: int, patch: Author)
    requires id in rows
    ensures PatchedRows(PatchedRows(rows, id, patch), id, patch) == PatchedRows(rows, id, patch)
    ensures PatchedRows(rows, id, patch).Keys == rows.Keys
    ensures forall other | other in rows && other != id :: PatchedRows(rows, id, patch)[other] == rows[other]
  {
    MergeIdempotent(rows[id], patch);
  }

  /** A successful partial update keeps every row keyed by its own id. */
  lemma PatchedRowsKeyed(rows: map<int, Author>, id: int, patch: Author)
    requires KeyedById(rows) && id in rows
    ensures KeyedById(PatchedRows(rows, id, patch))
  {
  }

  class AuthorService {
    /** The author table of the store. */
    var rows: map<int, Author>

    ghost predicate Valid()
      reads this
    {
      KeyedById(rows)
    }

    constructor ()
      ensures Valid() && rows == map[]
    {
      rows := map[];
    }

    /**
     * Writes an author. One without an id is given an id the table does not hold yet
     * (which one is the store's choice); one with an id is written under that id.
     */
    method Save(author: Author) returns (saved: Author)
      requires Valid()
      modifies this
      ensures Valid()
      ensures saved.id.Some? && rows == old(rows)[saved.id.value := saved]
      ensures saved.name == author.name && saved.age == author.age
      ensures author.id.Some? ==> saved == author
      ensures author.id.None? ==> saved.id.value !in old(rows)
    {
      var id: int;
      match author.id {
        case Some(given) =>
          id := given;
        case None =>
          ghost var bound := Repository.IdBound(rows.Keys);
          assert bound !in rows;
          id :| id !in rows;
      }
      saved := author.(id := Some(id));
      rows := rows[id := saved];
    }

    /** Every stored author, once each, in the store's order. */
    method FindAll() returns (authors: seq<Author>)
      requires Valid()
      ensures |authors| == |rows|
      ensures forall i | 0 <= i < |authors| ::
        authors[i].id.Some? && authors[i].id.value in rows && rows[authors[i].id.value] == authors[i]
      ensures forall id | id in rows :: rows[id] in authors
      ensures forall i, j | 0 <= i < j < |authors| :: authors[i].id != authors[j].id
    {
      var ids, values := Repository.ListRows(rows);
      forall id | id in rows
        ensures rows[id] in values
      {
        var i :| 0 <= i < |ids| && ids[i] == id;
        assert values[i] == rows[id];
      }
      forall i | 0 <= i < |values|
        ensures values[i].id == Some(ids[i])
      {
        var id := ids[i];
        assert id in rows;
      }
      authors := values;
    }

    /** The author stored under `id`, if any. */
    function FindOne(id: int): (found: Option<Author>)
      requires Valid()
      reads this
      ensures found.Some? <==> id in rows
      ensures found.Some? ==> found.value == rows[id] && found.value.id == Some(id)
    {
      if id in rows then Some(rows[id]) else None
    }

    /** Whether an author is stored under `id`: exactly when `FindOne(id)` finds one. */
    function IsExists(id: int): (present: bool)
      requires Valid()
      reads this
      ensures present <==> FindOne(id).Some?
    {
      id in rows
    }

    /**
     * Merges the non-null fields of `patch` into the author stored under `id` and writes
     * the result back. An absent id fails with "Author does not exist" and writes nothing.
     */
    method PartialUpdate(id: int, patch: Author) returns (result: Result<Author>)
      requires Valid()
      modifies this
      ensures Valid()
      ensures id !in old(rows) ==> result == Err("Author does not exist") && rows == old(rows)
      ensures id in old(rows) ==> result.Ok? && rows == PatchedRows(old(rows), id, patch)
      ensures id in old(rows) ==> result.value == rows[id] && result.value.id == Some(id)
      ensures id in old(rows) ==> result.value.name == (if patch.name.Some? then patch.name else old(rows)[id].name)
      ensures id in old(rows) ==> result.value.age == (if patch.age.Some? then patch.age else old(rows)[id].age)
      ensures rows.Keys == old(rows).Keys
      ensures forall other | other in old(rows) && other != id :: rows[other] == old(rows)[other]
    {
      var found := FindOne(id);
      match found {
        case None =>
          result := Err("Author does not exist");
        case Some(existing) =>
          var saved := Save(Merge(existing, patch));
          result := Ok(saved);
      }
    }

    /** Removes the author stored under `id`; an absent id is not an error. */
    method Delete(id: int)
      requires Valid()
      modifies this
      ensures Valid()
      ensures rows == old(rows) - {id}
      ensures id !in rows
      ensures forall other | other in old(rows) && other != id :: other in rows && rows[other] == old(rows)[other]
    {
      rows := rows - {id};
    }
  }

  /**
   * The author scenario of the integration tests, on an empty store: saving an author
   * without an id assigns one, under which the same name and age are found; no other
   * id finds anything or can be patched; a patch carrying only a name keeps the age.
   */
  method AuthorScenario(otherId: int)
    returns (saved: Author, found: Option<Author>, notFound: Option<Author>,
             renamed: Result<Author>, rejected: Result<Author>)
    ensures saved.id.Some? && saved.name == Some("Agatha Christie") && saved.age == Some(80)
    ensures found == Some(saved)
    ensures renamed == Ok(Author(saved.id, Some("Agatha Mary Christie"), Some(80)))
    ensures otherId != saved.id.value ==> notFound == None && rejected == Err("Author does not exist")
  {
    var service := new AuthorService();
    saved := service.Save(Author(None, Some("Agatha Christie"), Some(80)));
    found := service.FindOne(saved.id.value);
    notFound := service.FindOne(otherId);
    renamed := service.PartialUpdate(saved.id.value, Author(None, Some("Agatha Mary Christie"), None));
    rejected := service.PartialUpdate(otherId, Author(None, Some("Agatha Christie"), Some(80)));
  }
}
