/**
 * One tender through its life in a fresh table: created, published, edited
 * and rolled back to its first version. Because a status change rewrites
 * the current row in place, the first version already carries the new
 * status when it is rolled back to.
 */
module Scenarios {
  import opened Wrappers
  import opened Versioning
  import opened Entity
  import opened TenderStore

  /** A table holding one row: that row is current. */
  lemma OneRow(t: Tender)
    ensures Current([t], t.id) == Some(t)
  {
    assert [t][..0] == [];
  }

  /** A table holding versions 1 and 2 of one id. */
  lemma TwoVersions(first: Tender, second: Tender)
    requires first.id == second.id && first.version == 1 && second.version == 2
    ensures RowAt([first, second], first.id, 1) == Some(first)
    ensures MaxVersion([first, second], first.id) == Some(2)
  {
    assert [first, second][..1] == [first];
    assert [first][..0] == [];
  }

  /** Publishing the only row of a table rewrites that row. */
  lemma PublishOnlyRow(t: Tender)
    ensures UpdateCurrent([t], t.id, SetStatus(Published)) == [t.(data := t.data.(status := Published))]
  {
    assert [t][..0] == [];
    assert MaxVersion([t], t.id) == Some(t.version);
  }

  /** A fresh table: create a tender and publish it. */
  method CreateAndPublish(repo: TenderRepo) returns (created: Tender, published: Tender)
    requires repo.Valid() && repo.rows == []
    modifies repo
    ensures repo.Valid() && repo.rows == [published]
    ensures created.version == 1 && created.data.status == InitialStatus
    ensures created.data.description == "Fix the pavement"
    ensures published == created.(data := created.data.(status := Published))
  {
    created := repo.CreateTender("Road repair", "Fix the pavement", "Construction", 1, "alice");
    OneRow(created);
    PublishOnlyRow(created);
    assert repo.rows == [created];
    var put := repo.PutStatus(created.id, Published);
    published := put.value;
  }

  /** A table holding one published version: edit its description, then roll back to version 1. */
  method EditAndRestore(repo: TenderRepo, published: Tender) returns (edited: Tender, restored: Tender)
    requires repo.Valid() && repo.rows == [published] && published.version == 1
    modifies repo
    ensures edited.id == published.id && edited.version == 2
    ensures edited.data == published.data.(description := "Updated scope")
    ensures restored == Row(published.id, 3, published.data)
  {
    var id := published.id;
    OneRow(published);
    var edit := repo.EditTender(id, "", "Updated scope", "");
    edited := edit.value;
    assert repo.rows == [published, edited];
    TwoVersions(published, edited);
    assert RollbackRow(repo.rows, id, 1) == Some(Row(id, 3, published.data));
    var back := repo.RollbackVersion(id, 1);
    restored := back.value;
  }

  method RoadRepair() returns (created: Tender, published: Tender, edited: Tender, restored: Tender)
    ensures created.version == 1 && created.data.status == InitialStatus
    ensures published.id == created.id && published.version == 1 && published.data.status == Published
    ensures edited.id == created.id && edited.version == 2
    ensures edited.data == published.data.(description := "Updated scope")
    ensures restored.id == created.id && restored.version == 3
    ensures restored.data == published.data
    ensures restored.data.description == created.data.description && restored.data.status == Published
  {
    var repo := new TenderRepo();
    created, published := CreateAndPublish(repo);
    edited, restored := EditAndRestore(repo, published);
  }
}
