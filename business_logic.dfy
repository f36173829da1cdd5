/**
 * `BusinessLogic` of backend/interactor/business_logic.py: each operation
 * reads records from the store, checks access and writes them back, in the
 * order the source does. Each method is proved to leave the store and
 * return the reply that the matching function of module Rules gives, so
 * the invariant lemmas proved there apply to the running store.
 */
module Logic {
  import opened Lists
  import opened Records
  import Database
  import Merge
  import opened Rules

  class BusinessLogic {
    const db: Database.DatabaseInterface

    constructor (db: Database.DatabaseInterface)
      ensures this.db == db
    {
      this.db := db;
    }

    /** `register_user`. */
    method RegisterUser(username: string, password: string) returns (r: Reply)
      requires db.Valid()
      modifies db
      ensures db.Valid()
      ensures Outcome(db.Snapshot(), r) == Rules.RegisterUser(old(db.Snapshot()), username, password)
    {
      if username == "" || password == "" {
        return Fail("Username and password are required.");
      }
      var existing := db.GetUser(username);
      if existing.Some? {
        return Fail("Username already exists.");
      }
      var ok := db.CreateUser(User(username, password, []));
      r := if ok then Reply(true, "User registered successfully.", None) else Fail("Failed to register user.");
    }

    /** `authenticate_user`: reads only. */
    method AuthenticateUser(username: string, password: string) returns (r: Reply)
      requires db.Valid()
      ensures r == Rules.AuthenticateUser(db.Snapshot(), username, password)
    {
      var user := db.GetUser(username);
      if user.None? {
        return Fail("User not found.");
      }
      if user.value.password != password {
        return Fail("Invalid password.");
      }
      r := Reply(true, "Authentication successful.", None);
    }

    /**
     * `create_document` with the fresh id and the current time as inputs.
     * The user record is read before the store links the new document and
     * is written back with the id appended afterwards, as in the source.
     */
    method CreateDocument(title: string, username: string, id: string, now: Timestamp) returns (r: Reply)
      requires db.Valid()
      modifies db
      ensures db.Valid()
      ensures Outcome(db.Snapshot(), r) == Rules.CreateDocument(old(db.Snapshot()), title, username, id, now)
    {
      var user := db.GetUser(username);
      if user.None? {
        return Fail("User not found.");
      }
      var document := Document(id, title, "", now, [username]);
      ghost var before := db.users;
      var ok := db.CreateDocument(document);
      if !ok {
        return Fail("Failed to create document.");
      }
      Database.LinkDocEffect(before, [username], id);
      var updated := db.UpdateUser(user.value.(documents := user.value.documents + [id]));
      r := Reply(true, "Document created successfully.", Some(id));
    }

    /** `get_document`: reads only. */
    method GetDocument(documentId: string, username: string) returns (r: DocumentReply)
      requires db.Valid()
      ensures r == Rules.GetDocument(db.Snapshot(), documentId, username)
    {
      var document := db.GetDocument(documentId);
      if document.None? {
        return DocumentReply(false, "Document not found.", None);
      }
      if username !in document.value.users {
        return DocumentReply(false, "User does not have access to this document.", None);
      }
      r := DocumentReply(true, "Document retrieved successfully.", document);
    }

    /** `update_document_title`. */
    method UpdateDocumentTitle(documentId: string, title: string, username: string, now: Timestamp) returns (r: Reply)
      requires db.Valid()
      modifies db
      ensures db.Valid()
      ensures Outcome(db.Snapshot(), r) == Rules.UpdateDocumentTitle(old(db.Snapshot()), documentId, title, username, now)
    {
      var access := GetDocument(documentId, username);
      if !access.success {
        return Fail(access.message);
      }
      var document := access.document.value;
      var ok := db.UpdateDocument(document.(title := title, lastEdited := now));
      r := if ok then Reply(true, "Document title updated successfully.", None) else Fail("Failed to update document title.");
    }

    /** `delete_document`. */
    method DeleteDocument(documentId: string, username: string) returns (r: Reply)
      requires db.Valid()
      modifies db
      ensures db.Valid()
      ensures Outcome(db.Snapshot(), r) == Rules.DeleteDocument(old(db.Snapshot()), documentId, username)
    {
      var access := GetDocument(documentId, username);
      if !access.success {
        return Fail(access.message);
      }
      var ok := db.DeleteDocument(documentId);
      r := if ok then Reply(true, "Document deleted successfully.", None) else Fail("Failed to delete document.");
    }

    /** `get_user_documents`: reads only. */
    method GetUserDocuments(username: string) returns (r: DocumentsReply)
      requires db.Valid()
      ensures r == Rules.GetUserDocuments(db.Snapshot(), username)
    {
      var user := db.GetUser(username);
      if user.None? {
        return DocumentsReply(false, "User not found.", []);
      }
      var documents := db.GetUserDocuments(username);
      r := DocumentsReply(true, "Documents retrieved successfully.", documents);
    }

    /** `add_user_to_document`. */
    method AddUserToDocument(documentId: string, username: string, addedBy: string) returns (r: Reply)
      requires db.Valid()
      modifies db
      ensures db.Valid()
      ensures Outcome(db.Snapshot(), r) == Rules.AddUserToDocument(old(db.Snapshot()), documentId, username, addedBy)
    {
      var access := GetDocument(documentId, addedBy);
      if !access.success {
        return Fail(access.message);
      }
      var document := access.document.value;
      var userToAdd := db.GetUser(username);
      if userToAdd.None? {
        return Fail("User to add not found.");
      }
      if username in document.users {
        return Fail("User already has access to this document.");
      }
      var ok := db.UpdateDocument(document.(users := document.users + [username]));
      if ok && documentId !in userToAdd.value.documents {
        var updated := db.UpdateUser(userToAdd.value.(documents := userToAdd.value.documents + [documentId]));
      }
      r := if ok then Reply(true, "User added to document successfully.", None) else Fail("Failed to add user to document.");
    }

    /** `remove_user_from_document`: the removed user is read after the document is written. */
    method RemoveUserFromDocument(documentId: string, username: string, removedBy: string) returns (r: Reply)
      requires db.Valid()
      modifies db
      ensures db.Valid()
      ensures Outcome(db.Snapshot(), r) == Rules.RemoveUserFromDocument(old(db.Snapshot()), documentId, username, removedBy)
    {
      var access := GetDocument(documentId, removedBy);
      if !access.success {
        return Fail(access.message);
      }
      var document := access.document.value;
      if username !in document.users {
        return Fail("User does not have access to this document.");
      }
      var ok := db.UpdateDocument(document.(users := RemoveFirst(document.users, username)));
      if ok {
        var userToRemove := db.GetUser(username);
        if userToRemove.Some? && documentId in userToRemove.value.documents {
          var updated := db.UpdateUser(userToRemove.value.(documents := RemoveFirst(userToRemove.value.documents, documentId)));
        }
      }
      r := if ok then Reply(true, "User removed from document successfully.", None) else Fail("Failed to remove user from document.");
    }

    /** `update_document_content`: last write wins. */
    method UpdateDocumentContent(documentId: string, content: string, username: string, now: Timestamp) returns (r: Reply)
      requires db.Valid()
      modifies db
      ensures db.Valid()
      ensures Outcome(db.Snapshot(), r) == Rules.UpdateDocumentContent(old(db.Snapshot()), documentId, content, username, now)
    {
      var access := GetDocument(documentId, username);
      if !access.success {
        return Fail(access.message);
      }
      var document := access.document.value;
      var ok := db.UpdateDocument(document.(data := content, lastEdited := now));
      r := if ok then Reply(true, "Document content updated successfully.", Some(content)) else Fail("Failed to update document content.");
    }

    /**
     * `update_document_content_with_merge`; `diffs` stands for the line
     * split and the two `difflib` comparisons the source computes.
     */
    method UpdateDocumentContentWithMerge(documentId: string, newContent: string, baseContent: string,
                                          username: string, now: Timestamp, diffs: DiffInput) returns (r: Reply)
      requires db.Valid()
      modifies db
      ensures db.Valid()
      ensures Outcome(db.Snapshot(), r) ==
        Rules.UpdateDocumentContentWithMerge(old(db.Snapshot()), documentId, newContent, baseContent, username, now, diffs)
    {
      var access := GetDocument(documentId, username);
      if !access.success {
        return Fail(access.message);
      }
      var document := access.document.value;
      if baseContent == document.data {
        var ok := db.UpdateDocument(document.(data := newContent, lastEdited := now));
        r := if ok then Reply(true, "Document content updated successfully.", Some(newContent)) else Fail("Failed to update document content.");
      } else {
        var merged := Merge.MergeDiffs(diffs.baseLines, diffs.currentDiff, diffs.newDiff);
        var ok := db.UpdateDocument(document.(data := merged, lastEdited := now));
        r := if ok then Reply(true, "Document content merged successfully.", Some(merged)) else Fail("Failed to update document content.");
      }
    }
  }
}
