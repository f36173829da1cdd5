/**
 * The business rules of backend/interactor/business_logic.py as functions
 * of the store: each operation's reply and the store it leaves. The class
 * `BusinessLogic` (business_logic.dfy) is proved to have exactly these
 * effects. `Consistent` is the sharing invariant the rules keep: a user
 * lists a document exactly when the document lists the user, with no
 * duplicates on either side.
 */
module Rules {
  import opened Lists
  import opened Records
  import Database
  import Merge

  /** `(success, message)` or `(success, message, payload)` as the source returns them. */
  datatype Reply = Reply(success: bool, message: string, payload: Option<string>)

  /** An operation's reply together with the store it leaves behind. */
  datatype Outcome = Outcome(store: Store, reply: Reply)

  datatype DocumentReply = DocumentReply(success: bool, message: string, document: Option<Document>)

  datatype DocumentsReply = DocumentsReply(success: bool, message: string, documents: seq<Document>)

  /**
   * What `splitlines(True)` and `difflib.Differ().compare` produce for a
   * merge: the base content's lines, the diff base -> current content and
   * the diff base -> submitted content.
   */
  datatype DiffInput = DiffInput(baseLines: seq<string>, currentDiff: seq<string>, newDiff: seq<string>)

  function Fail(message: string): Reply {
    Reply(false, message, None)
  }

  /** `m'` has the keys of `m` and the same value under every key but `k`. */
  predicate OnlyChanged<V(==)>(m: map<string, V>, m': map<string, V>, k: string) {
    m'.Keys == m.Keys && forall x | x in m && x != k :: m'[x] == m[x]
  }

  // ---------------------------------------------------------------------
  // Users
  // ---------------------------------------------------------------------

  /** `register_user`. */
  function RegisterUser(s: Store, username: string, password: string): (o: Outcome)
    ensures o.reply.success <==> username != "" && password != "" && username !in s.users
    ensures !o.reply.success ==> o.store == s && o.reply.payload == None
    ensures o.reply.message ==
      if username == "" || password == "" then "Username and password are required."
      else if username in s.users then "Username already exists."
      else "User registered successfully."
    ensures o.reply.success ==>
      && o.store.documents == s.documents
      && o.store.users.Keys == s.users.Keys + {username}
      && o.store.users[username] == User(username, password, [])
      && forall u | u in s.users :: o.store.users[u] == s.users[u]
  {
    if username == "" || password == "" then Outcome(s, Fail("Username and password are required."))
    else if username in s.users then Outcome(s, Fail("Username already exists."))
    else Outcome(Store(s.users[username := User(username, password, [])], s.documents),
                 Reply(true, "User registered successfully.", None))
  }

  /** `authenticate_user`: a lookup; the store is not an output. */
  function AuthenticateUser(s: Store, username: string, password: string): (r: Reply)
    ensures r.success <==> username in s.users && s.users[username].password == password
    ensures username !in s.users ==> r.message == "User not found."
    ensures username in s.users && s.users[username].password != password ==> r.message == "Invalid password."
    ensures r.success ==> r.message == "Authentication successful."
  {
    if username !in s.users then Fail("User not found.")
    else if s.users[username].password != password then Fail("Invalid password.")
    else Reply(true, "Authentication successful.", None)
  }

  // ---------------------------------------------------------------------
  // Documents
  // ---------------------------------------------------------------------

  /** `create_document`, with the id `uuid4()` would draw and the time `now()` would read. */
  function CreateDocument(s: Store, title: string, username: string, id: string, now: Timestamp): (o: Outcome)
    ensures o.reply.success <==> username in s.users && id !in s.documents
    ensures !o.reply.success ==> o.store == s && o.reply.payload == None
    ensures username !in s.users ==> o.reply.message == "User not found."
    ensures username in s.users && id in s.documents ==> o.reply.message == "Failed to create document."
    ensures o.reply.success ==> o.reply.message == "Document created successfully."
    ensures o.reply.success ==>
      && o.reply.payload == Some(id)
      && o.store.documents.Keys == s.documents.Keys + {id}
      && o.store.documents[id] == Document(id, title, "", now, [username])
      && (forall d | d in s.documents :: o.store.documents[d] == s.documents[d])
      && OnlyChanged(s.users, o.store.users, username)
      && o.store.users[username] == s.users[username].(documents := s.users[username].documents + [id])
  {
    if username !in s.users then Outcome(s, Fail("User not found."))
    else if id in s.documents then Outcome(s, Fail("Failed to create document."))
    else
      var user := s.users[username];
      Outcome(Store(s.users[username := user.(documents := user.documents + [id])],
                    s.documents[id := Document(id, title, "", now, [username])]),
              Reply(true, "Document created successfully.", Some(id)))
  }

  /** `get_document`: the access check every other document operation starts with. */
  function GetDocument(s: Store, documentId: string, username: string): (r: DocumentReply)
    ensures r.success <==> documentId in s.documents && username in s.documents[documentId].users
    ensures r.success ==> r.document == Some(s.documents[documentId])
    ensures !r.success ==> r.document == None
    ensures documentId !in s.documents ==> r.message == "Document not found."
    ensures documentId in s.documents && username !in s.documents[documentId].users ==>
      r.message == "User does not have access to this document."
    ensures r.success ==> r.message == "Document retrieved successfully."
  {
    if documentId !in s.documents then DocumentReply(false, "Document not found.", None)
    else if username !in s.documents[documentId].users then DocumentReply(false, "User does not have access to this document.", None)
    else DocumentReply(true, "Document retrieved successfully.", Some(s.documents[documentId]))
  }

  /** A failed access check is returned as it is, and nothing changes. */
  predicate Guarded(s: Store, documentId: string, username: string, o: Outcome) {
    var access := GetDocument(s, documentId, username);
    access.success || o == Outcome(s, Fail(access.message))
  }

  /** `update_document_title`. */
  function UpdateDocumentTitle(s: Store, documentId: string, title: string, username: string, now: Timestamp): (o: Outcome)
    ensures Guarded(s, documentId, username, o)
    ensures o.reply.success <==> GetDocument(s, documentId, username).success
    ensures o.reply.success ==> o.reply.message == "Document title updated successfully."
    ensures o.reply.success ==>
      && o.store.users == s.users
      && OnlyChanged(s.documents, o.store.documents, documentId)
      && o.store.documents[documentId].title == title
      && o.store.documents[documentId].lastEdited == now
      && o.store.documents[documentId].(title := s.documents[documentId].title, lastEdited := s.documents[documentId].lastEdited)
         == s.documents[documentId]
  {
    var access := GetDocument(s, documentId, username);
    if !access.success then Outcome(s, Fail(access.message))
    else
      var doc := s.documents[documentId];
      Outcome(Store(s.users, s.documents[documentId := doc.(title := title, lastEdited := now)]),
              Reply(true, "Document title updated successfully.", None))
  }

  /** `delete_document`: the store's delete also unlinks the document from its users. */
  function DeleteDocument(s: Store, documentId: string, username: string): (o: Outcome)
    ensures Guarded(s, documentId, username, o)
    ensures o.reply.success <==> GetDocument(s, documentId, username).success
    ensures o.reply.success ==> o.reply.message == "Document deleted successfully."
    ensures o.reply.success ==> o.store.documents == s.documents - {documentId}
    ensures o.reply.success ==>
      && o.store.users.Keys == s.users.Keys
      && (forall u | u in s.users && u !in s.documents[documentId].users :: o.store.users[u] == s.users[u])
      && (forall u | u in s.users ::
            o.store.users[u].username == s.users[u].username && o.store.users[u].password == s.users[u].password)
    ensures o.reply.success && NoDup(s.documents[documentId].users) ==>
      forall u | u in s.users ::
        o.store.users[u] ==
          if u in s.documents[documentId].users && documentId in s.users[u].documents
          then s.users[u].(documents := RemoveFirst(s.users[u].documents, documentId))
          else s.users[u]
  {
    var access := GetDocument(s, documentId, username);
    if !access.success then Outcome(s, Fail(access.message))
    else
      var doc := s.documents[documentId];
      Database.UnlinkDocFrame(s.users, doc.users, documentId);
      assert NoDup(doc.users) ==> forall u | u in s.users ::
        Database.UnlinkDoc(s.users, doc.users, documentId)[u] ==
          if u in doc.users && documentId in s.users[u].documents
          then s.users[u].(documents := RemoveFirst(s.users[u].documents, documentId))
          else s.users[u]
      by {
        if NoDup(doc.users) {
          Database.UnlinkDocEffect(s.users, doc.users, documentId);
        }
      }
      Outcome(Store(Database.UnlinkDoc(s.users, doc.users, documentId), s.documents - {documentId}),
              Reply(true, "Document deleted successfully.", None))
  }

  /** `get_user_documents`. */
  function GetUserDocuments(s: Store, username: string): (r: DocumentsReply)
    ensures r.success <==> username in s.users
    ensures !r.success ==> r.documents == []
    ensures r.success ==> |r.documents| <= |s.users[username].documents|
  {
    if username !in s.users then DocumentsReply(false, "User not found.", [])
    else DocumentsReply(true, "Documents retrieved successfully.", Database.UserDocs(s.documents, s.users[username].documents))
  }

  /**
   * Under the sharing invariant every id a user lists names a document, so
   * `get_user_documents` returns exactly the user's documents, in list order.
   */
  lemma GetUserDocumentsComplete(s: Store, username: string)
    requires Consistent(s) && username in s.users
    ensures var r := GetUserDocuments(s, username);
      var ids := s.users[username].documents;
      && |r.documents| == |ids|
      && forall j | 0 <= j < |ids| :: r.documents[j] == s.documents[ids[j]]
  {
    var ids := s.users[username].documents;
    assert forall j | 0 <= j < |ids| :: ids[j] in s.users[username].documents;
    Database.UserDocsAllPresent(s.documents, ids);
  }

  /** `add_user_to_document`. */
  function AddUserToDocument(s: Store, documentId: string, username: string, addedBy: string): (o: Outcome)
    ensures Guarded(s, documentId, addedBy, o)
    ensures o.reply.success <==>
      && GetDocument(s, documentId, addedBy).success
      && username in s.users
      && username !in s.documents[documentId].users
    ensures !o.reply.success ==> o.store == s
    ensures GetDocument(s, documentId, addedBy).success && username !in s.users ==> o.reply.message == "User to add not found."
    ensures GetDocument(s, documentId, addedBy).success && username in s.users && username in s.documents[documentId].users ==>
      o.reply.message == "User already has access to this document."
    ensures o.reply.success ==> o.reply.message == "User added to document successfully."
    ensures o.reply.success ==>
      && OnlyChanged(s.documents, o.store.documents, documentId)
      && o.store.documents[documentId] == s.documents[documentId].(users := s.documents[documentId].users + [username])
      && OnlyChanged(s.users, o.store.users, username)
      && o.store.users[username].documents ==
           (if documentId in s.users[username].documents then s.users[username].documents
            else s.users[username].documents + [documentId])
      && o.store.users[username].(documents := s.users[username].documents) == s.users[username]
  {
    var access := GetDocument(s, documentId, addedBy);
    if !access.success then Outcome(s, Fail(access.message))
    else if username !in s.users then Outcome(s, Fail("User to add not found."))
    else
      var doc := s.documents[documentId];
      if username in doc.users then Outcome(s, Fail("User already has access to this document."))
      else
        var target := s.users[username];
        var users' := if documentId !in target.documents
                      then s.users[username := target.(documents := target.documents + [documentId])]
                      else s.users;
        Outcome(Store(users', s.documents[documentId := doc.(users := doc.users + [username])]),
                Reply(true, "User added to document successfully.", None))
  }

  /** `remove_user_from_document`. */
  function RemoveUserFromDocument(s: Store, documentId: string, username: string, removedBy: string): (o: Outcome)
    ensures Guarded(s, documentId, removedBy, o)
    ensures o.reply.success <==>
      GetDocument(s, documentId, removedBy).success && username in s.documents[documentId].users
    ensures !o.reply.success ==> o.store == s
    ensures GetDocument(s, documentId, removedBy).success && username !in s.documents[documentId].users ==>
      o.reply.message == "User does not have access to this document."
    ensures o.reply.success ==> o.reply.message == "User removed from document successfully."
    ensures o.reply.success ==>
      && OnlyChanged(s.documents, o.store.documents, documentId)
      && o.store.documents[documentId].users == RemoveFirst(s.documents[documentId].users, username)
      && o.store.documents[documentId].(users := s.documents[documentId].users) == s.documents[documentId]
      && OnlyChanged(s.users, o.store.users, username)
    ensures o.reply.success && username in s.users && documentId in s.users[username].documents ==>
      && o.store.users[username].documents == RemoveFirst(s.users[username].documents, documentId)
      && o.store.users[username].(documents := s.users[username].documents) == s.users[username]
    ensures o.reply.success && !(username in s.users && documentId in s.users[username].documents) ==>
      o.store.users == s.users
  {
    var access := GetDocument(s, documentId, removedBy);
    if !access.success then Outcome(s, Fail(access.message))
    else
      var doc := s.documents[documentId];
      if username !in doc.users then Outcome(s, Fail("User does not have access to this document."))
      else
        var documents' := s.documents[documentId := doc.(users := RemoveFirst(doc.users, username))];
        var users' := if username in s.users && documentId in s.users[username].documents
                      then s.users[username := s.users[username].(documents := RemoveFirst(s.users[username].documents, documentId))]
                      else s.users;
        Outcome(Store(users', documents'), Reply(true, "User removed from document successfully.", None))
  }

  /** `update_document_content`: last write wins. */
  function UpdateDocumentContent(s: Store, documentId: string, content: string, username: string, now: Timestamp): (o: Outcome)
    ensures Guarded(s, documentId, username, o)
    ensures o.reply.success <==> GetDocument(s, documentId, username).success
    ensures o.reply.success ==>
      && o.reply.message == "Document content updated successfully."
      && o.reply.payload == Some(content)
      && o.store.users == s.users
      && OnlyChanged(s.documents, o.store.documents, documentId)
      && o.store.documents[documentId].data == content
      && o.store.documents[documentId].lastEdited == now
      && o.store.documents[documentId].(data := s.documents[documentId].data, lastEdited := s.documents[documentId].lastEdited)
         == s.documents[documentId]
  {
    var access := GetDocument(s, documentId, username);
    if !access.success then Outcome(s, Fail(access.message))
    else
      var doc := s.documents[documentId];
      Outcome(Store(s.users, s.documents[documentId := doc.(data := content, lastEdited := now)]),
              Reply(true, "Document content updated successfully.", Some(content)))
  }

  /** The merged text `_merge_diffs` produces for the given diff input. */
  function MergedContent(diffs: DiffInput): string {
    Merge.Join(Merge.MergedPrefix(diffs.baseLines, Merge.Changes(diffs.currentDiff), Merge.Changes(diffs.newDiff), |diffs.baseLines|))
  }

  /**
   * `update_document_content_with_merge`: an edit made against the current
   * content is stored as submitted; otherwise the two diffs are merged. The
   * reply carries exactly the content that is stored.
   */
  function UpdateDocumentContentWithMerge(s: Store, documentId: string, newContent: string, baseContent: string,
                                          username: string, now: Timestamp, diffs: DiffInput): (o: Outcome)
    ensures Guarded(s, documentId, username, o)
    ensures o.reply.success <==> GetDocument(s, documentId, username).success
    ensures o.reply.success ==>
      && o.store.users == s.users
      && OnlyChanged(s.documents, o.store.documents, documentId)
      && o.reply.payload == Some(o.store.documents[documentId].data)
      && o.store.documents[documentId].lastEdited == now
      && o.store.documents[documentId].(data := s.documents[documentId].data, lastEdited := s.documents[documentId].lastEdited)
         == s.documents[documentId]
    ensures o.reply.success && baseContent == s.documents[documentId].data ==>
      o.store.documents[documentId].data == newContent && o.reply.message == "Document content updated successfully."
    ensures o.reply.success && baseContent != s.documents[documentId].data ==>
      o.store.documents[documentId].data == MergedContent(diffs) && o.reply.message == "Document content merged successfully."
  {
    var access := GetDocument(s, documentId, username);
    if !access.success then Outcome(s, Fail(access.message))
    else
      var doc := s.documents[documentId];
      if baseContent == doc.data then
        Outcome(Store(s.users, s.documents[documentId := doc.(data := newContent, lastEdited := now)]),
                Reply(true, "Document content updated successfully.", Some(newContent)))
      else
        var merged := MergedContent(diffs);
        Outcome(Store(s.users, s.documents[documentId := doc.(data := merged, lastEdited := now)]),
                Reply(true, "Document content merged successfully.", Some(merged)))
  }

  /** Submitting the current content against the current content changes no text. */
  lemma MergeIdempotent(s: Store, documentId: string, username: string, now: Timestamp, diffs: DiffInput)
    requires documentId in s.documents && username in s.documents[documentId].users
    ensures var current := s.documents[documentId].data;
      var o := UpdateDocumentContentWithMerge(s, documentId, current, current, username, now, diffs);
      o.reply == Reply(true, "Document content updated successfully.", Some(current))
      && o.store.documents[documentId].data == current
  {
  }

  // ---------------------------------------------------------------------
  // The sharing invariant
  // ---------------------------------------------------------------------

  /**
   * Records sit under their own keys, no list holds a name twice, every
   * member of a document is a user, and a user lists a document exactly
   * when the document lists the user.
   */
  predicate Consistent(s: Store) {
    && WellKeyed(s)
    && (forall u | u in s.users :: NoDup(s.users[u].documents))
    && (forall d | d in s.documents :: NoDup(s.documents[d].users))
    && (forall d, u | d in s.documents && u in s.documents[d].users :: u in s.users && d in s.users[u].documents)
    && (forall u, d | u in s.users && d in s.users[u].documents :: d in s.documents && u in s.documents[d].users)
  }

  lemma EmptyConsistent()
    ensures Consistent(Store(map[], map[]))
  {
  }

  lemma RegisterUserKeepsConsistent(s: Store, username: string, password: string)
    requires Consistent(s)
    ensures Consistent(RegisterUser(s, username, password).store)
  {
  }

  /** Replacing a document's record by one with the same id and members keeps the invariant. */
  lemma ReplaceDocumentKeepsConsistent(s: Store, doc: Document)
    requires Consistent(s)
    requires doc.id in s.documents && doc.users == s.documents[doc.id].users
    ensures Consistent(Store(s.users, s.documents[doc.id := doc]))
  {
  }

  /** The creator ends up listing the new document exactly once, and the invariant holds. */
  lemma CreateDocumentKeepsConsistent(s: Store, title: string, username: string, id: string, now: Timestamp)
    requires Consistent(s)
    ensures var o := CreateDocument(s, title, username, id, now);
      && Consistent(o.store)
      && (o.reply.success ==> multiset(o.store.users[username].documents)[id] == 1)
  {
    var o := CreateDocument(s, title, username, id, now);
    if o.reply.success {
      var user := s.users[username];
      assert id !in user.documents;
      AppendNoDup(user.documents, id);
      NoDupOnce(user.documents + [id], id);
      var t := o.store;
      forall d, u | d in t.documents && u in t.documents[d].users
        ensures u in t.users && d in t.users[u].documents
      {
        if d != id {
          assert u in s.users && d in s.users[u].documents;
        }
      }
      forall u, d | u in t.users && d in t.users[u].documents
        ensures d in t.documents && u in t.documents[d].users
      {
        if u == username && d == id {
        } else {
          assert d in s.users[u].documents;
        }
      }
    }
  }

  /** What unlinking does to one user's list: the id is gone, other ids keep their membership. */
  lemma DropId(docs: seq<string>, id: string, r: seq<string>)
    requires NoDup(docs)
    requires r == if id in docs then RemoveFirst(docs, id) else docs
    ensures NoDup(r) && id !in r
    ensures forall d | d != id :: d in r <==> d in docs
  {
    if id in docs {
      RemoveFirstNoDup(docs, id);
      forall d | d != id
        ensures d in r <==> d in docs
      {
        RemoveFirstKeepsOthers(docs, id, d);
      }
    }
  }

  /**
   * A store with one document removed, and with that id dropped from every
   * user's list while other ids keep their membership, is consistent.
   */
  lemma UnlinkedStoreConsistent(s: Store, documentId: string, t: Store)
    requires Consistent(s)
    requires t.documents == s.documents - {documentId}
    requires t.users.Keys == s.users.Keys
    requires forall u | u in t.users :: t.users[u].username == u
    requires forall u | u in t.users :: NoDup(t.users[u].documents) && documentId !in t.users[u].documents
    requires forall u | u in t.users :: forall d | d != documentId :: d in t.users[u].documents <==> d in s.users[u].documents
    ensures Consistent(t)
  {
    forall d, u | d in t.documents && u in t.documents[d].users
      ensures u in t.users && d in t.users[u].documents
    {
      assert d in s.users[u].documents;
    }
  }

  /** After a delete no user lists the document, and the invariant holds. */
  lemma DeleteDocumentKeepsConsistent(s: Store, documentId: string, username: string)
    requires Consistent(s)
    ensures var o := DeleteDocument(s, documentId, username);
      && Consistent(o.store)
      && (o.reply.success ==> forall u | u in o.store.users :: documentId !in o.store.users[u].documents)
  {
    var o := DeleteDocument(s, documentId, username);
    if o.reply.success {
      var doc := s.documents[documentId];
      var users := Database.UnlinkDoc(s.users, doc.users, documentId);
      Database.UnlinkDocEffect(s.users, doc.users, documentId);
      forall u | u in users
        ensures users[u].username == u
        ensures NoDup(users[u].documents) && documentId !in users[u].documents
        ensures forall d | d != documentId :: d in users[u].documents <==> d in s.users[u].documents
      {
        var docs := s.users[u].documents;
        assert u in doc.users <==> documentId in docs;
        DropId(docs, documentId, users[u].documents);
      }
      UnlinkedStoreConsistent(s, documentId, o.store);
    }
  }

  /** The added user and the document list each other once, and the invariant holds. */
  lemma AddUserToDocumentKeepsConsistent(s: Store, documentId: string, username: string, addedBy: string)
    requires Consistent(s)
    ensures var o := AddUserToDocument(s, documentId, username, addedBy);
      && Consistent(o.store)
      && (o.reply.success ==>
            && multiset(o.store.documents[documentId].users)[username] == 1
            && multiset(o.store.users[username].documents)[documentId] == 1)
  {
    var o := AddUserToDocument(s, documentId, username, addedBy);
    if o.reply.success {
      var doc := s.documents[documentId];
      var target := s.users[username];
      assert documentId !in target.documents;
      AppendNoDup(doc.users, username);
      AppendNoDup(target.documents, documentId);
      NoDupOnce(doc.users + [username], username);
      NoDupOnce(target.documents + [documentId], documentId);
      var t := o.store;
      forall d, u | d in t.documents && u in t.documents[d].users
        ensures u in t.users && d in t.users[u].documents
      {
        if !(d == documentId && u == username) {
          assert u in s.documents[d].users;
        }
      }
      forall u, d | u in t.users && d in t.users[u].documents
        ensures d in t.documents && u in t.documents[d].users
      {
        if !(u == username && d == documentId) {
          assert d in s.users[u].documents;
        }
      }
    }
  }

  /** The removed user and the document no longer list each other, and the invariant holds. */
  lemma RemoveUserFromDocumentKeepsConsistent(s: Store, documentId: string, username: string, removedBy: string)
    requires Consistent(s)
    ensures var o := RemoveUserFromDocument(s, documentId, username, removedBy);
      && Consistent(o.store)
      && (o.reply.success ==>
            && username !in o.store.documents[documentId].users
            && username in o.store.users
            && documentId !in o.store.users[username].documents)
  {
    var o := RemoveUserFromDocument(s, documentId, username, removedBy);
    if o.reply.success {
      var doc := s.documents[documentId];
      var target := s.users[username];
      RemoveFirstNoDup(doc.users, username);
      RemoveFirstNoDup(target.documents, documentId);
      var t := o.store;
      forall d, u | d in t.documents && u in t.documents[d].users
        ensures u in t.users && d in t.users[u].documents
      {
        if d == documentId {
          RemoveFirstKeepsOthers(doc.users, username, u);
          assert u != username;
        } else {
          assert u in s.documents[d].users;
          if u == username { RemoveFirstKeepsOthers(target.documents, documentId, d); }
        }
      }
      forall u, d | u in t.users && d in t.users[u].documents
        ensures d in t.documents && u in t.documents[d].users
      {
        if u == username {
          RemoveFirstKeepsOthers(target.documents, documentId, d);
          assert d != documentId;
        } else {
          assert d in s.users[u].documents;
          if d == documentId { RemoveFirstKeepsOthers(doc.users, username, u); }
        }
      }
    }
  }

  lemma UpdateDocumentTitleKeepsConsistent(s: Store, documentId: string, title: string, username: string, now: Timestamp)
    requires Consistent(s)
    ensures Consistent(UpdateDocumentTitle(s, documentId, title, username, now).store)
  {
    if GetDocument(s, documentId, username).success {
      var doc := s.documents[documentId];
      ReplaceDocumentKeepsConsistent(s, doc.(title := title, lastEdited := now));
    }
  }

  lemma UpdateDocumentContentKeepsConsistent(s: Store, documentId: string, content: string, username: string, now: Timestamp)
    requires Consistent(s)
    ensures Consistent(UpdateDocumentContent(s, documentId, content, username, now).store)
  {
    if GetDocument(s, documentId, username).success {
      var doc := s.documents[documentId];
      ReplaceDocumentKeepsConsistent(s, doc.(data := content, lastEdited := now));
    }
  }

  lemma UpdateDocumentContentWithMergeKeepsConsistent(s: Store, documentId: string, newContent: string, baseContent: string,
                                                      username: string, now: Timestamp, diffs: DiffInput)
    requires Consistent(s)
    ensures Consistent(UpdateDocumentContentWithMerge(s, documentId, newContent, baseContent, username, now, diffs).store)
  {
    if GetDocument(s, documentId, username).success {
      var doc := s.documents[documentId];
      var o := UpdateDocumentContentWithMerge(s, documentId, newContent, baseContent, username, now, diffs);
      ReplaceDocumentKeepsConsistent(s, o.store.documents[documentId]);
    }
  }
}
