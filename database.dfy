/**
 * `DatabaseInterface` of backend/database/db_interface.py: CRUD over the
 * `users` and `documents` maps of the JSON file, held here in memory.
 * Creating and deleting a document also updates the `documents` list of
 * every user the document lists; LinkDoc and UnlinkDoc give the effect of
 * those two loops.
 */
module Database {
  import opened Lists
  import opened Records

  // ---------------------------------------------------------------------
  // The loops over `document.users`
  // ---------------------------------------------------------------------

  /** One pass of the loop in `create_document`: add the id to an existing user's list unless it is there. */
  function LinkStep(users: map<string, User>, name: string, id: string): map<string, User> {
    if name in users && id !in users[name].documents
    then users[name := users[name].(documents := users[name].documents + [id])]
    else users
  }

  /** The whole loop of `create_document` over `names`. */
  function LinkDoc(users: map<string, User>, names: seq<string>, id: string): (r: map<string, User>)
    ensures r.Keys == users.Keys
    ensures forall u | u in users :: id in users[u].documents ==> r[u] == users[u]
    decreases |names|
  {
    if names == [] then users
    else LinkStep(LinkDoc(users, names[..|names| - 1], id), names[|names| - 1], id)
  }

  /** One pass of the loop in `delete_document`: remove one occurrence of the id from an existing user's list. */
  function UnlinkStep(users: map<string, User>, name: string, id: string): map<string, User> {
    if name in users && id in users[name].documents
    then users[name := users[name].(documents := RemoveFirst(users[name].documents, id))]
    else users
  }

  /** The whole loop of `delete_document` over `names`. */
  function UnlinkDoc(users: map<string, User>, names: seq<string>, id: string): (r: map<string, User>)
    ensures r.Keys == users.Keys
    ensures forall u | u in users :: id !in users[u].documents ==> r[u] == users[u]
    decreases |names|
  {
    if names == [] then users
    else UnlinkStep(UnlinkDoc(users, names[..|names| - 1], id), names[|names| - 1], id)
  }

  /**
   * After `create_document`'s loop, a listed user holds the id once more
   * only if it did not hold it before; unlisted users are untouched. A name
   * listed twice does not add the id twice.
   */
  lemma {:induction false} LinkDocEffect(users: map<string, User>, names: seq<string>, id: string)
    ensures LinkDoc(users, names, id).Keys == users.Keys
    ensures forall u | u in users ::
      LinkDoc(users, names, id)[u] ==
        if u in names && id !in users[u].documents
        then users[u].(documents := users[u].documents + [id])
        else users[u]
    decreases |names|
  {
    if names != [] {
      var prefix := names[..|names| - 1];
      var last := names[|names| - 1];
      LinkDocEffect(users, prefix, id);
      assert forall u :: u in names <==> u in prefix || u == last by {
        assert names == prefix + [last];
      }
    }
  }

  /** `delete_document`'s loop changes only the `documents` lists, and only of listed users. */
  lemma {:induction false} UnlinkDocFrame(users: map<string, User>, names: seq<string>, id: string)
    ensures UnlinkDoc(users, names, id).Keys == users.Keys
    ensures forall u | u in users ::
      && UnlinkDoc(users, names, id)[u].username == users[u].username
      && UnlinkDoc(users, names, id)[u].password == users[u].password
    ensures forall u | u in users && u !in names :: UnlinkDoc(users, names, id)[u] == users[u]
    decreases |names|
  {
    if names != [] {
      var prefix := names[..|names| - 1];
      UnlinkDocFrame(users, prefix, id);
      assert forall u :: u in prefix ==> u in names;
    }
  }

  /**
   * With no name listed twice (the business rules keep `users` duplicate
   * free), each listed user that holds the id loses exactly its first
   * occurrence.
   */
  lemma {:induction false} UnlinkDocEffect(users: map<string, User>, names: seq<string>, id: string)
    requires NoDup(names)
    ensures UnlinkDoc(users, names, id).Keys == users.Keys
    ensures forall u | u in users ::
      UnlinkDoc(users, names, id)[u] ==
        if u in names && id in users[u].documents
        then users[u].(documents := RemoveFirst(users[u].documents, id))
        else users[u]
    decreases |names|
  {
    if names != [] {
      var prefix := names[..|names| - 1];
      var last := names[|names| - 1];
      assert NoDup(prefix);
      assert last !in prefix;
      UnlinkDocEffect(users, prefix, id);
      assert forall u :: u in names <==> u in prefix || u == last by {
        assert names == prefix + [last];
      }
    }
  }

  /** The list `get_user_documents` builds: the listed ids that name a document, in list order. */
  function UserDocs(documents: map<string, Document>, ids: seq<string>): (r: seq<Document>)
    ensures |r| <= |ids|
    ensures forall k | 0 <= k < |r| :: r[k] in documents.Values
    decreases |ids|
  {
    if ids == [] then []
    else
      var last := ids[|ids| - 1];
      UserDocs(documents, ids[..|ids| - 1]) + (if last in documents then [documents[last]] else [])
  }

  /** When every listed id names a document, the result is exactly those documents, position by position. */
  lemma {:induction false} UserDocsAllPresent(documents: map<string, Document>, ids: seq<string>)
    requires forall j | 0 <= j < |ids| :: ids[j] in documents
    ensures |UserDocs(documents, ids)| == |ids|
    ensures forall j | 0 <= j < |ids| :: UserDocs(documents, ids)[j] == documents[ids[j]]
    decreases |ids|
  {
    if ids != [] {
      UserDocsAllPresent(documents, ids[..|ids| - 1]);
    }
  }

  // ---------------------------------------------------------------------
  // The store
  // ---------------------------------------------------------------------

  class DatabaseInterface {
    var users: map<string, User>
    var documents: map<string, Document>

    function Snapshot(): Store
      reads this
    {
      Store(users, documents)
    }

    predicate Valid()
      reads this
    {
      WellKeyed(Snapshot())
    }

    /** A store over a fresh file: `{"users": {}, "documents": {}}`. */
    constructor ()
      ensures Valid()
      ensures users == map[] && documents == map[]
    {
      users := map[];
      documents := map[];
    }

    /** `create_user`: refuses an existing username, otherwise adds exactly that key. */
    method CreateUser(user: User) returns (ok: bool)
      requires Valid()
      modifies this`users
      ensures Valid()
      ensures ok <==> user.username !in old(users)
      ensures users == if ok then old(users)[user.username := user] else old(users)
    {
      if user.username in users {
        return false;
      }
      users := users[user.username := user];
      return true;
    }

    /** `get_user`: the stored record, or nothing for an unknown username. */
    method GetUser(username: string) returns (r: Option<User>)
      requires Valid()
      ensures r.Some? <==> username in users
      ensures r.Some? ==> r.value == users[username] && r.value.username == username
    {
      if username in users {
        r := Some(users[username]);
      } else {
        r := None;
      }
    }

    /** `update_user`: refuses an unknown username, otherwise replaces only that entry. */
    method UpdateUser(user: User) returns (ok: bool)
      requires Valid()
      modifies this`users
      ensures Valid()
      ensures ok <==> user.username in old(users)
      ensures users == if ok then old(users)[user.username := user] else old(users)
    {
      if user.username !in users {
        return false;
      }
      users := users[user.username := user];
      return true;
    }

    /** `delete_user`: removes only that user's key; documents still listing the user are left as they are. */
    method DeleteUser(username: string) returns (ok: bool)
      requires Valid()
      modifies this`users
      ensures Valid()
      ensures ok <==> username in old(users)
      ensures users == old(users) - {username}
    {
      if username !in users {
        return false;
      }
      users := users - {username};
      return true;
    }

    /**
     * `create_document`: refuses an existing id; otherwise stores the
     * document and adds its id to the `documents` list of every listed user
     * that exists, without duplicating it.
     */
    method CreateDocument(document: Document) returns (ok: bool)
      requires Valid()
      modifies this
      ensures Valid()
      ensures ok <==> document.id !in old(documents)
      ensures ok ==> documents == old(documents)[document.id := document]
      ensures ok ==> users == LinkDoc(old(users), document.users, document.id)
      ensures !ok ==> users == old(users) && documents == old(documents)
    {
      if document.id in documents {
        return false;
      }
      documents := documents[document.id := document];
      var i := 0;
      while i < |document.users|
        invariant 0 <= i <= |document.users|
        invariant users == LinkDoc(old(users), document.users[..i], document.id)
        invariant documents == old(documents)[document.id := document]
      {
        var username := document.users[i];
        assert document.users[..i + 1][..i] == document.users[..i];
        if username in users {
          var userData := users[username];
          if document.id !in userData.documents {
            users := users[username := userData.(documents := userData.documents + [document.id])];
          }
        }
        i := i + 1;
      }
      assert document.users[..i] == document.users;
      LinkDocEffect(old(users), document.users, document.id);
      return true;
    }

    /** `get_document`: the stored record, or nothing for an unknown id. */
    method GetDocument(documentId: string) returns (r: Option<Document>)
      requires Valid()
      ensures r.Some? <==> documentId in documents
      ensures r.Some? ==> r.value == documents[documentId] && r.value.id == documentId
    {
      if documentId in documents {
        r := Some(documents[documentId]);
      } else {
        r := None;
      }
    }

    /** `update_document`: refuses an unknown id, otherwise replaces only that entry. */
    method UpdateDocument(document: Document) returns (ok: bool)
      requires Valid()
      modifies this`documents
      ensures Valid()
      ensures ok <==> document.id in old(documents)
      ensures documents == if ok then old(documents)[document.id := document] else old(documents)
    {
      if document.id !in documents {
        return false;
      }
      documents := documents[document.id := document];
      return true;
    }

    /**
     * `delete_document`: refuses an unknown id; otherwise removes one
     * occurrence of the id from the list of every user the document lists,
     * then removes the document. Other users are untouched.
     */
    method DeleteDocument(documentId: string) returns (ok: bool)
      requires Valid()
      modifies this
      ensures Valid()
      ensures ok <==> documentId in old(documents)
      ensures ok ==> documents == old(documents) - {documentId}
      ensures ok ==> users == UnlinkDoc(old(users), old(documents)[documentId].users, documentId)
      ensures !ok ==> users == old(users) && documents == old(documents)
    {
      if documentId !in documents {
        return false;
      }
      var document := documents[documentId];
      var i := 0;
      while i < |document.users|
        invariant 0 <= i <= |document.users|
        invariant users == UnlinkDoc(old(users), document.users[..i], documentId)
        invariant documents == old(documents)
      {
        var username := document.users[i];
        assert document.users[..i + 1][..i] == document.users[..i];
        if username in users {
          var userData := users[username];
          if documentId in userData.documents {
            users := users[username := userData.(documents := RemoveFirst(userData.documents, documentId))];
          }
        }
        i := i + 1;
      }
      assert document.users[..i] == document.users;
      UnlinkDocFrame(old(users), document.users, documentId);
      documents := documents - {documentId};
      return true;
    }

    /**
     * `get_user_documents`: nothing for an unknown user; otherwise the
     * user's documents in list order, skipping ids that name no document.
     */
    method GetUserDocuments(username: string) returns (r: seq<Document>)
      requires Valid()
      ensures username !in users ==> r == []
      ensures username in users ==> r == UserDocs(documents, users[username].documents)
      ensures username in users ==> |r| <= |users[username].documents|
    {
      if username !in users {
        return [];
      }
      var ids := users[username].documents;
      r := [];
      var i := 0;
      while i < |ids|
        invariant 0 <= i <= |ids|
        invariant r == UserDocs(documents, ids[..i])
      {
        assert ids[..i + 1][..i] == ids[..i];
        if ids[i] in documents {
          r := r + [documents[ids[i]]];
        }
        i := i + 1;
      }
      assert ids[..i] == ids;
    }
  }
}
