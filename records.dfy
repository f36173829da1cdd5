/**
 * The records of the collaboration store (`User`, `Document` in
 * backend/database/db_interface.py), the in-memory image of the JSON file
 * (`Store`), and the `to_dict`/`from_dict` conversions the store goes
 * through on every write and read.
 */
module Records {

  datatype Option<+T> = None | Some(value: T)

  /**
   * A `datetime`, as a count of time units since a fixed origin. Its ISO
   * text (`isoformat()`) is modelled as the decimal numeral of that count.
   */
  type Timestamp = nat

  datatype User = User(username: string, password: string, documents: seq<string>)

  datatype Document = Document(id: string, title: string, data: string, lastEdited: Timestamp, users: seq<string>)

  /** The two top-level maps of the JSON file: `users` and `documents`. */
  datatype Store = Store(users: map<string, User>, documents: map<string, Document>)

  /** Every record is stored under its own key, as `create_*`/`update_*` write it. */
  predicate WellKeyed(s: Store) {
    && (forall u | u in s.users :: s.users[u].username == u)
    && (forall d | d in s.documents :: s.documents[d].id == d)
  }

  // ---------------------------------------------------------------------
  // Timestamp text
  // ---------------------------------------------------------------------

  predicate IsDigit(c: char) {
    '0' <= c <= '9'
  }

  function DigitChar(n: nat): (c: char)
    requires n < 10
    ensures IsDigit(c)
  {
    (48 + n) as char
  }

  function DigitValue(c: char): (n: nat)
    requires IsDigit(c)
    ensures n < 10 && DigitChar(n) == c
  {
    (c as int) - 48
  }

  /** `datetime.isoformat()`: the timestamp as text (here its decimal numeral). */
  function IsoFormat(t: Timestamp): (s: string)
    ensures |s| >= 1
    ensures forall i | 0 <= i < |s| :: IsDigit(s[i])
    decreases t
  {
    if t < 10 then [DigitChar(t)] else IsoFormat(t / 10) + [DigitChar(t % 10)]
  }

  /** `datetime.fromisoformat(s)`: fails (Python raises) on text that is not a timestamp. */
  function FromIsoFormat(s: string): (r: Option<Timestamp>)
    ensures r.Some? ==> s != [] && forall i | 0 <= i < |s| :: IsDigit(s[i])
    decreases |s|
  {
    if s == [] || !IsDigit(s[|s| - 1]) then None
    else if |s| == 1 then Some(DigitValue(s[0]))
    else match FromIsoFormat(s[..|s| - 1])
      case None => None
      case Some(v) => Some(10 * v + DigitValue(s[|s| - 1]))
  }

  /** A timestamp survives the ISO round trip. */
  lemma {:induction false} IsoRoundTrip(t: Timestamp)
    ensures FromIsoFormat(IsoFormat(t)) == Some(t)
    decreases t
  {
    if t >= 10 {
      IsoRoundTrip(t / 10);
      var s := IsoFormat(t);
      assert s[..|s| - 1] == IsoFormat(t / 10);
      assert DigitValue(DigitChar(t % 10)) == t % 10;
    }
  }

  // ---------------------------------------------------------------------
  // to_dict / from_dict
  // ---------------------------------------------------------------------

  /** The JSON values a record dictionary holds: strings and lists of strings. */
  datatype Json = JString(str: string) | JList(items: seq<string>)

  type JsonObject = map<string, Json>

  predicate HasString(d: JsonObject, key: string) {
    key in d && d[key].JString?
  }

  /** `d.get(key, [])` for a list-valued key; `None` when the value there is not a list. */
  function ListOrEmpty(d: JsonObject, key: string): Option<seq<string>> {
    if key !in d then Some([])
    else if d[key].JList? then Some(d[key].items)
    else None
  }

  /** `User.to_dict`. */
  function UserToDict(u: User): (d: JsonObject)
    ensures d.Keys == {"username", "password", "documents"}
  {
    map["username" := JString(u.username), "password" := JString(u.password), "documents" := JList(u.documents)]
  }

  /**
   * `User.from_dict`: `username` and `password` are required (a missing one
   * raises `KeyError` in Python), `documents` defaults to the empty list.
   */
  function UserFromDict(d: JsonObject): (r: Option<User>)
    ensures r.Some? <==> HasString(d, "username") && HasString(d, "password") && ListOrEmpty(d, "documents").Some?
    ensures r.Some? ==> r.value.username == d["username"].str && r.value.password == d["password"].str
    ensures r.Some? ==> Some(r.value.documents) == ListOrEmpty(d, "documents")
  {
    if !HasString(d, "username") || !HasString(d, "password") then None
    else match ListOrEmpty(d, "documents")
      case None => None
      case Some(docs) => Some(User(d["username"].str, d["password"].str, docs))
  }

  /** A user record read back from its dictionary is the record written. */
  lemma UserRoundTrip(u: User)
    ensures UserFromDict(UserToDict(u)) == Some(u)
  {
  }

  /** `Document.to_dict`: the timestamp is written as ISO text. */
  function DocumentToDict(doc: Document): (d: JsonObject)
    ensures d.Keys == {"id", "title", "data", "last_edited", "users"}
  {
    map["id" := JString(doc.id), "title" := JString(doc.title), "data" := JString(doc.data),
        "last_edited" := JString(IsoFormat(doc.lastEdited)), "users" := JList(doc.users)]
  }

  /**
   * `Document.from_dict`: `id`, `title`, `data` and `last_edited` are
   * required, `last_edited` must parse as ISO text, `users` defaults to the
   * empty list.
   */
  function DocumentFromDict(d: JsonObject): (r: Option<Document>)
    ensures r.Some? <==>
      && HasString(d, "id") && HasString(d, "title") && HasString(d, "data") && HasString(d, "last_edited")
      && FromIsoFormat(d["last_edited"].str).Some?
      && ListOrEmpty(d, "users").Some?
    ensures r.Some? ==> r.value.id == d["id"].str && r.value.title == d["title"].str && r.value.data == d["data"].str
    ensures r.Some? ==> FromIsoFormat(d["last_edited"].str) == Some(r.value.lastEdited)
    ensures r.Some? ==> Some(r.value.users) == ListOrEmpty(d, "users")
  {
    if !HasString(d, "id") || !HasString(d, "title") || !HasString(d, "data") || !HasString(d, "last_edited") then None
    else match (FromIsoFormat(d["last_edited"].str), ListOrEmpty(d, "users"))
      case (Some(t), Some(us)) => Some(Document(d["id"].str, d["title"].str, d["data"].str, t, us))
      case _ => None
  }

  /** A document read back from its dictionary is the document written, timestamp included. */
  lemma DocumentRoundTrip(doc: Document)
    ensures DocumentFromDict(DocumentToDict(doc)) == Some(doc)
  {
    IsoRoundTrip(doc.lastEdited);
  }
}
