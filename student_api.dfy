/**
 * The two request handlers of backend/index.js over the `students`
 * collection: `POST /api/check-student`, a read-only lookup, and
 * `POST /api/submit`, which registers a new student or updates an existing
 * one with the whitelisted fields of the request.
 *
 * `CheckOutcome` and `SubmitOutcome` say on values what each handler answers
 * and what the collection becomes; the class `StudentStore` holds the
 * collection as mutable state and its methods do what the handlers do, step
 * by step, proved against those two functions.
 */
module StudentApi {
  import opened JsText
  import opened StudentSchema

  datatype Option<T> = None | Some(value: T)

  /** A parsed JSON request body; a key missing from the map reads as `undefined`. */
  type Body = map<string, string>

  /** `body[field]`, with `undefined` as `None`. */
  function Get(body: Body, field: string): Option<string> {
    if field in body then Some(body[field]) else None
  }

  /** The body field check-student reads its key from (the front end puts the
      `studentId` there). */
  const CheckKeyField: string := "email"

  /** The fields submit copies from the body, in the order it lists them. */
  const Whitelist: seq<Field> := [
    FirstName, LastName, Email, Password, Education,
    Major, DegreeStart, DegreeEnd, Gender
  ]

  /** The JSON keys a handler's answer carries its text under. */
  const ErrorKey: string := "error"
  const MessageKey: string := "message"

  const MissingKeyError: string := "Missing student ID"
  const MissingKeyMessage: string := "Missing studentId"
  const UpdatedMessage: string := " Student details updated successfully!"
  const CreatedMessage: string := " Registration successful!"
  const NotFoundMessage: string := "Student not found during update."

  /** What a handler sends back. `BadRequest` is a 400 whose body is
      `{ [bodyKey]: text }`; `Exists` and `NotExists` are the 200 bodies
      `{ exists: true, student }` and `{ exists: false }`; `Updated` and
      `Created` are the 200 and 201 bodies of submit, which also carry a
      `message`; `NotFoundDuringUpdate` is the 404. */
  datatype Response =
    | BadRequest(bodyKey: string, text: string)
    | Exists(student: Record)
    | NotExists
    | Updated(updatedStudent: Record)
    | Created(newStudent: Record)
    | NotFoundDuringUpdate
  {
    /** The HTTP status code. */
    function Status(): int {
      match this
      case BadRequest(_, _) => 400
      case Exists(_) => 200
      case NotExists => 200
      case Updated(_) => 200
      case Created(_) => 201
      case NotFoundDuringUpdate => 404
    }

    /** The text entry of the JSON body as (key, text); the two answers of a
        successful check carry none. */
    function Note(): Option<(string, string)> {
      match this
      case BadRequest(k, t) => Some((k, t))
      case Exists(_) => None
      case NotExists => None
      case Updated(_) => Some((MessageKey, UpdatedMessage))
      case Created(_) => Some((MessageKey, CreatedMessage))
      case NotFoundDuringUpdate => Some((MessageKey, NotFoundMessage))
    }
  }

  /** The whitelist is the schema without its key: submit never writes
      `studentId`, and writes every other field the body supplies. */
  lemma WhitelistIsSchemaWithoutKey()
    ensures forall f :: f in Whitelist <==> f != StudentId
    ensures |Whitelist| == 9
  {
  }

  // ---------------------------------------------------------------------
  // POST /api/check-student

  /** check-student: a key missing from `email`, or blank once trimmed, is a
      400; otherwise the answer says whether a document has that trimmed key,
      and carries it when one does. */
  function CheckOutcome(store: Store, body: Body): (r: Response)
    ensures r.BadRequest? <==> (CheckKeyField !in body || AllWhitespace(body[CheckKeyField]))
    ensures r.BadRequest? ==> r == BadRequest(ErrorKey, MissingKeyError) && r.Status() == 400
    ensures r.Exists? <==> !r.BadRequest? && Trim(body[CheckKeyField]) in store
    ensures r.Exists? ==> r.student == store[Trim(body[CheckKeyField])] && r.Status() == 200
    ensures r.BadRequest? || r.Exists? || r.NotExists?
  {
    match Get(body, CheckKeyField)
    case None => BadRequest(ErrorKey, MissingKeyError)
    case Some(raw) =>
      var studentId := Trim(raw);
      if studentId == [] then BadRequest(ErrorKey, MissingKeyError)
      else if studentId in store then Exists(store[studentId])
      else NotExists
  }

  /** check-student trims its key: a stored key padded with white space
      gets the same answer as the bare key. */
  lemma CheckIgnoresPadding(store: Store, pre: string, key: string, post: string)
    requires AllWhitespace(pre) && AllWhitespace(post)
    requires key != [] && IsTrimmed(key)
    ensures CheckOutcome(store, map[CheckKeyField := pre + key + post])
         == CheckOutcome(store, map[CheckKeyField := key])
    ensures key in store ==> CheckOutcome(store, map[CheckKeyField := pre + key + post]) == Exists(store[key])
  {
    TrimIgnoresPadding(pre, key, post);
    TrimOfTrimmed(key);
  }

  /** check-student with a stored key, given exactly, finds its document. */
  lemma CheckFindsStoredKey(store: Store, key: string)
    requires key != [] && IsTrimmed(key) && key in store
    ensures CheckOutcome(store, map[CheckKeyField := key]) == Exists(store[key])
  {
    TrimOfTrimmed(key);
    assert Get(map[CheckKeyField := key], CheckKeyField) == Some(key);
  }

  // ---------------------------------------------------------------------
  // POST /api/submit

  /** The key submit works on: `(body.studentId || "").trim()`. It is blank
      exactly when `studentId` is missing or all white space, and it is
      always trimmed. */
  function SubmitKey(body: Body): (r: string)
    ensures r == [] <==> (FieldName(StudentId) !in body || AllWhitespace(body[FieldName(StudentId)]))
    ensures IsTrimmed(r)
  {
    Trim(if FieldName(StudentId) in body then body[FieldName(StudentId)] else "")
  }

  /** The destructured whitelist: each of the nine fields with the body's
      value, `undefined` where the body lacks it. */
  function Destructure(body: Body): map<Field, Option<string>> {
    map f | f in Whitelist :: Get(body, FieldName(f))
  }

  /** The defined entries of `fields`, with their values. */
  function Defined(fields: map<Field, Option<string>>): map<Field, string> {
    map f | f in fields && fields[f].Some? :: fields[f].value
  }

  /** The `$set` payload: the destructured whitelist without its `undefined`
      entries. */
  function Payload(body: Body): map<Field, string> {
    Defined(Destructure(body))
  }

  /** The create-or-merge write under a validated key: a key already stored
      has the payload merged over its document (200, with the document as
      re-read); a new key gets one new document holding the key and the
      payload (201). */
  function Upsert(store: Store, key: string, payload: map<Field, string>): (Response, Store) {
    if key in store then
      var merged := store[key] + payload;
      (Updated(merged), store[key := merged])
    else
      var created := map[StudentId := key] + payload;
      (Created(created), store[key := created])
  }

  /** What submit answers and what the collection becomes: a blank key is a
      400 and changes nothing; otherwise the payload is upserted under the
      trimmed key. */
  function SubmitOutcome(store: Store, body: Body): (Response, Store) {
    var key := SubmitKey(body);
    if key == [] then (BadRequest(MessageKey, MissingKeyMessage), store)
    else Upsert(store, key, Payload(body))
  }

  /** Deletes the `undefined` entries in place, walking the keys in their
      order (the whitelist's), as the handler's `forEach` does. */
  method DropUndefined(fields: map<Field, Option<string>>) returns (payload: map<Field, string>)
    requires forall f :: f in fields ==> f in Whitelist
    ensures payload == Defined(fields)
  {
    var rest := fields;
    var i := 0;
    while i < |Whitelist|
      invariant 0 <= i <= |Whitelist|
      invariant forall f :: f in rest ==> f in fields && rest[f] == fields[f]
      invariant forall f :: f in fields && fields[f].Some? ==> f in rest
      invariant forall j :: i <= j < |Whitelist| && Whitelist[j] in fields ==> Whitelist[j] in rest
      invariant forall j :: 0 <= j < i && Whitelist[j] in rest ==> rest[Whitelist[j]].Some?
    {
      var k := Whitelist[i];
      if k in rest && rest[k] == None {
        rest := rest - {k};
      }
      i := i + 1;
    }
    payload := map f | f in rest :: rest[f].value;
  }

  /** The payload holds exactly the whitelisted fields whose names the body
      defines, with the body's values (an empty string included), and never
      `studentId`. */
  lemma PayloadIsWhitelisted(body: Body)
    ensures forall f :: f in Destructure(body) ==> f in Whitelist
    ensures StudentId !in Payload(body)
    ensures forall f :: f != StudentId ==> (f in Payload(body) <==> FieldName(f) in body)
    ensures forall f :: f in Payload(body) ==> Payload(body)[f] == body[FieldName(f)]
  {
    WhitelistIsSchemaWithoutKey();
  }

  /** Body keys outside the whitelist (`_id`, `__v`, `studentId`, or any other)
      have no effect on the payload. */
  lemma PayloadIgnoresUnlistedKeys(body: Body, key: string, value: string)
    requires forall f :: f in Whitelist ==> FieldName(f) != key
    ensures Payload(body[key := value]) == Payload(body)
  {
  }

  /** The store-managed `_id` and `__v`, and the key itself, cannot slip
      into the payload. */
  lemma PayloadDropsManagedFields(body: Body, id: string, version: string, studentId: string)
    ensures Payload(body["_id" := id]["__v" := version]["studentId" := studentId]) == Payload(body)
  {
    PayloadIgnoresUnlistedKeys(body["_id" := id]["__v" := version], "studentId", studentId);
    PayloadIgnoresUnlistedKeys(body["_id" := id], "__v", version);
    PayloadIgnoresUnlistedKeys(body, "_id", id);
  }

  // ---------------------------------------------------------------------
  // Properties of the upsert

  /** Upsert under a stored key: a 200 with the document as re-read; the
      payload fields are set, every other field keeps its presence and value;
      the set of keys and every other document are unchanged. */
  lemma UpsertMergesExisting(store: Store, key: string, payload: map<Field, string>)
    requires key in store
    ensures var (r, after) := Upsert(store, key, payload);
      && after.Keys == store.Keys
      && r == Updated(after[key]) && r.Status() == 200
      && (forall f :: f in payload ==> f in after[key] && after[key][f] == payload[f])
      && (forall f :: f !in payload ==>
            (f in after[key] <==> f in store[key]) && (f in store[key] ==> after[key][f] == store[key][f]))
      && (forall j :: j in store && j != key ==> after[j] == store[j])
  {
  }

  /** Upsert under a new key adds exactly one document; under a stored key
      the number of documents stays the same. */
  lemma UpsertCount(store: Store, key: string, payload: map<Field, string>)
    ensures |Upsert(store, key, payload).1| == if key in store then |store| else |store| + 1
  {
    var after := Upsert(store, key, payload).1;
    assert after.Keys == store.Keys + {key};
  }

  /** Upsert under a new key: a 201 with the new document; exactly one
      document is added; it holds the key and exactly the payload fields. */
  lemma UpsertCreatesOne(store: Store, key: string, payload: map<Field, string>)
    requires key !in store && StudentId !in payload
    ensures var (r, after) := Upsert(store, key, payload);
      && after.Keys == store.Keys + {key}
      && r == Created(after[key]) && r.Status() == 201
      && KeyedRecord(key, after[key])
      && (forall f :: f != StudentId ==> (f in after[key] <==> f in payload))
      && (forall f :: f in payload ==> after[key][f] == payload[f])
      && (forall j :: j in store ==> after[j] == store[j])
  {
    var created := map[StudentId := key] + payload;
    assert Upsert(store, key, payload) == (Created(created), store[key := created]);
  }

  /** Upserting a payload without `studentId` under a non-blank trimmed key
      keeps the collection well keyed. */
  lemma UpsertPreservesWellKeyed(store: Store, key: string, payload: map<Field, string>)
    requires WellKeyed(store) && key != [] && IsTrimmed(key) && StudentId !in payload
    ensures WellKeyed(Upsert(store, key, payload).1)
  {
    var after := Upsert(store, key, payload).1;
    assert KeyedRecord(key, after[key]);
  }

  /** Upserting the same payload again changes nothing more; the second
      answer is an update carrying the same document. */
  lemma UpsertIdempotent(store: Store, key: string, payload: map<Field, string>)
    ensures var once := Upsert(store, key, payload).1;
      Upsert(once, key, payload) == (Updated(once[key]), once)
  {
    var once := Upsert(store, key, payload).1;
    var rec := once[key];
    assert rec + payload == rec;
    assert once[key := rec] == once;
  }

  /** Two upserts under the same stored key overlay the document with the
      first payload and then the second. */
  lemma UpsertTwice(store: Store, key: string, p: map<Field, string>, q: map<Field, string>)
    requires key in store
    ensures Upsert(Upsert(store, key, p).1, key, q).1 == store[key := store[key] + p + q]
  {
    var once := store[key := store[key] + p];
    assert Upsert(store, key, p).1 == once;
    assert once[key := once[key] + q] == store[key := store[key] + p + q];
  }

  // ---------------------------------------------------------------------
  // Properties of submit

  /** A missing or blank `studentId` is a 400 "Missing studentId" and leaves
      the collection as it was. */
  lemma SubmitRejectsBlankKey(store: Store, body: Body)
    requires FieldName(StudentId) !in body || AllWhitespace(body[FieldName(StudentId)])
    ensures SubmitOutcome(store, body) == (BadRequest(MessageKey, MissingKeyMessage), store)
    ensures SubmitOutcome(store, body).0.Status() == 400
  {
  }

  /** Updating an existing student: a 200 with the document as re-read after
      the write; exactly the whitelisted fields the body defines are set (an
      empty string too); every other field, `studentId` included, keeps its
      presence and value; no document is added and no other changes. */
  lemma SubmitUpdatesInPlace(store: Store, body: Body)
    requires SubmitKey(body) != [] && SubmitKey(body) in store
    ensures var (r, after) := SubmitOutcome(store, body);
      var key := SubmitKey(body);
      && after.Keys == store.Keys
      && r == Updated(after[key]) && r.Status() == 200
      && (forall f :: f != StudentId && FieldName(f) in body ==> f in after[key] && after[key][f] == body[FieldName(f)])
      && (forall f :: (f == StudentId || FieldName(f) !in body) ==>
            (f in after[key] <==> f in store[key]) && (f in store[key] ==> after[key][f] == store[key][f]))
      && (forall j :: j in store && j != key ==> after[j] == store[j])
  {
    PayloadIsWhitelisted(body);
    UpsertMergesExisting(store, SubmitKey(body), Payload(body));
  }

  /** Registering a new student: a 201 with the new document; exactly one
      document is added, under the trimmed key; its `studentId` is that key
      and its other fields are exactly the whitelisted fields the body
      defines. */
  lemma SubmitCreatesOne(store: Store, body: Body)
    requires SubmitKey(body) != [] && SubmitKey(body) !in store
    ensures var (r, after) := SubmitOutcome(store, body);
      var key := SubmitKey(body);
      && after.Keys == store.Keys + {key}
      && |after| == |store| + 1
      && r == Created(after[key]) && r.Status() == 201
      && KeyedRecord(key, after[key])
      && (forall f :: f != StudentId ==>
            (f in after[key] <==> FieldName(f) in body) && (f in after[key] ==> after[key][f] == body[FieldName(f)]))
      && (forall j :: j in store ==> after[j] == store[j])
  {
    PayloadIsWhitelisted(body);
    UpsertCreatesOne(store, SubmitKey(body), Payload(body));
    UpsertCount(store, SubmitKey(body), Payload(body));
  }

  /** Submit keeps the collection well keyed: one document per `studentId`,
      each carrying its own non-blank trimmed key. */
  lemma SubmitPreservesWellKeyed(store: Store, body: Body)
    requires WellKeyed(store)
    ensures WellKeyed(SubmitOutcome(store, body).1)
  {
    var key := SubmitKey(body);
    if key != [] {
      PayloadIsWhitelisted(body);
      UpsertPreservesWellKeyed(store, key, Payload(body));
    }
  }

  /** Submitting the same body a second time leaves the collection as the
      first submission left it; the second answer is an update carrying the
      same document. */
  lemma SubmitIdempotent(store: Store, body: Body)
    ensures SubmitOutcome(SubmitOutcome(store, body).1, body).1 == SubmitOutcome(store, body).1
    ensures SubmitKey(body) != [] ==>
      SubmitOutcome(SubmitOutcome(store, body).1, body).0 == Updated(SubmitOutcome(store, body).1[SubmitKey(body)])
  {
    var key := SubmitKey(body);
    if key == [] {
      assert SubmitOutcome(store, body).1 == store;
    } else {
      var p := Payload(body);
      UpsertIdempotent(store, key, p);
      var once := Upsert(store, key, p).1;
      assert SubmitOutcome(store, body).1 == once;
      assert SubmitOutcome(once, body) == (Updated(once[key]), once);
    }
  }

  /** A body whose `studentId` is `key` (non-blank, already trimmed) is
      submitted under exactly that key. */
  lemma SubmitKeyOfTrimmed(body: Body, key: string)
    requires key != [] && IsTrimmed(key)
    requires FieldName(StudentId) in body && body[FieldName(StudentId)] == key
    ensures SubmitKey(body) == key
  {
    TrimOfTrimmed(key);
  }

  /** Two submissions whose keys trim to the same stored key merge: the
      document becomes the old one overlaid with the first payload, then the
      second, so a field takes the second body's value if it defines it,
      otherwise the first body's, otherwise keeps what the document held. */
  lemma SuccessiveSubmitsMerge(store: Store, key: string, first: Body, second: Body)
    requires key != [] && key in store
    requires SubmitKey(first) == key && SubmitKey(second) == key
    ensures SubmitOutcome(SubmitOutcome(store, first).1, second).1
         == store[key := store[key] + Payload(first) + Payload(second)]
  {
    var once := Upsert(store, key, Payload(first)).1;
    assert SubmitOutcome(store, first).1 == once;
    assert SubmitOutcome(once, second).1 == Upsert(once, key, Payload(second)).1;
    UpsertTwice(store, key, Payload(first), Payload(second));
  }

  /** After a submit with a non-blank key, which is always an update or a
      create, check-student with the trimmed key finds the document submit
      answered with (a key padded with white space gets the same answer, by
      `CheckIgnoresPadding`). */
  lemma CheckAfterSubmit(store: Store, body: Body)
    requires SubmitKey(body) != []
    ensures var (r, after) := SubmitOutcome(store, body);
      && (r.Updated? || r.Created?)
      && CheckOutcome(after, map[CheckKeyField := SubmitKey(body)])
         == Exists(if r.Updated? then r.updatedStudent else r.newStudent)
  {
    var key := SubmitKey(body);
    var (r, after) := Upsert(store, key, Payload(body));
    assert SubmitOutcome(store, body) == (r, after);
    assert key in after && after[key] == (if r.Updated? then r.updatedStudent else r.newStudent);
    CheckFindsStoredKey(after, key);
  }

  // ---------------------------------------------------------------------
  // The collection as mutable state

  class StudentStore {
    /** The `students` collection. */
    var records: Store

    ghost predicate Valid()
      reads this
    {
      WellKeyed(records)
    }

    constructor ()
      ensures Valid() && records == map[]
    {
      records := map[];
    }

    /** POST /api/check-student: trim the key, reject a blank one, otherwise
        one `findOne` by key. Changes nothing. */
    method CheckStudent(body: Body) returns (r: Response)
      ensures r == CheckOutcome(records, body)
    {
      if CheckKeyField !in body {
        return BadRequest(ErrorKey, MissingKeyError);
      }
      var studentId := Trim(body[CheckKeyField]);
      if studentId == [] {
        return BadRequest(ErrorKey, MissingKeyError);
      }
      if studentId in records {
        r := Exists(records[studentId]);
      } else {
        r := NotExists;
      }
    }

    /** POST /api/submit: validate the key, build the payload, then either
        `$set` the payload on the existing document and re-read it, or save a
        new document made of the key and the payload. */
    method Submit(body: Body) returns (r: Response)
      modifies this
      ensures (r, records) == SubmitOutcome(old(records), body)
      ensures old(Valid()) ==> Valid()
    {
      ghost var before := records;
      var studentId := SubmitKey(body);
      if studentId == [] {
        return BadRequest(MessageKey, MissingKeyMessage);
      }
      var payload := DropUndefined(Destructure(body));
      if studentId in records {
        var existing := records[studentId];
        records := records[studentId := existing + payload];
        var updatedStudent := records[studentId];
        r := Updated(updatedStudent);
      } else {
        var toCreate := map[StudentId := studentId] + payload;
        records := records[studentId := toCreate];
        r := Created(toCreate);
      }
      if WellKeyed(before) {
        PayloadIsWhitelisted(body);
        UpsertPreservesWellKeyed(before, studentId, payload);
      }
    }
  }
}
