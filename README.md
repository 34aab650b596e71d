# Student register-or-update backend, modelled in Dafny

This project models the two request handlers of the student-registration backend
(`backend/index.js`) that contain logic. Both work on the `students` collection, whose
documents follow the schema in `backend/models/Student.js`.

- `POST /api/check-student` reads a key from the body's `email` field and trims it. A
  missing or blank key is answered with 400 "Missing student ID". Otherwise it reports
  whether a document with that `studentId` exists, carrying the document when it does.
  It never writes.
- `POST /api/submit` trims `body.studentId` (a missing one counts as `""`). A blank key
  is answered with 400 "Missing studentId" and nothing is written. Otherwise it builds a
  `$set` payload by destructuring nine whitelisted fields (firstName, lastName, email,
  password, education, major, degreeStart, degreeEnd, gender) and deleting the
  `undefined` ones. If a document has the key, the payload is merged over it and the
  re-read document is answered with 200. Otherwise a new document holding the key and
  the payload is saved and answered with 201.

Files and modules:

- `js_text.dfy`, module `JsText`: JavaScript's `String.prototype.trim`, with the
  white-space and line-terminator characters of the ECMAScript standard.
- `student_schema.dfy`, module `StudentSchema`: the schema's ten fields as a datatype
  `Field`, with their JSON names. A document is `map<Field, string>`. The collection is
  `map<string, Record>` keyed by `studentId`, so the unique index holds by construction.
  `WellKeyed` is the collection invariant: every key is non-blank and trimmed, and every
  document carries its key.
- `student_api.dfy`, module `StudentApi`:
  - `CheckOutcome` and `SubmitOutcome` state, on values, what each handler answers and
    what the collection becomes. `SubmitOutcome` is built from `SubmitKey`,
    `Destructure`, `Defined`, `Payload` and `Upsert`, following the handler's steps.
  - Lemmas state the whitelisting, merge, create, idempotence and uniqueness properties.
  - The class `StudentStore` holds the collection as a mutable field. Its method
    `CheckStudent` changes nothing. Its method `Submit` reassigns the collection, and
    both methods are proved equal to the two functions. `Submit` also keeps `Valid()`.
  - The `forEach`/`delete` pass over the payload is the loop method `DropUndefined`.

A request body is a map from JSON key to string value; a key missing from the map reads
as `undefined`. Response bodies are the `Response` datatype. `Status()` gives the HTTP
code and `Note()` gives the text entry of the JSON body as a (key, text) pair:

- check-student's 400 carries its text under `error`;
- submit's 400, 200, 201 and 404 carry theirs under `message`;
- the two check-student 200 answers carry none.

Passwords are stored exactly as they arrive (backend/index.js:60,73), and no identifier
format is checked.

## Model

| member | source | states |
|---|---|---|
| `JsText.Trim` | backend/index.js:23 | trim returns a string no longer than its input, which is empty exactly when the input is all white space and otherwise starts and ends with a non-white-space character |
| `JsText.TrimIdempotent` | backend/index.js:49 | trimming an already trimmed key changes nothing, so a stored key is its own trim |
| `JsText.TrimIgnoresPadding` | backend/index.js:23 | a non-blank trimmed key with white space added on either side trims back to itself |
| `StudentSchema.UniqueStudentIds` | backend/models/Student.js:8 | in a well-keyed collection, two documents with the same `studentId` are the same document |
| `StudentApi.WhitelistIsSchemaWithoutKey` | backend/index.js:56-66 | the nine whitelisted fields are exactly the schema fields other than `studentId` |
| `StudentApi.CheckOutcome` | backend/index.js:20-36 | the answer is a 400 with `error` "Missing student ID" exactly when `email` is missing or all white space; `Exists` (200) with the stored document exactly when the trimmed key is stored; otherwise `NotExists`; no other answer is possible |
| `StudentApi.CheckIgnoresPadding` | backend/index.js:22-32 | a stored key padded with white space gets the same `Exists` answer as the bare key |
| `StudentApi.CheckFindsStoredKey` | backend/index.js:29-32 | check-student with a stored, non-blank, trimmed key answers `Exists` with that key's document |
| `JsText.IsWhitespace` | backend/index.js:23 | no contract; the character set `trim` removes (ECMAScript WhiteSpace and LineTerminator), used by `Trim`, `CheckOutcome` and `SubmitKey` |
| `StudentApi.Response.Status` | backend/index.js:20-116 | no contract; the HTTP codes 400, 200, 200, 200, 201 and 404 of the six answers, stated per answer in `CheckOutcome`, `SubmitRejectsBlankKey`, `UpsertMergesExisting` and `UpsertCreatesOne` |
| `StudentApi.Response.Note` | backend/index.js:26-114 | no contract; the `message` texts of submit's 200, 201 and 404 answers, and for a 400 the key and text it was built with (`error` for check-student, `message` for submit, as `CheckOutcome` and `SubmitRejectsBlankKey` state) |
| `StudentApi.SubmitKey` | backend/index.js:49 | the key is blank exactly when `studentId` is missing or all white space, and it is always trimmed |
| `StudentApi.Destructure` | backend/index.js:56-66 | no contract; the nine whitelisted fields with the body's values or `undefined`, specified by `PayloadIsWhitelisted` |
| `StudentApi.Defined` | backend/index.js:80 | no contract; the entries that are not `undefined`, which `DropUndefined` is proved to compute |
| `StudentApi.Payload` | backend/index.js:55-80 | no contract; specified by `PayloadIsWhitelisted`, `PayloadIgnoresUnlistedKeys` and `PayloadDropsManagedFields` |
| `StudentApi.Upsert` | backend/index.js:83-116 | no contract; specified by `UpsertMergesExisting`, `UpsertCreatesOne`, `UpsertCount`, `UpsertPreservesWellKeyed`, `UpsertIdempotent` and `UpsertTwice` |
| `StudentApi.SubmitOutcome` | backend/index.js:44-116 | no contract; specified by `SubmitRejectsBlankKey`, `SubmitUpdatesInPlace`, `SubmitCreatesOne`, `SubmitPreservesWellKeyed`, `SubmitIdempotent`, `SuccessiveSubmitsMerge` and `CheckAfterSubmit` |
| `StudentApi.DropUndefined` | backend/index.js:80 | one pass over the keys in whitelist order deleting `undefined` entries leaves exactly the defined entries with their values |
| `StudentApi.PayloadIsWhitelisted` | backend/index.js:55-80 | the payload never holds `studentId`; every other field is present exactly when the body defines its name, with the body's value, the empty string included |
| `StudentApi.PayloadIgnoresUnlistedKeys` | backend/index.js:55-79 | adding or changing a body key that names no whitelisted field leaves the payload unchanged |
| `StudentApi.PayloadDropsManagedFields` | backend/index.js:55 | a body's `_id`, `__v` and `studentId` have no effect on the payload |
| `StudentApi.UpsertMergesExisting` | backend/index.js:83-103 | for a stored key: answer `Updated` (200) with the re-read document; payload fields are set, every other field keeps its presence and value; the key set and every other document are unchanged |
| `StudentApi.UpsertCreatesOne` | backend/index.js:106-116 | for a new key: answer `Created` (201) with the new document; exactly that key is added; its document carries the key and, apart from `studentId`, exactly the payload fields; existing documents are unchanged |
| `StudentApi.UpsertCount` | backend/index.js:83-111 | the number of documents stays the same on update and grows by exactly one on create |
| `StudentApi.UpsertPreservesWellKeyed` | backend/index.js:107-111 | writing a payload without `studentId` under a non-blank trimmed key keeps the collection well keyed |
| `StudentApi.UpsertIdempotent` | backend/index.js:85-103 | upserting the same payload a second time leaves the collection unchanged and answers `Updated` with the same document |
| `StudentApi.UpsertTwice` | backend/index.js:85-91 | two upserts under the same stored key overlay its document with the first payload and then the second, and change nothing else |
| `StudentApi.SubmitRejectsBlankKey` | backend/index.js:49-53 | a missing or all-white-space `studentId` gives a 400 with `message` "Missing studentId" and leaves the collection unchanged |
| `StudentApi.SubmitUpdatesInPlace` | backend/index.js:83-103 | for a stored key: 200 with the document as re-read; the whitelisted fields the body defines take its values; `studentId` and every field the body omits keep their presence and value; no document is added and no other document changes |
| `StudentApi.SubmitCreatesOne` | backend/index.js:106-116 | for a new key: 201 with the new document; exactly one document is added, under the trimmed key; its `studentId` is that key and its other fields are exactly the whitelisted fields the body defines |
| `StudentApi.SubmitPreservesWellKeyed` | backend/index.js:44-116 | every submit keeps one document per `studentId`, each under its own non-blank trimmed key |
| `StudentApi.SubmitIdempotent` | backend/index.js:83-111 | submitting the same body twice leaves the collection as one submit does, and the second answer is an update carrying the same document |
| `StudentApi.SubmitKeyOfTrimmed` | backend/index.js:49 | a body whose `studentId` is already non-blank and trimmed is submitted under exactly that key |
| `StudentApi.SuccessiveSubmitsMerge` | backend/index.js:83-103 | two submits whose `studentId`s trim to the same stored key leave the old document overlaid with the first payload and then the second, and change no other document |
| `StudentApi.CheckAfterSubmit` | backend/index.js:20-32 | after any submit with a non-blank key, which is always an update or a create, check-student with the trimmed key answers `Exists` with the document submit answered with |
| `StudentApi.StudentStore.CheckStudent` | backend/index.js:20-41 | the method's answer equals `CheckOutcome` on the current collection, and it changes nothing |
| `StudentApi.StudentStore.Submit` | backend/index.js:44-126 | the method's answer and new collection equal `SubmitOutcome` on the old collection, and a well-keyed collection stays well keyed |

## Left out

- Express and Mongoose plumbing: app setup, CORS, JSON parsing, the MongoDB connection,
  `app.listen` and console logging (backend/index.js:1-17,128). These are I/O and
  library calls.
- The 500 answers of both `catch` blocks (backend/index.js:37-40,118-124). They come
  from store failures, and from `.trim()` throwing on a non-string `studentId` or
  `email`. Body values are modelled as strings or absent, and the store never fails.
- JSON `null`, numbers and other non-string body values. A `null` whitelisted field
  would survive the `undefined` filter and set the field to `null`. This is not modelled.
- The 404 "Student not found during update" branch (backend/index.js:93-95). It needs a
  concurrent delete between `findOne` and `updateOne`. The model is sequential, so the
  branch cannot fire; it is kept only as the `NotFoundDuringUpdate` response.
- Mongoose behaviour: `runValidators`, how the unique index is enforced, the `_id` and
  `__v` fields, and how documents are serialised. Uniqueness is modelled by map keys,
  and a document holds only schema fields.
- `findOne({ studentId })` is modelled as a lookup by map key. Under `WellKeyed` this is
  the same as a query on the `studentId` field (`StudentSchema.UniqueStudentIds`).
- The front end, the admin routes and `backend/routes/formRoutes.js`: they are UI or
  simple save/list calls. `backend/models/Submission.js` is not part of this model.
