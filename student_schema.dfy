/**
 * The `Student` document of backend/models/Student.js and the collection
 * that holds them. The schema's ten fields are a datatype; a stored
 * document maps the fields it has to their string values (the schema is
 * strict, so a document holds no other field). The collection maps
 * `studentId` to document, so that the unique index on `studentId` holds by
 * construction.
 */
module StudentSchema {
  import opened JsText

  /** The fields the schema declares, all of type String. */
  datatype Field =
    | FirstName | LastName | Email | Password | StudentId
    | Education | Major | DegreeStart | DegreeEnd | Gender

  /** The field's name as a key of a JSON request body. */
  function FieldName(f: Field): string {
    match f
    case FirstName => "firstName"
    case LastName => "lastName"
    case Email => "email"
    case Password => "password"
    case StudentId => "studentId"
    case Education => "education"
    case Major => "major"
    case DegreeStart => "degreeStart"
    case DegreeEnd => "degreeEnd"
    case Gender => "gender"
  }

  /** A stored student document: the fields it has, with their values. */
  type Record = map<Field, string>

  /** The `students` collection, keyed by `studentId`. */
  type Store = map<string, Record>

  /** A document filed under `key` carries that key in its `studentId` field. */
  predicate KeyedRecord(key: string, rec: Record) {
    StudentId in rec && rec[StudentId] == key
  }

  /** The collection as this backend builds it: every key is a non-blank,
      already trimmed `studentId`, and every document carries its key. */
  predicate WellKeyed(store: Store) {
    forall key :: key in store ==> key != [] && IsTrimmed(key) && KeyedRecord(key, store[key])
  }

  /** Two documents of a well-keyed collection never share a `studentId`, so a
      query on the `studentId` field finds at most the document under that key. */
  lemma UniqueStudentIds(store: Store, j: string, k: string)
    requires WellKeyed(store)
    requires j in store && k in store
    requires store[j][StudentId] == store[k][StudentId]
    ensures j == k
  {
    assert KeyedRecord(j, store[j]) && KeyedRecord(k, store[k]);
  }
}
