/** The course collections as the course service sees them: each collection
    is a map from document id to document, and the store boundary offers
    find-by-id and find-by-id-and-update. */
module CourseModel {
  import opened Wrappers

  /** A document id. Ids are always truthy, so a present `course` reference
      passes the service's `el.course &&` test exactly when it is Some. */
  type CourseId = nat
  type FacultyId = nat
  type FieldName = string

  /** A scalar attribute value (title, prefix, code, credits, ...). */
  datatype Value = Text(text: string) | Number(number: int) | Flag(flag: bool)

  /** One element of a course's `preRequisiteCourses` array. In an update
      payload the same shape is a delta: `isDeleted` true asks for removal. */
  datatype PrerequisiteEntry = PrerequisiteEntry(course: Option<CourseId>, isDeleted: bool)

  datatype Course = Course(
    fields: map<FieldName, Value>,
    isDeleted: bool,
    preRequisiteCourses: seq<PrerequisiteEntry>)

  /** The document that records which faculties teach a course. */
  datatype CourseFaculty = CourseFaculty(faculties: seq<FacultyId>)

  type CourseStore = map<CourseId, Course>
  type FacultyStore = map<CourseId, CourseFaculty>

  /** `Partial<TCourse>`: scalar fields to set, an optional `isDeleted`,
      and an optional list of prerequisite deltas. */
  datatype UpdatePayload = UpdatePayload(
    fields: map<FieldName, Value>,
    isDeleted: Option<bool>,
    preRequisiteCourses: Option<seq<PrerequisiteEntry>>)

  /** The payload with `preRequisiteCourses` taken out: what is `$set`. */
  datatype CoursePatch = CoursePatch(fields: map<FieldName, Value>, isDeleted: Option<bool>)

  /** The outcome of one find-by-id-and-update: the store after the write
      and the document as written (`new: true`). */
  datatype Written = Written(store: CourseStore, doc: Course)

  /** Two courses agree on everything but their prerequisite array. */
  predicate SameScalars(a: Course, b: Course) {
    a.fields == b.fields && a.isDeleted == b.isDeleted
  }

  function FindById(store: CourseStore, id: CourseId): Option<Course>
  {
    if id in store then Some(store[id]) else None
  }

  /** Find-by-id-and-update with `new: true`: None (the store's null) when
      the id is missing, otherwise the store with only that document
      replaced by `update` of it, and the new document. */
  function FindByIdAndUpdate(store: CourseStore, id: CourseId, update: Course -> Course): (r: Option<Written>)
    ensures r.None? <==> id !in store
    ensures r.Some? ==> r.value.doc == update(store[id])
    ensures r.Some? ==> id in r.value.store && r.value.store[id] == r.value.doc
    ensures r.Some? ==> forall k :: k != id ==> (k in r.value.store <==> k in store)
    ensures r.Some? ==> forall k :: k in store && k != id ==> r.value.store[k] == store[k]
  {
    if id !in store then None
    else
      var doc := update(store[id]);
      Some(Written(store[id := doc], doc))
  }
}
