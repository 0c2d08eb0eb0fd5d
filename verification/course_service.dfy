/** The course service: the transactional course update with prerequisite
    reconciliation, the soft delete, and the faculty assignment upsert. */
module CourseService {
  import opened Wrappers
  import opened ArrayOperators
  import opened CourseModel

  /** The single error every failed update surfaces as. */
  datatype AppError = AppError(status: nat, message: string)

  const BAD_REQUEST: nat := 400
  const FailedToUpdate: AppError := AppError(BAD_REQUEST, "Failed to update course")

  /** What became of the transaction when the call ended. `Open` means
      neither committed nor aborted, and the session was not ended. */
  datatype TxStatus = Committed | Aborted | Open

  /** How the update call ended: it returned the re-read record, it
      completed without returning a value, or it threw. */
  datatype UpdateOutcome = Returned(record: Option<Course>) | Done | Failed(error: AppError)

  /** `store` is the course collection as the transaction's session sees it
      when the call ends. */
  datatype UpdateResult = UpdateResult(outcome: UpdateOutcome, store: CourseStore, tx: TxStatus)

  /** Destructuring `preRequisiteCourses` out of the payload. */
  function StripPrerequisites(payload: UpdatePayload): CoursePatch
  {
    CoursePatch(payload.fields, payload.isDeleted)
  }

  /** `$set` of the scalar patch: the listed fields take the patch's values,
      the others keep theirs, and the prerequisite array is untouched. */
  function ApplyPatch(c: Course, patch: CoursePatch): (r: Course)
    ensures r.preRequisiteCourses == c.preRequisiteCourses
    ensures r.fields.Keys == c.fields.Keys + patch.fields.Keys
    ensures forall f :: f in patch.fields ==> r.fields[f] == patch.fields[f]
    ensures forall f :: f in c.fields && f !in patch.fields ==> r.fields[f] == c.fields[f]
    ensures patch.isDeleted.None? ==> r.isDeleted == c.isDeleted
    ensures patch.isDeleted.Some? ==> r.isDeleted == patch.isDeleted.value
  {
    Course(c.fields + patch.fields, if patch.isDeleted.Some? then patch.isDeleted.value else c.isDeleted, c.preRequisiteCourses)
  }

  /** A delta names a course and asks for its removal. */
  predicate IsRemoval(e: PrerequisiteEntry) {
    e.course.Some? && e.isDeleted
  }

  /** A delta names a course and asks for its addition. */
  predicate IsAddition(e: PrerequisiteEntry) {
    e.course.Some? && !e.isDeleted
  }

  /** The course ids of the removal deltas, in order. */
  function DeletedPrerequisites(deltas: seq<PrerequisiteEntry>): (ids: seq<CourseId>)
    ensures |ids| <= |deltas|
    ensures forall id :: id in ids <==> PrerequisiteEntry(Some(id), true) in deltas
  {
    if deltas == [] then []
    else
      var rest := DeletedPrerequisites(deltas[1..]);
      assert forall e :: e in deltas <==> e == deltas[0] || e in deltas[1..];
      if IsRemoval(deltas[0]) then [deltas[0].course.value] + rest else rest
  }

  /** The addition deltas, in order, unchanged. */
  function NewPrerequisites(deltas: seq<PrerequisiteEntry>): (adds: seq<PrerequisiteEntry>)
    ensures |adds| <= |deltas|
    ensures forall e :: e in adds <==> e in deltas && IsAddition(e)
  {
    if deltas == [] then []
    else
      var rest := NewPrerequisites(deltas[1..]);
      assert forall e :: e in deltas <==> e == deltas[0] || e in deltas[1..];
      if IsAddition(deltas[0]) then [deltas[0]] + rest else rest
  }

  /** The `$pull` condition `{ course: { $in: ids } }`. An entry without a
      course never matches, since `ids` holds no null. */
  predicate MatchesAny(e: PrerequisiteEntry, ids: seq<CourseId>) {
    e.course.Some? && e.course.value in ids
  }

  /** `$pull`: every entry matching the condition goes, the rest stay
      (how many of each stay is `PullCounts` in CourseProperties). */
  function Pull(xs: seq<PrerequisiteEntry>, ids: seq<CourseId>): (r: seq<PrerequisiteEntry>)
    ensures |r| <= |xs|
    ensures forall e :: e in r <==> e in xs && !MatchesAny(e, ids)
  {
    if xs == [] then []
    else
      var rest := Pull(xs[1..], ids);
      assert xs == [xs[0]] + xs[1..];
      if MatchesAny(xs[0], ids) then rest else [xs[0]] + rest
  }

  /** The prerequisite array after the two writes of a non-empty delta
      list: the `$pull` of the removals, then the `$addToSet` of the
      additions. An entry is present exactly when it was present and no
      removal names its course, or it is an addition; since removal comes
      first, an entry for a removed course survives only as an addition. */
  function Reconcile(prereqs: seq<PrerequisiteEntry>, deltas: seq<PrerequisiteEntry>): (r: seq<PrerequisiteEntry>)
    ensures forall e :: e in r <==>
      (e in prereqs && !(e.course.Some? && PrerequisiteEntry(e.course, true) in deltas))
      || (IsAddition(e) && e in deltas)
    ensures forall e :: e in deltas && IsAddition(e) ==> e in r
    ensures forall e :: e in r && e.course.Some? && PrerequisiteEntry(e.course, true) in deltas ==>
      e == PrerequisiteEntry(e.course, false) && e in deltas
  {
    var removed := DeletedPrerequisites(deltas);
    assert forall e: PrerequisiteEntry :: e.course.Some? ==>
      (MatchesAny(e, removed) <==> PrerequisiteEntry(e.course, true) in deltas);
    AddEachToSet(Pull(prereqs, removed), NewPrerequisites(deltas))
  }

  /** The payload carries a non-empty delta list. */
  predicate HasDeltas(payload: UpdatePayload) {
    payload.preRequisiteCourses.Some? && |payload.preRequisiteCourses.value| > 0
  }

  /** The catch block: abort, end the session, throw the uniform error.
      Rolling back restores the store the call started from. */
  function Abort(snapshot: CourseStore): UpdateResult
  {
    UpdateResult(Failed(FailedToUpdate), snapshot, Aborted)
  }

  /** The store calls inside the transaction's try block. Any of them can
      throw (a cast error for a malformed id, a validation error, a lost
      connection); which ones do is a parameter of the update. */
  datatype StoreCall = ScalarUpdate | PullUpdate | AddUpdate | ReRead

  /** Some call on the path the payload takes throws. */
  predicate Throws(payload: UpdatePayload, thrown: set<StoreCall>) {
    || ScalarUpdate in thrown
    || (HasDeltas(payload) && (PullUpdate in thrown || AddUpdate in thrown || ReRead in thrown))
  }

  /** `updateCourseIntoDB`, with `thrown` the store calls that throw. The
      scalar update, then, for a non-empty delta list, the pull and the
      add-to-set, each checked for a null result; that path returns the
      re-read record without committing. With no deltas the transaction
      commits and nothing is returned. A throw or a null result lands in
      the catch block. */
  function UpdateCourseIntoDB(store: CourseStore, id: CourseId, payload: UpdatePayload, thrown: set<StoreCall>)
    : (r: UpdateResult)
    ensures r.outcome.Failed? <==> id !in store || Throws(payload, thrown)
    ensures r.outcome.Failed? ==> r.outcome.error == FailedToUpdate && r.store == store && r.tx == Aborted
    ensures !r.outcome.Failed? ==> id in store && id in r.store && r.store == store[id := r.store[id]]
    ensures !r.outcome.Failed? ==> SameScalars(r.store[id], ApplyPatch(store[id], StripPrerequisites(payload)))
    ensures !r.outcome.Failed? && !HasDeltas(payload) ==>
      r.outcome == Done && r.tx == Committed
      && r.store[id].preRequisiteCourses == store[id].preRequisiteCourses
    ensures !r.outcome.Failed? && HasDeltas(payload) ==>
      r.outcome == Returned(Some(r.store[id])) && r.tx == Open
      && r.store[id].preRequisiteCourses
         == Reconcile(store[id].preRequisiteCourses, payload.preRequisiteCourses.value)
  {
    var patch := StripPrerequisites(payload);
    if ScalarUpdate in thrown then Abort(store)
    else
      var basic := FindByIdAndUpdate(store, id, c => ApplyPatch(c, patch));
      if basic.None? then Abort(store)
      else if HasDeltas(payload) then
        var deltas := payload.preRequisiteCourses.value;
        var deleted := DeletedPrerequisites(deltas);
        if PullUpdate in thrown then Abort(store)
        else
          var pulled := FindByIdAndUpdate(basic.value.store, id,
                          (c: Course) => c.(preRequisiteCourses := Pull(c.preRequisiteCourses, deleted)));
          if pulled.None? then Abort(store)
          else
            var added := NewPrerequisites(deltas);
            if AddUpdate in thrown then Abort(store)
            else
              var extended := FindByIdAndUpdate(pulled.value.store, id,
                                (c: Course) => c.(preRequisiteCourses := AddEachToSet(c.preRequisiteCourses, added)));
              if extended.None? then Abort(store)
              else if ReRead in thrown then Abort(store)
              else UpdateResult(Returned(FindById(extended.value.store, id)), extended.value.store, Open)
      else UpdateResult(Done, basic.value.store, Committed)
  }

  /** `deleteCoursesFromDB`: a soft delete; returns the updated document,
      or None with the store untouched when the id is missing. */
  function DeleteCoursesFromDB(store: CourseStore, id: CourseId): (r: (CourseStore, Option<Course>))
    ensures id !in store ==> r == (store, None)
    ensures id in store ==>
      id in r.0 && r.0 == store[id := r.0[id]] && r.1 == Some(r.0[id])
      && r.0[id].isDeleted
      && r.0[id].fields == store[id].fields
      && r.0[id].preRequisiteCourses == store[id].preRequisiteCourses
  {
    var w := FindByIdAndUpdate(store, id, (c: Course) => c.(isDeleted := true));
    if w.None? then (store, None) else (w.value.store, Some(w.value.doc))
  }

  /** `assignFacultiesWithCourseIntoDB`: an upsert that `$addToSet`s each
      given faculty. Without `new: true` the store hands back the document
      as it was before the write, so None when it was just created. */
  function AssignFacultiesWithCourseIntoDB(fs: FacultyStore, id: CourseId, faculties: seq<FacultyId>)
    : (r: (FacultyStore, Option<CourseFaculty>))
    ensures r.1 == (if id in fs then Some(fs[id]) else None)
    ensures id in r.0 && r.0 == fs[id := r.0[id]]
    ensures id in fs ==> fs[id].faculties <= r.0[id].faculties
    ensures forall f :: f in r.0[id].faculties <==> (id in fs && f in fs[id].faculties) || f in faculties
    ensures (id !in fs || NoDuplicates(fs[id].faculties)) ==> NoDuplicates(r.0[id].faculties)
    ensures var before := if id in fs then fs[id].faculties else [];
      && |before| <= |r.0[id].faculties|
      && NoDuplicates(r.0[id].faculties[|before|..])
      && forall f :: f in r.0[id].faculties[|before|..] ==> f !in before
  {
    var existing := if id in fs then fs[id].faculties else [];
    var doc := CourseFaculty(AddEachToSet(existing, faculties));
    (fs[id := doc], if id in fs then Some(fs[id]) else None)
  }
}
