# Course service: transactional course update, soft delete, faculty assignment

A Dafny model of the course service of a university-management backend
(`src/app/modules/Course/course.service.ts`). The course collection is a map
from course id to a `Course` record (scalar fields, an `isDeleted` flag and a
`preRequisiteCourses` sequence of `PrerequisiteEntry { course, isDeleted }`);
the course-faculty collection is a map from course id to a faculty sequence.
The document store's operations used by the service (find-by-id,
find-by-id-and-update with `new: true`, `$pull`, `$addToSet` with `$each`,
upsert) are pure functions over those maps.

`updateCourseIntoDB` is modelled step by step, in the source's order:

1. `preRequisiteCourses` is destructured out of the payload, leaving the
   scalar patch (`StripPrerequisites`, a plain definition).
2. The scalar patch is `$set` on the record (`ApplyPatch`); a missing id gives
   the store's null, and the call throws.
3. For a non-empty delta list: the removal deltas (course present, `isDeleted`
   true) are projected to ids (`DeletedPrerequisites`) and `$pull`ed (`Pull`);
   the addition deltas (course present, `isDeleted` false) are kept whole
   (`NewPrerequisites`) and `$addToSet`-ed one by one (`AddEachToSet`), with
   whole-entry equality. Each write's null result is checked, as in the source.
4. The transaction is a snapshot: every failure ends in `Abort`, the catch
   block's value, which holds the pre-call store, the status `Aborted` and the
   single `AppError(400, "Failed to update course")`. Which store calls throw
   (a cast error for a malformed id, a validation error, a lost connection)
   is a parameter, `thrown`, naming the calls of the try block that throw. A failing commit is not among them (see below).
5. The re-read at line 94 is `FindById`, a plain lookup.

The two success paths are kept exactly as written, in an explicit outcome:

- with an absent or empty delta list, the transaction is `Committed` and the
  outcome is `Done` (nothing is returned);
- with a non-empty delta list, the outcome is `Returned(record)` for the
  re-read record and the status is `Open`: the return at line 98 comes before
  `commitTransaction`, so the commit is never reached and the session is not
  ended.

`UpdateResult.store` is the collection as the transaction's session sees it
when the call ends.

`deleteCoursesFromDB` sets `isDeleted` and returns the updated record or
`None`. `assignFacultiesWithCourseIntoDB` upserts the course-faculty document
and `$addToSet`s each faculty. Because it does not pass `new: true`, it
returns the document as it was before the write, or `None` when the upsert
created it.

Three behaviours of the code are easy to misread; the model follows the code:

- the additions are only the deltas that name a course and are not marked
  deleted, not "all remaining deltas";
- the delta path does not commit;
- the faculty operation returns the pre-update document.

## Model

| member | source | states |
|---|---|---|
| ArrayOperators.AddToSet | src/app/modules/Course/course.service.ts:81-82 | adding one value keeps the array as a prefix, makes the value present, adds nothing else and appends nothing already present, so a duplicate-free array stays duplicate-free |
| ArrayOperators.AddEachToSet | src/app/modules/Course/course.service.ts:78-83 | `$addToSet` with `$each`: the old array is a prefix of the result; the result holds exactly the old elements and the added values; the appended part is duplicate-free and disjoint from the old array; a duplicate-free array stays duplicate-free |
| CourseModel.FindByIdAndUpdate | src/app/modules/Course/course.service.ts:41-45 | the store's null exactly when the id is missing; otherwise only that record is replaced, and the new record is returned |
| CourseService.ApplyPatch | src/app/modules/Course/course.service.ts:35-45 | the scalar update sets exactly the patched fields, keeps the others, and never touches the prerequisite sequence, because it was destructured out |
| CourseService.DeletedPrerequisites | src/app/modules/Course/course.service.ts:54-56 | an id is in the removal list exactly when some delta names that course with `isDeleted` true |
| CourseService.NewPrerequisites | src/app/modules/Course/course.service.ts:74-76 | an entry is an addition exactly when it is a delta that names a course and is not marked deleted; deltas without a course are in neither list |
| CourseService.Pull | src/app/modules/Course/course.service.ts:57-63 | after the pull, an entry is present exactly when it was present and its course is not in the removal list |
| CourseService.Reconcile | src/app/modules/Course/course.service.ts:52-90 | after both writes, an entry is present exactly when it was present and no removal delta names its course, or it is an addition delta: (S - removed) + added. Every addition is present, and because removal comes first, an entry for a removed course survives only as an addition (a course both removed and added ends up present) |
| CourseService.UpdateCourseIntoDB | src/app/modules/Course/course.service.ts:34-107 | fails exactly when the id is missing or a store call on the taken path throws (scalar update, pull, add-to-set or re-read). Every failure gives the one `BAD_REQUEST` "Failed to update course" error, the aborted status and the pre-call store, so a throw after the scalar write undoes it. Otherwise only that record changes and its scalars are patched. With no deltas it commits, returns nothing and keeps the prerequisites. With deltas it returns the re-read record uncommitted, and the prerequisites are pull-then-add-to-set of the old ones |
| CourseService.DeleteCoursesFromDB | src/app/modules/Course/course.service.ts:109-115 | a missing id yields None with the store unchanged; otherwise only `isDeleted` becomes true, nothing else changes, and the new record is returned |
| CourseService.AssignFacultiesWithCourseIntoDB | src/app/modules/Course/course.service.ts:118-128 | the document exists afterwards, created if absent. Existing faculties are kept as a prefix, and exactly the old and the given faculties are present. The appended faculties were not present before and are appended once each, so a duplicate-free list stays duplicate-free. The pre-update document is returned |
| CourseProperties.PullDistributes | src/app/modules/Course/course.service.ts:57-69 | pulling from a concatenation is concatenating the pulls, so the kept entries stay in their original relative order |
| CourseProperties.PullCounts | src/app/modules/Course/course.service.ts:57-63 | an entry whose course is not in the removal list keeps its number of occurrences; an entry whose course is in it is gone |
| CourseProperties.NewPrerequisitesDistributes | src/app/modules/Course/course.service.ts:74-76 | the additions keep the order in which the payload lists them |
| CourseProperties.PullIdempotent | src/app/modules/Course/course.service.ts:57-63 | pulling twice with the same ids equals pulling once |
| CourseProperties.PullKeepsNoDuplicates | src/app/modules/Course/course.service.ts:57-63 | the pull never creates a duplicate entry |
| CourseProperties.PullKeepsActiveUnique | src/app/modules/Course/course.service.ts:57-63 | the pull never gives a course two active entries |
| CourseProperties.AddEachToSetAbsorbs | src/app/modules/Course/course.service.ts:78-83 | adding values that are all present leaves the array unchanged |
| CourseProperties.OrderOfWritesMatters | src/app/modules/Course/course.service.ts:57-90 | for a course both removed and added in one call, the source's pull-then-add order leaves it present, while add-then-pull would leave no entry for it |
| CourseProperties.ReconcileKeepsNoDuplicates | src/app/modules/Course/course.service.ts:57-90 | a duplicate-free prerequisite sequence stays duplicate-free, even when an addition is already present |
| CourseProperties.ReconcileKeepsActiveUnique | src/app/modules/Course/course.service.ts:57-90 | no course gains a second active entry: two active entries for one course are equal as whole entries, so `$addToSet` skips the second |
| CourseProperties.UpdateKeepsStoreInvariant | src/app/modules/Course/course.service.ts:34-107 | if no stored course has two active entries for one prerequisite course, the same holds after the update, on every path |
| CourseProperties.ReconcileAbsorbsRepeatedAdditions | src/app/modules/Course/course.service.ts:78-90 | adding the same additions again after the two writes changes nothing |
| CourseProperties.DeleteIdempotent | src/app/modules/Course/course.service.ts:109-115 | soft-deleting twice gives the same store and the same result as soft-deleting once |
| CourseProperties.AssignFacultiesIdempotent | src/app/modules/Course/course.service.ts:118-128 | assigning the same faculties twice leaves the same faculty store as assigning them once |

## Left out

- CourseService.AssignFacultiesWithCourseIntoDB: does not state the order in which the new faculties are appended (their order of first occurrence in the given list); it states which are appended, that none was already present, and that none is appended twice.
- CourseService.UpdateCourseIntoDB: a throw from `commitTransaction` (line 100) is not modelled. Once the commit has been attempted, the driver refuses `abortTransaction`, so the catch block's own abort at line 103 throws. The caller then gets the driver's error, not the uniform one, the session is not ended, and whether the commit took effect is unknown.
- CourseService.UpdateCourseIntoDB: the null checks after the pull (line 70) and the add-to-set (line 91) are modelled but unreachable. Once the scalar update has found the record, the session's view still holds it. The failures of those writes are modelled as throws instead.
- CourseService.UpdateCourseIntoDB: why a call throws is not modelled. Ids are natural numbers, so a malformed id or delta `course` cannot be written down; its cast error appears only as a member of `thrown`.
- CourseService.DeleteCoursesFromDB: a malformed id makes the store call throw a cast error. Nothing catches it, so the call throws instead of returning null. Ids are natural numbers here, so this case is not represented.
- ArrayOperators.AddEachToSet: does not state the order in which the new values are appended (their order of first occurrence in the added list); only which values are appended.
- `getAllCoursesFromDB` and its `QueryBuilder` chain (search, filter, sort, paginate, fields): `src/app/builder/QueryBuilder` is not part of this model.
- `createCourseIntoDB` and `getSingleCourseFromDB`: single store calls with no logic of their own.
- `populate('preRequisiteCourses.course')`: the re-read record carries course ids, not the joined course documents.
- Session mechanics: isolation level, session expiry, and what a read outside the session sees. The re-read at line 94 is issued without the session; the model lets it observe the session's writes.
- `runValidators`: what the validators reject is not modelled, because the schema is in `course.model`, which is not part of this model; a validation error appears only as a member of `thrown`.
- Mongoose gives each array subdocument its own `_id` unless the schema says otherwise. The schema is not part of this model. Entries are compared on `course` and `isDeleted` only.
- Course scalar attributes are a map of field names to values because `course.interface` is not part of this model.
- HTTP status handling beyond the single `AppError(400, "Failed to update course")` value.
- `user.controller.ts` and `academicSemester.route.ts`: request/response plumbing and route wiring around services outside this model.
- `assignFacultiesWithCourseIntoDB` receives `Partial<TCourseFaculty>` and passes it directly to `$each`. It is modelled as the faculty id sequence that the call evidently carries.
