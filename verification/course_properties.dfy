/** Properties relating the course service's operations: how the `$pull`
    keeps order, what the reconciliation leaves in the prerequisite array,
    and what repeating an operation does. */
module CourseProperties {
  import opened Wrappers
  import opened ArrayOperators
  import opened CourseModel
  import opened CourseService

  /** No course is referenced by two active entries (entries that name a
      course and are not marked deleted, the shape of an addition). */
  predicate ActiveUnique(xs: seq<PrerequisiteEntry>) {
    forall i, j :: 0 <= i < j < |xs| && IsAddition(xs[i]) && IsAddition(xs[j]) ==> xs[i].course != xs[j].course
  }

  /** `$pull` works entry by entry: pulling from a concatenation is the
      concatenation of the pulls, so the kept entries keep their order. */
  lemma {:induction false} PullDistributes(xs: seq<PrerequisiteEntry>, ys: seq<PrerequisiteEntry>, ids: seq<CourseId>)
    ensures Pull(xs + ys, ids) == Pull(xs, ids) + Pull(ys, ids)
    decreases |xs|
  {
    if xs == [] {
      assert xs + ys == ys;
    } else {
      assert (xs + ys)[1..] == xs[1..] + ys;
      PullDistributes(xs[1..], ys, ids);
    }
  }

  /** Every entry the condition does not match stays as many times as it
      occurred; every entry it matches is gone. */
  lemma {:induction false} PullCounts(xs: seq<PrerequisiteEntry>, ids: seq<CourseId>, e: PrerequisiteEntry)
    ensures multiset(Pull(xs, ids))[e] == if MatchesAny(e, ids) then 0 else multiset(xs)[e]
    decreases |xs|
  {
    if xs != [] {
      PullCounts(xs[1..], ids, e);
      assert xs == [xs[0]] + xs[1..];
    }
  }

  /** The additions are taken delta by delta, so they keep the order in
      which the payload lists them. */
  lemma {:induction false} NewPrerequisitesDistributes(xs: seq<PrerequisiteEntry>, ys: seq<PrerequisiteEntry>)
    ensures NewPrerequisites(xs + ys) == NewPrerequisites(xs) + NewPrerequisites(ys)
    decreases |xs|
  {
    if xs == [] {
      assert xs + ys == ys;
    } else {
      assert (xs + ys)[1..] == xs[1..] + ys;
      NewPrerequisitesDistributes(xs[1..], ys);
    }
  }

  /** Pulling twice with the same condition is pulling once. */
  lemma {:induction false} PullIdempotent(xs: seq<PrerequisiteEntry>, ids: seq<CourseId>)
    ensures Pull(Pull(xs, ids), ids) == Pull(xs, ids)
    decreases |xs|
  {
    if xs != [] {
      PullIdempotent(xs[1..], ids);
      if !MatchesAny(xs[0], ids) {
        var p := Pull(xs, ids);
        assert p == [xs[0]] + Pull(xs[1..], ids);
        assert p[1..] == Pull(xs[1..], ids);
      }
    }
  }

  /** Removing entries never creates a duplicate. */
  lemma {:induction false} PullKeepsNoDuplicates(xs: seq<PrerequisiteEntry>, ids: seq<CourseId>)
    requires NoDuplicates(xs)
    ensures NoDuplicates(Pull(xs, ids))
    decreases |xs|
  {
    if xs != [] {
      assert NoDuplicates(xs[1..]) by {
        forall i, j | 0 <= i < j < |xs[1..]| ensures xs[1..][i] != xs[1..][j] {
          assert xs[1..][i] == xs[i + 1] && xs[1..][j] == xs[j + 1];
        }
      }
      PullKeepsNoDuplicates(xs[1..], ids);
      if !MatchesAny(xs[0], ids) {
        assert xs[0] !in xs[1..] by {
          forall k | 0 <= k < |xs[1..]| ensures xs[1..][k] != xs[0] {
            assert xs[1..][k] == xs[k + 1];
          }
        }
        var rest := Pull(xs[1..], ids);
        assert xs[0] !in rest;
        assert Pull(xs, ids) == [xs[0]] + rest;
      }
    }
  }

  /** Removing entries never gives a course a second active entry. */
  lemma {:induction false} PullKeepsActiveUnique(xs: seq<PrerequisiteEntry>, ids: seq<CourseId>)
    requires ActiveUnique(xs)
    ensures ActiveUnique(Pull(xs, ids))
    decreases |xs|
  {
    if xs != [] {
      assert ActiveUnique(xs[1..]) by {
        forall i, j | 0 <= i < j < |xs[1..]| && IsAddition(xs[1..][i]) && IsAddition(xs[1..][j])
          ensures xs[1..][i].course != xs[1..][j].course
        {
          assert xs[1..][i] == xs[i + 1] && xs[1..][j] == xs[j + 1];
        }
      }
      PullKeepsActiveUnique(xs[1..], ids);
      if !MatchesAny(xs[0], ids) && IsAddition(xs[0]) {
        var rest := Pull(xs[1..], ids);
        assert xs[0] !in xs[1..] by {
          forall k | 0 <= k < |xs[1..]| ensures xs[1..][k] != xs[0] {
            assert xs[1..][k] == xs[k + 1];
            assert xs[k + 1].course != xs[0].course || !IsAddition(xs[k + 1]);
          }
        }
        forall k | 0 <= k < |rest| && IsAddition(rest[k]) ensures rest[k].course != xs[0].course {
          assert rest[k] in rest;
        }
        var p := Pull(xs, ids);
        assert p == [xs[0]] + rest;
      }
    }
  }

  /** Adding values that are all present already changes nothing. */
  lemma {:induction false} AddEachToSetAbsorbs<T(!new)>(xs: seq<T>, adds: seq<T>)
    requires forall y :: y in adds ==> y in xs
    ensures AddEachToSet(xs, adds) == xs
    decreases |adds|
  {
    if adds != [] {
      assert adds[0] in adds;
      AddEachToSetAbsorbs(xs, adds[1..]);
    }
  }

  /** The order of the two writes matters: for a course that is both
      removed and added in one call, pull-then-add (the source's order)
      leaves it present, while add-then-pull would leave no entry for it. */
  lemma OrderOfWritesMatters(prereqs: seq<PrerequisiteEntry>, deltas: seq<PrerequisiteEntry>, id: CourseId)
    requires PrerequisiteEntry(Some(id), true) in deltas
    requires PrerequisiteEntry(Some(id), false) in deltas
    ensures PrerequisiteEntry(Some(id), false) in Reconcile(prereqs, deltas)
    ensures var addThenPull := Pull(AddEachToSet(prereqs, NewPrerequisites(deltas)), DeletedPrerequisites(deltas));
      forall e :: e in addThenPull ==> e.course != Some(id)
  {
  }

  /** A duplicate-free prerequisite array stays duplicate-free. */
  lemma ReconcileKeepsNoDuplicates(prereqs: seq<PrerequisiteEntry>, deltas: seq<PrerequisiteEntry>)
    requires NoDuplicates(prereqs)
    ensures NoDuplicates(Reconcile(prereqs, deltas))
  {
    PullKeepsNoDuplicates(prereqs, DeletedPrerequisites(deltas));
  }

  /** No course gains a second active entry: additions are compared as
      whole entries, and two active entries for one course are equal. */
  lemma ReconcileKeepsActiveUnique(prereqs: seq<PrerequisiteEntry>, deltas: seq<PrerequisiteEntry>)
    requires ActiveUnique(prereqs)
    ensures ActiveUnique(Reconcile(prereqs, deltas))
  {
    PullKeepsActiveUnique(prereqs, DeletedPrerequisites(deltas));
  }

  /** Every stored course keeps its active prerequisites unique. */
  predicate StoreInvariant(store: CourseStore) {
    forall id :: id in store ==> ActiveUnique(store[id].preRequisiteCourses)
  }

  /** The course update, on every path, keeps the store invariant. */
  lemma UpdateKeepsStoreInvariant(store: CourseStore, id: CourseId, payload: UpdatePayload, thrown: set<StoreCall>)
    requires StoreInvariant(store)
    ensures StoreInvariant(UpdateCourseIntoDB(store, id, payload, thrown).store)
  {
    if id in store && HasDeltas(payload) {
      ReconcileKeepsActiveUnique(store[id].preRequisiteCourses, payload.preRequisiteCourses.value);
    }
  }

  /** Adding the same additions a second time changes nothing: every
      addition is already present after the first call. */
  lemma ReconcileAbsorbsRepeatedAdditions(prereqs: seq<PrerequisiteEntry>, deltas: seq<PrerequisiteEntry>)
    ensures AddEachToSet(Reconcile(prereqs, deltas), NewPrerequisites(deltas)) == Reconcile(prereqs, deltas)
  {
    AddEachToSetAbsorbs(Reconcile(prereqs, deltas), NewPrerequisites(deltas));
  }

  /** Soft-deleting twice is soft-deleting once. */
  lemma DeleteIdempotent(store: CourseStore, id: CourseId)
    ensures DeleteCoursesFromDB(DeleteCoursesFromDB(store, id).0, id) == DeleteCoursesFromDB(store, id)
  {
    if id in store {
      var once := DeleteCoursesFromDB(store, id);
      var c := once.0[id];
      assert c.(isDeleted := true) == c;
      assert once.0[id := c] == once.0;
    }
  }

  /** Assigning the same faculties twice leaves the same faculty list as
      assigning them once. */
  lemma AssignFacultiesIdempotent(fs: FacultyStore, id: CourseId, faculties: seq<FacultyId>)
    ensures var once := AssignFacultiesWithCourseIntoDB(fs, id, faculties).0;
      AssignFacultiesWithCourseIntoDB(once, id, faculties).0 == once
  {
    var once := AssignFacultiesWithCourseIntoDB(fs, id, faculties).0;
    AddEachToSetAbsorbs(once[id].faculties, faculties);
  }
}
