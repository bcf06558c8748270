/**
 * The execution record of one logical job invocation (`AcidicJob::Key`, table
 * `acidic_job_keys`): its outcome predicates and the validations that guard an
 * insert into the key table.
 *
 * The table is a sequence of records in insertion order; an insert either
 * appends the record or reports the validation errors and leaves the table as
 * it was.
 */
module Keys {

  import opened Wrappers
  import opened Values

  /** The terminal recovery point. */
  const RECOVERY_POINT_FINISHED: string := "FINISHED"

  /** A timestamp column; its value plays no part in the logic modelled here. */
  type Timestamp = int

  /** One entry of the `workflow` column: `{"does" => …, "awaits" => […], "then" => …}`. */
  datatype StepDefinition = StepDefinition(does: string, awaits: seq<Value>, nextStep: string)

  datatype Key = Key(
    idempotencyKey: Option<string>,
    jobName: Option<string>,
    jobArgs: Value,
    lastRunAt: Option<Timestamp>,
    lockedAt: Option<Timestamp>,
    recoveryPoint: Option<string>,
    errorObject: Value,
    attrAccessors: map<string, Value>,
    workflow: map<string, StepDefinition>)

  /** `finished?` */
  predicate Finished(k: Key)
  {
    k.recoveryPoint == Some(RECOVERY_POINT_FINISHED)
  }

  /** `failed?`: a stored error object that is present. */
  predicate Failed(k: Key)
  {
    Present(k.errorObject)
  }

  /** `succeeded?` */
  predicate Succeeded(k: Key)
  {
    Finished(k) && !Failed(k)
  }

  /** The outcome predicates never contradict one another. */
  lemma OutcomeExclusive(k: Key)
    ensures Succeeded(k) <==> k.recoveryPoint == Some("FINISHED") && Blank(k.errorObject)
    ensures !(Succeeded(k) && Failed(k))
    ensures !Finished(k) ==> !Succeeded(k)
    ensures Finished(k) && Failed(k) ==> !Succeeded(k)
    ensures Finished(k) ==> (Succeeded(k) <==> !Failed(k))
  {
  }

  /** A record holding no error object, or a blank one, has not failed; one holding an exception has. */
  lemma FailedExamples(k: Key, cls: string)
    ensures k.errorObject == Nil ==> !Failed(k)
    ensures k.errorObject == Str("") ==> !Failed(k)
    ensures k.errorObject == Obj(cls) ==> Failed(k)
    ensures k.errorObject == Str("Internal server error!") ==> Failed(k)
  {
    if k.errorObject == Str("Internal server error!") {
      assert !IsSpace(k.errorObject.s[0]);
    }
  }

  // ---------------------------------------------------------------------------
  // Validations
  // ---------------------------------------------------------------------------

  datatype Attribute = IdempotencyKey | JobName | LastRunAt | RecoveryPoint

  /** An ActiveModel validation error: `:blank` from presence, `:taken` from uniqueness. */
  datatype ValidationError = BlankError(attribute: Attribute) | TakenError(attribute: Attribute)

  /** The uniqueness scope: `idempotency_key` together with `job_name` and `job_args`. */
  predicate SameScope(a: Key, b: Key)
  {
    a.idempotencyKey == b.idempotencyKey && a.jobName == b.jobName && a.jobArgs == b.jobArgs
  }

  /** Some row of the table already holds the record's scope. */
  predicate ScopeTaken(table: seq<Key>, k: Key)
  {
    exists i :: 0 <= i < |table| && SameScope(table[i], k)
  }

  /** The four presence validations. */
  predicate AllPresent(k: Key)
  {
    PresentString(k.idempotencyKey) && PresentString(k.jobName) && k.lastRunAt.Some?
      && PresentString(k.recoveryPoint)
  }

  /**
   * The errors the validators add, in declaration order: presence then
   * uniqueness of `idempotency_key`, then presence of `job_name`,
   * `last_run_at` and `recovery_point`.
   */
  function Errors(table: seq<Key>, k: Key): (errs: seq<ValidationError>)
    ensures errs == [] <==> AllPresent(k) && !ScopeTaken(table, k)
    ensures TakenError(IdempotencyKey) in errs <==> ScopeTaken(table, k)
    ensures BlankError(IdempotencyKey) in errs <==> !PresentString(k.idempotencyKey)
    ensures BlankError(JobName) in errs <==> !PresentString(k.jobName)
    ensures BlankError(LastRunAt) in errs <==> k.lastRunAt.None?
    ensures BlankError(RecoveryPoint) in errs <==> !PresentString(k.recoveryPoint)
    ensures |errs| <= 5
  {
    (if PresentString(k.idempotencyKey) then [] else [BlankError(IdempotencyKey)])
    + (if ScopeTaken(table, k) then [TakenError(IdempotencyKey)] else [])
    + (if PresentString(k.jobName) then [] else [BlankError(JobName)])
    + (if k.lastRunAt.Some? then [] else [BlankError(LastRunAt)])
    + (if PresentString(k.recoveryPoint) then [] else [BlankError(RecoveryPoint)])
  }

  /**
   * Presence uses `[[:space:]]`: a job name of no-break space, tab and space,
   * or an idempotency key of one ideographic space, is blank; the recovery
   * point "FINISHED" is present.
   */
  lemma WhiteSpaceFieldsAreBlank(table: seq<Key>, k: Key)
    ensures k.jobName == Some("\U{00A0}\t ") ==> BlankError(JobName) in Errors(table, k)
    ensures k.idempotencyKey == Some("\U{3000}") ==> BlankError(IdempotencyKey) in Errors(table, k)
    ensures k.recoveryPoint == Some("FINISHED") ==> BlankError(RecoveryPoint) !in Errors(table, k)
  {
    if k.jobName == Some("\U{00A0}\t ") {
      var s := k.jobName.value;
      assert forall i :: 0 <= i < |s| ==> IsSpace(s[i]) by {
        assert s[0] == '\U{00A0}' && s[1] == '\t' && s[2] == ' ';
      }
    }
    if k.recoveryPoint == Some("FINISHED") {
      assert !IsSpace(k.recoveryPoint.value[0]);
    }
  }

  /** `Key.create!`: append the record when it is valid, otherwise report why not. */
  function Insert(table: seq<Key>, k: Key): Result<seq<Key>, seq<ValidationError>>
  {
    var errs := Errors(table, k);
    if errs == [] then Success(table + [k]) else Failure(errs)
  }

  /** An insert succeeds exactly when all four fields are present and the scope is free. */
  lemma InsertSucceedsIff(table: seq<Key>, k: Key)
    ensures Insert(table, k).Success? <==> AllPresent(k) && !ScopeTaken(table, k)
    ensures Insert(table, k).Failure? ==> Insert(table, k).error == Errors(table, k) != []
  {
  }

  /** A successful insert adds exactly one row, the new record, and leaves every existing row as it was. */
  lemma InsertAppendsOne(table: seq<Key>, k: Key)
    requires Insert(table, k).Success?
    ensures var t' := Insert(table, k).value;
      |t'| == |table| + 1 && t'[|table|] == k && forall i :: 0 <= i < |table| ==> t'[i] == table[i]
  {
  }

  /** A record whose scope is already in the table is rejected as taken. */
  lemma DuplicateRejected(table: seq<Key>, k: Key, i: nat)
    requires i < |table| && SameScope(table[i], k)
    ensures Insert(table, k).Failure? && TakenError(IdempotencyKey) in Insert(table, k).error
  {
  }

  /** The same idempotency key may be used by two records that differ in job name or arguments. */
  lemma SameKeyOtherScopeAccepted(table: seq<Key>, a: Key, b: Key)
    requires AllPresent(a) && AllPresent(b)
    requires !ScopeTaken(table, a) && !ScopeTaken(table, b)
    requires a.idempotencyKey == b.idempotencyKey
    requires a.jobName != b.jobName || a.jobArgs != b.jobArgs
    ensures Insert(table, a).Success?
    ensures Insert(Insert(table, a).value, b).Success?
  {
  }

  /** No two rows share a scope: what the unique index on the three columns guarantees. */
  ghost predicate UniqueScopes(table: seq<Key>)
  {
    forall i, j :: 0 <= i < j < |table| ==> !SameScope(table[i], table[j])
  }

  ghost predicate AllValid(table: seq<Key>)
  {
    forall i :: 0 <= i < |table| ==> AllPresent(table[i])
  }

  /** An insert keeps every scope unique and every row valid. */
  lemma InsertPreservesTable(table: seq<Key>, k: Key)
    requires UniqueScopes(table) && AllValid(table)
    requires Insert(table, k).Success?
    ensures UniqueScopes(Insert(table, k).value) && AllValid(Insert(table, k).value)
  {
    var t' := table + [k];
    forall i, j | 0 <= i < j < |t'| ensures !SameScope(t'[i], t'[j]) {
      if j == |table| {
        assert t'[i] == table[i];
      }
    }
  }

  /** The table after attempting `create!` on each record in turn; a rejected record changes nothing. */
  function InsertEach(table: seq<Key>, attempts: seq<Key>): seq<Key>
    decreases |attempts|
  {
    if attempts == [] then table
    else
      var last := attempts[|attempts| - 1];
      var t := InsertEach(table, attempts[..|attempts| - 1]);
      match Insert(t, last)
      case Success(t') => t'
      case Failure(_) => t
  }

  /** `table` is what a series of `attempts` left: one valid row per scope, each row attempted, each valid attempt stored. */
  ghost predicate BuiltFrom(table: seq<Key>, attempts: seq<Key>)
  {
    && UniqueScopes(table) && AllValid(table) && |table| <= |attempts|
    && (forall i :: 0 <= i < |table| ==> table[i] in attempts)
    && (forall a :: a in attempts && AllPresent(a) ==> ScopeTaken(table, a))
  }

  /** One more attempt, accepted: the record is appended. */
  lemma BuiltFromAccepted(table: seq<Key>, attempts: seq<Key>, k: Key)
    requires BuiltFrom(table, attempts) && AllPresent(k) && !ScopeTaken(table, k)
    ensures BuiltFrom(table + [k], attempts + [k])
  {
    var t', as' := table + [k], attempts + [k];
    forall i, j | 0 <= i < j < |t'| ensures !SameScope(t'[i], t'[j]) {
      if j == |table| {
        assert t'[i] == table[i];
      }
    }
    forall i | 0 <= i < |t'| ensures t'[i] in as' {
      if i < |table| {
        assert t'[i] == table[i];
      }
    }
    forall a | a in as' && AllPresent(a) ensures ScopeTaken(t', a) {
      if a == k {
        assert SameScope(t'[|table|], a);
      } else {
        assert a in attempts;
        var i :| 0 <= i < |table| && SameScope(table[i], a);
        assert SameScope(t'[i], a);
      }
    }
  }

  /** One more attempt, rejected. */
  lemma BuiltFromRejected(table: seq<Key>, attempts: seq<Key>, k: Key)
    requires BuiltFrom(table, attempts) && Insert(table, k).Failure?
    ensures BuiltFrom(table, attempts + [k])
  {
    forall a | a in attempts + [k] && AllPresent(a) ensures ScopeTaken(table, a) {
      if a != k {
        assert a in attempts;
      }
    }
  }

  /**
   * Starting from an empty table, any series of inserts leaves exactly one row
   * per scope, every row valid and taken from the attempts, and every valid
   * attempt's scope present.
   */
  lemma {:induction false} InsertEachKeepsOneRowPerScope(attempts: seq<Key>)
    ensures BuiltFrom(InsertEach([], attempts), attempts)
    decreases |attempts|
  {
    if attempts != [] {
      var init, last := attempts[..|attempts| - 1], attempts[|attempts| - 1];
      assert attempts == init + [last];
      InsertEachKeepsOneRowPerScope(init);
      var t := InsertEach([], init);
      InsertSucceedsIff(t, last);
      if Insert(t, last).Success? {
        BuiltFromAccepted(t, init, last);
      } else {
        BuiltFromRejected(t, init, last);
      }
    }
  }
}
