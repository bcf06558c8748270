/**
 * `perform_transactionally`: stage a job in the outbox table
 * (`staged_acidic_jobs`) instead of enqueueing it, choosing the row's
 * attributes by the job's adapter (lib/acidic_job/perform_transactionally_extension.rb).
 */
module Outbox {

  import opened Wrappers
  import opened Values

  /** Which of the two job frameworks are loaded (`defined?(ActiveJob)`, `defined?(Sidekiq)`). */
  datatype Runtime = Runtime(activeJobLoaded: bool, sidekiqLoaded: bool)

  /** The class `perform_transactionally` is called on. */
  datatype JobClass = JobClass(
    name: string,
    subclassOfActiveJobBase: bool,   // `self < ActiveJob::Base`
    includesSidekiqWorker: bool)     // `include?(Sidekiq::Worker)`

  const ACTIVEJOB: string := "activejob"
  const SIDEKIQ: string := "sidekiq"

  /** One outbox row: which adapter enqueues it, the job class name and its arguments. */
  datatype StagedRow = StagedRow(adapter: string, jobName: string, jobArgs: Value)

  datatype StagingError = UnknownJobAdapter

  predicate IsActiveJob(rt: Runtime, cls: JobClass)
  {
    rt.activeJobLoaded && cls.subclassOfActiveJobBase
  }

  predicate IsSidekiqWorker(rt: Runtime, cls: JobClass)
  {
    rt.sidekiqLoaded && cls.includesSidekiqWorker
  }

  /**
   * The attributes of the row to stage. `serializeJob` stands for
   * `job_or_instantiate(*args).serialize`, ActiveJob's own serialised form of
   * the job built from the arguments.
   */
  function StagedAttributes(rt: Runtime, cls: JobClass, args: seq<Value>,
                            serializeJob: seq<Value> -> Value): Result<StagedRow, StagingError>
  {
    if IsActiveJob(rt, cls) then
      Success(StagedRow(ACTIVEJOB, cls.name, serializeJob(args)))
    else if IsSidekiqWorker(rt, cls) then
      Success(StagedRow(SIDEKIQ, cls.name, List(args)))
    else
      Failure(UnknownJobAdapter)
  }

  /**
   * An ActiveJob class stages the serialised job under "activejob", even when
   * it also includes Sidekiq::Worker.
   */
  lemma ActiveJobBranch(rt: Runtime, cls: JobClass, args: seq<Value>, serializeJob: seq<Value> -> Value)
    requires IsActiveJob(rt, cls)
    ensures StagedAttributes(rt, cls, args, serializeJob)
      == Success(StagedRow("activejob", cls.name, serializeJob(args)))
  {
  }

  /** A Sidekiq worker that is not an ActiveJob stages its arguments verbatim under "sidekiq". */
  lemma SidekiqBranch(rt: Runtime, cls: JobClass, args: seq<Value>, serializeJob: seq<Value> -> Value)
    requires IsSidekiqWorker(rt, cls) && !IsActiveJob(rt, cls)
    ensures StagedAttributes(rt, cls, args, serializeJob) == Success(StagedRow("sidekiq", cls.name, List(args)))
  {
  }

  /**
   * Staging fails with UnknownJobAdapter exactly when the class is neither an
   * ActiveJob nor a Sidekiq worker; otherwise the row names the class and one
   * of the two adapters.
   */
  lemma AdapterClassification(rt: Runtime, cls: JobClass, args: seq<Value>, serializeJob: seq<Value> -> Value)
    ensures var r := StagedAttributes(rt, cls, args, serializeJob);
      && (r.Failure? <==> !IsActiveJob(rt, cls) && !IsSidekiqWorker(rt, cls))
      && (r.Failure? ==> r.error == UnknownJobAdapter)
      && (r.Success? ==> r.value.jobName == cls.name && r.value.adapter in {"activejob", "sidekiq"})
  {
  }

  /** The outbox table `staged_acidic_jobs`, in insertion order. */
  class StagedTable {
    var rows: seq<StagedRow>

    /** Every row was staged through one of the two adapters. */
    ghost predicate Valid()
      reads this
    {
      forall i :: 0 <= i < |rows| ==> rows[i].adapter == ACTIVEJOB || rows[i].adapter == SIDEKIQ
    }

    constructor ()
      ensures Valid() && rows == []
    {
      rows := [];
    }

    /**
     * `perform_transactionally(*args)`: append exactly one row carrying the
     * computed attributes, or raise UnknownJobAdapter and append nothing.
     */
    method PerformTransactionally(rt: Runtime, cls: JobClass, args: seq<Value>,
                                  serializeJob: seq<Value> -> Value)
      returns (r: Result<StagedRow, StagingError>)
      requires Valid()
      modifies this
      ensures Valid()
      ensures r == StagedAttributes(rt, cls, args, serializeJob)
      ensures r.Success? ==> rows == old(rows) + [r.value]
      ensures r.Failure? ==> rows == old(rows)
    {
      r := StagedAttributes(rt, cls, args, serializeJob);
      if r.Success? {
        rows := rows + [r.value];   // Staged.create!(attributes)
      }
    }
  }
}
