# acidic_job persistence core in Dafny

This project models three pieces of the acidic_job persistence layer:

- **Execution record (`AcidicJob::Key`), module `Keys` (key.dfy).** A record holds the idempotency key, the job name and arguments, the recovery point, the error object, the workflow snapshot and the stored accessors. The module defines the outcome predicates `finished?`, `succeeded?` and `failed?`. It also defines the validations run by `create!`: four presence checks, and uniqueness of the idempotency key within the scope of `(job_name, job_args)`. The key table is a sequence of records. An insert either appends one record or returns the validation errors.
- **Serialisers, module `Serializers` (serializer.dfy).** This covers the ActiveJob serialisers for exceptions and workflow markers:
  - `ExceptionSerializer#serialize` compacts a backtrace. Each line is split at its last `/` into a path and a location, and only the first location per path is kept, in first-occurrence order. This is a method with a loop, proved against the function `Compact`.
  - `FinishedPointSerializer` and `RecoveryPointSerializer`.
  - `AcidicJob::Serializer.load` and `dump`. The JSON text codec and ActiveJob's argument codec are parameters.
- **Transactional outbox, module `Outbox` (outbox.dfy).** `perform_transactionally` first classifies the job class: ActiveJob first, then Sidekiq, otherwise `UnknownJobAdapter`. It then appends exactly one row to the staged table, which is a class with a `rows` sequence.

`Values` (values.dfy) models the Ruby values stored in serialised columns. It also gives ActiveSupport's `blank?`/`present?` rules for them, which decide the presence validations and `failed?`. `Wrappers` (wrappers.dfy) holds `Option` and `Result`.

One could expect a second record with the same idempotency key but different arguments to be rejected as a parameter mismatch. lib/acidic_job/key.rb:16 does not do that: it only makes the triple `(idempotency_key, job_name, job_args)` unique. So a record with the same key and different arguments is a different scope, and `create!` accepts it. The model follows the code (`Keys.SameKeyOtherScopeAccepted`).

## Model

| member | source | states |
|---|---|---|
| `Keys.OutcomeExclusive` | lib/acidic_job/key.rb:7-31 | `succeeded?` holds exactly when the recovery point is "FINISHED" and the error object is blank. `succeeded?` and `failed?` are never both true. An unfinished record is never succeeded. A finished record with an error is not succeeded. |
| `Keys.FailedExamples` | lib/acidic_job/key.rb:29-31 | `failed?` is `present?` on the error object: nil or "" means not failed, while an exception object or a non-blank message means failed. |
| `Values.BlankExamples` | lib/acidic_job/key.rb:16-19 | nil, "", white space and [] are blank. An object, a number and "FINISHED" are present. |
| `Keys.Errors` | lib/acidic_job/key.rb:16-19 | The validators report no errors exactly when all four fields are present and the scope is free. `:taken` is reported exactly when another row holds the triple, and each `:blank` exactly when its field is absent or blank. At most five errors. |
| `Keys.WhiteSpaceFieldsAreBlank` | lib/acidic_job/key.rb:16-19 | Presence follows `[[:space:]]`: a job name of no-break space, tab and space gets `:blank`, and so does an idempotency key of one ideographic space. The recovery point "FINISHED" gets no `:blank`. |
| `Keys.InsertSucceedsIff` | lib/acidic_job/key.rb:16-19 | `create!` succeeds exactly when the four fields are present and no row holds the same `(idempotency_key, job_name, job_args)`. On failure it returns the non-empty error list. |
| `Keys.InsertAppendsOne` | lib/acidic_job/key.rb:16 | A successful insert adds exactly one row, the new record, and leaves every existing row unchanged. |
| `Keys.DuplicateRejected` | lib/acidic_job/key.rb:16 | A record whose triple is already in the table is rejected with `:taken` on `idempotency_key`. |
| `Keys.SameKeyOtherScopeAccepted` | lib/acidic_job/key.rb:16 | Two valid records with the same idempotency key but a different job name or different arguments are both accepted, one after the other. |
| `Keys.InsertPreservesTable` | test/support/setup.rb:35-36 | An insert keeps every triple unique (what the unique index guarantees) and every row valid. |
| `Keys.InsertEachKeepsOneRowPerScope` | lib/acidic_job/key.rb:16-19 | Any series of `create!` attempts on an empty table leaves at most one row per triple, and every row is valid and was attempted. Every valid attempt's triple is in the table. |
| `Serializers.LastSlash` | lib/acidic_job/serializer.rb:37 | Finds the position of the last '/' of a line: no '/' follows it. It finds none exactly when the line has no '/'. |
| `Serializers.RPartition` | lib/acidic_job/serializer.rb:37 | `rpartition("/")`: the line is path + "/" + location, and the location has no '/'. A line without '/' gives path "" and the whole line as location. |
| `Serializers.RPartitionInverse` | lib/acidic_job/serializer.rb:37 | Splitting `path + "/" + location`, where the location has no '/', gives back exactly that path and location. |
| `Serializers.SummaryKeep` | lib/acidic_job/serializer.rb:39 | A line whose path is already stored (`next if key?`) leaves the compacted hash valid for the longer trace. |
| `Serializers.SummaryAppend` | lib/acidic_job/serializer.rb:41 | A line with a new path adds its split as the last entry, and the hash stays the compaction of the longer trace. |
| `Serializers.CompactSummary` | lib/acidic_job/serializer.rb:36-42 | Each entry of the compacted backtrace is the split of the first line with that path. Entries follow the order of first occurrence, and every line's path has an entry. |
| `Serializers.CompactDistinct` | lib/acidic_job/serializer.rb:36-42 | Entries have pairwise distinct paths and never outnumber the trace lines. |
| `Serializers.CompactPaths` | lib/acidic_job/serializer.rb:36-42 | A path has an entry exactly when some trace line has that path. |
| `Serializers.CompactFirstWins` | lib/acidic_job/serializer.rb:39-41 | For the first line with a given path, the stored entry is that line's path and location, so later lines with the path are skipped. |
| `Serializers.SerializeException` | lib/acidic_job/serializer.rb:28-45 | The class and message are stored unchanged and the backtrace is `Compact` of the trace. An exception that was never raised (nil backtrace) raises NoMethodError. |
| `Serializers.AsWrittenNeverRestores` | lib/acidic_job/serializer.rb:47-54 | As written, deserialising any stored exception fails: NameError when its class is undefined, and otherwise TypeError for a class whose `new(message)` builds an exception with that message (the only kind modelled). |
| `Serializers.CompactRebuild` | lib/acidic_job/serializer.rb:50-52 | Rebuilding "path/location" lines from a compacted hash and compacting them again gives the same hash. |
| `Serializers.ExceptionRoundTrip` | lib/acidic_job/serializer.rb:47-54 | For a defined class whose `new(message)` builds an exception with that message (the only kind modelled), the corrected deserialise gives the stored class and message, and its backtrace compacts to the stored one. |
| `Serializers.UnknownExceptionClass` | lib/acidic_job/serializer.rb:48 | A class name that is not defined fails with NameError. |
| `Serializers.MarkerRoundTrip` | lib/acidic_job/serializer.rb:61-89 | A FinishedPoint is stored as its class alone, and a RecoveryPoint as its class and name. When the class is defined, a FinishedPoint deserialises to itself and a RecoveryPoint to its class with its name as read back from JSON. An undefined class fails with NameError. |
| `Values.FromPairsSpec` | lib/acidic_job/serializer.rb:131 | Building a hash from pairs, as `to_json` does with the converted keys, leaves one entry per key. Each key holds the value of its last pair, and every entry is one of the pairs. |
| `Values.JsonMergesCollidingKeys` | lib/acidic_job/serializer.rb:131 | `{:a => 1, "a" => 2}` reads back from JSON as `{"a" => 2}`: keys that become equal strings merge, and the last value wins. |
| `Values.JsonFormIdempotent` | lib/acidic_job/serializer.rb:129-131 | Reading a value back from its JSON text a second time changes nothing more: symbols are already strings. |
| `Serializers.RecoveryPointNameReadBack` | lib/acidic_job/serializer.rb:79-89 | A recovery point named by a string comes back unchanged. One named by a symbol, as workflow step names are, comes back named by the equal string. |
| `Serializers.MarkerStoreStable` | lib/acidic_job/serializer.rb:61-89 | Deserialising a stored marker of a defined class succeeds, and serialising the result again gives exactly the stored hash. |
| `Serializers.Load` | lib/acidic_job/serializer.rb:122-127 | `load` returns nil for a nil or empty column. |
| `Serializers.Dump` | lib/acidic_job/serializer.rb:129-132 | `dump` fails with SerializationError exactly when the argument codec rejects `[x]`, and otherwise returns the codec's text for `[x]`. |
| `Serializers.LoadDump` | lib/acidic_job/serializer.rb:122-132 | `load(dump(x)) == x` whenever the codec turns `[x]` into non-empty text that parses back to `[x]`. |
| `Outbox.ActiveJobBranch` | lib/acidic_job/perform_transactionally_extension.rb:11-16 | An ActiveJob subclass stages adapter "activejob", its class name and the serialised job. This holds even when it also includes Sidekiq::Worker. |
| `Outbox.SidekiqBranch` | lib/acidic_job/perform_transactionally_extension.rb:17-22 | A Sidekiq worker that is not an ActiveJob stages adapter "sidekiq", its class name and the arguments verbatim. |
| `Outbox.AdapterClassification` | lib/acidic_job/perform_transactionally_extension.rb:11-25 | Staging fails with UnknownJobAdapter exactly when the class is neither kind. Otherwise the row carries the class name and an adapter that is "activejob" or "sidekiq". |
| `Outbox.StagedTable.PerformTransactionally` | lib/acidic_job/perform_transactionally_extension.rb:10-28 | On success exactly one row with the computed attributes is appended. On UnknownJobAdapter the table is unchanged. Every row's adapter stays "activejob" or "sidekiq". |

## Findings

| source | as written | input that shows it | evidently intended | confidence | as-written member | corrected member |
|---|---|---|---|---|---|---|
| lib/acidic_job/serializer.rb:50-52 | The `do … end` block binds to `set_backtrace`, not to `map`. So `set_backtrace` receives the Enumerator returned by a block-less `map`, and `Exception#set_backtrace` rejects it with TypeError. | Any stored exception of a defined class with the standard one-argument constructor, e.g. class "RuntimeError", message "boom", backtrace {"app/models" => "ride.rb:3"} | Give the block to `map`, so the backtrace is rebuilt as the lines "path/location" | high on the block binding, medium on the TypeError; not executed | `Serializers.AsWrittenNeverRestores` | `Serializers.ExceptionRoundTrip` |

## Left out

- The step-execution engine is not part of this model: `with_acidity`, `step`, `idempotently`, locking with its staleness rule, unlock on error, and the errors for no defined steps and unknown recovery points. Its source is not among the modelled files.
- `AcidicJob::IdempotencyKey` (key derivation with a SHA1 digest) and `AcidicJob::Run` are not part of this model.
- The `AcidicJob::Staged` model (its validations and its enqueue after commit) is not part of this model. `Staged.create!` is modelled as an append that always succeeds.
- `WorkerSerializer` is left out, because it reflects on a worker's instance variables and checks for Sidekiq classes.
- The `serialize?` predicates and ActiveJob's serializer registry (`add_serializers`) are left out. The model picks the serialiser by the object's constructor.
- `Arguments.deserialize_global_id` is left out: it is a GlobalID lookup.
- The exception's `cause` is stored raw and is left out.
- `Serializers.Load` and `Serializers.LoadDump` treat `JSON.parse`/`to_json` and `ActiveJob::Arguments` as opaque function parameters. Any failure while parsing is one `ParserError`, and any failure of `Arguments.serialize` in `dump` (such as an unsupported argument type) is one `SerializationError`.
- Serializers.DeserializeException (and Serializers.DeserializeExceptionAsWritten): `exception_class.new(message)` is modelled as always building an instance of the class whose message is the argument. A class with another `initialize` signature, or whose `message` differs from the argument, is not modelled. For such a class the as-written error is whatever `new` raises (an ArgumentError, for instance), not TypeError.
- `Outbox.StagedTable.PerformTransactionally`: `job_or_instantiate(*args).serialize` is an opaque function parameter. An anonymous class, whose `name` is nil, is not modelled.
- Keys.Errors compares `job_args` as values, not as their serialised text. This assumes the column's serialisation is deterministic and injective.
- The race between the uniqueness validation and the unique index is left out, because it is a concurrency concern. Transactions and rollback are left out too.
- Timestamps (`last_run_at`, `locked_at`) are opaque integers. Only whether they are present matters.
- The `workflow` hash is modelled as a map, so the order of its steps is not kept.
- Serializers.MarkerRoundTrip: the marker hash is modelled as it reads back from the stored JSON, so a RecoveryPoint named by a symbol comes back named by a string. Values.JsonForm turns symbols, and symbol hash keys, into strings and merges hash keys that become equal. It keeps other hash keys (such as the integer 1, which JSON turns into "1") and other objects as they are, because their JSON text is not modelled; such keys are therefore not merged with the strings they would become.
- Values.IsSpace lists the Unicode white-space code points of `[[:space:]]` explicitly. Strings are sequences of characters, with no encoding.
