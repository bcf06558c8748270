/**
 * The serialisers registered with ActiveJob for exceptions and workflow
 * markers, and the `load`/`dump` pair that stores a single object in a text
 * column (lib/acidic_job/serializer.rb).
 *
 * An exception is stored as its class name, its message and a compacted
 * backtrace: every trace line is split at its last '/' into a path and a
 * location, and only the first location seen for each path is kept, in the
 * order the paths first occur.
 */
module Serializers {

  import opened Wrappers
  import opened Values

  /** The Ruby errors raised on the paths modelled here. */
  datatype RubyError =
    | NoMethodError   // a method called on nil
    | NameError       // `constantize` on a name that is not a defined constant
    | TypeError       // `set_backtrace` given something other than an Array of String
    | ArgumentError   // a serialiser name other than the two marker serialisers modelled here
    | ParserError     // `JSON.parse` (or argument deserialisation) on malformed text
    | SerializationError  // `Arguments.serialize` on an argument type it does not support

  // ---------------------------------------------------------------------------
  // String#rpartition("/")
  // ---------------------------------------------------------------------------

  /** The index of the last '/' in `s`, if any. */
  function LastSlash(s: string): (r: Option<nat>)
    ensures r.Some? ==> r.value < |s| && s[r.value] == '/'
    ensures r.Some? ==> forall j :: r.value < j < |s| ==> s[j] != '/'
    ensures r.None? <==> '/' !in s
    decreases |s|
  {
    if |s| == 0 then None
    else if s[|s| - 1] == '/' then Some(|s| - 1)
    else
      var r := LastSlash(s[..|s| - 1]);
      assert s == s[..|s| - 1] + [s[|s| - 1]];
      r
  }

  /** One compacted backtrace entry: a path and the location that followed it. */
  datatype Frame = Frame(path: string, location: string)

  /**
   * `trace.rpartition("/")` with the separator dropped: everything before the
   * last '/' and everything after it; with no '/', the path is empty and the
   * location is the whole line.
   */
  function RPartition(line: string): (f: Frame)
    ensures '/' in line ==> line == f.path + "/" + f.location
    ensures '/' !in line ==> f.path == "" && f.location == line
    ensures '/' !in f.location
  {
    match LastSlash(line)
    case None => Frame("", line)
    case Some(i) =>
      assert line == line[..i] + "/" + line[i + 1..];
      Frame(line[..i], line[i + 1..])
  }

  /** Splitting "path/location" gives back the path and the location when the location holds no '/'. */
  lemma RPartitionInverse(path: string, location: string)
    requires '/' !in location
    ensures RPartition(path + "/" + location) == Frame(path, location)
  {
    var line := path + "/" + location;
    assert line[|path|] == '/';
    var r := LastSlash(line);
    assert r.Some?;
    assert r.value == |path|;
    assert line[..|path|] == path;
    assert line[|path| + 1..] == location;
  }

  function PathOf(line: string): string
  {
    RPartition(line).path
  }

  // ---------------------------------------------------------------------------
  // Backtrace compaction
  // ---------------------------------------------------------------------------

  /** The `"backtrace"` hash: its entries in insertion order, one per path. */
  type Backtrace = seq<Frame>

  /** `hash["backtrace"].key?(path)` */
  predicate HasPath(bt: Backtrace, path: string)
  {
    exists k :: 0 <= k < |bt| && bt[k].path == path
  }

  /** One iteration of the loop: skip a line whose path is known, otherwise store its location. */
  function Record(bt: Backtrace, line: string): Backtrace
  {
    var f := RPartition(line);
    if HasPath(bt, f.path) then bt else bt + [f]
  }

  /** The hash after the loop has visited every line of `trace`. */
  function Compact(trace: seq<string>): Backtrace
    decreases |trace|
  {
    if trace == [] then [] else Record(Compact(trace[..|trace| - 1]), trace[|trace| - 1])
  }

  /** The index of the trace line each entry of `Compact(trace)` was taken from. */
  ghost function FirstIndices(trace: seq<string>): seq<nat>
    decreases |trace|
  {
    if trace == [] then []
    else
      var prefix := trace[..|trace| - 1];
      if HasPath(Compact(prefix), PathOf(trace[|trace| - 1])) then FirstIndices(prefix)
      else FirstIndices(prefix) + [|trace| - 1]
  }

  /** Entry k is the split of trace line idx[k]. */
  ghost predicate EntriesFrom(trace: seq<string>, bt: Backtrace, idx: seq<nat>)
  {
    |idx| == |bt| && forall k :: 0 <= k < |idx| ==> idx[k] < |trace| && bt[k] == RPartition(trace[idx[k]])
  }

  /** The source lines of the entries increase: entries follow the order of first occurrence. */
  ghost predicate Increasing(idx: seq<nat>)
  {
    forall k, m :: 0 <= k < m < |idx| ==> idx[k] < idx[m]
  }

  /** No line before idx[k] has the path of entry k. */
  ghost predicate FirstOccurrences(trace: seq<string>, bt: Backtrace, idx: seq<nat>)
    requires |idx| == |bt|
  {
    forall k, j :: 0 <= k < |idx| && 0 <= j < idx[k] && j < |trace| ==> PathOf(trace[j]) != bt[k].path
  }

  /** Every line's path has an entry. */
  ghost predicate Covers(trace: seq<string>, bt: Backtrace)
  {
    forall j :: 0 <= j < |trace| ==> HasPath(bt, PathOf(trace[j]))
  }

  /**
   * `bt` is the compaction of `trace`, witnessed by the line indices `idx`:
   * entry k is the split of line idx[k], no earlier line has that path, the
   * indices increase, and every line's path has an entry.
   */
  ghost predicate Summarizes(trace: seq<string>, bt: Backtrace, idx: seq<nat>)
  {
    EntriesFrom(trace, bt, idx) && Increasing(idx) && FirstOccurrences(trace, bt, idx) && Covers(trace, bt)
  }

  /** A line whose path already has an entry leaves the summary as it was. */
  lemma SummaryKeep(prefix: seq<string>, line: string, bt: Backtrace, idx: seq<nat>)
    requires Summarizes(prefix, bt, idx)
    requires HasPath(bt, PathOf(line))
    ensures Summarizes(prefix + [line], bt, idx)
  {
    var trace := prefix + [line];
    forall k | 0 <= k < |idx| ensures idx[k] < |trace| && bt[k] == RPartition(trace[idx[k]]) {
      assert trace[idx[k]] == prefix[idx[k]];
    }
    forall k, j | 0 <= k < |idx| && 0 <= j < idx[k] && j < |trace| ensures PathOf(trace[j]) != bt[k].path {
      assert trace[j] == prefix[j];
    }
    forall j | 0 <= j < |trace| ensures HasPath(bt, PathOf(trace[j])) {
      if j < |prefix| {
        assert trace[j] == prefix[j];
      }
    }
  }

  /** A line with a new path adds its own split as the last entry. */
  lemma SummaryAppend(prefix: seq<string>, line: string, bt: Backtrace, idx: seq<nat>)
    requires Summarizes(prefix, bt, idx)
    requires !HasPath(bt, PathOf(line))
    ensures Summarizes(prefix + [line], bt + [RPartition(line)], idx + [|prefix|])
  {
    var trace := prefix + [line];
    var bt', idx' := bt + [RPartition(line)], idx + [|prefix|];
    forall k | 0 <= k < |idx'| ensures idx'[k] < |trace| && bt'[k] == RPartition(trace[idx'[k]]) {
      if k < |idx| {
        assert trace[idx[k]] == prefix[idx[k]];
      }
    }
    forall k, m | 0 <= k < m < |idx'| ensures idx'[k] < idx'[m] {
      if m < |idx| {
        assert idx'[k] == idx[k] && idx'[m] == idx[m];
      }
    }
    forall k, j | 0 <= k < |idx'| && 0 <= j < idx'[k] && j < |trace| ensures PathOf(trace[j]) != bt'[k].path {
      assert trace[j] == prefix[j];
      if k == |idx| {
        assert HasPath(bt, PathOf(prefix[j]));
      } else {
        assert bt'[k] == bt[k];
      }
    }
    forall j | 0 <= j < |trace| ensures HasPath(bt', PathOf(trace[j])) {
      if j == |prefix| {
        assert bt'[|bt|].path == PathOf(trace[j]);
      } else {
        assert trace[j] == prefix[j];
        assert HasPath(bt, PathOf(prefix[j]));
        var k :| 0 <= k < |bt| && bt[k].path == PathOf(prefix[j]);
        assert bt'[k].path == PathOf(trace[j]);
      }
    }
  }

  /** The compacted backtrace keeps, in order of first occurrence, the first location of every path. */
  lemma {:induction false} CompactSummary(trace: seq<string>)
    ensures Summarizes(trace, Compact(trace), FirstIndices(trace))
    decreases |trace|
  {
    if trace != [] {
      var n := |trace| - 1;
      var prefix, line := trace[..n], trace[n];
      assert trace == prefix + [line];
      CompactSummary(prefix);
      if HasPath(Compact(prefix), PathOf(line)) {
        SummaryKeep(prefix, line, Compact(prefix), FirstIndices(prefix));
      } else {
        SummaryAppend(prefix, line, Compact(prefix), FirstIndices(prefix));
      }
    }
  }

  /** Entries have pairwise distinct paths, so there are never more entries than trace lines. */
  lemma CompactDistinct(trace: seq<string>)
    ensures forall k, m :: 0 <= k < m < |Compact(trace)| ==> Compact(trace)[k].path != Compact(trace)[m].path
    ensures |Compact(trace)| <= |trace|
  {
    var bt, idx := Compact(trace), FirstIndices(trace);
    CompactSummary(trace);
    IncreasingBounded(idx, |trace|);
  }

  /** A strictly increasing sequence of indices below n has at most n elements. */
  lemma {:induction false} IncreasingBounded(idx: seq<nat>, n: nat)
    requires forall k :: 0 <= k < |idx| ==> idx[k] < n
    requires forall k, m :: 0 <= k < m < |idx| ==> idx[k] < idx[m]
    ensures |idx| <= n
    decreases n
  {
    if idx != [] {
      var last := idx[|idx| - 1];
      IncreasingBounded(idx[..|idx| - 1], last);
    }
  }

  /** There is exactly one entry per distinct path occurring in the trace. */
  lemma CompactPaths(trace: seq<string>, path: string)
    ensures HasPath(Compact(trace), path) <==> exists j :: 0 <= j < |trace| && PathOf(trace[j]) == path
  {
    CompactSummary(trace);
    var bt, idx := Compact(trace), FirstIndices(trace);
    if HasPath(bt, path) {
      var k :| 0 <= k < |bt| && bt[k].path == path;
      assert PathOf(trace[idx[k]]) == path;
    }
  }

  /** The location stored for a path is the one from the first line with that path. */
  lemma CompactFirstWins(trace: seq<string>, j: nat)
    requires j < |trace|
    requires forall i :: 0 <= i < j ==> PathOf(trace[i]) != PathOf(trace[j])
    ensures exists k :: 0 <= k < |Compact(trace)| && Compact(trace)[k] == RPartition(trace[j])
  {
    CompactSummary(trace);
    var bt, idx := Compact(trace), FirstIndices(trace);
    var k :| 0 <= k < |bt| && bt[k].path == PathOf(trace[j]);
    assert idx[k] == j;
  }

  // ---------------------------------------------------------------------------
  // ExceptionSerializer
  // ---------------------------------------------------------------------------

  /** An exception object; its backtrace is nil until it has been raised. */
  datatype Exception = Exception(cls: string, message: string, backtrace: Option<seq<string>>)

  /** The hash stored for an exception: class name, message and compacted backtrace. */
  datatype ExceptionHash = ExceptionHash(cls: string, message: string, backtrace: Backtrace)

  /** `ExceptionSerializer#serialize`; a never-raised exception has no backtrace to map over. */
  method SerializeException(e: Exception) returns (r: Result<ExceptionHash, RubyError>)
    ensures r.Failure? <==> e.backtrace.None?
    ensures r.Failure? ==> r.error == NoMethodError
    ensures r.Success? ==> r.value.cls == e.cls && r.value.message == e.message
    ensures r.Success? ==> r.value.backtrace == Compact(e.backtrace.value)
  {
    if e.backtrace.None? {
      return Failure(NoMethodError);
    }
    var trace := e.backtrace.value;
    var bt: Backtrace := [];
    var i := 0;
    while i < |trace|
      invariant 0 <= i <= |trace|
      invariant bt == Compact(trace[..i])
    {
      assert trace[..i + 1][..i] == trace[..i];
      var f := RPartition(trace[i]);
      if !HasPath(bt, f.path) {
        bt := bt + [f];
      }
      i := i + 1;
    }
    assert trace[..i] == trace;
    r := Success(ExceptionHash(e.cls, e.message, bt));
  }

  /** What `set_backtrace` is handed. */
  datatype BacktraceArgument = Lines(lines: seq<string>) | Enumerator(over: Backtrace)

  /** `Exception#set_backtrace` accepts an Array of String and rejects anything else. */
  function SetBacktrace(e: Exception, arg: BacktraceArgument): Result<Exception, RubyError>
  {
    match arg
    case Lines(ls) => Success(e.(backtrace := Some(ls)))
    case Enumerator(_) => Failure(TypeError)
  }

  /**
   * `ExceptionSerializer#deserialize` as written: the `do … end` block binds
   * to `set_backtrace`, not to `map`, so `set_backtrace` receives the
   * Enumerator returned by a block-less `map`. `known` holds the defined
   * exception classes; `new(message)` on each of them is taken to build an
   * instance with that message.
   */
  function DeserializeExceptionAsWritten(h: ExceptionHash, known: set<string>): Result<Exception, RubyError>
  {
    if h.cls !in known then Failure(NameError)
    else SetBacktrace(Exception(h.cls, h.message, None), Enumerator(h.backtrace))
  }

  /** As written, no stored exception can be deserialised. */
  lemma AsWrittenNeverRestores(e: Exception, known: set<string>)
    requires e.backtrace.Some?
    ensures var h := ExceptionHash(e.cls, e.message, Compact(e.backtrace.value));
      DeserializeExceptionAsWritten(h, known) == Failure(if e.cls in known then TypeError else NameError)
  {
  }

  /** The backtrace lines rebuilt from the stored hash: `[path, location].join("/")` per entry. */
  function Rebuild(bt: Backtrace): seq<string>
  {
    seq(|bt|, k requires 0 <= k < |bt| => bt[k].path + "/" + bt[k].location)
  }

  /** `ExceptionSerializer#deserialize` with the block given to `map`, as intended. */
  function DeserializeException(h: ExceptionHash, known: set<string>): Result<Exception, RubyError>
  {
    if h.cls !in known then Failure(NameError)
    else SetBacktrace(Exception(h.cls, h.message, None), Lines(Rebuild(h.backtrace)))
  }

  /** Rebuilding a hash with distinct paths and '/'-free locations and compacting again gives the same hash. */
  lemma {:induction false} CompactRebuild(bt: Backtrace)
    requires forall k, m :: 0 <= k < m < |bt| ==> bt[k].path != bt[m].path
    requires forall k :: 0 <= k < |bt| ==> '/' !in bt[k].location
    ensures Compact(Rebuild(bt)) == bt
    decreases |bt|
  {
    if bt != [] {
      var n := |bt| - 1;
      var init, last := bt[..n], bt[n];
      var lines := Rebuild(bt);
      RebuildPrefix(bt);
      CompactRebuild(init);
      assert Compact(lines) == Record(Compact(Rebuild(init)), lines[n]);
      RPartitionInverse(last.path, last.location);
      assert !HasPath(init, last.path);
      assert bt == init + [last];
    }
  }

  /** Rebuilding all but the last entry gives all but the last line. */
  lemma RebuildPrefix(bt: Backtrace)
    requires bt != []
    ensures Rebuild(bt)[..|bt| - 1] == Rebuild(bt[..|bt| - 1])
  {
    var n := |bt| - 1;
    forall k | 0 <= k < n ensures Rebuild(bt)[..n][k] == Rebuild(bt[..n])[k] {
      assert bt[..n][k] == bt[k];
    }
  }

  /**
   * The corrected round trip: the exception comes back with its class and
   * message, and its rebuilt backtrace compacts to the stored one.
   */
  lemma ExceptionRoundTrip(e: Exception, known: set<string>)
    requires e.backtrace.Some? && e.cls in known
    ensures var h := ExceptionHash(e.cls, e.message, Compact(e.backtrace.value));
      && DeserializeException(h, known).Success?
      && DeserializeException(h, known).value.cls == e.cls
      && DeserializeException(h, known).value.message == e.message
      && Compact(DeserializeException(h, known).value.backtrace.value) == h.backtrace
  {
    var bt := Compact(e.backtrace.value);
    CompactDistinct(e.backtrace.value);
    CompactSummary(e.backtrace.value);
    CompactRebuild(bt);
  }

  /** A class that is not defined cannot be rebuilt. */
  lemma UnknownExceptionClass(h: ExceptionHash, known: set<string>)
    requires h.cls !in known
    ensures DeserializeException(h, known) == Failure(NameError)
  {
  }

  // ---------------------------------------------------------------------------
  // FinishedPointSerializer and RecoveryPointSerializer
  // ---------------------------------------------------------------------------

  /** A workflow marker: the end of a workflow, or the step to resume from. */
  datatype Marker = FinishedPoint(cls: string) | RecoveryPoint(cls: string, name: Value)

  /**
   * An ActiveJob object hash as it reads back from the stored JSON: the
   * `_aj_serialized` serialiser name and the serialiser's own keys. The
   * class object is stored as its name, and every other value in its JSON
   * form.
   */
  datatype ObjectHash = ObjectHash(serializer: string, fields: map<string, Value>)

  const FINISHED_POINT_SERIALIZER: string := "FinishedPointSerializer"
  const RECOVERY_POINT_SERIALIZER: string := "RecoveryPointSerializer"

  function SerializeMarker(m: Marker): ObjectHash
  {
    match m
    case FinishedPoint(cls) => ObjectHash(FINISHED_POINT_SERIALIZER, map["class" := Str(cls)])
    case RecoveryPoint(cls, name) => ObjectHash(RECOVERY_POINT_SERIALIZER, map["class" := Str(cls), "name" := JsonForm(name)])
  }

  /** `hash[key]`: nil for a missing key. */
  function Lookup(h: ObjectHash, key: string): Value
  {
    if key in h.fields then h.fields[key] else Nil
  }

  /** `hash["class"].constantize` */
  function Constantize(v: Value, known: set<string>): Result<string, RubyError>
  {
    match v
    case Str(name) => if name in known then Success(name) else Failure(NameError)
    case _ => Failure(NoMethodError)
  }

  /**
   * The serialiser named by the hash rebuilds the marker from its class and,
   * for a recovery point, its name. Only the two marker serialisers are
   * covered; any other serialiser name is reported as ArgumentError.
   */
  function DeserializeMarker(h: ObjectHash, known: set<string>): Result<Marker, RubyError>
  {
    if h.serializer == FINISHED_POINT_SERIALIZER then
      match Constantize(Lookup(h, "class"), known)
      case Success(cls) => Success(FinishedPoint(cls))
      case Failure(err) => Failure(err)
    else if h.serializer == RECOVERY_POINT_SERIALIZER then
      match Constantize(Lookup(h, "class"), known)
      case Success(cls) => Success(RecoveryPoint(cls, Lookup(h, "name")))
      case Failure(err) => Failure(err)
    else Failure(ArgumentError)
  }

  /**
   * A finished point is stored as its class alone, a recovery point as its
   * class and name. When the class is defined, a finished point comes back
   * unchanged and a recovery point comes back with its name as read from
   * JSON; otherwise deserialising fails with NameError.
   */
  lemma MarkerRoundTrip(m: Marker, known: set<string>)
    ensures m.FinishedPoint? ==> SerializeMarker(m).fields.Keys == {"class"}
    ensures m.RecoveryPoint? ==> SerializeMarker(m).fields.Keys == {"class", "name"}
    ensures m.FinishedPoint? && m.cls in known ==> DeserializeMarker(SerializeMarker(m), known) == Success(m)
    ensures m.RecoveryPoint? && m.cls in known
      ==> DeserializeMarker(SerializeMarker(m), known) == Success(RecoveryPoint(m.cls, JsonForm(m.name)))
    ensures m.cls !in known ==> DeserializeMarker(SerializeMarker(m), known) == Failure(NameError)
  {
  }

  /**
   * A recovery point named by a string comes back unchanged; one named by a
   * symbol, as workflow step names are, comes back named by the string.
   */
  lemma RecoveryPointNameReadBack(cls: string, name: string, known: set<string>)
    requires cls in known
    ensures DeserializeMarker(SerializeMarker(RecoveryPoint(cls, Str(name))), known) == Success(RecoveryPoint(cls, Str(name)))
    ensures DeserializeMarker(SerializeMarker(RecoveryPoint(cls, Sym(name))), known) == Success(RecoveryPoint(cls, Str(name)))
  {
  }

  /** Storing a deserialised marker again stores exactly the same hash. */
  lemma MarkerStoreStable(m: Marker, known: set<string>)
    requires m.cls in known
    ensures DeserializeMarker(SerializeMarker(m), known).Success?
    ensures SerializeMarker(DeserializeMarker(SerializeMarker(m), known).value) == SerializeMarker(m)
  {
    if m.RecoveryPoint? {
      JsonFormIdempotent(m.name);
    }
  }

  // ---------------------------------------------------------------------------
  // AcidicJob::Serializer.load / dump
  // ---------------------------------------------------------------------------

  /**
   * `Serializer.load`: nil for a nil or empty column, otherwise the first
   * object of the parsed and deserialised argument list. `parse` stands for
   * `JSON.parse` followed by `Arguments.deserialize`; None means it raised.
   */
  function Load<T>(json: Option<string>, parse: string -> Option<seq<T>>): (r: Result<Option<T>, RubyError>)
    ensures json.None? || json == Some("") ==> r == Success(None)
  {
    if json.None? || |json.value| == 0 then Success(None)
    else
      match parse(json.value)
      case None => Failure(ParserError)
      case Some(objects) => Success(if |objects| == 0 then None else Some(objects[0]))
  }

  /**
   * `Serializer.dump`: the object wrapped in a one-element list, then
   * serialised. `generate` stands for `Arguments.serialize` followed by
   * `to_json`; None means it raised.
   */
  function Dump<T>(obj: T, generate: seq<T> -> Option<string>): (r: Result<string, RubyError>)
    ensures r.Success? <==> generate([obj]).Some?
    ensures r.Success? ==> r.value == generate([obj]).value
    ensures r.Failure? ==> r.error == SerializationError
  {
    match generate([obj])
    case None => Failure(SerializationError)
    case Some(text) => Success(text)
  }

  /**
   * Loading what was dumped gives back the object whenever the codec
   * round-trips that object to non-empty text.
   */
  lemma LoadDump<T>(obj: T, parse: string -> Option<seq<T>>, generate: seq<T> -> Option<string>)
    requires generate([obj]).Some? && |generate([obj]).value| > 0
    requires parse(generate([obj]).value) == Some([obj])
    ensures Dump(obj, generate).Success?
    ensures Load(Some(Dump(obj, generate).value), parse) == Success(Some(obj))
  {
    var text := generate([obj]).value;
    assert Dump(obj, generate) == Success(text);
    assert parse(text) == Some([obj]);
  }
}
