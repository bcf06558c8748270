/**
 * Ruby values as they are stored in serialised columns (`job_args`,
 * `error_object`, `attr_accessors`), and ActiveSupport's `blank?` /
 * `present?` on them, which decide presence validations and `failed?`.
 */
module Values {

  import opened Wrappers

  datatype Value =
    | Nil
    | Bool(b: bool)
    | Int(i: int)
    | Str(s: string)
    | Sym(name: string)
    | List(items: seq<Value>)
    | Hash(entries: seq<(Value, Value)>)
      /** Any other object, e.g. an exception or a Time; it does not respond to `empty?`. */
    | Obj(cls: string)

  /** The POSIX bracket class `[[:space:]]` on Unicode strings. */
  predicate IsSpace(c: char)
  {
    || c == ' '
    || ('\t' <= c <= '\r')
    || c == '\U{0085}' || c == '\U{00A0}' || c == '\U{1680}'
    || ('\U{2000}' <= c <= '\U{200A}')
    || c == '\U{2028}' || c == '\U{2029}' || c == '\U{202F}' || c == '\U{205F}'
    || c == '\U{3000}'
  }

  /** A string is blank when it matches `\A[[:space:]]*\z`. */
  predicate BlankString(s: string)
  {
    forall i :: 0 <= i < |s| ==> IsSpace(s[i])
  }

  /**
   * ActiveSupport's `blank?`: nil and false are blank, a string is blank when
   * it is all white space, anything answering `empty?` is blank when empty,
   * numbers and other objects never are.
   */
  predicate Blank(v: Value)
  {
    match v
    case Nil => true
    case Bool(b) => !b
    case Int(_) => false
    case Str(s) => BlankString(s)
    case Sym(name) => name == ""
    case List(items) => items == []
    case Hash(entries) => entries == []
    case Obj(_) => false
  }

  predicate Present(v: Value)
  {
    !Blank(v)
  }

  /** `present?` on a nullable string column. */
  predicate PresentString(o: Option<string>)
  {
    o.Some? && !BlankString(o.value)
  }

  // ---------------------------------------------------------------------------
  // Hash construction: an association list with one entry per key
  // ---------------------------------------------------------------------------

  /** The entry for `k`, if any. */
  function Get(entries: seq<(Value, Value)>, k: Value): Option<Value>
  {
    if entries == [] then None
    else if entries[0].0 == k then Some(entries[0].1)
    else Get(entries[1..], k)
  }

  /** The value of the last pair whose key is `k`, if any. */
  function LastValue(pairs: seq<(Value, Value)>, k: Value): Option<Value>
  {
    if pairs == [] then None
    else if pairs[|pairs| - 1].0 == k then Some(pairs[|pairs| - 1].1)
    else LastValue(pairs[..|pairs| - 1], k)
  }

  ghost predicate DistinctKeys(entries: seq<(Value, Value)>)
  {
    forall i, j :: 0 <= i < j < |entries| ==> entries[i].0 != entries[j].0
  }

  /** `hash[k] = v`: an existing key keeps its place and takes the new value, a new key goes last. */
  function Put(entries: seq<(Value, Value)>, k: Value, v: Value): seq<(Value, Value)>
  {
    if entries == [] then [(k, v)]
    else if entries[0].0 == k then [(k, v)] + entries[1..]
    else [entries[0]] + Put(entries[1..], k, v)
  }

  /** `Hash[pairs]`: each pair stored in turn, so a repeated key keeps its first place and its last value. */
  function FromPairs(pairs: seq<(Value, Value)>): seq<(Value, Value)>
  {
    if pairs == [] then []
    else Put(FromPairs(pairs[..|pairs| - 1]), pairs[|pairs| - 1].0, pairs[|pairs| - 1].1)
  }

  /** Storing `k` sets its value and leaves every other key's value alone. */
  lemma {:induction false} PutGet(entries: seq<(Value, Value)>, k: Value, v: Value)
    ensures Get(Put(entries, k, v), k) == Some(v)
    ensures forall k' :: k' != k ==> Get(Put(entries, k, v), k') == Get(entries, k')
    decreases |entries|
  {
    if entries != [] && entries[0].0 != k {
      PutGet(entries[1..], k, v);
      assert Put(entries, k, v)[1..] == Put(entries[1..], k, v);
    }
  }

  /** Every entry after storing `k` was there before or is the new one. */
  lemma {:induction false} PutMembers(entries: seq<(Value, Value)>, k: Value, v: Value)
    ensures forall e :: e in Put(entries, k, v) ==> e in entries || e == (k, v)
    decreases |entries|
  {
    if entries != [] && entries[0].0 != k {
      PutMembers(entries[1..], k, v);
      assert entries == [entries[0]] + entries[1..];
    }
  }

  /** Storing a key that has no entry appends it. */
  lemma {:induction false} PutFresh(entries: seq<(Value, Value)>, k: Value, v: Value)
    requires Get(entries, k).None?
    ensures Put(entries, k, v) == entries + [(k, v)]
    decreases |entries|
  {
    if entries != [] {
      PutFresh(entries[1..], k, v);
      assert entries == [entries[0]] + entries[1..];
    }
  }

  /** Storing keeps the keys distinct. */
  lemma {:induction false} PutDistinct(entries: seq<(Value, Value)>, k: Value, v: Value)
    requires DistinctKeys(entries)
    ensures DistinctKeys(Put(entries, k, v))
    decreases |entries|
  {
    if entries != [] {
      var r := Put(entries, k, v);
      if entries[0].0 == k {
        assert forall j :: 0 < j < |r| ==> r[j] == entries[j];
      } else {
        var rest := Put(entries[1..], k, v);
        PutDistinct(entries[1..], k, v);
        PutMembers(entries[1..], k, v);
        GetSome(entries[1..]);
        PutGet(entries[1..], k, v);
        assert r == [entries[0]] + rest;
        forall j | 0 < j < |r| ensures r[0].0 != r[j].0 {
          var e := rest[j - 1];
          assert e in rest;
          if e in entries[1..] {
            var m :| 0 <= m < |entries[1..]| && entries[1..][m] == e;
            assert entries[1 + m] == e;
          }
        }
      }
    }
  }

  /** A key of a list of distinct keys has an entry there. */
  lemma {:induction false} GetSome(entries: seq<(Value, Value)>)
    ensures forall i :: 0 <= i < |entries| ==> Get(entries, entries[i].0).Some?
    decreases |entries|
  {
    if entries != [] {
      GetSome(entries[1..]);
      forall i | 0 < i < |entries| ensures Get(entries, entries[i].0).Some? {
        assert entries[1..][i - 1] == entries[i];
      }
    }
  }

  /**
   * `Hash[pairs]` has one entry per key, each key's value is that of its last
   * pair, and every entry is one of the pairs.
   */
  lemma {:induction false} FromPairsSpec(pairs: seq<(Value, Value)>)
    ensures DistinctKeys(FromPairs(pairs))
    ensures forall k :: Get(FromPairs(pairs), k) == LastValue(pairs, k)
    ensures forall e :: e in FromPairs(pairs) ==> e in pairs
    decreases |pairs|
  {
    if pairs != [] {
      var init, last := pairs[..|pairs| - 1], pairs[|pairs| - 1];
      FromPairsSpec(init);
      PutGet(FromPairs(init), last.0, last.1);
      PutMembers(FromPairs(init), last.0, last.1);
      PutDistinct(FromPairs(init), last.0, last.1);
      assert pairs == init + [last];
    }
  }

  /** Pairs whose keys are already distinct make a hash of exactly those entries. */
  lemma {:induction false} FromDistinctPairs(pairs: seq<(Value, Value)>)
    requires DistinctKeys(pairs)
    ensures FromPairs(pairs) == pairs
    decreases |pairs|
  {
    if pairs != [] {
      var init, last := pairs[..|pairs| - 1], pairs[|pairs| - 1];
      FromDistinctPairs(init);
      FromPairsSpec(init);
      assert LastValue(init, last.0).None? by {
        LastValueNone(init, last.0);
      }
      PutFresh(init, last.0, last.1);
      assert pairs == init + [last];
    }
  }

  /** A key that no pair carries has no last value. */
  lemma {:induction false} LastValueNone(pairs: seq<(Value, Value)>, k: Value)
    requires forall i :: 0 <= i < |pairs| ==> pairs[i].0 != k
    ensures LastValue(pairs, k).None?
    decreases |pairs|
  {
    if pairs != [] {
      LastValueNone(pairs[..|pairs| - 1], k);
    }
  }

  // ---------------------------------------------------------------------------
  // The JSON round trip
  // ---------------------------------------------------------------------------

  /**
   * A value as `JSON.parse(value.to_json)` gives it back: a symbol becomes a
   * string, lists are read back element by element, and a hash is rebuilt
   * from its converted pairs, so keys that become equal (`:a` and "a") merge
   * into one entry holding the last value.
   */
  function JsonForm(v: Value): Value
    decreases v, 1
  {
    match v
    case Sym(name) => Str(name)
    case List(items) => List(seq(|items|, i requires 0 <= i < |items| => JsonForm(items[i])))
    case Hash(entries) => Hash(FromPairs(JsonPairs(entries)))
    case _ => v
  }

  /** The pairs `as_json` builds from a hash's entries, before they become a hash again. */
  function JsonPairs(entries: seq<(Value, Value)>): (pairs: seq<(Value, Value)>)
    ensures |pairs| == |entries|
    decreases Hash(entries), 0
  {
    seq(|entries|, i requires 0 <= i < |entries| => (JsonKey(entries[i].0), JsonForm(entries[i].1)))
  }

  /** A JSON object key is a string. */
  function JsonKey(k: Value): Value
  {
    match k
    case Sym(name) => Str(name)
    case _ => k
  }

  /** Reading a value back from JSON a second time changes nothing more. */
  lemma {:induction false} JsonFormIdempotent(v: Value)
    ensures JsonForm(JsonForm(v)) == JsonForm(v)
    decreases v
  {
    match v
    case List(items) =>
      var once := seq(|items|, i requires 0 <= i < |items| => JsonForm(items[i]));
      forall i | 0 <= i < |items| ensures JsonForm(once[i]) == once[i] {
        JsonFormIdempotent(items[i]);
      }
      assert JsonForm(List(once)) == List(once);
    case Hash(entries) =>
      var pairs := JsonPairs(entries);
      var once := FromPairs(pairs);
      FromPairsSpec(pairs);
      forall i | 0 <= i < |once| ensures (JsonKey(once[i].0), JsonForm(once[i].1)) == once[i] {
        assert once[i] in pairs;
        var j :| 0 <= j < |pairs| && pairs[j] == once[i];
        JsonFormIdempotent(entries[j].1);
      }
      assert JsonPairs(once) == once;
      FromDistinctPairs(once);
    case _ =>
  }

  /** `{:a => 1, "a" => 2}` reads back as `{"a" => 2}`. */
  lemma JsonMergesCollidingKeys()
    ensures JsonForm(Hash([(Sym("a"), Int(1)), (Str("a"), Int(2))])) == Hash([(Str("a"), Int(2))])
  {
    var pairs := JsonPairs([(Sym("a"), Int(1)), (Str("a"), Int(2))]);
    assert pairs == [(Str("a"), Int(1)), (Str("a"), Int(2))];
    assert pairs[..1] == [(Str("a"), Int(1))];
    assert [(Str("a"), Int(1))][..0] == [];
  }

  /** nil, "", white space and [] are blank; an object, 0 and "FINISHED" are present. */
  lemma BlankExamples(cls: string)
    ensures Blank(Nil) && Blank(Str("")) && Blank(Str(" \t\n")) && Blank(List([]))
    ensures Present(Obj(cls)) && Present(Int(0)) && Present(Str("FINISHED"))
  {
    assert !IsSpace("FINISHED"[0]);
  }
}
