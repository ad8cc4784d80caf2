/** One reconstructed audit record: its attributes, how attribute lines
    accumulate into them, and how a finished record gets its execution time. */
module Events {
  import opened Wrappers

  const Marker: string := "AuditV3"
  const TimestampKey: string := "timestamp"
  const OperationKey: string := "operation_type"
  const ReceivedKey: string := "received"
  const ExecutionTimeKey: string := "ExecutionTime"
  const FilterKey: string := "filter"

  /** An attribute value: a plain string, or the list a repeated key turns into. */
  datatype Value = Single(text: string) | Multi(texts: seq<string>)

  type Attributes = map<string, Value>

  /** A finalised record; `executionTime` is the source's `ExecutionTime` key,
      in milliseconds. */
  datatype Event = Event(attrs: Attributes, executionTime: nat)

  datatype ParseError =
    | MissingKey(key: string)        // KeyError at finalisation
    | NotText(key: string)           // a list handed to the timestamp parser
    | BadTimestamp(text: string)     // the timestamp parser rejected the text
    | TruncatedRecord(line: nat)     // a marker without two lines after it

  /** Errors a reducer raises on an event sequence. */
  datatype AggregateError =
    | MissingOperationType(index: nat)  // absent, or a list (unhashable)
    | FilterNotText(index: nat)         // a list handed to the regex search
    | NoEvents                          // the overall mean divides by zero

  /** The strings a value holds, in encounter order. */
  function Values(v: Value): seq<string> {
    match v
    case Single(t) => [t]
    case Multi(ts) => ts
  }

  /** The operation type of an event, when it is a plain string. */
  function OpType(e: Event): Option<string> {
    if OperationKey in e.attrs && e.attrs[OperationKey].Single? then Some(e.attrs[OperationKey].text) else None
  }

  predicate AllTyped(events: seq<Event>) {
    forall i :: 0 <= i < |events| ==> OpType(events[i]).Some?
  }

  /** The operation types of the events, in order. */
  function OpTypes(events: seq<Event>): (r: seq<string>)
    requires AllTyped(events)
  {
    seq(|events|, i requires 0 <= i < |events| => OpType(events[i]).value)
  }

  lemma SnocTypes(pre: seq<Event>, e: Event)
    requires AllTyped(pre) && OpType(e).Some?
    ensures AllTyped(pre + [e])
    ensures OpTypes(pre + [e]) == OpTypes(pre) + [OpType(e).value]
  {
    var all := pre + [e];
    forall i | 0 <= i < |all| ensures OpType(all[i]).Some? {
      if i < |pre| { assert all[i] == pre[i]; }
    }
  }

  function ExecTime(e: Event): int {
    e.executionTime
  }

  // ---------------------------------------------------------------- attribute lines

  predicate SeparatorAt(s: string, j: int) {
    0 <= j && j + 1 < |s| && s[j] == ':' && s[j + 1] == ' '
  }

  /** The first position at or after `from` where `": "` starts. */
  function FindSeparator(s: string, from: nat): (r: Option<nat>)
    requires from <= |s|
    ensures r.Some? ==> from <= r.value && SeparatorAt(s, r.value)
                        && forall j :: from <= j < r.value ==> !SeparatorAt(s, j)
    ensures r.None? ==> forall j :: from <= j ==> !SeparatorAt(s, j)
    decreases |s| - from
  {
    if from + 1 >= |s| then None
    else if SeparatorAt(s, from) then Some(from)
    else FindSeparator(s, from + 1)
  }

  /** `line.split(": ", 1)` when it yields two parts. */
  function SplitAttribute(line: string): (r: Option<(string, string)>)
    ensures r.Some? <==> exists j :: SeparatorAt(line, j)
    ensures r.Some? ==> line == r.value.0 + ": " + r.value.1
    ensures r.Some? ==> forall j :: 0 <= j < |r.value.0| ==> !SeparatorAt(line, j)
  {
    match FindSeparator(line, 0)
    case None => None
    case Some(k) =>
      assert line == line[..k] + ": " + line[k + 2..];
      Some((line[..k], line[k + 2..]))
  }

  /** One attribute line applied to the record being built. */
  function AddAttribute(attrs: Attributes, line: string): (r: Attributes)
    ensures SplitAttribute(line).None? ==> r == attrs
    ensures SplitAttribute(line).Some? ==>
      var (k, v) := SplitAttribute(line).value;
      && r.Keys == attrs.Keys + {k}
      && (forall k' :: k' in attrs && k' != k ==> r[k'] == attrs[k'])
      && Values(r[k]) == (if k in attrs then Values(attrs[k]) else []) + [v]
      && (r[k].Single? <==> k !in attrs)
  {
    match SplitAttribute(line)
    case None => attrs
    case Some((k, v)) =>
      if k in attrs then
        match attrs[k]
        case Single(first) => attrs[k := Multi([first, v])]
        case Multi(vs) => attrs[k := Multi(vs + [v])]
      else attrs[k := Single(v)]
  }

  /** The attribute lines of a record body, applied in order. */
  function BuildAttrs(attrs: Attributes, body: seq<string>): Attributes
    decreases |body|
  {
    if body == [] then attrs else BuildAttrs(AddAttribute(attrs, body[0]), body[1..])
  }

  /** The value, if any, that one attribute line gives to key `k`. */
  function LineValues(line: string, k: string): (r: seq<string>)
    ensures |r| <= 1
  {
    match SplitAttribute(line)
    case Some((k', v)) => if k' == k then [v] else []
    case None => []
  }

  /** The values that the lines of `body` give to key `k`, in encounter order. */
  function KeyValues(body: seq<string>, k: string): seq<string> {
    if body == [] then [] else LineValues(body[0], k) + KeyValues(body[1..], k)
  }

  /** What one line does to key `k`. */
  lemma AddAttributeKey(attrs: Attributes, line: string, k: string)
    ensures var a := AddAttribute(attrs, line);
            var here := LineValues(line, k);
      && (k in a <==> k in attrs || here != [])
      && (k in a ==> Values(a[k]) == (if k in attrs then Values(attrs[k]) else []) + here)
      && (k in a ==> (a[k].Single? <==> if k in attrs then attrs[k].Single? && here == [] else |here| == 1))
  {
    var a := AddAttribute(attrs, line);
    match SplitAttribute(line)
    case None =>
    case Some((k', v)) =>
      if k' != k {
        assert k in a <==> k in attrs;
        if k in a {
          assert a[k] == attrs[k];
          assert Values(attrs[k]) + [] == Values(attrs[k]);
        }
      }
  }

  /** Multi-value accumulation: a key is present after the body when it was
      before or some line names it; its values are the earlier ones followed
      by the body's in encounter order; it stays a plain string exactly when
      it occurs once in all. */
  lemma {:induction false} Accumulate(attrs: Attributes, body: seq<string>, k: string)
    ensures var r := BuildAttrs(attrs, body);
      && (k in r <==> k in attrs || KeyValues(body, k) != [])
      && (k in r ==> Values(r[k]) == (if k in attrs then Values(attrs[k]) else []) + KeyValues(body, k))
      && (k in r ==> (r[k].Single? <==>
            if k in attrs then attrs[k].Single? && KeyValues(body, k) == [] else |KeyValues(body, k)| == 1))
    decreases |body|
  {
    if body == [] {
      if k in attrs {
        assert Values(attrs[k]) + [] == Values(attrs[k]);
      }
    } else {
      var a := AddAttribute(attrs, body[0]);
      var here := LineValues(body[0], k);
      var later := KeyValues(body[1..], k);
      AddAttributeKey(attrs, body[0], k);
      Accumulate(a, body[1..], k);
      var r := BuildAttrs(attrs, body);
      assert r == BuildAttrs(a, body[1..]);
      assert KeyValues(body, k) == here + later;
      if k in r {
        var before := if k in attrs then Values(attrs[k]) else [];
        if k in a {
          assert Values(r[k]) == before + here + later;
        } else {
          assert here == [] && before == [];
        }
      }
    }
  }

  // ---------------------------------------------------------------- finalisation

  function Abs(x: int): nat {
    if x < 0 then -x else x
  }

  /** `ms` is the distance of `deltaUs` microseconds from zero in whole
      milliseconds, truncated. */
  predicate TruncatedMillis(ms: nat, deltaUs: int) {
    ms * 1000 <= Abs(deltaUs) < ms * 1000 + 1000
  }

  /** The parsed timestamp held by key `key`, in microseconds. */
  function TimeOf(attrs: Attributes, key: string, parseTs: string -> Option<int>): (r: Result<int, ParseError>)
    ensures r.Success? <==> key in attrs && attrs[key].Single? && parseTs(attrs[key].text).Some?
    ensures r.Failure? ==> r.error == (if key !in attrs then MissingKey(key)
                                      else if attrs[key].Multi? then NotText(key)
                                      else BadTimestamp(attrs[key].text))
  {
    if key !in attrs then Failure(MissingKey(key))
    else match attrs[key]
      case Multi(_) => Failure(NotText(key))
      case Single(t) =>
        match parseTs(t)
        case None => Failure(BadTimestamp(t))
        case Some(us) => Success(us)
  }

  /** Both timestamps of a finished event parse, and its execution time is
      their distance in truncated milliseconds. */
  predicate WellTimed(e: Event, parseTs: string -> Option<int>) {
    var t := TimeOf(e.attrs, TimestampKey, parseTs);
    var rcv := TimeOf(e.attrs, ReceivedKey, parseTs);
    t.Success? && rcv.Success? && TruncatedMillis(e.executionTime, rcv.value - t.value)
  }

  /** Closes a record: parse `timestamp`, then `received`, and store the
      execution time; the first failure ends the whole parse. */
  function Finalize(attrs: Attributes, parseTs: string -> Option<int>): (r: Result<Event, ParseError>)
    ensures r.Success? <==> TimeOf(attrs, TimestampKey, parseTs).Success? && TimeOf(attrs, ReceivedKey, parseTs).Success?
    ensures r.Failure? ==> r.error == (if TimeOf(attrs, TimestampKey, parseTs).Failure?
                                      then TimeOf(attrs, TimestampKey, parseTs).error
                                      else TimeOf(attrs, ReceivedKey, parseTs).error)
    ensures r.Success? ==> r.value.attrs == attrs - {ExecutionTimeKey} && WellTimed(r.value, parseTs)
  {
    var t :- TimeOf(attrs, TimestampKey, parseTs);
    var rcv :- TimeOf(attrs, ReceivedKey, parseTs);
    var e := Event(attrs - {ExecutionTimeKey}, Abs(rcv - t) / 1000);
    assert TimeOf(e.attrs, TimestampKey, parseTs) == Success(t);
    assert TimeOf(e.attrs, ReceivedKey, parseTs) == Success(rcv);
    Success(e)
  }
}
