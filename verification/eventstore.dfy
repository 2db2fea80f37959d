/**
 The serial reader of app.py (`leer_serial`) and the `/estado` lookup, as a
 state machine over the global pair (`eventos`, `event_id`). The device
 and the reading thread are outside the model: the reader is driven by a
 sequence of received lines, and the JSON parser is a parameter.
 */
module EventStore {
  import opened Wrappers
  import opened PyStr

  /** A decoded JSON value, as `json.loads` returns it. */
  datatype Value =
    | Null
    | Bool(b: bool)
    | Num(n: int)
    | Float(literal: string)
    | Str(s: string)
    | Arr(items: seq<Value>)
    | Obj(fields: map<string, Value>)

  /** One stored event: a JSON object, to which the reader adds `"id"`. */
  type Event = map<string, Value>

  /** The parser: `Some(v)` for a well-formed document, `None` where
      `json.loads` raises. */
  type Parser = string -> Option<Value>

  /** The reader's state: the list `eventos` and the counter `event_id`. */
  datatype Store = Store(events: seq<Event>, counter: int)

  /** The state at start-up: no events, counter 0. */
  const Init: Store := Store([], 0)

  /** The prefix the device puts before each reading, "ESP32 → ". */
  const Marker: string := "ESP32 → "

  /** A received line is the decoded text, or `None` when reading or
      decoding raised (the outer `except` then drops it). */
  type Line = Option<string>

  /** The document handed to the parser: the stripped line with every
      occurrence of the marker removed. */
  function Payload(text: string): (r: string)
    ensures !Occurs(Strip(text), Marker) ==> r == Strip(text)
    ensures |r| <= |Strip(text)|
  {
    RemoveAllAbsent(Strip(text), Marker);
    RemoveAll(Strip(text), Marker)
  }

  /** The line is non-blank and `json.loads` accepts its payload: the
      counter moves on. */
  predicate Parses(line: Line, parse: Parser) {
    line.Some? && Strip(line.value) != [] && parse(Payload(line.value)).Some?
  }

  /** The payload is a JSON object: an event is stored. */
  predicate IsObjectLine(line: Line, parse: Parser) {
    Parses(line, parse) && parse(Payload(line.value)).value.Obj?
  }

  /** The payload is well-formed JSON but not an object: assigning `"id"`
      raises after the counter has moved on, so the id is used up and
      nothing is stored. */
  predicate IsNonObjectLine(line: Line, parse: Parser) {
    Parses(line, parse) && !parse(Payload(line.value)).value.Obj?
  }

  /** One pass of the `while` loop in `leer_serial`. */
  function Step(s: Store, line: Line, parse: Parser): (r: Store)
    ensures Parses(line, parse) ==> r.counter == s.counter + 1
    ensures !Parses(line, parse) ==> r == s
    ensures IsObjectLine(line, parse) ==>
      r.events == s.events + [parse(Payload(line.value)).value.fields["id" := Num(r.counter)]]
    ensures !IsObjectLine(line, parse) ==> r.events == s.events
  {
    match line
    case None => s
    case Some(text) =>
      var stripped := Strip(text);
      if stripped == [] then s
      else
        match parse(RemoveAll(stripped, Marker))
        case None => s
        case Some(Obj(fields)) =>
          var id := s.counter + 1;
          Store(s.events + [fields["id" := Num(id)]], id)
        case Some(_) => Store(s.events, s.counter + 1)
  }

  /** The state after the reader has consumed `lines` in order. */
  function Run(s: Store, lines: seq<Line>, parse: Parser): (r: Store)
    ensures s.events <= r.events
    ensures s.counter <= r.counter
    ensures |r.events| - |s.events| <= r.counter - s.counter <= |lines|
    decreases |lines|
  {
    if lines == [] then s
    else Step(Run(s, lines[..|lines| - 1], parse), lines[|lines| - 1], parse)
  }

  /** `/estado`: the last stored event, or `None` (JSON `null`) when there
      is none. */
  function Latest(s: Store): (r: Option<Event>)
    ensures r.None? <==> s.events == []
    ensures r.Some? ==> r.value == s.events[|s.events| - 1] && r.value in s.events
  {
    if s.events != [] then Some(s.events[|s.events| - 1]) else None
  }

  /** The id the reader gave an event. */
  predicate HasId(e: Event) { "id" in e && e["id"].Num? }

  function Id(e: Event): (n: int)
    requires HasId(e)
  {
    e["id"].n
  }

  /** What the reader keeps true: every event carries a numeric id between
      1 and the counter, and ids strictly increase along the list. */
  predicate Valid(s: Store) {
    && s.counter >= 0
    && (forall i :: 0 <= i < |s.events| ==> HasId(s.events[i]) && 1 <= Id(s.events[i]) <= s.counter)
    && (forall i, j :: 0 <= i < j < |s.events| ==> Id(s.events[i]) < Id(s.events[j]))
  }

  /** The state after no non-object line: the ids are exactly 1, 2, 3, ...
      and the counter is the number of events. */
  predicate Dense(s: Store) {
    && s.counter == |s.events|
    && forall i :: 0 <= i < |s.events| ==> "id" in s.events[i] && s.events[i]["id"] == Num(i + 1)
  }

  lemma InitValid()
    ensures Valid(Init) && Dense(Init)
  {
  }

  /** `Step` keeps the invariant. */
  lemma StepValid(s: Store, line: Line, parse: Parser)
    requires Valid(s)
    ensures Valid(Step(s, line, parse))
  {
    var r := Step(s, line, parse);
    if IsObjectLine(line, parse) {
      var e := r.events[|s.events|];
      assert HasId(e) && Id(e) == r.counter;
      forall i | 0 <= i < |r.events|
        ensures HasId(r.events[i]) && 1 <= Id(r.events[i]) <= r.counter
      {
        if i < |s.events| {
          assert r.events[i] == s.events[i];
        }
      }
      forall i, j | 0 <= i < j < |r.events|
        ensures Id(r.events[i]) < Id(r.events[j])
      {
        assert r.events[i] == s.events[i];
        if j < |s.events| {
          assert r.events[j] == s.events[j];
        }
      }
    }
  }

  /** A line that is not a non-object keeps ids dense. */
  lemma StepDense(s: Store, line: Line, parse: Parser)
    requires Dense(s)
    requires !IsNonObjectLine(line, parse)
    ensures Dense(Step(s, line, parse))
  {
    var r := Step(s, line, parse);
    if IsObjectLine(line, parse) {
      forall i | 0 <= i < |r.events| ensures "id" in r.events[i] && r.events[i]["id"] == Num(i + 1) {
        if i < |s.events| {
          assert r.events[i] == s.events[i];
        }
      }
    }
  }

  /** The invariant holds after any sequence of lines. */
  lemma {:induction false} RunValid(s: Store, lines: seq<Line>, parse: Parser)
    requires Valid(s)
    ensures Valid(Run(s, lines, parse))
    decreases |lines|
  {
    if lines != [] {
      RunValid(s, lines[..|lines| - 1], parse);
      StepValid(Run(s, lines[..|lines| - 1], parse), lines[|lines| - 1], parse);
    }
  }

  /** How many of `lines` the parser accepts. */
  function CountParsed(lines: seq<Line>, parse: Parser): (n: nat)
    decreases |lines|
  {
    if lines == [] then 0
    else CountParsed(lines[..|lines| - 1], parse) + (if Parses(lines[|lines| - 1], parse) then 1 else 0)
  }

  /** How many of `lines` carry a JSON object. */
  function CountObjects(lines: seq<Line>, parse: Parser): (n: nat)
    decreases |lines|
  {
    if lines == [] then 0
    else CountObjects(lines[..|lines| - 1], parse) + (if IsObjectLine(lines[|lines| - 1], parse) then 1 else 0)
  }

  /** The counter advances once per parsed line, and one event is stored
      per object line; what was stored before stays in place. */
  lemma {:induction false} RunCounts(s: Store, lines: seq<Line>, parse: Parser)
    ensures Run(s, lines, parse).counter == s.counter + CountParsed(lines, parse)
    ensures |Run(s, lines, parse).events| == |s.events| + CountObjects(lines, parse)
    ensures s.events <= Run(s, lines, parse).events
    decreases |lines|
  {
    if lines != [] {
      RunCounts(s, lines[..|lines| - 1], parse);
    }
  }

  /** Without non-object lines the ids are 1, 2, 3, ... with no gap. */
  lemma {:induction false} RunDense(lines: seq<Line>, parse: Parser)
    requires forall k :: 0 <= k < |lines| ==> !IsNonObjectLine(lines[k], parse)
    ensures Dense(Run(Init, lines, parse))
    decreases |lines|
  {
    if lines != [] {
      var front := lines[..|lines| - 1];
      assert forall k :: 0 <= k < |front| ==> front[k] == lines[k];
      RunDense(front, parse);
      StepDense(Run(Init, front, parse), lines[|lines| - 1], parse);
    }
  }

  /** A non-object line leaves a gap: the next stored event skips an id. */
  lemma NonObjectLeavesGap(s: Store, bad: Line, good: Line, parse: Parser)
    requires IsNonObjectLine(bad, parse) && IsObjectLine(good, parse)
    ensures Latest(Step(Step(s, bad, parse), good, parse)).value["id"] == Num(s.counter + 2)
    ensures |Step(Step(s, bad, parse), good, parse).events| == |s.events| + 1
  {
  }

  /** `/estado` before any reading answers `null`. */
  lemma LatestInit()
    ensures Latest(Init) == None
  {
  }

  /** After an object line, `/estado` answers the new event, whose id is
      the counter; after any other line its answer is unchanged. */
  lemma LatestAfterStep(s: Store, line: Line, parse: Parser)
    ensures IsObjectLine(line, parse) ==>
      Latest(Step(s, line, parse)) == Some(parse(Payload(line.value)).value.fields["id" := Num(s.counter + 1)])
    ensures !IsObjectLine(line, parse) ==> Latest(Step(s, line, parse)) == Latest(s)
  {
  }

  /** The event `/estado` reports carries the largest id stored. */
  lemma LatestHasLargestId(s: Store)
    requires Valid(s) && s.events != []
    ensures forall e :: e in s.events ==> Id(e) <= Id(Latest(s).value)
  {
    var last := |s.events| - 1;
    forall e | e in s.events ensures Id(e) <= Id(Latest(s).value) {
      var i :| 0 <= i < |s.events| && s.events[i] == e;
      if i < last {
        assert Id(s.events[i]) < Id(s.events[last]);
      }
    }
  }

  /** Every occurrence of the marker is removed, not only a leading one:
      a scan over text in which no occurrence starts copies that text. */
  lemma {:induction false} RemoveAllSkips(a: string, x: string, pattern: string)
    requires |pattern| > 0
    requires forall i :: 0 <= i < |a| ==> !OccursAt(a + x, pattern, i)
    ensures RemoveAll(a + x, pattern) == a + RemoveAll(x, pattern)
    decreases |a|
  {
    if a == [] {
      assert a + x == x;
    } else {
      NoOccurrenceInTail(a, x, pattern);
      RemoveAllSkips(a[1..], x, pattern);
      assert !OccursAt(a + x, pattern, 0);
      RemoveAllSkipsStep(a, x, pattern);
    }
  }

  lemma RemoveAllSkipsStep(a: string, x: string, pattern: string)
    requires |pattern| > 0 && a != []
    requires !OccursAt(a + x, pattern, 0)
    requires RemoveAll(a[1..] + x, pattern) == a[1..] + RemoveAll(x, pattern)
    ensures RemoveAll(a + x, pattern) == a + RemoveAll(x, pattern)
  {
    var ax := a + x;
    assert ax[0] == a[0] && ax[1..] == a[1..] + x;
    RemoveAllCopiesHead(ax, pattern);
    assert [a[0]] + a[1..] == a;
  }

  /** Where no occurrence starts, the scan copies one character. */
  lemma RemoveAllCopiesHead(s: string, pattern: string)
    requires |pattern| > 0 && |s| > 0 && !OccursAt(s, pattern, 0)
    ensures RemoveAll(s, pattern) == [s[0]] + RemoveAll(s[1..], pattern)
  {
    if |s| < |pattern| {
      assert RemoveAll(s[1..], pattern) == s[1..];
    } else {
      assert s[..|pattern|] != pattern;
    }
  }

  lemma NoOccurrenceInTail(a: string, x: string, pattern: string)
    requires |a| > 0
    requires forall i :: 0 <= i < |a| ==> !OccursAt(a + x, pattern, i)
    ensures forall i :: 0 <= i < |a[1..]| ==> !OccursAt(a[1..] + x, pattern, i)
  {
    var ax := a + x;
    var tx := a[1..] + x;
    assert forall k :: 0 <= k < |tx| ==> tx[k] == ax[k + 1];
    forall i | 0 <= i < |a[1..]| ensures !OccursAt(tx, pattern, i) {
      assert !OccursAt(ax, pattern, i + 1);
      if i + |pattern| <= |tx| {
        assert tx[i..i + |pattern|] == ax[i + 1..i + 1 + |pattern|];
      }
    }
  }

  /** An occurrence at the front of the text is dropped. */
  lemma RemoveAllLeading(x: string, pattern: string)
    requires |pattern| > 0
    ensures RemoveAll(pattern + x, pattern) == RemoveAll(x, pattern)
  {
    assert (pattern + x)[..|pattern|] == pattern;
    assert (pattern + x)[|pattern|..] == x;
  }

  /** The marker is removed wherever it first occurs: the text before it is
      kept, the marker is dropped, and the scan goes on after it. */
  lemma MarkerRemovedAnywhere(a: string, b: string)
    requires forall i :: 0 <= i < |a| ==> !OccursAt(a + Marker + b, Marker, i)
    ensures RemoveAll(a + Marker + b, Marker) == a + RemoveAll(b, Marker)
  {
    assert a + Marker + b == a + (Marker + b);
    RemoveAllSkips(a, Marker + b, Marker);
    RemoveAllLeading(b, Marker);
  }

  /** A line that is just a marker and a payload without markers hands the
      payload to the parser unchanged. */
  lemma MarkedPayload(json: string)
    requires !Occurs(json, Marker)
    ensures RemoveAll(Marker + json, Marker) == json
  {
    RemoveAllLeading(json, Marker);
    RemoveAllAbsent(json, Marker);
  }

  /** The device's usual line, the marker followed by a JSON object, is
      stored with the next id, whatever `"id"` the object itself carried. */
  lemma MarkedObjectStored(s: Store, json: string, fields: map<string, Value>, parse: Parser)
    requires !Occurs(json, Marker) && json != [] && !IsSpace(json[|json| - 1])
    requires parse(json) == Some(Obj(fields))
    ensures Step(s, Some(Marker + json), parse) ==
      Store(s.events + [fields["id" := Num(s.counter + 1)]], s.counter + 1)
  {
    var text := Marker + json;
    assert text[0] == 'E' && text[|text| - 1] == json[|json| - 1];
    assert Strip(text) == text;
    MarkedPayload(json);
  }
}
