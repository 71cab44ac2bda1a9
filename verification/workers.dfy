/** The worker bridge of src/workers.rs: the `NixValue` wire codec (a serde
    adjacently tagged enum, `{"type": <tag>, "data": <payload>}`) and the loop of
    the thread that owns the evaluator child process. */
module Workers {
  import opened Wrappers
  import opened Json

  /** A browser path: the attribute names from the root of the tree. */
  type BrowserPath = seq<string>

  /** One evaluated node, as the front end receives it. */
  datatype NixValue =
    | Thunk
    | Int(n: Int64)
    | Float(bits: F64Bits)
    | Bool(b: bool)
    | String(s: string)
    | Path(p: string)
    | Null
    | Attrs(names: seq<string>)
    | List(len: UInt64)
    | Function
    | External

  const TypeKey: string := "type"
  const DataKey: string := "data"

  /** The `rename` of each variant. Thunk and Int are both renamed "1". */
  function Tag(v: NixValue): string
  {
    match v
    case Thunk => "1"
    case Int(_) => "1"
    case Float(_) => "2"
    case Bool(_) => "3"
    case String(_) => "4"
    case Path(_) => "5"
    case Null => "6"
    case Attrs(_) => "7"
    case List(_) => "8"
    case Function => "9"
    case External => "10"
  }

  /** The content a variant carries; unit variants carry none. */
  function Data(v: NixValue): Option<Json>
  {
    match v
    case Int(n) => Some(JInt(n as int))
    case Float(b) => Some(JFloat(b))
    case Bool(b) => Some(JBool(b))
    case String(s) => Some(JString(s))
    case Path(p) => Some(JString(p))
    case Attrs(names) => Some(JArray(StringItems(names)))
    case List(n) => Some(JInt(n as int))
    case _ => None
  }

  function StringItems(names: seq<string>): (items: seq<Json>)
    ensures |items| == |names|
    ensures forall k | 0 <= k < |names| :: items[k] == JString(names[k])
  {
    seq(|names|, k requires 0 <= k < |names| => JString(names[k]))
  }

  /** The derived `Serialize`: a unit variant is written with its tag alone,
      any other variant with its tag and its content. */
  function Encode(v: NixValue): Json
  {
    var tag := Member(TypeKey, JString(Tag(v)));
    match Data(v)
    case None => JObject([tag])
    case Some(d) => JObject([tag, Member(DataKey, d)])
  }

  /** Tag "1" names two variants and the wire contract does not say which one a
      response means. The decoder is kept parametric in that choice: every
      property below holds for each reading. */
  datatype TagOneReading =
    | AsThunk    // "1" always means Thunk (an integer payload is then rejected)
    | AsInt      // "1" always means Int (a missing payload is then rejected)
    | ByPayload  // no payload or null means Thunk, an integer payload means Int

  datatype DecodeError =
    | NotAnObject
    | MissingField(name: string)
    | DuplicateField(name: string)
    | TagNotAString
    | UnknownVariant(tag: string)
    | InvalidPayload(tag: string)
    | SyntaxError

  /** A content that agrees with variant `v`: the variant's data, or for a unit
      variant no "data" member or a null one. */
  predicate DataAgrees(f: Field, v: NixValue)
  {
    match Data(v)
    case None => f == Missing || f == Unique(JNull)
    case Some(d) => f == Unique(d)
  }

  /** serde_json's `Deserialize` for `NixValue`, over an already parsed JSON
      value: the response must be an object. */
  function Decode(j: Json, one: TagOneReading): Result<NixValue, DecodeError>
  {
    if j.JObject? then Visit(j.members, None, None, one) else Err(NotAnObject)
  }

  /** The derived visitor walks the members in text order, keeping the "type"
      and "data" values it meets, skipping members with other names, and
      failing on meeting either name a second time. At the end the tag must be
      present and a string, and it selects the variant that reads the content. */
  function Visit(ms: seq<Member>, tag: Option<Json>, data: Option<Json>, one: TagOneReading): Result<NixValue, DecodeError>
    decreases |ms|
  {
    if ms == [] then
      if tag.None? then Err(MissingField(TypeKey))
      else if !tag.value.JString? then Err(TagNotAString)
      else DecodeVariant(tag.value.s, data, one)
    else if ms[0].key == TypeKey then
      if tag.Some? then Err(DuplicateField(TypeKey)) else Visit(ms[1..], Some(ms[0].value), data, one)
    else if ms[0].key == DataKey then
      if data.Some? then Err(DuplicateField(DataKey)) else Visit(ms[1..], tag, Some(ms[0].value), one)
    else Visit(ms[1..], tag, data, one)
  }

  /** Selects the variant named by `tag` and reads `data` as its content. */
  function DecodeVariant(tag: string, data: Option<Json>, one: TagOneReading): Result<NixValue, DecodeError>
  {
    if tag == "1" then
      match one
      case AsThunk => Unit(tag, data, Thunk)
      case AsInt => ReadInt(tag, data)
      case ByPayload => if data == None || data == Some(JNull) then Ok(Thunk) else ReadInt(tag, data)
    else if tag == "2" then
      if data.Some? && data.value.JFloat? then Ok(Float(data.value.bits)) else Err(InvalidPayload(tag))
    else if tag == "3" then
      if data.Some? && data.value.JBool? then Ok(Bool(data.value.b)) else Err(InvalidPayload(tag))
    else if tag == "4" then
      if data.Some? && data.value.JString? then Ok(String(data.value.s)) else Err(InvalidPayload(tag))
    else if tag == "5" then
      if data.Some? && data.value.JString? then Ok(Path(data.value.s)) else Err(InvalidPayload(tag))
    else if tag == "6" then Unit(tag, data, Null)
    else if tag == "7" then
      if data.Some? && data.value.JArray? && AllStrings(data.value.items) then
        Ok(Attrs(StringsOf(data.value.items)))
      else Err(InvalidPayload(tag))
    else if tag == "8" then
      if data.Some? && data.value.JInt? && 0 <= data.value.i < 0x1_0000_0000_0000_0000 then
        Ok(List(data.value.i as UInt64))
      else Err(InvalidPayload(tag))
    else if tag == "9" then Unit(tag, data, Function)
    else if tag == "10" then Unit(tag, data, External)
    else Err(UnknownVariant(tag))
  }

  /** What the variant table accepts carries that tag and that content. */
  lemma VariantAgrees(tag: string, data: Option<Json>, one: TagOneReading)
    ensures var r := DecodeVariant(tag, data, one);
      r.Ok? ==> Tag(r.value) == tag && DataAgrees(if data.Some? then Unique(data.value) else Missing, r.value) &&
                Readable(r.value, one)
  {
    var r := DecodeVariant(tag, data, one);
    if r.Ok? && r.value.Attrs? {
      assert StringItems(StringsOf(data.value.items)) == data.value.items;
    }
  }

  /** What has been seen of one field name before the members `ms`, combined
      with what `ms` hold under that name. */
  function FieldAfter(before: Option<Json>, rest: Field): Field
  {
    if before.None? then rest
    else if rest.Missing? then Unique(before.value)
    else Duplicate
  }

  lemma {:induction false} VisitAgrees(ms: seq<Member>, tag: Option<Json>, data: Option<Json>, one: TagOneReading)
    ensures var r := Visit(ms, tag, data, one);
      r.Ok? ==> FieldAfter(tag, Lookup(ms, TypeKey)) == Unique(JString(Tag(r.value))) &&
                DataAgrees(FieldAfter(data, Lookup(ms, DataKey)), r.value) && Readable(r.value, one)
    decreases |ms|
  {
    if ms == [] {
      if tag.Some? && tag.value.JString? {
        VariantAgrees(tag.value.s, data, one);
      }
    } else if ms[0].key == TypeKey {
      if tag.None? {
        VisitAgrees(ms[1..], Some(ms[0].value), data, one);
      }
    } else if ms[0].key == DataKey {
      if data.None? {
        VisitAgrees(ms[1..], tag, Some(ms[0].value), one);
      }
    } else {
      VisitAgrees(ms[1..], tag, data, one);
    }
  }

  /** Whatever Decode accepts carries, exactly once, the tag of the variant it
      returns and a content that agrees with that variant: decoding never
      invents a value the object does not spell out. */
  lemma DecodeAgrees(j: Json, one: TagOneReading)
    ensures var r := Decode(j, one);
      r.Ok? ==> j.JObject? && Lookup(j.members, TypeKey) == Unique(JString(Tag(r.value)))
    ensures var r := Decode(j, one);
      r.Ok? ==> DataAgrees(Lookup(j.members, DataKey), r.value) && Readable(r.value, one)
  {
    if j.JObject? {
      VisitAgrees(j.members, None, None, one);
    }
  }

  /** The variant table reads every variant the reading of tag "1" allows from
      its own tag and any content that agrees with it. */
  lemma VariantComplete(v: NixValue, data: Option<Json>, one: TagOneReading)
    requires Readable(v, one)
    requires DataAgrees(if data.Some? then Unique(data.value) else Missing, v)
    ensures DecodeVariant(Tag(v), data, one) == Ok(v)
  {
    if v.Attrs? {
      assert StringsOf(StringItems(v.names)) == v.names;
    }
  }

  lemma {:induction false} VisitComplete(ms: seq<Member>, tag: Option<Json>, data: Option<Json>,
                                         one: TagOneReading, v: NixValue)
    requires Readable(v, one)
    requires FieldAfter(tag, Lookup(ms, TypeKey)) == Unique(JString(Tag(v)))
    requires DataAgrees(FieldAfter(data, Lookup(ms, DataKey)), v)
    ensures Visit(ms, tag, data, one) == Ok(v)
    decreases |ms|
  {
    if ms == [] {
      VariantComplete(v, data, one);
    } else if ms[0].key == TypeKey {
      VisitComplete(ms[1..], Some(ms[0].value), data, one, v);
    } else if ms[0].key == DataKey {
      VisitComplete(ms[1..], tag, Some(ms[0].value), one, v);
    } else {
      VisitComplete(ms[1..], tag, data, one, v);
    }
  }

  /** The converse of DecodeAgrees: an object whose "type" field occurs once
      and names a variant the reading allows, and whose "data" field agrees
      with that variant, decodes to it, whatever the order of its members and
      whatever other members it has. */
  lemma DecodeComplete(j: Json, v: NixValue, one: TagOneReading)
    requires j.JObject? && Readable(v, one)
    requires Lookup(j.members, TypeKey) == Unique(JString(Tag(v)))
    requires DataAgrees(Lookup(j.members, DataKey), v)
    ensures Decode(j, one) == Ok(v)
  {
    VisitComplete(j.members, None, None, one, v);
  }

  function Unit(tag: string, data: Option<Json>, v: NixValue): Result<NixValue, DecodeError>
  {
    if data == None || data == Some(JNull) then Ok(v) else Err(InvalidPayload(tag))
  }

  function ReadInt(tag: string, data: Option<Json>): Result<NixValue, DecodeError>
  {
    if data.Some? && data.value.JInt? && -0x8000_0000_0000_0000 <= data.value.i < 0x8000_0000_0000_0000 then
      Ok(Int(data.value.i as Int64))
    else Err(InvalidPayload(tag))
  }

  predicate AllStrings(items: seq<Json>)
  {
    forall k | 0 <= k < |items| :: items[k].JString?
  }

  function StringsOf(items: seq<Json>): (names: seq<string>)
    requires AllStrings(items)
    ensures StringItems(names) == items
  {
    seq(|items|, k requires 0 <= k < |items| => items[k].s)
  }

  /** Whether a reading of tag "1" can return `v` at all. */
  predicate Readable(v: NixValue, one: TagOneReading)
  {
    !(v.Thunk? && one == AsInt) && !(v.Int? && one == AsThunk)
  }

  /** Decoding undoes the derived serializer, except for the tag-"1" variant a
      reading rules out. */
  lemma DecodeEncode(v: NixValue, one: TagOneReading)
    ensures Decode(Encode(v), one).Ok? <==> Readable(v, one)
    ensures Readable(v, one) ==> Decode(Encode(v), one) == Ok(v)
  {
    var ms := Encode(v).members;
    var tag := Some(JString(Tag(v)));
    if Data(v).Some? {
      assert ms[1..][1..] == [];
      assert Visit(ms, None, None, one) == Visit(ms[1..], tag, None, one);
      assert Visit(ms[1..], tag, None, one) == Visit([], tag, Data(v), one);
    } else {
      assert Visit(ms, None, None, one) == Visit([], tag, None, one);
    }
    if v.Attrs? {
      assert StringsOf(StringItems(v.names)) == v.names;
    }
  }

  /** The cost of the shared tag "1": neither single-meaning reading recovers
      both Thunk and Int from their own serialization; the payload-shape reading
      recovers both. */
  lemma TagOneAmbiguity(n: Int64)
    ensures Decode(Encode(Thunk), AsInt).Err? && Decode(Encode(Int(n)), AsThunk).Err?
    ensures Decode(Encode(Thunk), AsThunk) == Ok(Thunk) && Decode(Encode(Int(n)), AsInt) == Ok(Int(n))
    ensures Decode(Encode(Thunk), ByPayload) == Ok(Thunk) && Decode(Encode(Int(n)), ByPayload) == Ok(Int(n))
  {
    DecodeEncode(Thunk, AsInt);
    DecodeEncode(Int(n), AsThunk);
    DecodeEncode(Thunk, AsThunk);
    DecodeEncode(Int(n), AsInt);
    DecodeEncode(Thunk, ByPayload);
    DecodeEncode(Int(n), ByPayload);
  }

  /** The two-member object `{"type": tag, "data": payload}` the evaluator writes. */
  function Envelope(tag: string, payload: Json): Json
  {
    JObject([Member(TypeKey, JString(tag)), Member(DataKey, payload)])
  }

  /** For a unit variant, `"data": null` reads exactly as a missing data field. */
  lemma NullDataIsNoData(v: NixValue, one: TagOneReading)
    requires Data(v).None?
    ensures Decode(Envelope(Tag(v), JNull), one) == Decode(Encode(v), one)
  {
    var tag := Some(JString(Tag(v)));
    var ms := Envelope(Tag(v), JNull).members;
    assert ms[1..][1..] == [];
    assert Visit(ms, None, None, one) == Visit(ms[1..], tag, None, one);
    assert Visit(ms[1..], tag, None, one) == Visit([], tag, Some(JNull), one);
    assert Visit(Encode(v).members, None, None, one) == Visit([], tag, None, one);
  }

  /** The decode table, read on a plain envelope: each tag with a payload of its
      shape gives its variant, and anything else is a failure. */
  lemma DecodeTable(tag: string, payload: Json, one: TagOneReading)
    ensures tag == "3" ==> (Decode(Envelope(tag, payload), one).Ok? <==> payload.JBool?)
    ensures tag == "3" && payload.JBool? ==> Decode(Envelope(tag, payload), one) == Ok(Bool(payload.b))
    ensures tag == "4" ==> (Decode(Envelope(tag, payload), one).Ok? <==> payload.JString?)
    ensures tag == "4" && payload.JString? ==> Decode(Envelope(tag, payload), one) == Ok(String(payload.s))
    ensures tag == "5" ==> (Decode(Envelope(tag, payload), one).Ok? <==> payload.JString?)
    ensures tag == "5" && payload.JString? ==> Decode(Envelope(tag, payload), one) == Ok(Path(payload.s))
    ensures tag == "7" ==>
      (Decode(Envelope(tag, payload), one).Ok? <==> payload.JArray? && AllStrings(payload.items))
    ensures tag == "7" && Decode(Envelope(tag, payload), one).Ok? ==>
      Decode(Envelope(tag, payload), one).value.Attrs? &&
      var names := Decode(Envelope(tag, payload), one).value.names;
      |names| == |payload.items| &&
      forall k | 0 <= k < |names| :: payload.items[k] == JString(names[k])
    ensures tag == "8" ==>
      (Decode(Envelope(tag, payload), one).Ok? <==> payload.JInt? && 0 <= payload.i < 0x1_0000_0000_0000_0000)
    ensures tag == "8" && Decode(Envelope(tag, payload), one).Ok? ==>
      Decode(Envelope(tag, payload), one) == Ok(List(payload.i as UInt64))
    ensures tag == "6" ==> (Decode(Envelope(tag, payload), one).Ok? <==> payload == JNull)
    ensures tag == "6" && payload == JNull ==> Decode(Envelope(tag, payload), one) == Ok(Null)
    ensures tag == "9" ==> (Decode(Envelope(tag, payload), one).Ok? <==> payload == JNull)
    ensures tag == "9" && payload == JNull ==> Decode(Envelope(tag, payload), one) == Ok(Function)
    ensures tag == "10" ==> (Decode(Envelope(tag, payload), one).Ok? <==> payload == JNull)
    ensures tag == "10" && payload == JNull ==> Decode(Envelope(tag, payload), one) == Ok(External)
    ensures tag !in {"1", "2", "3", "4", "5", "6", "7", "8", "9", "10"} ==>
      Decode(Envelope(tag, payload), one) == Err(UnknownVariant(tag))
  {
    var ms := Envelope(tag, payload).members;
    assert ms[1..][1..] == [];
    assert Visit(ms, None, None, one) == Visit(ms[1..], Some(JString(tag)), None, one);
    assert Visit(ms[1..], Some(JString(tag)), None, one) == Visit([], Some(JString(tag)), Some(payload), one);
  }

  // ---------------------------------------------------------------------------
  // The worker thread's loop
  // ---------------------------------------------------------------------------

  /** What reading one response line gives: an I/O error, or a line that parses
      as JSON text (`Some`) or does not (`None`; this includes the empty line
      `read_line` returns once the child has closed its output). */
  datatype ReadOutcome = ReadError | Line(parsed: Option<Json>)

  /** The outcome of one round with the child, supplied from outside: whether
      writing the request line succeeded, what reading the response gave, and
      whether handing the result to the result channel succeeded. */
  datatype Exchange = Exchange(writeOk: bool, read: ReadOutcome, sendOk: bool)

  /** A round as the loop's control flow sees it once the response is decoded. */
  datatype Round = Round(writeOk: bool, answer: Option<NixValue>, sendOk: bool)

  /** `serde_json::from_str` on a response line: a syntax error for a line that
      is not JSON text, otherwise the decoder on the parsed value. */
  function FromStr(parsed: Option<Json>, one: TagOneReading): Result<NixValue, DecodeError>
  {
    if parsed.None? then Err(SyntaxError) else Decode(parsed.value, one)
  }

  /** The value a response yields: the decoded line, when it was read, parsed
      and decoded. */
  function Answer(x: Exchange, one: TagOneReading): Option<NixValue>
  {
    if x.read.Line? then
      var d := FromStr(x.read.parsed, one);
      if d.Ok? then Some(d.value) else None
    else None
  }

  /** A round yields a value exactly when its line was read and is a JSON
      object whose single "type" field names that value's variant (one the
      reading of tag "1" allows) and whose "data" field agrees with it; a read
      error, a line that is not JSON or an object of any other form yields
      nothing. */
  lemma AnswerMeaning(x: Exchange, one: TagOneReading, v: NixValue)
    ensures Answer(x, one) == Some(v) <==>
      x.read.Line? && x.read.parsed.Some? && x.read.parsed.value.JObject? &&
      Lookup(x.read.parsed.value.members, TypeKey) == Unique(JString(Tag(v))) &&
      DataAgrees(Lookup(x.read.parsed.value.members, DataKey), v) && Readable(v, one)
  {
    if x.read.Line? && x.read.parsed.Some? {
      var j := x.read.parsed.value;
      DecodeAgrees(j, one);
      if j.JObject? && Lookup(j.members, TypeKey) == Unique(JString(Tag(v))) &&
         DataAgrees(Lookup(j.members, DataKey), v) && Readable(v, one) {
        DecodeComplete(j, v, one);
      }
    }
  }

  function RoundOf(x: Exchange, one: TagOneReading): Round
  {
    Round(x.writeOk, Answer(x, one), x.sendOk)
  }

  /** The rounds a sequence of exchanges amounts to. */
  function Rounds(io: seq<Exchange>, one: TagOneReading): (rounds: seq<Round>)
    ensures |rounds| == |io|
    ensures forall k | 0 <= k < |io| :: rounds[k] == RoundOf(io[k], one)
  {
    if io == [] then [] else [RoundOf(io[0], one)] + Rounds(io[1..], one)
  }

  /** How the loop ended: the request channel closed, a request line could not
      be written, or sending a result failed and the thread panicked. */
  datatype Exit = ChannelClosed | WriteFailed | SendPanicked

  /** The observable effect of the loop: the paths whose request line reached
      the child, in order; the results sent, in order; and how it ended. */
  datatype Trace = Trace(written: seq<BrowserPath>, results: seq<(BrowserPath, NixValue)>, exit: Exit)

  /** A round after which the loop does not go on. */
  predicate Fatal(r: Round)
  {
    !r.writeOk || (r.answer.Some? && !r.sendOk)
  }

  /** The loop from the i-th received request on, round by round, with the
      paths already written and the results already sent. */
  function Loop(reqs: seq<BrowserPath>, rounds: seq<Round>, i: nat,
                written: seq<BrowserPath>, results: seq<(BrowserPath, NixValue)>): Trace
    requires |rounds| == |reqs|
    requires i <= |reqs|
    decreases |reqs| - i
  {
    if i == |reqs| then Trace(written, results, ChannelClosed)
    else if !rounds[i].writeOk then Trace(written, results, WriteFailed)
    else if rounds[i].answer.Some? && !rounds[i].sendOk then Trace(written + [reqs[i]], results, SendPanicked)
    else Loop(reqs, rounds, i + 1, written + [reqs[i]], results + Yield(reqs, rounds, i))
  }

  /** The whole loop over the requests delivered and the rounds they meet. */
  function Serve(reqs: seq<BrowserPath>, rounds: seq<Round>): Trace
    requires |rounds| == |reqs|
  {
    Loop(reqs, rounds, 0, [], [])
  }

  /** What round k yields: its request paired with the decoded value, if any. */
  function Yield(reqs: seq<BrowserPath>, rounds: seq<Round>, k: nat): seq<(BrowserPath, NixValue)>
    requires |rounds| == |reqs|
    requires k < |reqs|
  {
    if rounds[k].answer.Some? then [(reqs[k], rounds[k].answer.value)] else []
  }

  /** The worker thread: the loop, then killing the child. `requests` are the
      paths the request channel delivers before it closes, and `io[k]` is what
      the pipes and the result channel do in the round of `requests[k]` (rounds
      the loop never reaches are not consulted). A panic on a failed result
      send unwinds the thread before the kill is reached. */
  method WorkerLoop(requests: seq<BrowserPath>, io: seq<Exchange>, one: TagOneReading)
    returns (trace: Trace, kills: nat)
    requires |io| == |requests|
    ensures trace == Serve(requests, Rounds(io, one))
    ensures kills == if trace.exit == SendPanicked then 0 else 1
  {
    ghost var rounds := Rounds(io, one);
    var written: seq<BrowserPath> := [];
    var results: seq<(BrowserPath, NixValue)> := [];
    var i := 0;
    kills := 0;
    while true
      invariant i <= |requests|
      invariant Loop(requests, rounds, i, written, results) == Serve(requests, rounds)
      decreases |requests| - i
    {
      if i == |requests| {
        // the request channel is closed
        trace := Trace(written, results, ChannelClosed);
        break;
      }
      var path := requests[i];
      var exchange := io[i];
      assert rounds[i] == RoundOf(exchange, one);
      if !exchange.writeOk {
        trace := Trace(written, results, WriteFailed);
        break;
      }
      if exchange.read.ReadError? {
        // the response could not be read: the round is skipped
        assert Yield(requests, rounds, i) == [] && results + [] == results;
        written, i := written + [path], i + 1;
        continue;
      }
      var value := FromStr(exchange.read.parsed, one);
      if value.Err? {
        // the line is not JSON or does not decode: the round is skipped
        assert Yield(requests, rounds, i) == [] && results + [] == results;
        written, i := written + [path], i + 1;
        continue;
      }
      if !exchange.sendOk {
        // `expect("Failed to send result")` panics: the kill below is never reached
        trace := Trace(written + [path], results, SendPanicked);
        return;
      }
      assert Yield(requests, rounds, i) == [(path, value.value)];
      written, results, i := written + [path], results + [(path, value.value)], i + 1;
    }
    kills := kills + 1;
  }

  // ---------------------------------------------------------------------------
  // What the loop does, stated round by round
  // ---------------------------------------------------------------------------

  /** The first round from `i` on that ends the loop, or |reqs| when none does. */
  function Stop(reqs: seq<BrowserPath>, rounds: seq<Round>, i: nat): (s: nat)
    requires |rounds| == |reqs|
    requires i <= |reqs|
    ensures i <= s <= |reqs|
    ensures s < |reqs| ==> Fatal(rounds[s])
    ensures forall k | i <= k < s :: !Fatal(rounds[k])
    decreases |reqs| - i
  {
    if i == |reqs| || Fatal(rounds[i]) then i else Stop(reqs, rounds, i + 1)
  }

  /** The results the rounds lo..hi-1 yield, each paired with its own request. */
  function Emitted(reqs: seq<BrowserPath>, rounds: seq<Round>, lo: nat, hi: nat): seq<(BrowserPath, NixValue)>
    requires |rounds| == |reqs|
    requires lo <= hi <= |reqs|
    decreases hi - lo
  {
    if lo == hi then []
    else Yield(reqs, rounds, lo) + Emitted(reqs, rounds, lo + 1, hi)
  }

  /** The rounds among lo..hi-1 that yield a value, in increasing order. */
  function Origins(rounds: seq<Round>, lo: nat, hi: nat): seq<nat>
    requires lo <= hi <= |rounds|
    decreases hi - lo
  {
    if lo == hi then []
    else (if rounds[lo].answer.Some? then [lo] else []) + Origins(rounds, lo + 1, hi)
  }

  /** Origins lists only rounds of lo..hi-1 that yield a value. */
  lemma {:induction false} OriginsBounds(rounds: seq<Round>, lo: nat, hi: nat)
    requires lo <= hi <= |rounds|
    ensures forall m | 0 <= m < |Origins(rounds, lo, hi)| ::
      lo <= Origins(rounds, lo, hi)[m] < hi && rounds[Origins(rounds, lo, hi)[m]].answer.Some?
    decreases hi - lo
  {
    if lo < hi {
      OriginsBounds(rounds, lo + 1, hi);
      var ks := Origins(rounds, lo + 1, hi);
      if rounds[lo].answer.Some? {
        var all := [lo] + ks;
        assert Origins(rounds, lo, hi) == all;
        forall m | 0 < m < |all|
          ensures lo <= all[m] < hi && rounds[all[m]].answer.Some?
        {
          assert all[m] == ks[m - 1];
        }
      } else {
        assert Origins(rounds, lo, hi) == ks;
      }
    }
  }

  /** Origins is strictly increasing. */
  lemma {:induction false} OriginsIncreasing(rounds: seq<Round>, lo: nat, hi: nat)
    requires lo <= hi <= |rounds|
    ensures forall m, m' | 0 <= m < m' < |Origins(rounds, lo, hi)| ::
      Origins(rounds, lo, hi)[m] < Origins(rounds, lo, hi)[m']
    decreases hi - lo
  {
    if lo < hi {
      OriginsIncreasing(rounds, lo + 1, hi);
      var ks := Origins(rounds, lo + 1, hi);
      if rounds[lo].answer.Some? {
        OriginsBounds(rounds, lo + 1, hi);
        var all := [lo] + ks;
        assert Origins(rounds, lo, hi) == all;
        forall m, m' | 0 <= m < m' < |all|
          ensures all[m] < all[m']
        {
          assert all[m'] == ks[m' - 1];
          if m > 0 {
            assert all[m] == ks[m - 1];
          }
        }
      } else {
        assert Origins(rounds, lo, hi) == ks;
      }
    }
  }

  /** Origins misses no round of lo..hi-1 that yields a value. */
  lemma {:induction false} OriginsComplete(rounds: seq<Round>, lo: nat, hi: nat, k: nat)
    requires lo <= k < hi <= |rounds| && rounds[k].answer.Some?
    ensures k in Origins(rounds, lo, hi)
    decreases hi - lo
  {
    if lo < k {
      OriginsComplete(rounds, lo + 1, hi, k);
      assert Origins(rounds, lo, hi) == Origins(rounds, lo + 1, hi)
        || Origins(rounds, lo, hi) == [lo] + Origins(rounds, lo + 1, hi);
    }
  }

  lemma {:induction false} EmittedLength(reqs: seq<BrowserPath>, rounds: seq<Round>, lo: nat, hi: nat)
    requires |rounds| == |reqs|
    requires lo <= hi <= |reqs|
    ensures |Emitted(reqs, rounds, lo, hi)| == |Origins(rounds, lo, hi)|
    decreases hi - lo
  {
    if lo < hi {
      EmittedLength(reqs, rounds, lo + 1, hi);
    }
  }

  /** The m-th result of rounds lo..hi-1 comes from the m-th of those rounds
      that yields a value, paired with that round's own request. */
  lemma {:induction false} EmittedAt(reqs: seq<BrowserPath>, rounds: seq<Round>, lo: nat, hi: nat, m: nat)
    requires |rounds| == |reqs|
    requires lo <= hi <= |reqs|
    requires m < |Origins(rounds, lo, hi)|
    ensures |Emitted(reqs, rounds, lo, hi)| == |Origins(rounds, lo, hi)|
    ensures var k := Origins(rounds, lo, hi)[m];
      lo <= k < hi && rounds[k].answer.Some? &&
      Emitted(reqs, rounds, lo, hi)[m] == (reqs[k], rounds[k].answer.value)
    decreases hi - lo
  {
    EmittedLength(reqs, rounds, lo, hi);
    if lo < hi {
      var es, ks := Emitted(reqs, rounds, lo + 1, hi), Origins(rounds, lo + 1, hi);
      var a := rounds[lo].answer;
      if a.Some? {
        assert Emitted(reqs, rounds, lo, hi) == [(reqs[lo], a.value)] + es;
        assert Origins(rounds, lo, hi) == [lo] + ks;
        if m > 0 {
          EmittedAt(reqs, rounds, lo + 1, hi, m - 1);
          assert ([(reqs[lo], a.value)] + es)[m] == es[m - 1];
          assert ([lo] + ks)[m] == ks[m - 1];
        }
      } else {
        assert Emitted(reqs, rounds, lo, hi) == es;
        assert Origins(rounds, lo, hi) == ks;
        EmittedAt(reqs, rounds, lo + 1, hi, m);
      }
    }
  }

  lemma {:induction false} EmittedSplit(reqs: seq<BrowserPath>, rounds: seq<Round>, lo: nat, mid: nat, hi: nat)
    requires |rounds| == |reqs|
    requires lo <= mid <= hi <= |reqs|
    ensures Emitted(reqs, rounds, lo, hi) == Emitted(reqs, rounds, lo, mid) + Emitted(reqs, rounds, mid, hi)
    decreases mid - lo
  {
    if lo < mid {
      EmittedSplit(reqs, rounds, lo + 1, mid, hi);
      ConcatAssoc(Yield(reqs, rounds, lo), Emitted(reqs, rounds, lo + 1, mid), Emitted(reqs, rounds, mid, hi));
    }
  }

  /** Rounds lo..hi-1 yield only what their own exchanges decide. */
  lemma {:induction false} EmittedFrame(reqs: seq<BrowserPath>, rounds: seq<Round>, rounds': seq<Round>, lo: nat, hi: nat)
    requires |rounds| == |reqs| && |rounds'| == |reqs|
    requires lo <= hi <= |reqs|
    requires forall k | lo <= k < hi :: rounds[k] == rounds'[k]
    ensures Emitted(reqs, rounds, lo, hi) == Emitted(reqs, rounds', lo, hi)
    decreases hi - lo
  {
    if lo < hi {
      EmittedFrame(reqs, rounds, rounds', lo + 1, hi);
    }
  }

  /** The loop from round i: every request up to the stopping round is written,
      and the results are exactly the values those rounds yield. */
  lemma {:induction false} LoopMeaning(reqs: seq<BrowserPath>, rounds: seq<Round>, i: nat,
                                       written: seq<BrowserPath>, results: seq<(BrowserPath, NixValue)>)
    requires |rounds| == |reqs|
    requires i <= |reqs|
    ensures var t, s := Loop(reqs, rounds, i, written, results), Stop(reqs, rounds, i);
      && t.results == results + Emitted(reqs, rounds, i, s)
      && (t.exit == ChannelClosed <==> s == |reqs|)
      && (t.exit == WriteFailed <==> s < |reqs| && !rounds[s].writeOk)
      && (t.exit == SendPanicked <==> s < |reqs| && rounds[s].writeOk)
      && t.written == written + reqs[i..s] + (if t.exit == SendPanicked then [reqs[s]] else [])
    decreases |reqs| - i
  {
    if i == |reqs| {
      assert Emitted(reqs, rounds, i, i) == [];
    } else if Fatal(rounds[i]) {
      assert Emitted(reqs, rounds, i, i) == [];
    } else {
      var y := Yield(reqs, rounds, i);
      LoopMeaning(reqs, rounds, i + 1, written + [reqs[i]], results + y);
      var s := Stop(reqs, rounds, i);
      assert reqs[i..s] == [reqs[i]] + reqs[i + 1..s];
      ConcatAssoc(written, [reqs[i]], reqs[i + 1..s]);
      ConcatAssoc(results, y, Emitted(reqs, rounds, i + 1, s));
    }
  }

  /** The whole loop: the requests before the stopping round are written, and
      the results are exactly the values those rounds yield. */
  lemma ServeMeaning(reqs: seq<BrowserPath>, rounds: seq<Round>)
    requires |rounds| == |reqs|
    ensures var t, s := Serve(reqs, rounds), Stop(reqs, rounds, 0);
      && t.results == Emitted(reqs, rounds, 0, s)
      && (t.exit == ChannelClosed <==> s == |reqs|)
      && (t.exit == WriteFailed <==> s < |reqs| && !rounds[s].writeOk)
      && (t.exit == SendPanicked <==> s < |reqs| && rounds[s].writeOk)
      && t.written == reqs[..s] + (if t.exit == SendPanicked then [reqs[s]] else [])
  {
    LoopMeaning(reqs, rounds, 0, [], []);
    assert reqs[0..Stop(reqs, rounds, 0)] == reqs[..Stop(reqs, rounds, 0)];
  }

  /** Whether a round stops the loop depends on that round alone. */
  lemma {:induction false} StopFrame(reqs: seq<BrowserPath>, rounds: seq<Round>, rounds': seq<Round>, i: nat)
    requires |rounds| == |reqs| && |rounds'| == |reqs|
    requires i <= |reqs|
    requires forall k | i <= k < |reqs| :: Fatal(rounds[k]) == Fatal(rounds'[k])
    ensures Stop(reqs, rounds, i) == Stop(reqs, rounds', i)
    decreases |reqs| - i
  {
    if i < |reqs| {
      StopFrame(reqs, rounds, rounds', i + 1);
    }
  }

  // ---------------------------------------------------------------------------
  // Properties of the whole loop
  // ---------------------------------------------------------------------------

  /** Single flight, first in first out: the m-th result comes from the
      ks[m]-th received request, paired with the path written in that very
      round; the ks are strictly increasing, so no request yields two results
      and results are never reordered; and every round before the loop stopped
      whose response decoded has its result. */
  lemma ResultsFollowRequests(reqs: seq<BrowserPath>, rounds: seq<Round>)
    requires |rounds| == |reqs|
    ensures var t, s, ks := Serve(reqs, rounds), Stop(reqs, rounds, 0), Origins(rounds, 0, Stop(reqs, rounds, 0));
      && |t.results| == |ks|
      && (forall m | 0 <= m < |ks| ::
            ks[m] < s && ks[m] < |t.written| && t.written[ks[m]] == reqs[ks[m]] &&
            rounds[ks[m]].answer.Some? && t.results[m] == (reqs[ks[m]], rounds[ks[m]].answer.value))
      && (forall m, m' | 0 <= m < m' < |ks| :: ks[m] < ks[m'])
      && (forall k | 0 <= k < s && rounds[k].answer.Some? :: k in ks)
  {
    var t, s := Serve(reqs, rounds), Stop(reqs, rounds, 0);
    ServeMeaning(reqs, rounds);
    OriginsBounds(rounds, 0, s);
    OriginsIncreasing(rounds, 0, s);
    EmittedLength(reqs, rounds, 0, s);
    var ks := Origins(rounds, 0, s);
    forall m | 0 <= m < |ks|
      ensures ks[m] < |t.written| && t.written[ks[m]] == reqs[ks[m]]
      ensures t.results[m] == (reqs[ks[m]], rounds[ks[m]].answer.value)
    {
      EmittedAt(reqs, rounds, 0, s, m);
      assert t.written[..s] == reqs[..s];
    }
    forall k | 0 <= k < s && rounds[k].answer.Some?
      ensures k in ks
    {
      OriginsComplete(rounds, 0, s, k);
    }
  }

  /** The results of 0..hi-1 around round j: those before it, its own, those after. */
  lemma EmittedAround(reqs: seq<BrowserPath>, rounds: seq<Round>, j: nat, hi: nat)
    requires |rounds| == |reqs|
    requires j < hi <= |reqs|
    ensures Emitted(reqs, rounds, 0, hi) ==
      Emitted(reqs, rounds, 0, j) + Yield(reqs, rounds, j) + Emitted(reqs, rounds, j + 1, hi)
  {
    EmittedSplit(reqs, rounds, 0, j, hi);
    EmittedSplit(reqs, rounds, j, j + 1, hi);
    assert Emitted(reqs, rounds, j + 1, j + 1) == [];
    assert Emitted(reqs, rounds, j, j + 1) == Yield(reqs, rounds, j) + [];
    assert Yield(reqs, rounds, j) + [] == Yield(reqs, rounds, j);
    ConcatAssoc(Emitted(reqs, rounds, 0, j), Yield(reqs, rounds, j), Emitted(reqs, rounds, j + 1, hi));
  }

  lemma ConcatAssoc<T>(a: seq<T>, b: seq<T>, c: seq<T>)
    ensures a + (b + c) == (a + b) + c
  {
  }

  /** Turning one silent round of 0..hi-1 into an answered one inserts its
      result after those of the earlier rounds and leaves the rest alone. */
  lemma EmittedInsert(reqs: seq<BrowserPath>, rounds: seq<Round>, rounds': seq<Round>, j: nat, hi: nat)
    requires |rounds| == |reqs| && |rounds'| == |reqs|
    requires j < hi <= |reqs|
    requires rounds[j].answer.None? && rounds'[j].answer.Some?
    requires forall k | 0 <= k < |reqs| && k != j :: rounds'[k] == rounds[k]
    ensures var e, m := Emitted(reqs, rounds, 0, hi), |Emitted(reqs, rounds, 0, j)|;
      m <= |e| && Emitted(reqs, rounds', 0, hi) == e[..m] + [(reqs[j], rounds'[j].answer.value)] + e[m..]
  {
    EmittedAround(reqs, rounds, j, hi);
    EmittedAround(reqs, rounds', j, hi);
    EmittedFrame(reqs, rounds, rounds', 0, j);
    EmittedFrame(reqs, rounds, rounds', j + 1, hi);
    var before, after := Emitted(reqs, rounds, 0, j), Emitted(reqs, rounds, j + 1, hi);
    assert Yield(reqs, rounds, j) == [];
    assert before + [] == before;
    assert Yield(reqs, rounds', j) == [(reqs[j], rounds'[j].answer.value)];
    InsertBetween(before, after, (reqs[j], rounds'[j].answer.value));
  }

  lemma InsertBetween<T>(before: seq<T>, after: seq<T>, x: T)
    ensures var e := before + after;
      |before| <= |e| && before + [x] + after == e[..|before|] + [x] + e[|before|..]
  {
    var e := before + after;
    assert e[..|before|] == before && e[|before|..] == after;
  }

  /** A round whose response cannot be read, parsed or decoded yields nothing
      and changes nothing else: had it been answered, the results would be the
      same with that one result inserted in its place. */
  lemma FailedRoundIsolated(reqs: seq<BrowserPath>, rounds: seq<Round>, rounds': seq<Round>, j: nat)
    requires |rounds| == |reqs| && |rounds'| == |reqs|
    requires j < Stop(reqs, rounds, 0)
    requires rounds[j].answer.None?
    requires rounds'[j] == Round(true, rounds'[j].answer, true) && rounds'[j].answer.Some?
    requires forall k | 0 <= k < |reqs| && k != j :: rounds'[k] == rounds[k]
    ensures var t, t' := Serve(reqs, rounds), Serve(reqs, rounds');
      var m := |Emitted(reqs, rounds, 0, j)|;
      && m <= |t.results|
      && t'.results == t.results[..m] + [(reqs[j], rounds'[j].answer.value)] + t.results[m..]
      && t'.written == t.written && t'.exit == t.exit
  {
    var s := Stop(reqs, rounds, 0);
    StopFrame(reqs, rounds, rounds', 0);
    ServeMeaning(reqs, rounds);
    ServeMeaning(reqs, rounds');
    EmittedInsert(reqs, rounds, rounds', j, s);
  }

  /** A request line that cannot be written ends the loop: the requests before
      it were all written, it and every later one are never serviced, and the
      results come from the earlier rounds only. */
  lemma WriteFailureEndsLoop(reqs: seq<BrowserPath>, rounds: seq<Round>)
    requires |rounds| == |reqs|
    ensures var t, s := Serve(reqs, rounds), Stop(reqs, rounds, 0);
      && (t.exit == WriteFailed <==> s < |reqs| && !rounds[s].writeOk)
      && (t.exit == WriteFailed ==> t.written == reqs[..s] && t.results == Emitted(reqs, rounds, 0, s))
  {
    ServeMeaning(reqs, rounds);
  }

  /** The loop ends on a closed request channel exactly when no round was fatal;
      then every request was written and every decoded response was sent. */
  lemma ClosedChannelEndsLoop(reqs: seq<BrowserPath>, rounds: seq<Round>)
    requires |rounds| == |reqs|
    ensures var t := Serve(reqs, rounds);
      && (t.exit == ChannelClosed <==> forall k | 0 <= k < |reqs| :: !Fatal(rounds[k]))
      && (t.exit == ChannelClosed ==> t.written == reqs && t.results == Emitted(reqs, rounds, 0, |reqs|))
  {
    ServeMeaning(reqs, rounds);
    var s := Stop(reqs, rounds, 0);
    assert s < |reqs| ==> Fatal(rounds[s]);
    assert reqs[0..|reqs|] == reqs;
  }

  /** When the child answers every request and every result is delivered, the
      results are exactly the requests, each with its value, in submission order. */
  lemma AllAnsweredInOrder(reqs: seq<BrowserPath>, rounds: seq<Round>)
    requires |rounds| == |reqs|
    requires forall k | 0 <= k < |reqs| :: rounds[k].writeOk && rounds[k].answer.Some? && rounds[k].sendOk
    ensures var t := Serve(reqs, rounds);
      && t.exit == ChannelClosed && t.written == reqs && |t.results| == |reqs|
      && forall k | 0 <= k < |reqs| :: t.results[k] == (reqs[k], rounds[k].answer.value)
  {
    ClosedChannelEndsLoop(reqs, rounds);
    OriginsAll(rounds, 0, |reqs|);
    EmittedLength(reqs, rounds, 0, |reqs|);
    forall k | 0 <= k < |reqs|
      ensures Serve(reqs, rounds).results[k] == (reqs[k], rounds[k].answer.value)
    {
      EmittedAt(reqs, rounds, 0, |reqs|, k);
    }
  }

  lemma {:induction false} OriginsAll(rounds: seq<Round>, lo: nat, hi: nat)
    requires lo <= hi <= |rounds|
    requires forall k | lo <= k < hi :: rounds[k].answer.Some?
    ensures |Origins(rounds, lo, hi)| == hi - lo
    ensures forall m | 0 <= m < hi - lo :: Origins(rounds, lo, hi)[m] == lo + m
    decreases hi - lo
  {
    if lo < hi {
      OriginsAll(rounds, lo + 1, hi);
    }
  }
}
