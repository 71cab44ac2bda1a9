/** The payload side of the evaluator child (worker/inspector.cc): how
    `NixInspector::v_repr` turns an evaluated Nix value into the JSON payload
    that travels under "data". */
module Inspector {
  import opened Wrappers
  import opened Json
  import Workers

  /** An evaluated Nix value, one constructor per kind of `nix::ValueType`. */
  datatype Value =
    | VAttrs(attrs: seq<Attr>)
    | VList(items: seq<Value>)
    | VString(s: string)
    | VPath(path: string)
    | VBool(b: bool)
    | VFloat(fpoint: F64Bits)
    | VInt(integer: Int64)
    | VNull
    | VThunk
    | VFunction
    | VExternal

  /** One binding of an attribute set, in the set's iteration order; the name
      is the text the symbol table gives for it. */
  datatype Attr = Attr(name: string, value: Value)

  /** The names of the bindings, in iteration order. */
  function Names(attrs: seq<Attr>): (names: seq<string>)
    ensures |names| == |attrs|
    ensures forall k | 0 <= k < |attrs| :: names[k] == attrs[k].name
  {
    if attrs == [] then [] else [attrs[0].name] + Names(attrs[1..])
  }

  /** The payload of each kind of value. */
  function Payload(v: Value): Json
  {
    match v
    case VAttrs(attrs) => JArray(Workers.StringItems(Names(attrs)))
    case VList(items) => JInt(|items|)
    case VString(s) => JString(s)
    case VPath(p) => JString(p)
    case VBool(b) => JBool(b)
    case VFloat(x) => JFloat(x)
    case VInt(i) => JInt(i as int)
    case VNull => JNull
    case VThunk => JNull
    case VFunction => JNull
    case VExternal => JNull
  }

  /** `v_repr`: a switch over the kind; an attribute set's names are collected
      one binding at a time. */
  method ValueRepr(v: Value) returns (j: Json)
    ensures j == Payload(v)
  {
    match v {
      case VAttrs(attrs) =>
        var collected: seq<string> := [];
        for i := 0 to |attrs|
          invariant |collected| == i
          invariant forall k | 0 <= k < i :: collected[k] == attrs[k].name
        {
          collected := collected + [attrs[i].name];
        }
        assert collected == Names(attrs);
        j := JArray(Workers.StringItems(collected));
      case VList(items) => j := JInt(|items|);
      case VString(s) => j := JString(s);
      case VPath(p) => j := JString(p);
      case VBool(b) => j := JBool(b);
      case VFloat(x) => j := JFloat(x);
      case VInt(i) => j := JInt(i as int);
      case VNull => j := JNull;
      case VThunk => j := JNull;
      case VFunction => j := JNull;
      case VExternal => j := JNull;
    }
  }

  /** An attribute set is sent as the list of its names: one string per
      binding, in iteration order, and nothing of the bound values. */
  lemma AttrsPayload(attrs: seq<Attr>)
    ensures Payload(VAttrs(attrs)).JArray?
    ensures |Payload(VAttrs(attrs)).items| == |attrs|
    ensures forall k | 0 <= k < |attrs| :: Payload(VAttrs(attrs)).items[k] == JString(attrs[k].name)
  {
  }

  /** A list is sent as its length alone: two lists have the same payload
      exactly when they have the same number of elements. */
  lemma ListPayload(a: seq<Value>, b: seq<Value>)
    ensures Payload(VList(a)) == JInt(|a|)
    ensures Payload(VList(a)) == Payload(VList(b)) <==> |a| == |b|
  {
  }

  /** Null, thunks, functions and external values are all sent as JSON null,
      and nothing else is: the payload alone cannot tell those four apart. */
  lemma NullPayload(v: Value)
    ensures Payload(v) == JNull <==> v.VNull? || v.VThunk? || v.VFunction? || v.VExternal?
  {
  }

  /** The value the front end is meant to see for an evaluated value. */
  function FrontEndValue(v: Value): (w: Workers.NixValue)
    requires v.VList? ==> |v.items| < 0x1_0000_0000_0000_0000
  {
    match v
    case VAttrs(attrs) => Workers.Attrs(Names(attrs))
    case VList(items) => Workers.List(|items| as UInt64)
    case VString(s) => Workers.String(s)
    case VPath(p) => Workers.Path(p)
    case VBool(b) => Workers.Bool(b)
    case VFloat(x) => Workers.Float(x)
    case VInt(i) => Workers.Int(i)
    case VNull => Workers.Null
    case VThunk => Workers.Thunk
    case VFunction => Workers.Function
    case VExternal => Workers.External
  }

  /** The payload shapes fit the front end's decoder: wrapped with the tag of
      its kind, every payload decodes to the value it stands for, except the
      tag-"1" kind that the reading of tag "1" rules out. */
  lemma PayloadFitsDecoder(v: Value, one: Workers.TagOneReading)
    requires v.VList? ==> |v.items| < 0x1_0000_0000_0000_0000
    ensures var w := FrontEndValue(v);
      Workers.Decode(Workers.Envelope(Workers.Tag(w), Payload(v)), one) == Workers.Decode(Workers.Encode(w), one)
    ensures var w := FrontEndValue(v);
      Workers.Decode(Workers.Envelope(Workers.Tag(w), Payload(v)), one) == Ok(w) <==> Workers.Readable(w, one)
  {
    var w := FrontEndValue(v);
    Workers.DecodeEncode(w, one);
    if Workers.Data(w).Some? {
      assert Workers.Encode(w) == Workers.Envelope(Workers.Tag(w), Payload(v));
    } else {
      Workers.NullDataIsNoData(w, one);
    }
  }
}
