/** An abstract JSON value (RFC 8259) as the response decoder and the worker-side
    encoder see it after text parsing, together with the fixed-width numeric types
    the two ends read JSON numbers into. */
module Json {

  /** Rust `i64` / C++ `int64_t` (a Nix integer). */
  newtype Int64 = x: int | -0x8000_0000_0000_0000 <= x < 0x8000_0000_0000_0000

  /** Rust `usize` / C++ `size_t` on a 64-bit target. */
  newtype UInt64 = x: int | 0 <= x < 0x1_0000_0000_0000_0000

  /** The bit pattern of an IEEE 754 double. Floating point is not interpreted:
      a float travels through the model as an opaque token. */
  newtype F64Bits = x: int | 0 <= x < 0x1_0000_0000_0000_0000

  /** A JSON value. Numbers are split the way serde_json and nlohmann::json split
      them: an integer literal or a floating-point literal. An object keeps its
      members in text order, duplicates included (section 4 of RFC 8259 only says
      names SHOULD be unique). */
  datatype Json =
    | JNull
    | JBool(b: bool)
    | JInt(i: int)
    | JFloat(bits: F64Bits)
    | JString(s: string)
    | JArray(items: seq<Json>)
    | JObject(members: seq<Member>)

  datatype Member = Member(key: string, value: Json)

  /** What looking a field name up in an object's members finds. */
  datatype Field = Missing | Unique(value: Json) | Duplicate

  /** The one value stored under `key`, if exactly one member has that name. */
  function Lookup(ms: seq<Member>, key: string): Field
    decreases |ms|
  {
    if ms == [] then Missing
    else
      var rest := Lookup(ms[1..], key);
      if ms[0].key != key then rest
      else if rest.Missing? then Unique(ms[0].value)
      else Duplicate
  }

  /** Lookup finds nothing exactly when no member has the name, a unique value
      exactly when one member has it, and a duplicate when two do. */
  lemma {:induction false} LookupMeaning(ms: seq<Member>, key: string)
    ensures Lookup(ms, key).Missing? <==> forall i | 0 <= i < |ms| :: ms[i].key != key
    ensures Lookup(ms, key).Unique? ==> exists i | 0 <= i < |ms| :: ms[i] == Member(key, Lookup(ms, key).value)
    ensures Lookup(ms, key).Unique? ==> forall i, j | 0 <= i < j < |ms| :: ms[i].key != key || ms[j].key != key
    ensures Lookup(ms, key).Duplicate? ==> exists i, j | 0 <= i < j < |ms| :: ms[i].key == key && ms[j].key == key
    decreases |ms|
  {
    if ms != [] {
      LookupMeaning(ms[1..], key);
      var rest := Lookup(ms[1..], key);
      assert forall i | 1 <= i < |ms| :: ms[i] == ms[1..][i - 1];
      if ms[0].key == key {
        if rest.Missing? {
          assert ms[0] == Member(key, ms[0].value);
        } else {
          assert exists i | 0 <= i < |ms[1..]| :: ms[1..][i].key == key;
        }
      }
    }
  }
}
