/** Reading parsed JSON: indexing an array by position and an object by
    key, taking the elements or members out, and converting a scalar to its
    payload. Every accessor panics when the value has the wrong variant;
    the owned and the borrowed conversions behave alike and are modelled
    once. */
module JsonAccess {
  import opened Results
  import opened JsonParse

  /** `value[i]` on an array. */
  function IndexAt(v: Value, i: nat): (r: Result<Value>)
    ensures r.Ok? <==> v.Array? && i < |v.elements|
    ensures r.Ok? ==> r.value in v.elements && r.value < v
  {
    if !v.Array? then Panic("can only index with a usize into a json array")
    else if i >= |v.elements| then Panic("index out of bounds")
    else Ok(v.elements[i])
  }

  /** The position of the first member named `key`, if any. */
  function FindKey(pairs: seq<Pair>, key: string): (r: Option<nat>)
    ensures r.Some? ==> r.value < |pairs| && pairs[r.value].key == key
    ensures r.Some? ==> forall k :: 0 <= k < r.value ==> pairs[k].key != key
    ensures r.None? <==> forall k :: 0 <= k < |pairs| ==> pairs[k].key != key
  {
    if |pairs| == 0 then None
    else if pairs[0].key == key then Some(0)
    else match FindKey(pairs[1..], key)
      case None => None
      case Some(j) => Some(j + 1)
  }

  /** `value[key]` on an object: the value of the first member with that
      key, so an earlier duplicate hides a later one. */
  function IndexKey(v: Value, key: string): (r: Result<Value>)
    ensures r.Ok? <==> v.Object? && exists j :: 0 <= j < |v.pairs| && v.pairs[j].key == key
    ensures r.Ok? ==> exists j :: 0 <= j < |v.pairs| && v.pairs[j] == Pair(key, r.value)
                        && forall k :: 0 <= k < j ==> v.pairs[k].key != key
  {
    if !v.Object? then Panic("Can only index with a string into a JSON object")
    else match FindKey(v.pairs, key)
      case None => Panic("Key {index} not found")
      case Some(j) => Ok(v.pairs[j].value)
  }

  /** `elements()`: the elements of an array. */
  function Elements(v: Value): (r: Result<seq<Value>>)
    ensures r.Ok? <==> v.Array?
    ensures r.Ok? ==> Array(r.value) == v
  {
    if v.Array? then Ok(v.elements) else Panic("Can only get elements of a json array")
  }

  /** `items()`: the members of an object, in order. */
  function Items(v: Value): (r: Result<seq<Pair>>)
    ensures r.Ok? <==> v.Object?
    ensures r.Ok? ==> Object(r.value) == v
  {
    if v.Object? then Ok(v.pairs) else Panic("Can only get items of a json array")
  }

  /** The conversion to a float. The number is kept as its lexeme. */
  function AsNumber(v: Value): (r: Result<string>)
    ensures r.Ok? <==> v.Number?
    ensures r.Ok? ==> Value.Number(r.value) == v
  {
    if v.Number? then Ok(v.lexeme) else Panic("Tried to get number")
  }

  /** The conversion to a string slice. */
  function AsStr(v: Value): (r: Result<string>)
    ensures r.Ok? <==> v.String?
    ensures r.Ok? ==> Value.String(r.value) == v
  {
    if v.String? then Ok(v.s) else Panic("Tried to get str")
  }

  /** The conversion to a boolean. */
  function AsBool(v: Value): (r: Result<bool>)
    ensures r.Ok? <==> v.Boolean?
    ensures r.Ok? ==> Value.Boolean(r.value) == v
  {
    if v.Boolean? then Ok(v.b) else Panic("Tried to get bool")
  }

  /** Indexing an array is taking its elements and picking one. */
  lemma IndexThroughElements(v: Value, i: nat)
    ensures IndexAt(v, i).Ok? <==> Elements(v).Ok? && i < |Elements(v).value|
    ensures IndexAt(v, i).Ok? ==> IndexAt(v, i).value == Elements(v).value[i]
  {
  }

  /** Looking a key up in two runs of members: the first run wins. */
  lemma {:induction false} FindKeyAppend(ps: seq<Pair>, qs: seq<Pair>, key: string)
    ensures FindKey(ps + qs, key)
         == match FindKey(ps, key)
            case Some(j) => Some(j)
            case None => match FindKey(qs, key)
              case Some(j) => Some(|ps| + j)
              case None => None
  {
    if |ps| > 0 {
      assert (ps + qs)[1..] == ps[1..] + qs;
      FindKeyAppend(ps[1..], qs, key);
    } else {
      assert ps + qs == qs;
    }
  }

  /** A member appended after a member with the same key is never seen. */
  lemma ShadowedKey(ps: seq<Pair>, key: string, first: Value, later: Value)
    ensures IndexKey(Object(ps + [Pair(key, first), Pair(key, later)]), key) == IndexKey(Object(ps + [Pair(key, first)]), key)
    ensures IndexKey(Object(ps + [Pair(key, first)]), key).Ok?
  {
    assert ps + [Pair(key, first), Pair(key, later)] == (ps + [Pair(key, first)]) + [Pair(key, later)];
    FindKeyAppend(ps + [Pair(key, first)], [Pair(key, later)], key);
    FindKeyAppend(ps, [Pair(key, first)], key);
  }

  /** What the accessors read from a parsed array is what was written. */
  lemma IndexParsedArray(es: seq<Value>, lay: Layout, i: nat)
    requires ValidValue(Array(es)) && ValidLayout(lay)
    ensures Parse(Serialize(Array(es), lay)).Ok?
    ensures IndexAt(Parse(Serialize(Array(es), lay)).value, i) == if i < |es| then Ok(es[i]) else Panic("index out of bounds")
  {
    ParseRoundTrip(Array(es), lay, "");
    assert Serialize(Array(es), lay) + "" == Serialize(Array(es), lay);
  }

  /** The same for a key of a parsed object. */
  lemma IndexParsedObject(ps: seq<Pair>, lay: Layout, key: string)
    requires ValidValue(Object(ps)) && ValidLayout(lay)
    ensures Parse(Serialize(Object(ps), lay)).Ok?
    ensures IndexKey(Parse(Serialize(Object(ps), lay)).value, key) == IndexKey(Object(ps), key)
  {
    ParseRoundTrip(Object(ps), lay, "");
    assert Serialize(Object(ps), lay) + "" == Serialize(Object(ps), lay);
  }
}
