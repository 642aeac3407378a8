/**
 * JSON values as `json.loads` returns them, and Python's subscript `v[k]` on
 * them, with the exception each failing subscript raises.
 */
module Json {
  import opened Wrappers

  /** Numbers are kept as integers: no lookup here depends on their value. */
  datatype Json =
    | JNull
    | JBool(b: bool)
    | JNumber(n: int)
    | JString(s: string)
    | JArray(items: seq<Json>)
    | JObject(fields: map<string, Json>)

  /** A subscript: a dictionary key or a list position. */
  datatype Key = Name(name: string) | Index(i: nat)

  datatype LookupError = KeyError | IndexError | TypeError

  /** `v[k]`: a dict looks a key up (an integer is never one of a JSON object's
      keys), a list or a str is indexed, every other value is not subscriptable. */
  function Subscript(v: Json, k: Key): (r: Result<Json, LookupError>)
    ensures r.Ok? <==>
      || (v.JObject? && k.Name? && k.name in v.fields)
      || (v.JArray? && k.Index? && k.i < |v.items|)
      || (v.JString? && k.Index? && k.i < |v.s|)
    ensures r.Err? && r.error == TypeError <==> !(v.JObject? || ((v.JArray? || v.JString?) && k.Index?))
    ensures r.Err? && v.JObject? ==> r.error == KeyError
    ensures r.Err? && (v.JArray? || v.JString?) && k.Index? ==> r.error == IndexError
    ensures r.Ok? && v.JObject? ==> r.value == v.fields[k.name]
    ensures r.Ok? && v.JArray? ==> r.value == v.items[k.i]
    ensures r.Ok? && v.JString? ==> r.value == JString([v.s[k.i]])
  {
    match (v, k)
    case (JObject(m), Name(n)) => if n in m then Ok(m[n]) else Err(KeyError)
    case (JObject(_), Index(_)) => Err(KeyError)
    case (JArray(xs), Index(i)) => if i < |xs| then Ok(xs[i]) else Err(IndexError)
    case (JString(s), Index(i)) => if i < |s| then Ok(JString([s[i]])) else Err(IndexError)
    case _ => Err(TypeError)
  }

  /** `v[k0][k1]...`: subscripts applied left to right; the first failure is raised. */
  function Lookup(v: Json, path: seq<Key>): Result<Json, LookupError>
    decreases |path|
  {
    if path == [] then Ok(v)
    else match Subscript(v, path[0])
      case Err(e) => Err(e)
      case Ok(w) => Lookup(w, path[1..])
  }

  /** A lookup along `p + q` is the lookup along `p` continued along `q`. */
  lemma {:induction false} LookupAppend(v: Json, p: seq<Key>, q: seq<Key>)
    ensures Lookup(v, p + q) ==
      match Lookup(v, p)
      case Err(e) => Err(e)
      case Ok(w) => Lookup(w, q)
    decreases |p|
  {
    if p != [] {
      assert (p + q)[0] == p[0] && (p + q)[1..] == p[1..] + q;
      match Subscript(v, p[0])
      case Err(_) =>
      case Ok(w) => LookupAppend(w, p[1..], q);
    } else {
      assert p + q == q;
    }
  }
}
