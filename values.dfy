/**
 * Loosely typed context values (Go's interface{} holding decoded JSON) and
 * the lookups that read them: asString and nestedMapLookup in
 * pkg/runner/run_context.go.
 */
module Values {

  /**
   * A decoded JSON value; Null stands for Go's nil interface. Go decodes
   * JSON numbers as float64; no lookup here inspects a number, so Number
   * carries an int.
   */
  datatype Value =
    | Null
    | Bool(b: bool)
    | Number(n: int)
    | Str(s: string)
    | List(items: seq<Value>)
    | Object(fields: map<string, Value>)

  /** asString: the string held by v, or "" when v is nil or not a string. */
  function AsString(v: Value): (r: string)
    ensures v.Str? ==> r == v.s
    ensures !v.Str? ==> r == ""
  {
    match v
    case Str(s) => s
    case _ => ""
  }

  /**
   * nestedMapLookup: follow the keys through nested objects. A missing key,
   * an intermediate value that is not an object, or no keys at all gives nil.
   */
  function NestedMapLookup(m: map<string, Value>, ks: seq<string>): Value
    decreases |ks|
  {
    if |ks| == 0 then Null
    else if ks[0] !in m then Null
    else if |ks| == 1 then m[ks[0]]
    else match m[ks[0]]
      case Object(inner) => NestedMapLookup(inner, ks[1..])
      case _ => Null
  }

  /** A path of keys leads through objects from m to v. */
  ghost predicate PathTo(m: map<string, Value>, ks: seq<string>, v: Value)
    decreases |ks|
  {
    |ks| > 0 && ks[0] in m &&
    if |ks| == 1 then m[ks[0]] == v
    else m[ks[0]].Object? && PathTo(m[ks[0]].fields, ks[1..], v)
  }

  /** A non-nil result is exactly the value at the end of a path of objects. */
  lemma {:induction false} LookupFollowsPath(m: map<string, Value>, ks: seq<string>, v: Value)
    requires v != Null
    ensures NestedMapLookup(m, ks) == v <==> PathTo(m, ks, v)
    decreases |ks|
  {
    if |ks| > 1 && ks[0] in m && m[ks[0]].Object? {
      LookupFollowsPath(m[ks[0]].fields, ks[1..], v);
    }
  }

  /**
   * Looking up ks1 + ks2 is looking up ks1, then ks2 inside the object found;
   * anything other than an object part-way gives nil.
   */
  lemma {:induction false} LookupComposes(m: map<string, Value>, ks1: seq<string>, ks2: seq<string>)
    requires |ks1| > 0 && |ks2| > 0
    ensures NestedMapLookup(m, ks1 + ks2) ==
            match NestedMapLookup(m, ks1)
            case Object(inner) => NestedMapLookup(inner, ks2)
            case _ => Null
    decreases |ks1|
  {
    var ks := ks1 + ks2;
    assert ks[0] == ks1[0];
    if ks1[0] in m && |ks1| > 1 {
      assert ks[1..] == ks1[1..] + ks2;
      if m[ks1[0]].Object? {
        LookupComposes(m[ks1[0]].fields, ks1[1..], ks2);
      }
    } else if ks1[0] in m {
      assert ks[1..] == ks2;
    }
  }

  /** A missing first key or a non-object part-way reads as "" through asString. */
  lemma MissingReadsEmpty(m: map<string, Value>, k: string, rest: seq<string>)
    requires k !in m || (|rest| > 0 && !m[k].Object?)
    ensures AsString(NestedMapLookup(m, [k] + rest)) == ""
  {
    assert ([k] + rest)[0] == k;
  }
}
