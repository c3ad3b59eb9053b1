/** The two cache services that the recovery of passwords may run on: an object in memory and a Redis server. */
module CacheServices {
  import opened Options
  import opened Decimal

  /**
   * A JavaScript value in a stored object. `Unread` is some number or NaN that is not computed here: what comes
   * of texts that are neither empty nor a decimal integer.
   */
  datatype Value = Text(text: string) | Number(number: int) | NaN | Unread

  /** The conversion that unary plus makes. The empty text counts as 0. */
  function ToNumber(v: Value): Value {
    match v
    case Text(s) =>
      var digits := if s != [] && s[0] in {'-', '+'} then s[1..] else s;
      if s == [] then Number(0)
      else if digits != [] && AllDigits(digits) then Number(if s[0] == '-' then ReadInt(s) else Decimal.Value(digits))
      else Unread
    case _ => v
  }

  function Plus(v: Value, n: int): Value {
    if v.Number? then Number(v.number + n) else v
  }

  /** Element i of an array, or undefined. */
  function Nth(values: seq<Option<Value>>, i: nat): Option<Value> {
    if i < |values| then values[i] else None
  }

  /** A JavaScript object that is stored by reference. */
  class JsObject {
    var fields: map<string, Value>

    constructor (fields: map<string, Value>)
      ensures this.fields == fields
    {
      this.fields := fields;
    }
  }

  class MemoryCacheService {
    var cache: map<string, JsObject>

    constructor ()
      ensures cache == map[]
    {
      cache := map[];
    }

    method Del(key: string)
      modifies this
      ensures cache == old(cache) - {key}
    {
      cache := cache - {key};
    }

    /** One value per field, or an empty array when the key is missing. */
    method GetFields(key: string, fields: seq<string>) returns (result: seq<Option<Value>>)
      ensures key !in cache ==> result == []
      ensures key in cache ==> |result| == |fields| && forall i :: 0 <= i < |fields| ==>
                result[i] == if fields[i] in cache[key].fields then Some(cache[key].fields[fields[i]]) else None
    {
      result := [];
      if key in cache {
        var data := cache[key];
        for i := 0 to |fields|
          invariant |result| == i
          invariant forall j :: 0 <= j < i ==>
                      result[j] == if fields[j] in data.fields then Some(data.fields[fields[j]]) else None
        {
          result := result + [if fields[i] in data.fields then Some(data.fields[fields[i]]) else None];
        }
      }
    }

    /** Replace what the key held by the caller's own object. */
    method SetFields(key: string, data: JsObject)
      modifies this
      ensures cache == old(cache)[key := data]
    {
      cache := cache[key := data];
    }

    /** Change the stored object itself. `thrown` is the TypeError of a missing key. */
    method IncrementFieldBy(key: string, field: string, value: int) returns (thrown: bool)
      modifies if key in cache then {cache[key]} else {}
      ensures thrown <==> key !in cache
      ensures key in cache ==>
                cache[key].fields == old(cache[key].fields)[field :=
                  if field in old(cache[key].fields) then Plus(ToNumber(old(cache[key].fields)[field]), value) else NaN]
    {
      if key !in cache { return true; }
      var data := cache[key];
      var newValue := if field in data.fields then Plus(ToNumber(data.fields[field]), value) else NaN;
      data.fields := data.fields[field := newValue];
      return false;
    }
  }

  /** The Redis server's hashes, all of whose values are texts. */
  class CacheService {
    var hashes: map<string, map<string, string>>

    constructor ()
      ensures hashes == map[]
    {
      hashes := map[];
    }

    method Del(key: string)
      modifies this
      ensures hashes == old(hashes) - {key}
    {
      hashes := hashes - {key};
    }

    /** HMGET: one value per field, null for what is missing, also when the key is. */
    method GetFields(key: string, fields: seq<string>) returns (result: seq<Option<Value>>)
      ensures |result| == |fields|
      ensures forall i :: 0 <= i < |fields| ==>
                result[i] ==
                if key in hashes && fields[i] in hashes[key] then Some(Text(hashes[key][fields[i]])) else None
    {
      result := seq(|fields|, i requires 0 <= i < |fields| reads this =>
        if key in hashes && fields[i] in hashes[key] then Some(Text(hashes[key][fields[i]])) else None);
    }

    /** HMSET: merge into what the key holds. */
    method SetFields(key: string, data: map<string, string>)
      modifies this
      ensures hashes == old(hashes)[key := (if key in old(hashes) then old(hashes)[key] else map[]) + data]
    {
      hashes := hashes[key := (if key in hashes then hashes[key] else map[]) + data];
    }

    /**
     * HINCRBY: a missing key or field counts as 0. `thrown` is the error of a value that is not the text of an
     * integer.
     */
    method IncrementFieldBy(key: string, field: string, value: int) returns (thrown: bool)
      modifies this
      ensures var hash := if key in old(hashes) then old(hashes)[key] else map[];
              var text := if field in hash then hash[field] else "0";
              && (thrown <==> !IsIntText(text))
              && hashes == if thrown then old(hashes)
                           else old(hashes)[key := hash[field := IntText(ReadInt(text) + value)]]
    {
      var hash: map<string, string> := if key in hashes then hashes[key] else map[];
      var text := if field in hash then hash[field] else "0";
      if !IsIntText(text) { return true; }
      hashes := hashes[key := hash[field := IntText(ReadInt(text) + value)]];
      return false;
    }
  }
}
