/**
 * JSON values as the program holds them after `JSON.parse`, and the text
 * `JSON.stringify` writes for them. Objects keep their properties in order,
 * as a list of key/value entries, because the text depends on that order.
 */
module JsonData {

  import opened Wrappers
  import opened Decimal

  datatype Json =
    | JNull
    | JBool(b: bool)
    | JNumber(n: int)
    | JString(s: string)
    | JArray(items: seq<Json>)
    | JObject(entries: seq<(string, Json)>)

  /**
   * A stored string as `JSON.parse` sees it: the empty string (falsy, so the
   * program never parses it), text that parses to a value, or text that
   * makes `JSON.parse` throw.
   */
  datatype Text = Blank | JsonText(value: Json) | Malformed

  /** The text `JSON.stringify` writes is never empty, and it parses back to the value. */
  function Stringify(j: Json): Text {
    JsonText(j)
  }

  /** `typeof v === "object" && v`: arrays and non-null objects. */
  predicate IsObjectLike(j: Json) {
    j.JArray? || j.JObject?
  }

  /** JavaScript truthiness of a JSON value. */
  predicate Truthy(j: Json) {
    match j
    case JNull => false
    case JBool(b) => b
    case JNumber(n) => n != 0
    case JString(s) => s != ""
    case JArray(_) => true
    case JObject(_) => true
  }

  /** `v || {}`. */
  function OrEmpty(j: Json): (r: Json)
    ensures Truthy(r) && (Truthy(j) ==> r == j)
  {
    if Truthy(j) then j else JObject([])
  }

  // ---------------------------------------------------------------------------
  // Property lists

  function Keys(es: seq<(string, Json)>): (ks: seq<string>)
    ensures |ks| == |es| && forall i :: 0 <= i < |es| ==> ks[i] == es[i].0
  {
    if es == [] then [] else [es[0].0] + Keys(es[1..])
  }

  predicate HasKey(es: seq<(string, Json)>, k: string) {
    k in Keys(es)
  }

  /** No key occurs twice: the shape of a JavaScript object's own properties. */
  predicate DistinctKeys(es: seq<(string, Json)>) {
    forall i, j :: 0 <= i < j < |es| ==> es[i].0 != es[j].0
  }

  /** `obj[k]` for a present key: the value of its (first) entry. */
  function Lookup(es: seq<(string, Json)>, k: string): (v: Json)
    requires HasKey(es, k)
  {
    if es[0].0 == k then es[0].1 else
      assert k in Keys(es[1..]);
      Lookup(es[1..], k)
  }

  /** `obj[k] = v` for a present key: the value changes and the entry keeps its place. */
  function Update(es: seq<(string, Json)>, k: string, v: Json): (r: seq<(string, Json)>)
    requires HasKey(es, k)
    ensures Keys(r) == Keys(es)
    ensures Lookup(r, k) == v
    ensures forall k' :: k' != k && HasKey(es, k') ==> Lookup(r, k') == Lookup(es, k')
  {
    if es[0].0 == k then [(k, v)] + es[1..]
    else
      var tail := Update(es[1..], k, v);
      assert Keys([es[0]] + tail) == [es[0].0] + Keys(tail);
      [es[0]] + tail
  }

  lemma LookupAppend(es: seq<(string, Json)>, k: string, v: Json)
    requires !HasKey(es, k)
    ensures Keys(es + [(k, v)]) == Keys(es) + [k]
    ensures Lookup(es + [(k, v)], k) == v
    ensures forall k' :: HasKey(es, k') ==> Lookup(es + [(k, v)], k') == Lookup(es, k')
  {
    if es != [] {
      assert (es + [(k, v)])[1..] == es[1..] + [(k, v)];
      LookupAppend(es[1..], k, v);
    }
  }

  /** Setting a key to the value it already has changes nothing. */
  lemma UpdateSame(es: seq<(string, Json)>, k: string)
    requires HasKey(es, k)
    ensures Update(es, k, Lookup(es, k)) == es
  {
    if es[0].0 != k {
      UpdateSame(es[1..], k);
    }
  }

  /** `{...v}`: the own enumerable properties of an array or an object, in order. */
  function Spread(j: Json): (es: seq<(string, Json)>)
    requires IsObjectLike(j)
    ensures j.JArray? ==> |es| == |j.items| && forall i :: 0 <= i < |es| ==> es[i].1 == j.items[i]
  {
    if j.JArray? then Indexed(j.items, 0) else j.entries
  }

  /** Array elements under the keys `String(start)`, `String(start + 1)`, ... */
  function Indexed(items: seq<Json>, start: nat): (es: seq<(string, Json)>)
    ensures |es| == |items|
    ensures forall i :: 0 <= i < |es| ==> es[i] == (NatToString(start + i), items[i])
  {
    if items == [] then [] else [(NatToString(start), items[0])] + Indexed(items[1..], start + 1)
  }

  /** The keys `Object.keys` gives for an array are distinct. */
  lemma IndexedDistinct(items: seq<Json>, start: nat)
    ensures DistinctKeys(Indexed(items, start))
  {
    var es := Indexed(items, start);
    forall i, j | 0 <= i < j < |es|
      ensures es[i].0 != es[j].0
    {
      NatToStringInjective(start + i, start + j);
    }
  }

  // ---------------------------------------------------------------------------
  // JSON.stringify

  /** A hexadecimal digit. */
  function HexDigit(d: nat): char
    requires d < 16
  {
    if d < 10 then DigitChar(d) else ('a' as int + d - 10) as char
  }

  /** A string character as `JSON.stringify` writes it inside quotes. */
  function EscapeChar(c: char): string {
    if c == '"' then "\\\""
    else if c == '\\' then "\\\\"
    else if c == '\U{0008}' then "\\b"
    else if c == '\U{000C}' then "\\f"
    else if c == '\n' then "\\n"
    else if c == '\r' then "\\r"
    else if c == '\t' then "\\t"
    else if c < ' ' then "\\u00" + [HexDigit(c as int / 16), HexDigit(c as int % 16)]
    else [c]
  }

  function Escape(s: string): string {
    if s == [] then "" else EscapeChar(s[0]) + Escape(s[1..])
  }

  function Quote(s: string): string {
    "\"" + Escape(s) + "\""
  }

  /** Strings joined with commas. */
  function JoinCommas(parts: seq<string>): string {
    if parts == [] then ""
    else if |parts| == 1 then parts[0]
    else parts[0] + "," + JoinCommas(parts[1..])
  }

  /** `JSON.stringify(v)` without indentation. */
  function Serialize(j: Json): string
    decreases j
  {
    match j
    case JNull => "null"
    case JBool(b) => if b then "true" else "false"
    case JNumber(n) => IntToString(n)
    case JString(s) => Quote(s)
    case JArray(items) =>
      "[" + JoinCommas(seq(|items|, i requires 0 <= i < |items| => Serialize(items[i]))) + "]"
    case JObject(es) =>
      "{" + JoinCommas(seq(|es|, i requires 0 <= i < |es| =>
                             Quote(es[i].0) + ":" + Serialize(es[i].1))) + "}"
  }
}
