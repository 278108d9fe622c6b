/**
 * The date-of-birth record in the browser's key/value store: one JSON
 * record `{dobISO, locked}` under the key `lifeweeks.v1`.
 */
module Storage {

  import opened Wrappers
  import opened JsonData

  const Key: string := "lifeweeks.v1"

  /** The record `setDOB` writes. */
  function DobRecord(dobISO: string): Json {
    JObject([("dobISO", JString(dobISO)), ("locked", JBool(true))])
  }

  /**
   * What `getDOB` returns for a store: nothing for a missing or empty item or
   * text that does not parse, and otherwise the record's `dobISO` unless it is
   * absent or null. Only an object has a `dobISO` property.
   */
  function DobOf(items: map<string, Text>): (r: Option<Json>)
    ensures r.Some? <==>
      && Key in items && items[Key].JsonText? && items[Key].value.JObject?
      && HasKey(items[Key].value.entries, "dobISO") && Lookup(items[Key].value.entries, "dobISO") != JNull
    ensures r.Some? ==> r.value == Lookup(items[Key].value.entries, "dobISO") && r.value != JNull
  {
    if Key !in items then None
    else match items[Key]
      case Blank => None
      case Malformed => None
      case JsonText(parsed) =>
        if parsed.JObject? && HasKey(parsed.entries, "dobISO") && Lookup(parsed.entries, "dobISO") != JNull
        then Some(Lookup(parsed.entries, "dobISO"))
        else None
  }

  /** `localStorage` as far as these functions use it. */
  class LocalStore {
    var items: map<string, Text>

    constructor (items0: map<string, Text>)
      ensures items == items0
    {
      items := items0;
    }

    /** `getDOB()`: reads the record and never fails. */
    method GetDOB() returns (dob: Option<Json>)
      ensures dob == DobOf(items)
    {
      if Key !in items {
        return None;
      }
      var s := items[Key];
      if s.Blank? || s.Malformed? {
        return None;
      }
      var parsed := s.value;
      if parsed.JObject? && HasKey(parsed.entries, "dobISO") {
        var v := Lookup(parsed.entries, "dobISO");
        if v != JNull {
          return Some(v);
        }
      }
      return None;
    }

    /** `setDOB(dobISO)`: writes the locked record and only that key. */
    method SetDOB(dobISO: string)
      modifies this
      ensures items == old(items)[Key := Stringify(DobRecord(dobISO))]
      ensures forall k :: k != Key ==> (k in items <==> k in old(items))
      ensures forall k :: k != Key && k in items ==> items[k] == old(items)[k]
      ensures DobOf(items) == Some(JString(dobISO))
    {
      items := items[Key := Stringify(DobRecord(dobISO))];
      SetThenGet(old(items), dobISO);
    }

    /** `clearDOB()`: removes the record and only that key. */
    method ClearDOB()
      modifies this
      ensures items == old(items) - {Key}
      ensures DobOf(items) == None
    {
      items := items - {Key};
    }
  }

  /** After `setDOB(x)`, `getDOB()` returns `x`. */
  lemma SetThenGet(items: map<string, Text>, dobISO: string)
    ensures DobOf(items[Key := Stringify(DobRecord(dobISO))]) == Some(JString(dobISO))
  {
    var es := DobRecord(dobISO).entries;
    assert Keys(es) == ["dobISO", "locked"];
  }

  /** The latest `setDOB` wins over every earlier one. */
  lemma LastWriteWins(items: map<string, Text>, first: string, second: string)
    ensures DobOf(items[Key := Stringify(DobRecord(first))][Key := Stringify(DobRecord(second))])
      == Some(JString(second))
    ensures items[Key := Stringify(DobRecord(first))][Key := Stringify(DobRecord(second))]
      == items[Key := Stringify(DobRecord(second))]
  {
    SetThenGet(items, second);
  }
}
