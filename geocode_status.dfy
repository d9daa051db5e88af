/** The closed table of geocode statuses of LeafletMapMarker and the lookups
    the class performs on it. */
module GeocodeStatus {
  import opened Wrappers
  import opened Php

  /** The status `geocode()` returns when geocoding is switched off. */
  const NoGeocode: PhpInt := -100

  /** The status a code outside the table is forced to. */
  const Unknown: PhpInt := -1

  /** The table in its declaration order: code and label. */
  const Table: seq<(PhpInt, string)> := [(-1, "N/A"), (1, "OK"), (-100, "Geocode OFF")]

  /** The label of `code`, if the table has one (`isset($geocodeStatuses[$code])`). */
  function Label(code: int): (r: Option<string>)
    ensures r.Some? <==> code in {-1, 1, -100}
    ensures r.Some? ==> (code, r.value) in Table
  {
    LabelFrom(Table, code)
  }

  /** The label `table` pairs with `code`: the first entry with that code. */
  function LabelFrom(table: seq<(PhpInt, string)>, code: int): (r: Option<string>)
    ensures r.Some? ==> (code, r.value) in table
    ensures r.None? ==> forall i :: 0 <= i < |table| ==> table[i].0 != code
  {
    if table == [] then None
    else if table[0].0 == code then Some(table[0].1)
    else LabelFrom(table[1..], code)
  }

  predicate IsKnown(code: int)
  {
    Label(code).Some?
  }

  /** The status that `set('status', ...)` stores for an integer. */
  function Coerce(code: PhpInt): (r: PhpInt)
    ensures IsKnown(r)
    ensures IsKnown(code) <==> r == code
    ensures !IsKnown(code) ==> r == Unknown
  {
    if IsKnown(code) then code else Unknown
  }

  /** `array_search($label, $geocodeStatuses)`: the first code, in table order,
      whose label equals `text`. */
  function Search(text: string): (r: Option<PhpInt>)
    ensures r.Some? ==> Label(r.value) == Some(text)
    ensures r.None? ==> forall code :: Label(code) != Some(text)
  {
    SearchFrom(Table, text)
  }

  function SearchFrom(table: seq<(PhpInt, string)>, text: string): (r: Option<PhpInt>)
    ensures r.Some? ==> (r.value, text) in table
    ensures r.None? ==> forall i :: 0 <= i < |table| ==> table[i].1 != text
  {
    if table == [] then None
    else if table[0].1 == text then Some(table[0].0)
    else SearchFrom(table[1..], text)
  }

  /** Search and Label are inverse: every label leads back to its own code,
      and a code found by Search has the searched label. */
  lemma SearchInvertsLabel(code: int, text: string)
    ensures Label(code) == Some(text) <==> Search(text) == Some(code)
  {
    var r := Search(text);
    if r.Some? {
      assert (r.value, text) in Table;
    }
  }

  /** A text that holds an underscore is no label of the table. */
  lemma SearchUnderscore(s: string)
    requires '_' in s
    ensures Search(s) == None
  {
    var i :| 0 <= i < |s| && s[i] == '_';
    if Search(s).Some? {
      SearchInvertsLabel(Search(s).value, s);
      assert false;
    }
  }

  /** `get('statusString')`: the label of a known code, '_' shown as ' '. */
  function StatusString(code: int): (r: string)
    requires IsKnown(code)
    ensures Label(code) == Some(r)
    ensures '_' !in r && '[' !in r
  {
    var l := Label(code).value;
    assert '_' !in l && '[' !in l;
    ReplaceCharAbsent(l, '_', ' ');
    ReplaceChar(l, '_', ' ')
  }

  /** Different statuses read differently, so the label identifies the status. */
  lemma StatusStringDistinct(a: int, b: int)
    requires IsKnown(a) && IsKnown(b) && a != b
    ensures StatusString(a) != StatusString(b)
  {
  }
}
