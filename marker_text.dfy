/** The text a LeafletMapMarker turns into, `"<address> (<lat>, <lng>, <zoom>)
    [<statusString>]"`, and a reader for that text that recovers every field
    it shows. */
module MarkerText {
  import opened Wrappers
  import opened Php
  import opened GeocodeStatus
  import opened MarkerState

  /** The fields the text shows: the coordinates as text, zoom and status as numbers. */
  datatype Shown = Shown(address: string, lat: string, lng: string, zoom: int, status: int)

  /** "<address> (<lat>, <lng>" */
  function Head(address: string, lat: string, lng: string): string
  {
    address + " (" + lat + ", " + lng
  }

  /** "<address> (<lat>, <lng>, <zoom>" */
  function Fields(address: string, lat: string, lng: string, zoom: string): string
  {
    Head(address, lat, lng) + ", " + zoom
  }

  /** "<address> (<lat>, <lng>, <zoom>) [<status>]" */
  function Format(address: string, lat: string, lng: string, zoom: string, status: string): string
  {
    Fields(address, lat, lng, zoom) + ") [" + status + "]"
  }

  /** `__toString()` on the marker's fields.  The text gives back the
      address, both coordinates, the zoom and the status. */
  function Render(d: map<string, Value>): (s: string)
    requires ValidData(d)
    ensures ParseRendering(s) ==
      Some(Shown(AddressOf(d), ToText(d["lat"]), ToText(d["lng"]), d["zoom"].n, StatusOf(d)))
  {
    var zoom := IntText(d["zoom"].n);
    var status := StatusString(StatusOf(d));
    CoordinateTextClean(d["lat"]);
    CoordinateTextClean(d["lng"]);
    IntTextNumeric(d["zoom"].n);
    ParseIntText(d["zoom"].n);
    SearchInvertsLabel(StatusOf(d), status);
    ParseFormat(AddressOf(d), ToText(d["lat"]), ToText(d["lng"]), zoom, status);
    Format(AddressOf(d), ToText(d["lat"]), ToText(d["lng"]), zoom, status)
  }

  /** Reads a marker's text from the right: the status label in the last
      brackets, then zoom, longitude and latitude, which hold no ',' or '('. */
  function ParseRendering(s: string): Option<Shown>
  {
    if |s| == 0 || s[|s| - 1] != ']' then None
    else match SplitLast(s[..|s| - 1], '[')
    case None => None
    case Some((u, status)) =>
      if |u| < 2 || u[|u| - 2..] != ") " then None
      else match (ParseFields(u[..|u| - 2]), Search(status))
      case (Some(f), Some(code)) => Some(Shown(f.0, f.1, f.2, f.3, code))
      case _ => None
  }

  /** Reads "<address> (<lat>, <lng>, <zoom>". */
  function ParseFields(v: string): Option<(string, string, string, int)>
  {
    match SplitLast(v, ',')
    case None => None
    case Some((w, zoom)) =>
      if |zoom| == 0 || zoom[0] != ' ' then None
      else match (ParseHead(w), ParseInt(zoom[1..]))
      case (Some(h), Some(z)) => Some((h.0, h.1, h.2, z))
      case _ => None
  }

  /** Reads "<address> (<lat>, <lng>". */
  function ParseHead(w: string): Option<(string, string, string)>
  {
    match SplitLast(w, ',')
    case None => None
    case Some((x, lng)) =>
      if |lng| == 0 || lng[0] != ' ' then None
      else match SplitLast(x, '(')
      case None => None
      case Some((y, lat)) =>
        if |y| == 0 || y[|y| - 1] != ' ' then None
        else Some((y[..|y| - 1], lat, lng[1..]))
  }

  lemma ParseHeadOf(address: string, lat: string, lng: string)
    requires '(' !in lat && ',' !in lng
    ensures ParseHead(Head(address, lat, lng)) == Some((address, lat, lng))
  {
    var y := address + " ";
    var x := y + ['('] + lat;
    assert Head(address, lat, lng) == x + [','] + (" " + lng);
    SplitLastUnique(x, ',', " " + lng);
    SplitLastUnique(y, '(', lat);
    assert (" " + lng)[1..] == lng && y[..|y| - 1] == address;
  }

  lemma ParseFieldsOf(address: string, lat: string, lng: string, zoom: string)
    requires '(' !in lat && ',' !in lng && ',' !in zoom
    ensures ParseFields(Fields(address, lat, lng, zoom)) ==
      match ParseInt(zoom)
      case Some(z) => Some((address, lat, lng, z))
      case None => None
  {
    var w := Head(address, lat, lng);
    assert Fields(address, lat, lng, zoom) == w + [','] + (" " + zoom);
    SplitLastUnique(w, ',', " " + zoom);
    ParseHeadOf(address, lat, lng);
    assert (" " + zoom)[1..] == zoom;
  }

  /** The reader undoes Format whenever the pieces right of the address hold
      none of the separators the reader looks for. */
  lemma ParseFormat(address: string, lat: string, lng: string, zoom: string, status: string)
    requires '(' !in lat && ',' !in lng && ',' !in zoom && '[' !in status
    ensures ParseRendering(Format(address, lat, lng, zoom, status)) ==
      match (ParseInt(zoom), Search(status))
      case (Some(z), Some(code)) => Some(Shown(address, lat, lng, z, code))
      case _ => None
  {
    var v := Fields(address, lat, lng, zoom);
    var u := v + ") ";
    var s := Format(address, lat, lng, zoom, status);
    assert s[..|s| - 1] == u + ['['] + status;
    SplitLastUnique(u, '[', status);
    assert u[|u| - 2..] == ") " && u[..|u| - 2] == v;
    ParseFieldsOf(address, lat, lng, zoom);
  }

  lemma CoordinateTextClean(v: Value)
    requires CoordinateOk(v)
    ensures ',' !in ToText(v) && '(' !in ToText(v)
  {
    var t := ToText(v);
    if v.Int? {
      IntTextNumeric(v.n);
    }
  }
}
