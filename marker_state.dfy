/** The state of a LeafletMapMarker as a value, and the effect of its two
    state-changing operations, `set()` and `geocode()`, as functions of that
    value.  The class in LeafletMap is proved to follow these functions; the
    properties of the marker are proved here, about them. */
module MarkerState {
  import opened Wrappers
  import opened Php
  import opened GeocodeStatus

  /** The first match in the geocoding service's answer, as decoded JSON.  A key
      the match lacks reads as Null. */
  datatype Place = Place(placeId: Value, lat: Value, lon: Value, placeClass: Value)

  /** The decoded answer of the geocoding service: its element 0 (None when the
      fetch failed, the body was not JSON or the list was empty) and its
      'status' entry. */
  datatype Response = Response(first: Option<Place>, status: Value)

  /** The notifications `error()` and `message()` raise. */
  datatype Notice = Error(text: string) | Message(text: string)

  /** Everything a marker holds: the WireData fields, the address of the last
      geocode attempt, and, for the proofs, the number of lookups sent to the
      geocoding service and the notifications raised. */
  datatype Record = Record(data: map<string, Value>, geocodedAddress: string, lookups: nat, notices: seq<Notice>)

  const FopenError: string := "Geocode is not supported because 'allow_url_fopen' is disabled in PHP"
  const LookupError: string := "Error geocoding address"

  /** A stored coordinate: an integer, the empty string or a numeric string. */
  predicate CoordinateOk(v: Value)
  {
    v.Int? || (v.Str? && (v.s == "" || IsNumeric(v.s)))
  }

  lemma NumericHasNoComma(s: string)
    ensures IsNumeric(s) ==> ',' !in s
  {
  }

  /** The rule `set()` applies to 'lat' and 'lng': a ',' becomes '.', and a
      value that is then not numeric becomes ''. */
  function NormalizeCoordinate(v: Value): (r: Value)
    ensures CoordinateOk(r)
    ensures v.Int? ==> r == v
    ensures v.Str? && IsNumeric(v.s) ==> r == v
    ensures v.Null? || v.Bool? ==> r == Str("")
    ensures v.Str? ==> r.Str? && (r.s == "" <==> !IsNumeric(ReplaceChar(v.s, ',', '.')))
    ensures v.Str? && r.s != "" ==>
      |r.s| == |v.s| && forall i :: 0 <= i < |v.s| ==> r.s[i] == (if v.s[i] == ',' then '.' else v.s[i])
  {
    match v
    case Int(_) => v
    case Str(s) =>
      NumericHasNoComma(s);
      ReplaceCharAbsent(s, ',', '.');
      var t := ReplaceChar(s, ',', '.');
      if IsNumeric(t) then Str(t) else Str("")
    case _ => Str("")
  }

  /** Normalising a stored coordinate again changes nothing. */
  lemma NormalizeCoordinateIdempotent(v: Value)
    ensures NormalizeCoordinate(NormalizeCoordinate(v)) == NormalizeCoordinate(v)
  {
    var r := NormalizeCoordinate(v);
    if r == Str("") {
      assert !IsDecimalBody(Unsigned(""));
      assert ReplaceChar("", ',', '.') == "";
    }
  }

  /** A comma decimal separator is read as a point. */
  lemma CommaDecimal()
    ensures NormalizeCoordinate(Str("45,1234")) == Str("45.1234")
  {
    var t := ReplaceChar("45,1234", ',', '.');
    assert t == "45.1234";
    assert Unsigned(t) == t;
    assert IsDigit(t[0]);
    assert forall i, j :: 0 <= i < j < |t| && t[i] == '.' ==> i == 2 && t[j] != '.';
  }

  /** The rule `set()` applies to the value written under `key`.  `sanitize`
      stands for the CMS's text sanitizer. */
  function Normalize(sanitize: string -> string, key: string, v: Value): (r: Value)
    ensures key == "lat" || key == "lng" ==> r == NormalizeCoordinate(v) && CoordinateOk(r)
    ensures key == "address" ==> r == Str(sanitize(ToText(v)))
    ensures key == "status" ==> r == Int(Coerce(IntCast(v)))
    ensures key == "status" ==> r.Int? && IsKnown(r.n) && (IsKnown(IntCast(v)) <==> r.n == IntCast(v))
    ensures key == "status" && !IsKnown(IntCast(v)) ==> r == Int(-1)
    ensures key == "zoom" ==> r == Int(IntCast(v))
    ensures key !in {"lat", "lng", "address", "status", "zoom"} ==> r == v
  {
    if key == "lat" || key == "lng" then NormalizeCoordinate(v)
    else if key == "address" then Str(sanitize(ToText(v)))
    else if key == "status" then Int(Coerce(IntCast(v)))
    else if key == "zoom" then Int(IntCast(v))
    else v
  }

  /** The shape every reachable marker's fields have. */
  predicate ValidData(d: map<string, Value>)
  {
    && "lat" in d && CoordinateOk(d["lat"])
    && "lng" in d && CoordinateOk(d["lng"])
    && "address" in d && d["address"].Str?
    && "status" in d && d["status"].Int? && IsKnown(d["status"].n)
    && "zoom" in d && d["zoom"].Int?
  }

  /** `parent::get($key)`: a field that was never set reads as null. */
  function Lookup(d: map<string, Value>, key: string): (r: Value)
    ensures key in d ==> r == d[key]
    ensures key !in d ==> r == Null
  {
    if key in d then d[key] else Null
  }

  function AddressOf(d: map<string, Value>): string
    requires ValidData(d)
  {
    d["address"].s
  }

  function StatusOf(d: map<string, Value>): PhpInt
    requires ValidData(d)
  {
    d["status"].n
  }

  /** `set($key, $value)`: the named field takes the normalised value; nothing
      else changes. */
  function SetSpec(r: Record, sanitize: string -> string, key: string, v: Value): (res: Record)
    ensures ValidData(r.data) ==> ValidData(res.data)
    ensures key in res.data && res.data[key] == Normalize(sanitize, key, v)
    ensures res.geocodedAddress == r.geocodedAddress && res.lookups == r.lookups && res.notices == r.notices
  {
    r.(data := r.data[key := Normalize(sanitize, key, v)])
  }

  /** `set()` leaves every other field as it was. */
  lemma SetKeepsOtherFields(r: Record, sanitize: string -> string, key: string, v: Value, other: string)
    requires other != key
    ensures Lookup(SetSpec(r, sanitize, key, v).data, other) == Lookup(r.data, other)
  {
  }

  /** The state after the constructor's seven `set()` calls. */
  function InitialRecord(sanitize: string -> string): (r: Record)
    ensures ValidData(r.data)
    ensures r.data == map["lat" := Str(""), "lng" := Str(""), "address" := Str(sanitize("")),
                          "status" := Int(-1), "zoom" := Int(0), "provider" := Str(""),
                          "skipGeocode" := Bool(false)]
    ensures r.geocodedAddress == "" && r.lookups == 0 && r.notices == []
  {
    assert NormalizeCoordinate(Str("")) == Str("") by {
      assert !IsNumeric("") && ReplaceChar("", ',', '.') == "";
    }
    assert Normalize(sanitize, "status", Int(0)) == Int(-1) by {
      assert !IsKnown(0);
    }
    var r0 := Record(map[], "", 0, []);
    var r1 := SetSpec(r0, sanitize, "lat", Str(""));
    var r2 := SetSpec(r1, sanitize, "lng", Str(""));
    var r3 := SetSpec(r2, sanitize, "address", Str(""));
    var r4 := SetSpec(r3, sanitize, "status", Int(0));
    var r5 := SetSpec(r4, sanitize, "zoom", Int(0));
    var r6 := SetSpec(r5, sanitize, "provider", Str(""));
    SetSpec(r6, sanitize, "skipGeocode", Bool(false))
  }

  /** The status `geocode()` stores after a successful lookup: the code whose
      label is "<status>_<class>", or 1 when there is none. */
  function SuccessStatus(resp: Response, p: Place): (r: PhpInt)
    ensures IsKnown(r)
  {
    match Search(ToText(resp.status) + "_" + ToText(p.placeClass))
    case Some(code) => code
    case None => 1
  }

  /** The status search on a successful lookup never finds a label, so the
      stored status is always 1 (OK). */
  lemma SuccessStatusIsOk(resp: Response, p: Place)
    ensures SuccessStatus(resp, p) == 1
  {
    var s := ToText(resp.status) + "_" + ToText(p.placeClass);
    assert s[|ToText(resp.status)|] == '_';
    SearchUnderscore(s);
  }

  /** `geocode()`, given whether `allow_url_fopen` is on and the decoded answer
      the lookup would get.  Yields the new state and the returned status. */
  function GeocodeSpec(r: Record, sanitize: string -> string, encode: Place -> string,
                       fopenAllowed: bool, resp: Response): (res: (Record, int))
    requires ValidData(r.data)
    ensures ValidData(res.0.data)
  {
    if Truthy(Lookup(r.data, "skipGeocode")) then (r, NoGeocode as int)
    else if LooseEquals(r.geocodedAddress, AddressOf(r.data)) then (r, StatusOf(r.data) as int)
    else
      var attempted := r.(geocodedAddress := AddressOf(r.data));
      if !fopenAllowed then (attempted.(notices := attempted.notices + [Error(FopenError)]), 0)
      else
        var fetched := attempted.(lookups := attempted.lookups + 1);
        if resp.first.None? || !Truthy(resp.first.value.placeId) then LookupFailed(fetched, sanitize)
        else LookupSucceeded(fetched, sanitize, encode, resp)
  }

  /** The end of `geocode()` when the answer has no first match with a place_id. */
  function LookupFailed(r: Record, sanitize: string -> string): (res: (Record, int))
    requires ValidData(r.data)
    ensures ValidData(res.0.data)
  {
    var failed := r.(notices := r.notices + [Error(LookupError)]);
    var r1 := SetSpec(failed, sanitize, "status", Int(-1));
    var r2 := SetSpec(r1, sanitize, "lat", Int(0));
    var r3 := SetSpec(r2, sanitize, "lng", Int(0));
    (r3, StatusOf(r3.data) as int)
  }

  /** The end of `geocode()` when the answer has a first match with a place_id. */
  function LookupSucceeded(r: Record, sanitize: string -> string, encode: Place -> string, resp: Response): (res: (Record, int))
    requires ValidData(r.data) && resp.first.Some?
    ensures ValidData(res.0.data)
  {
    var p := resp.first.value;
    var r1 := SetSpec(r, sanitize, "lat", p.lat);
    var r2 := SetSpec(r1, sanitize, "lng", p.lon);
    var r3 := SetSpec(r2, sanitize, "raw", Str(encode(p)));
    var r4 := SetSpec(r3, sanitize, "status", Int(SuccessStatus(resp, p)));
    var note := Message("Geocode " + StatusString(StatusOf(r4.data)) + ": '" + AddressOf(r4.data) + "'");
    var r5 := r4.(notices := r4.notices + [note]);
    (r5, StatusOf(r5.data) as int)
  }

  /** True when `geocode()` on `r` sends a request to the geocoding service. */
  predicate LooksUp(r: Record, fopenAllowed: bool): (b: bool)
    requires ValidData(r.data)
    ensures b ==> fopenAllowed && !Truthy(Lookup(r.data, "skipGeocode")) && r.geocodedAddress != AddressOf(r.data)
  {
    !Truthy(Lookup(r.data, "skipGeocode")) && !LooseEquals(r.geocodedAddress, AddressOf(r.data)) && fopenAllowed
  }

  /** With skipGeocode set, `geocode()` returns -100 and changes nothing. */
  lemma GeocodeSkipped(r: Record, sanitize: string -> string, encode: Place -> string, fopenAllowed: bool, resp: Response)
    requires ValidData(r.data) && Truthy(Lookup(r.data, "skipGeocode"))
    ensures GeocodeSpec(r, sanitize, encode, fopenAllowed, resp) == (r, -100)
  {
  }

  /** When the address is the one last attempted, `geocode()` returns the
      stored status and changes nothing. */
  lemma GeocodeCached(r: Record, sanitize: string -> string, encode: Place -> string, fopenAllowed: bool, resp: Response)
    requires ValidData(r.data) && !Truthy(Lookup(r.data, "skipGeocode"))
    requires LooseEquals(r.geocodedAddress, AddressOf(r.data))
    ensures GeocodeSpec(r, sanitize, encode, fopenAllowed, resp) == (r, StatusOf(r.data) as int)
  {
  }

  /** A lookup is sent exactly when geocoding is on, the address differs from
      the last attempted one and `allow_url_fopen` is on; at most one is sent. */
  lemma GeocodeLookupCount(r: Record, sanitize: string -> string, encode: Place -> string, fopenAllowed: bool, resp: Response)
    requires ValidData(r.data)
    ensures var res := GeocodeSpec(r, sanitize, encode, fopenAllowed, resp).0;
      && (LooksUp(r, fopenAllowed) ==> res.lookups == r.lookups + 1)
      && (!LooksUp(r, fopenAllowed) ==> res.lookups == r.lookups)
  {
  }

  /** No `geocode()` call changes the address, zoom, provider or skipGeocode. */
  lemma GeocodeKeepsFields(r: Record, sanitize: string -> string, encode: Place -> string, fopenAllowed: bool, resp: Response)
    requires ValidData(r.data)
    ensures var res := GeocodeSpec(r, sanitize, encode, fopenAllowed, resp).0;
      forall k :: k in {"address", "zoom", "provider", "skipGeocode"} ==> Lookup(res.data, k) == Lookup(r.data, k)
  {
    var res := GeocodeSpec(r, sanitize, encode, fopenAllowed, resp).0;
    if LooksUp(r, fopenAllowed) {
      if resp.first.None? || !Truthy(resp.first.value.placeId) {
        GeocodeFailure(r, sanitize, encode, resp);
      } else {
        GeocodeSuccess(r, sanitize, encode, resp);
      }
    }
  }

  /** A call that is not skipped leaves the current address marked as attempted:
      it was already, or it becomes the attempted address. */
  lemma GeocodeMarksAttempt(r: Record, sanitize: string -> string, encode: Place -> string, fopenAllowed: bool, resp: Response)
    requires ValidData(r.data) && !Truthy(Lookup(r.data, "skipGeocode"))
    ensures var res := GeocodeSpec(r, sanitize, encode, fopenAllowed, resp).0;
      && LooseEquals(res.geocodedAddress, AddressOf(res.data))
      && (!LooseEquals(r.geocodedAddress, AddressOf(r.data)) ==> res.geocodedAddress == AddressOf(r.data))
  {
    GeocodeKeepsFields(r, sanitize, encode, fopenAllowed, resp);
    var res := GeocodeSpec(r, sanitize, encode, fopenAllowed, resp).0;
    assert Lookup(res.data, "address") == Lookup(r.data, "address");
  }

  /** With `allow_url_fopen` off, a call that reaches the lookup returns 0,
      raises an error and changes no field: only the address is marked as
      attempted. */
  lemma GeocodeFopenDisabled(r: Record, sanitize: string -> string, encode: Place -> string, resp: Response)
    requires ValidData(r.data) && !Truthy(Lookup(r.data, "skipGeocode"))
    requires !LooseEquals(r.geocodedAddress, AddressOf(r.data))
    ensures GeocodeSpec(r, sanitize, encode, false, resp) ==
      (r.(geocodedAddress := AddressOf(r.data), notices := r.notices + [Error(FopenError)]), 0)
  {
  }

  /** A new marker whose address sanitises to '' counts that address as
      attempted already: `geocode()` returns -1 and sends no lookup. */
  lemma NewMarkerGeocode(sanitize: string -> string, encode: Place -> string, fopenAllowed: bool, resp: Response)
    requires sanitize("") == ""
    ensures GeocodeSpec(InitialRecord(sanitize), sanitize, encode, fopenAllowed, resp) == (InitialRecord(sanitize), -1)
  {
    var r := InitialRecord(sanitize);
    assert Lookup(r.data, "skipGeocode") == Bool(false);
  }

  /** A failed lookup: status -1 and both coordinates 0; raw, address, zoom
      and provider keep their values; -1 is returned. */
  lemma GeocodeFailure(r: Record, sanitize: string -> string, encode: Place -> string, resp: Response)
    requires ValidData(r.data) && LooksUp(r, true)
    requires resp.first.None? || !Truthy(resp.first.value.placeId)
    ensures var res := GeocodeSpec(r, sanitize, encode, true, resp);
      && res.1 == -1
      && res.0.data == r.data["status" := Int(-1)]["lat" := Int(0)]["lng" := Int(0)]
      && res.0.notices == r.notices + [Error(LookupError)]
  {
    var fetched := r.(geocodedAddress := AddressOf(r.data), lookups := r.lookups + 1);
    assert GeocodeSpec(r, sanitize, encode, true, resp) == LookupFailed(fetched, sanitize);
    assert Normalize(sanitize, "status", Int(-1)) == Int(-1);
    assert Normalize(sanitize, "lat", Int(0)) == Int(0);
  }

  /** A successful lookup: the coordinates of the first match, its encoding as
      raw, status 1 (OK), which is returned; address, zoom and provider keep
      their values. */
  lemma GeocodeSuccess(r: Record, sanitize: string -> string, encode: Place -> string, resp: Response)
    requires ValidData(r.data) && LooksUp(r, true)
    requires resp.first.Some? && Truthy(resp.first.value.placeId)
    ensures var p := resp.first.value;
            var res := GeocodeSpec(r, sanitize, encode, true, resp);
      && res.1 == 1
      && res.0.data == r.data["lat" := NormalizeCoordinate(p.lat)]["lng" := NormalizeCoordinate(p.lon)]
                             ["raw" := Str(encode(p))]["status" := Int(1)]
      && res.0.notices == r.notices + [Message("Geocode OK: '" + AddressOf(r.data) + "'")]
  {
    var p := resp.first.value;
    SuccessStatusIsOk(resp, p);
    var fetched := r.(geocodedAddress := AddressOf(r.data), lookups := r.lookups + 1);
    assert GeocodeSpec(r, sanitize, encode, true, resp) == LookupSucceeded(fetched, sanitize, encode, resp);
    var r1 := SetSpec(fetched, sanitize, "lat", p.lat);
    var r2 := SetSpec(r1, sanitize, "lng", p.lon);
    var r3 := SetSpec(r2, sanitize, "raw", Str(encode(p)));
    var r4 := SetSpec(r3, sanitize, "status", Int(1));
    assert r4.data == r.data["lat" := NormalizeCoordinate(p.lat)]["lng" := NormalizeCoordinate(p.lon)]
                             ["raw" := Str(encode(p))]["status" := Int(1)];
    assert AddressOf(r4.data) == AddressOf(r.data);
    assert StatusString(1) == "OK";
    assert "Geocode " + "OK" + ": '" + AddressOf(r.data) + "'" == "Geocode OK: '" + AddressOf(r.data) + "'";
  }

  /** Two `geocode()` calls in a row: the second sends no lookup, changes
      nothing and returns the stored status, which is what the first returned
      unless the first was refused for want of `allow_url_fopen`. */
  lemma GeocodeTwice(r: Record, sanitize: string -> string, encode: Place -> string,
                     fopen1: bool, resp1: Response, fopen2: bool, resp2: Response)
    requires ValidData(r.data)
    ensures var (r1, s1) := GeocodeSpec(r, sanitize, encode, fopen1, resp1);
            var (r2, s2) := GeocodeSpec(r1, sanitize, encode, fopen2, resp2);
      && r2 == r1
      && r2.lookups <= r.lookups + 1
      && (s1 == s2 || (s1 == 0 && !fopen1))
  {
    var (r1, s1) := GeocodeSpec(r, sanitize, encode, fopen1, resp1);
    GeocodeKeepsFields(r, sanitize, encode, fopen1, resp1);
    assert Lookup(r1.data, "skipGeocode") == Lookup(r.data, "skipGeocode");
    if !Truthy(Lookup(r.data, "skipGeocode")) {
      GeocodeMarksAttempt(r, sanitize, encode, fopen1, resp1);
    }
    GeocodeLookupCount(r, sanitize, encode, fopen1, resp1);
    if LooksUp(r, fopen1) {
      var p := resp1.first;
      if p.Some? && Truthy(p.value.placeId) {
        GeocodeSuccess(r, sanitize, encode, resp1);
      }
    }
  }

  /** Any run of `geocode()` calls: the state after it. */
  function GeocodeRun(r: Record, sanitize: string -> string, encode: Place -> string,
                      calls: seq<(bool, Response)>): (res: Record)
    requires ValidData(r.data)
    ensures ValidData(res.data)
    decreases calls
  {
    if calls == [] then r
    else GeocodeRun(GeocodeSpec(r, sanitize, encode, calls[0].0, calls[0].1).0, sanitize, encode, calls[1..])
  }

  /** However many times `geocode()` runs with no edit in between, the
      geocoding service is asked at most once. */
  lemma {:induction false} GeocodeRunLooksUpOnce(r: Record, sanitize: string -> string, encode: Place -> string,
                                                 calls: seq<(bool, Response)>)
    requires ValidData(r.data)
    ensures GeocodeRun(r, sanitize, encode, calls).lookups <= r.lookups + 1
    ensures |calls| > 0 ==> GeocodeRun(r, sanitize, encode, calls) == GeocodeSpec(r, sanitize, encode, calls[0].0, calls[0].1).0
  {
    if calls != [] {
      var r1 := GeocodeSpec(r, sanitize, encode, calls[0].0, calls[0].1).0;
      GeocodeLookupCount(r, sanitize, encode, calls[0].0, calls[0].1);
      RunAfterGeocode(r1, sanitize, encode, calls[1..], r, calls[0]);
    }
  }

  /** After one `geocode()` call every further call leaves the state alone. */
  lemma {:induction false} RunAfterGeocode(r1: Record, sanitize: string -> string, encode: Place -> string,
                                           calls: seq<(bool, Response)>, r: Record, first: (bool, Response))
    requires ValidData(r.data) && r1 == GeocodeSpec(r, sanitize, encode, first.0, first.1).0
    ensures ValidData(r1.data) && GeocodeRun(r1, sanitize, encode, calls) == r1
  {
    if calls != [] {
      GeocodeTwice(r, sanitize, encode, first.0, first.1, calls[0].0, calls[0].1);
      RunAfterGeocode(r1, sanitize, encode, calls[1..], r, first);
    }
  }

  /** Editing the address does not touch the last attempted address: the next
      `geocode()` looks up exactly when the address last written differs from
      the one attempted before the edits. */
  lemma AddressEditsThenGeocode(r: Record, sanitize: string -> string, a: Value, b: Value, fopenAllowed: bool)
    requires ValidData(r.data)
    ensures var edited := SetSpec(SetSpec(r, sanitize, "address", a), sanitize, "address", b);
      && edited.geocodedAddress == r.geocodedAddress
      && (LooksUp(edited, fopenAllowed) <==>
            !Truthy(Lookup(r.data, "skipGeocode")) && fopenAllowed
            && !LooseEquals(r.geocodedAddress, sanitize(ToText(b))))
  {
  }
}
