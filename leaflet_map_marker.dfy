/** LeafletMapMarker: a WireData record holding a location (lat, lng, address,
    zoom, provider, status, raw) that normalises every field it is given and
    geocodes its address on request, at most once per address. */
module LeafletMap {
  import opened Wrappers
  import opened Php
  import opened GeocodeStatus
  import opened MarkerState
  import opened MarkerText

  class LeafletMapMarker {
    /** The WireData fields, by name. */
    var data: map<string, Value>
    /** The address of the last geocode attempt. */
    var geocodedAddress: string
    /** Requests sent to the geocoding service so far. */
    ghost var lookups: nat
    /** Notifications raised through `error()` and `message()`. */
    ghost var notices: seq<Notice>

    /** The CMS's text sanitizer, `wire('sanitizer')->text`. */
    const sanitize: string -> string
    /** `json_encode`, applied to the first match of a lookup. */
    const encode: Place -> string

    ghost predicate Valid()
      reads this
    {
      ValidData(data)
    }

    ghost function Snapshot(): Record
      reads this
    {
      Record(data, geocodedAddress, lookups, notices)
    }

    /** An empty marker: both coordinates '', the sanitised empty address,
        status -1 (the 0 it is given is not in the table), zoom 0, provider ''
        and skipGeocode false. */
    constructor (sanitize: string -> string, encode: Place -> string)
      ensures Valid()
      ensures this.sanitize == sanitize && this.encode == encode
      ensures Snapshot() == InitialRecord(sanitize)
    {
      this.sanitize := sanitize;
      this.encode := encode;
      data := map[];
      geocodedAddress := "";
      lookups := 0;
      notices := [];
      new;
      ghost var r := Snapshot();
      Set("lat", Str(""));
      r := SetSpec(r, sanitize, "lat", Str(""));
      Set("lng", Str(""));
      r := SetSpec(r, sanitize, "lng", Str(""));
      Set("address", Str(""));
      r := SetSpec(r, sanitize, "address", Str(""));
      Set("status", Int(0));
      r := SetSpec(r, sanitize, "status", Int(0));
      Set("zoom", Int(0));
      r := SetSpec(r, sanitize, "zoom", Int(0));
      Set("provider", Str(""));
      r := SetSpec(r, sanitize, "provider", Str(""));
      Set("skipGeocode", Bool(false));
      r := SetSpec(r, sanitize, "skipGeocode", Bool(false));
      assert Snapshot() == r == InitialRecord(sanitize);
    }

    /** `set($key, $value)`: stores the value under its per-field rule and
        changes no other field. */
    method Set(key: string, value: Value)
      modifies this
      ensures Snapshot() == SetSpec(old(Snapshot()), sanitize, key, value)
      ensures old(Valid()) ==> Valid()
    {
      var v := value;
      if key == "lat" || key == "lng" {
        if v.Str? && ',' in v.s {
          v := Str(ReplaceChar(v.s, ',', '.'));
        } else {
          ReplaceCharAbsent(ToText(v), ',', '.');
        }
        if !(v.Int? || (v.Str? && IsNumeric(v.s))) {
          v := Str("");
        }
      } else if key == "address" {
        v := Str(sanitize(ToText(v)));
      } else if key == "status" {
        var code := IntCast(v);
        if !IsKnown(code) {
          code := -1;
        }
        v := Int(code);
      } else if key == "zoom" {
        v := Int(IntCast(v));
      }
      data := data[key := v];
    }

    /** `get($key)`: 'statusString' is the label of the current status, with
        '_' shown as ' '; any other key reads its field, null when unset. */
    function Get(key: string): (r: Value)
      reads this
      requires Valid()
      ensures key == "statusString" ==> r.Str? && Label(StatusOf(data)) == Some(r.s)
      ensures key != "statusString" ==> r == Lookup(data, key)
    {
      if key == "statusString" then Str(StatusString(StatusOf(data))) else Lookup(data, key)
    }

    /** `geocode()`, where `fopenAllowed` is PHP's `allow_url_fopen` and
        `response` is the decoded answer the geocoding service gives for the
        current address. */
    method Geocode(fopenAllowed: bool, response: Response) returns (r: int)
      requires Valid()
      modifies this
      ensures Valid()
      ensures (Snapshot(), r) == GeocodeSpec(old(Snapshot()), sanitize, encode, fopenAllowed, response)
    {
      if Truthy(Get("skipGeocode")) {
        return NoGeocode as int;
      }
      if LooseEquals(geocodedAddress, Get("address").s) {
        return Get("status").n as int;
      }
      geocodedAddress := Get("address").s;

      if !fopenAllowed {
        notices := notices + [Error(FopenError)];
        return 0;
      }

      lookups := lookups + 1;
      var json := response;
      if json.first.None? || !Truthy(json.first.value.placeId) {
        notices := notices + [Error(LookupError)];
        Set("status", Int(-1));
        Set("lat", Int(0));
        Set("lng", Int(0));
        return Get("status").n as int;
      }

      var place := json.first.value;
      var locationType := place.placeClass;
      Set("lat", place.lat);
      Set("lng", place.lon);
      Set("raw", Str(encode(place)));

      var statusString := ToText(json.status) + "_" + ToText(locationType);
      var found := Search(statusString);
      var status: PhpInt := if found.Some? then found.value else 1;
      Set("status", Int(status));
      notices := notices + [Message("Geocode " + Get("statusString").s + ": '" + Get("address").s + "'")];
      return Get("status").n as int;
    }

    /** `__toString()`: "<address> (<lat>, <lng>, <zoom>) [<statusString>]",
        from which the address, both coordinates, the zoom and the status can
        be read back. */
    function ToString(): (s: string)
      reads this
      requires Valid()
      ensures ParseRendering(s) ==
        Some(Shown(Get("address").s, ToText(Get("lat")), ToText(Get("lng")), Get("zoom").n, Get("status").n))
    {
      Render(data)
    }
  }
}
