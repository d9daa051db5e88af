# LeafletMapMarker in Dafny

The ProcessWire module FieldtypeLeafletMapMarker stores a map location in a
record object, `LeafletMapMarker` (a `WireData` subclass). The record holds
latitude, longitude, address, zoom, provider, geocode status and the raw
geocoder answer. This project models that class and proves what it promises:

- Every write goes through `set()`, which normalises it per field.
- A comma decimal separator in a coordinate is read as a point.
- A coordinate that is still not numeric is stored as `''`.
- The address passes through the CMS text sanitizer.
- Status and zoom are cast to integers, and the status is forced into the
  closed status table.
- `get('statusString')` is the table label of the current status.
- `geocode()` is a small state machine:
  - It returns -100 without touching anything when `skipGeocode` is set.
  - It returns the stored status when the address is the one it last
    attempted.
  - Otherwise it marks the address as attempted before anything else.
  - With `allow_url_fopen` off it then returns 0.
  - Otherwise it asks the geocoding service once. A failure gives status -1
    and coordinates 0. A success takes the coordinates and raw text of the
    first match and gives status 1.
- `__toString()` renders `"<address> (<lat>, <lng>, <zoom>) [<statusString>]"`.

Layout, one module per file:

- `php.dfy` (`Php`): the PHP run-time the class depends on.
  - Dynamic values.
  - Truthiness.
  - The `(int)` cast, including 64-bit saturation.
  - Integer-to-string conversion.
  - `is_numeric`.
  - `str_replace` of one character.
  - PHP 8's loose `==` between strings, where two numeric strings compare as
    numbers (here as exact decimal values).
- `geocode_status.dfy` (`GeocodeStatus`): the status table and its lookups.
  - `isset`, which `Label` models.
  - `array_search`, which `Search` models.
  - The forced status.
  - `statusString`.
- `marker_state.dfy` (`MarkerState`): the record as a value.
  - `SetSpec` and `GeocodeSpec` give the effect of `set()` and `geocode()`.
  - All the lemmas about the state machine.
- `marker_text.dfy` (`MarkerText`): the `__toString()` format, a reader for it,
  and the proof that the reader gives back every field the text shows.
- `leaflet_map_marker.dfy` (`LeafletMap`): the class `LeafletMapMarker`.
  - Its WireData fields live in a `data` map, and `geocodedAddress` is a field
    of its own.
  - A ghost counter records the lookups sent to the geocoding service, and a
    ghost log records the `error()`/`message()` notifications.
  - `Set` and `Geocode` change the object in place, step by step as the PHP
    does. They are proved to produce exactly the state that `SetSpec` and
    `GeocodeSpec` give.

External calls are inputs to the model, not modelled:

- The network fetch and `json_decode` become two parameters of `Geocode`.
  `fopenAllowed` stands for `ini_get('allow_url_fopen')`. `response` is the
  decoded answer: its first match, or none when the fetch or decode failed,
  and its `status` entry.
- The sanitizer `wire('sanitizer')->text` and `json_encode` of the first
  match are constructor parameters (`sanitize`, `encode`). They are functions
  the model knows nothing about.

Behaviour of the code worth knowing:

- The status table has three codes only: -1 'N/A', 1 'OK' and -100
  'Geocode OFF'. The constructor's `set('status', 0)` therefore stores -1.
- There is no zoom default of 9. The record only casts zoom to an integer.
- The failure path leaves `raw` as it was. It sets the coordinates to 0, and
  it returns -1 whether the fetch failed or the answer had no match.
- The status a successful lookup stores is looked up as
  `"<status>_<class>"` in the table. That text always contains `_` and no
  label does, so the search never succeeds and the stored status is always 1
  (`SuccessStatusIsOk`).
- With `allow_url_fopen` off, `geocode()` returns 0, which is not a status,
  and still marks the address as attempted. A second call therefore returns
  the stored status, so two calls in a row return the same value except in
  this case (`GeocodeTwice`).
- The freshness test is PHP's loose `==`. An address changed from "10" to
  "10.0" is therefore not geocoded again (`LooseEqualsNumeric`).
- There is no `isStale()` method. The test sits inside `geocode()`.
- The attempted address starts as ''. So a new marker whose address is empty
  is never looked up: `geocode()` returns its status, -1
  (`NewMarkerGeocode`).

## Model

| member | source | states |
|---|---|---|
| `GeocodeStatus.Label` | LeafletMapMarker.php:11-19 | a code has a label exactly when it is -1, 1 or -100, and that label is the one the table pairs with it |
| `GeocodeStatus.LabelFrom` | LeafletMapMarker.php:46 | `isset` on the table: a label found for a code is paired with it in the table, and none is found when no entry has that code |
| `GeocodeStatus.Coerce` | LeafletMapMarker.php:44-46 | the stored status is always a table code; a table code is kept, and any other integer (0, 999, ...) becomes -1 |
| `GeocodeStatus.SearchFrom` | LeafletMapMarker.php:98 | `array_search` finds a code only when the table pairs it with the searched text, and finds none when no entry has that text |
| `GeocodeStatus.Search` | LeafletMapMarker.php:98 | a code found for a text has that text as its label; when none is found, no code has it |
| `GeocodeStatus.SearchInvertsLabel` | LeafletMapMarker.php:11-19 | searching a label yields its code and only then: the table lookup and the label search are inverse |
| `GeocodeStatus.SearchUnderscore` | LeafletMapMarker.php:97-99 | a text containing '_' matches no label |
| `GeocodeStatus.StatusString` | LeafletMapMarker.php:56-57 | `statusString` is defined for every stored status and equals its table label (no label holds '_'); it holds no '[' |
| `GeocodeStatus.StatusStringDistinct` | LeafletMapMarker.php:57 | different statuses have different `statusString`s |
| `Php.IntText` | LeafletMapMarker.php:112 | the decimal text of an integer: non-empty, led by '-' exactly for negatives, digits otherwise |
| `Php.ParseIntText` | LeafletMapMarker.php:112 | the decimal text of any integer reads back as that integer |
| `Php.Truthy` | LeafletMapMarker.php:82 | a value is false (for `empty()` here and the `if` at line 62) exactly when it is null, false, 0, '' or '0' |
| `Php.ToText` | LeafletMapMarker.php:112 | string conversion (also the concatenation at line 97): a string is itself, an integer its decimal text, null and false '' |
| `Php.IntCast` | LeafletMapMarker.php:45-48 | `(int)` keeps an integer, maps null and false to 0 and true to 1, maps a string that does not start with a digit, sign or '.' to 0, and yields a 64-bit integer |
| `Php.LeadingIntPrefix` | LeafletMapMarker.php:45-48 | the leading-integer reading of a string that starts with the decimal text of any integer, followed by anything but a digit, is that integer |
| `Php.IntCastLeading` | LeafletMapMarker.php:45-48 | `(int)` of a string that starts with the decimal text of an integer followed by nothing or by a character that is not a digit, '.', 'e' or 'E' ("12abc", "-7 km", "99999999999999999999") is the integer, saturated to the 64-bit range |
| `Php.IntCastPlus` | LeafletMapMarker.php:45-48 | `(int)` skips a leading '+': "+5" and "+5 km" cast to 5 |
| `Php.DigitsText` | LeafletMapMarker.php:112 | the digits of a number: non-empty, all digits, no leading zero |
| `Php.DigitsRoundTrip` | LeafletMapMarker.php:112 | the digits of a natural number denote that number |
| `Php.ReplaceChar` | LeafletMapMarker.php:38 | `str_replace` of one character keeps the length and replaces exactly the matching positions |
| `Php.ReplaceCharRemoves` | LeafletMapMarker.php:38 | after replacing ',' by '.', no ',' is left |
| `Php.IsNumeric` | LeafletMapMarker.php:39 | a numeric string is non-empty and holds only digits, '.', and a sign in front (plain decimal notation) |
| `Php.LooseEquals` | LeafletMapMarker.php:65 | `==` between two strings: equal strings are equal; unless both are numeric, only equal strings are; two numeric strings compare by value |
| `Php.LooseEqualsNumeric` | LeafletMapMarker.php:65 | the freshness test's `==` holds between "10" and "10.0" |
| `MarkerState.NormalizeCoordinate` | LeafletMapMarker.php:36-39 | for a string, every ',' is read as '.', and the result is stored when it is numeric and becomes '' exactly when it is not; numeric strings and integers are stored unchanged; null and booleans become ''; so a stored coordinate is '', numeric or an integer |
| `MarkerState.NormalizeCoordinateIdempotent` | LeafletMapMarker.php:36-39 | normalising a stored coordinate again changes nothing |
| `MarkerState.CommaDecimal` | LeafletMapMarker.php:38 | "45,1234" is stored as "45.1234" |
| `MarkerState.Normalize` | LeafletMapMarker.php:34-53 | per field: coordinates by the coordinate rule above; address is the sanitised text; status is the integer cast forced into the table: kept when it is a table code, -1 otherwise; zoom is the integer cast; every other key (provider, raw, skipGeocode, ...) is stored verbatim |
| `MarkerState.Lookup` | LeafletMapMarker.php:58 | `parent::get`: a set field reads as its value, an unset one as null |
| `MarkerState.SetSpec` | LeafletMapMarker.php:34-54 | `set` stores the normalised value under the key, keeps the attempted address, and keeps every field invariant |
| `MarkerState.SetKeepsOtherFields` | LeafletMapMarker.php:34-54 | `set` leaves every field other than the named one as it was |
| `MarkerState.InitialRecord` | LeafletMapMarker.php:23-32 | a new marker holds lat '', lng '', the sanitised '' as address, status -1, zoom 0, provider '' and skipGeocode false, with nothing attempted |
| `MarkerState.SuccessStatus` | LeafletMapMarker.php:97-99 | the status a successful lookup computes is always a table code |
| `MarkerState.SuccessStatusIsOk` | LeafletMapMarker.php:97-101 | the status stored after a successful lookup is always 1 |
| `MarkerState.GeocodeSpec` | LeafletMapMarker.php:61-105 | every `geocode()` outcome keeps the field invariants (coordinates clean, status in the table) |
| `MarkerState.LookupFailed` | LeafletMapMarker.php:82-88 | the failure branch keeps the field invariants |
| `MarkerState.LookupSucceeded` | LeafletMapMarker.php:90-104 | the success branch keeps the field invariants |
| `MarkerState.LooksUp` | LeafletMapMarker.php:62-79 | a lookup is sent only when skipGeocode is false, `allow_url_fopen` is on and the address differs from the attempted one |
| `MarkerState.GeocodeSkipped` | LeafletMapMarker.php:62 | with skipGeocode truthy, `geocode()` returns -100 and changes nothing, not even the attempted address or the lookup count |
| `MarkerState.GeocodeCached` | LeafletMapMarker.php:65 | when the attempted address equals the address, `geocode()` returns the stored status and changes nothing |
| `MarkerState.GeocodeLookupCount` | LeafletMapMarker.php:62-79 | a lookup is sent exactly when geocoding is on, the address differs from the attempted one and `allow_url_fopen` is on; never more than one |
| `MarkerState.GeocodeKeepsFields` | LeafletMapMarker.php:61-105 | `geocode()` never changes address, zoom, provider or skipGeocode |
| `MarkerState.GeocodeMarksAttempt` | LeafletMapMarker.php:65-71 | after a call that is not skipped, the address counts as attempted; when it was not already, it becomes the attempted address, also when `allow_url_fopen` is off |
| `MarkerState.GeocodeFopenDisabled` | LeafletMapMarker.php:66-71 | with `allow_url_fopen` off, a call past the cache check marks the address attempted, raises the error, changes no field and returns 0 |
| `MarkerState.NewMarkerGeocode` | LeafletMapMarker.php:21-32 | on a new marker whose address sanitises to '', `geocode()` sends no lookup and returns -1, because '' already counts as attempted |
| `MarkerState.GeocodeFailure` | LeafletMapMarker.php:82-88 | with no first match or no place_id: status -1, lat 0, lng 0, every other field (raw included) unchanged, an error raised, -1 returned |
| `MarkerState.GeocodeSuccess` | LeafletMapMarker.php:90-104 | with a place_id: lat and lng from the match's lat and lon (normalised), raw its encoding, status 1, everything else unchanged, the message "Geocode OK: '<address>'", 1 returned |
| `MarkerState.GeocodeTwice` | LeafletMapMarker.php:62-71 | a second call right after a first changes nothing, so at most one lookup is sent for both; both return the same value unless the first was refused for `allow_url_fopen` |
| `MarkerState.GeocodeRun` | LeafletMapMarker.php:61-105 | any run of `geocode()` calls keeps the field invariants |
| `MarkerState.GeocodeRunLooksUpOnce` | LeafletMapMarker.php:65-66 | any number of calls with no edit in between send at most one lookup, and leave the state the first call left |
| `MarkerState.RunAfterGeocode` | LeafletMapMarker.php:65 | once `geocode()` has run, further calls leave the state alone |
| `MarkerState.AddressEditsThenGeocode` | LeafletMapMarker.php:41-42 | editing the address (even twice, even back to an old value) does not touch the attempted address: the next `geocode()` looks up exactly when the last written address differs from the one attempted before the edits |
| `MarkerText.ParseFormat` | LeafletMapMarker.php:111-113 | the rendered text can be read back from the right whenever latitude has no '(', longitude and zoom no ',' and the label no '[' |
| `MarkerText.CoordinateTextClean` | LeafletMapMarker.php:36-39 | a stored coordinate's text holds no ',' and no '(' |
| `MarkerText.Render` | LeafletMapMarker.php:111-113 | the text of any valid marker gives back its address, both coordinates, its zoom and its status |
| `LeafletMap.LeafletMapMarker.constructor` | LeafletMapMarker.php:23-32 | a new marker satisfies the invariant and holds the initial record |
| `LeafletMap.LeafletMapMarker.Set` | LeafletMapMarker.php:34-54 | the object's new state is exactly `SetSpec` of the old one: only the named field changes, and the invariant is kept |
| `LeafletMap.LeafletMapMarker.Get` | LeafletMapMarker.php:56-59 | 'statusString' gives the label of the stored status; any other key gives the stored field, null when unset |
| `LeafletMap.LeafletMapMarker.Geocode` | LeafletMapMarker.php:61-105 | the object's new state and the returned status are exactly `GeocodeSpec` of the old state, and the invariant is kept |
| `LeafletMap.LeafletMapMarker.ToString` | LeafletMapMarker.php:111-113 | the text is `Render` of the fields and reads back as the marker's address, coordinates, zoom and status |

## Left out

- The HTTP request (its URL, `urlencode`, the User-Agent stream context), `file_get_contents`, `json_decode` and `ini_get('allow_url_fopen')`: they are I/O. `Geocode` takes their outcome as parameters.
- `json_encode` and `wire('sanitizer')->text` are calls into code outside this class. They are the constructor parameters `encode` and `sanitize`, and nothing is assumed about them beyond this: `set('address', $v)` hands the sanitizer `ToText(v)`, PHP's string conversion of the value. So `set('address', 5)` and `set('address', "5")` store the same text, and the sanitizer's own conversion of non-strings is not modelled.
- The `error()` and `message()` notifications are kept as a ghost log of their texts. Their display is left out.
- The WireData base class is not part of this model. Its storage is a plain key-to-value map. Change tracking, hooks and its other methods are left out.
- Php.IsNumeric: accepts only an optional sign, digits and at most one '.'. PHP's `is_numeric` also accepts surrounding whitespace and exponent forms, so for those inputs the model stores '' where PHP keeps the value.
- Php.IntCast: reads only an optional sign and leading digits. PHP's cast also skips leading whitespace and reads exponent forms.
- Php.IntCast: PHP reads a string whose leading number has a '.' or an exponent as a double and casts that double, so digits beyond double precision are rounded. `(int)"0.99999999999999999"` and `(int)".99999999999999999"` are 1 in PHP and 0 in the model, and `(int)"1234567890123456789.5"` is 1234567890123456768 in PHP and 1234567890123456789 in the model. Through `set()`, `set('status', "0.99999999999999999")` stores 1 in PHP and -1 in the model, and `set('zoom', "2.99999999999999999")` stores 3 in PHP and 2 in the model. IntCast's ensures about strings therefore cover only strings that start with no digit, sign or '.'.
- Php.IntCastLeading: stated only when the digits are followed by nothing or by a character other than a digit, '.', 'e' or 'E'. A '.' or an exponent sends PHP through a double (see the line above).
- Php.IntCastPlus: has the same restriction on what follows the digits as IntCastLeading.
- Php.LooseEquals: compares two strings numerically only when both are numeric in the simplified sense above.
- Php.LooseEquals: compares two numeric strings as exact decimal values. PHP 8 compares them as 64-bit integers when both are integer strings that fit. It compares them as text when both are integer strings that overflow 64 bits on the same side and round to the same double. It returns false when one is an integer string that fits and the other one that overflows. Otherwise it compares them as doubles. The model agrees with PHP on the fits-and-overflows rule, on integer strings that fit, and on the same-side overflow rule when the texts spell different values ("9223372036854775808" and "9223372036854775809" are unequal in both). It differs in two directions. Strings that differ only beyond double precision ("1" and "1.00000000000000001") are equal in PHP and unequal in the model, so after such an address edit the model sends a lookup where PHP returns the stored status. Overflowing integer strings with the same value but different text ("+99999999999999999999" and "99999999999999999999") are unequal in PHP, which compares their texts, and equal in the model, so the model returns the stored status where PHP sends a lookup.
- Php.Value has no floating-point case. Coordinates arrive as strings from the geocoder and from forms, and `geocode()` writes the integer 0, so no float reaches the record in the paths modelled.
- The `$json[0]` that `json_decode` yields is modelled as a record of the four keys the class reads: `place_id`, `lat`, `lon` and `class`. `raw` is the encoding of that record.
- InputfieldLeafletMapMarker.js and MarkupLeafletMap.js are not part of this model. They are browser glue around the Leaflet library: map and marker set-up, reverse geocoding through callbacks, clustering and popups.
- The Contacts page template shipped with the module is not part of this model. It is presentation only.
