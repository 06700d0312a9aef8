/**
 * `update` inside `initSpotTheStation`: the three form fields are trimmed,
 * an empty field takes its default, and the frame source is the widget
 * template with the encoded city, country and region, in that order.
 */
module SpotTheStation {
  import opened Wrappers
  import opened Text
  import opened UriComponent

  const DefaultCity := "New York"
  const DefaultRegion := "New_York"
  const DefaultCountry := "United_States"
  const WidgetPage := "https://spotthestation.nasa.gov/widget/index.cfm?"

  /** `raw.trim() || fallback`. */
  function FieldValue(raw: string, fallback: string): (v: string)
    ensures Trim(raw) != "" ==> v == Trim(raw)
    ensures Trim(raw) == "" ==> v == fallback
  {
    var t := Trim(raw);
    if t == "" then fallback else t
  }

  /** `name=` followed by the encoded value. */
  function Parameter(name: string, value: string): string {
    name + "=" + Encode(value)
  }

  /** The frame source `update` assigns, from the raw field values. */
  function FrameSource(city: string, region: string, country: string): (src: string)
    ensures |WidgetPage| < |src| && src[..|WidgetPage|] == WidgetPage
    ensures '&' in src[|WidgetPage|..]
  {
    WidgetPage + ParameterList(FieldValue(city, DefaultCity), FieldValue(region, DefaultRegion),
                               FieldValue(country, DefaultCountry))
  }

  /** `city=…&country=…&region=…`. */
  function ParameterList(city: string, region: string, country: string): string {
    Parameter("city", city) + "&" + Parameter("country", country) + "&" + Parameter("region", region)
  }

  // ----- reading a query string back -----

  /** `s.split(sep)`. */
  function Split(s: string, sep: char): (parts: seq<string>)
    ensures |parts| >= 1
  {
    if s == [] then [""]
    else
      var rest := Split(s[1..], sep);
      if s[0] == sep then [""] + rest else [[s[0]] + rest[0]] + rest[1..]
  }

  lemma {:induction false} SplitNoSeparator(a: string, sep: char)
    requires sep !in a
    ensures Split(a, sep) == [a]
  {
    if a != [] {
      SplitNoSeparator(a[1..], sep);
      assert a == [a[0]] + a[1..];
    }
  }

  lemma {:induction false} SplitAtSeparator(a: string, sep: char, b: string)
    requires sep !in a
    ensures Split(a + [sep] + b, sep) == [a] + Split(b, sep)
  {
    if a == [] {
      assert a + [sep] + b == [sep] + b;
      assert ([sep] + b)[1..] == b;
    } else {
      var t := a + [sep] + b;
      assert t[0] == a[0] && t[1..] == a[1..] + [sep] + b;
      SplitAtSeparator(a[1..], sep, b);
      assert a == [a[0]] + a[1..];
    }
  }

  /** A `name=value` parameter cut at its first `=`; without one, the value is "". */
  function NameValue(p: string): (nv: (string, string))
  {
    if p == [] then ("", "")
    else if p[0] == '=' then ("", p[1..])
    else var nv := NameValue(p[1..]); ([p[0]] + nv.0, nv.1)
  }

  lemma {:induction false} NameValueOf(name: string, value: string)
    requires '=' !in name
    ensures NameValue(name + "=" + value) == (name, value)
  {
    var p := name + "=" + value;
    if name == [] {
      assert p == "=" + value;
      assert p[1..] == value;
    } else {
      assert p[0] == name[0] && p[1..] == name[1..] + "=" + value;
      NameValueOf(name[1..], value);
      assert name == [name[0]] + name[1..];
    }
  }

  /** The parameters of a query string, names as written and values decoded. */
  function Parameters(query: string): Option<seq<(string, string)>> {
    DecodeAll(Split(query, '&'))
  }

  function DecodeAll(parts: seq<string>): Option<seq<(string, string)>> {
    if parts == [] then Some([])
    else
      var nv := NameValue(parts[0]);
      var value := Decode(nv.1);
      var rest := DecodeAll(parts[1..]);
      if value.Some? && rest.Some? then Some([(nv.0, value.value)] + rest.value) else None
  }

  /** A parameter reads back as its name and its value. */
  lemma ParameterReadsBack(name: string, value: string)
    requires '=' !in name && '&' !in name
    ensures '&' !in Parameter(name, value)
    ensures NameValue(Parameter(name, value)).0 == name
    ensures Decode(NameValue(Parameter(name, value)).1) == Some(value)
  {
    EncodeHidesSeparators(value);
    NameValueOf(name, Encode(value));
    DecodeEncode(value);
  }

  /** Three `&`-free pieces joined by `&` split back into those pieces. */
  lemma SplitThree(a: string, b: string, d: string)
    requires '&' !in a && '&' !in b && '&' !in d
    ensures Split(a + "&" + b + "&" + d, '&') == [a, b, d]
  {
    assert a + "&" + b + "&" + d == a + ['&'] + (b + ['&'] + d);
    SplitAtSeparator(a, '&', b + ['&'] + d);
    SplitAtSeparator(b, '&', d);
    SplitNoSeparator(d, '&');
  }

  lemma DecodeAllCons(p: string, rest: seq<string>, name: string, value: string)
    requires NameValue(p).0 == name && Decode(NameValue(p).1) == Some(value)
    requires DecodeAll(rest).Some?
    ensures DecodeAll([p] + rest) == Some([(name, value)] + DecodeAll(rest).value)
  {
    assert ([p] + rest)[0] == p && ([p] + rest)[1..] == rest;
  }

  /** The three parameters read back, in the order city, country, region. */
  lemma ParameterListReadsBack(city: string, region: string, country: string)
    ensures Parameters(ParameterList(city, region, country))
            == Some([("city", city), ("country", country), ("region", region)])
  {
    var a, b, d := Parameter("city", city), Parameter("country", country), Parameter("region", region);
    ParameterReadsBack("city", city);
    ParameterReadsBack("country", country);
    ParameterReadsBack("region", region);
    SplitThree(a, b, d);
    assert DecodeAll([]) == Some([]);
    DecodeAllCons(d, [], "region", region);
    assert [d] + [] == [d] && [("region", region)] + [] == [("region", region)];
    assert DecodeAll([d]) == Some([("region", region)]);
    DecodeAllCons(b, [d], "country", country);
    assert [b] + [d] == [b, d];
    assert [("country", country)] + [("region", region)] == [("country", country), ("region", region)];
    assert DecodeAll([b, d]) == Some([("country", country), ("region", region)]);
    DecodeAllCons(a, [b, d], "city", city);
    assert [a] + [b, d] == [a, b, d];
    assert [("city", city)] + [("country", country), ("region", region)]
           == [("city", city), ("country", country), ("region", region)];
    assert DecodeAll([a, b, d]) == Some([("city", city), ("country", country), ("region", region)]);
    assert Parameters(ParameterList(city, region, country)) == DecodeAll([a, b, d]);
  }

  /**
   * The frame source is the widget page followed by exactly three parameters,
   * `city`, `country` and `region` in that order, whose decoded values are the
   * trimmed fields or their defaults.
   */
  lemma FrameSourceParameters(city: string, region: string, country: string)
    ensures var src := FrameSource(city, region, country);
            && |WidgetPage| <= |src| && src[..|WidgetPage|] == WidgetPage
            && Parameters(src[|WidgetPage|..]) == Some([
                 ("city", FieldValue(city, DefaultCity)),
                 ("country", FieldValue(country, DefaultCountry)),
                 ("region", FieldValue(region, DefaultRegion))])
  {
    var list := ParameterList(FieldValue(city, DefaultCity), FieldValue(region, DefaultRegion),
                              FieldValue(country, DefaultCountry));
    assert (WidgetPage + list)[|WidgetPage|..] == list;
    ParameterListReadsBack(FieldValue(city, DefaultCity), FieldValue(region, DefaultRegion),
                           FieldValue(country, DefaultCountry));
  }

  /**
   * `update` depends only on the current field values, and feeding the values
   * it used back into the fields gives the same source: the field rule is
   * idempotent.
   */
  lemma FrameSourceIdempotent(city: string, region: string, country: string)
    ensures FrameSource(FieldValue(city, DefaultCity), FieldValue(region, DefaultRegion),
                        FieldValue(country, DefaultCountry))
            == FrameSource(city, region, country)
  {
    FieldValueIdempotent(city, DefaultCity);
    FieldValueIdempotent(region, DefaultRegion);
    FieldValueIdempotent(country, DefaultCountry);
  }

  lemma FieldValueIdempotent(raw: string, fallback: string)
    requires fallback != [] && Unpadded(fallback)
    ensures FieldValue(FieldValue(raw, fallback), fallback) == FieldValue(raw, fallback)
  {
    var v := FieldValue(raw, fallback);
    if v == fallback {
      TrimUnpadded(fallback);
    } else {
      TrimIdempotent(raw);
    }
  }

  /** With every field blank (empty or only white space) the widget shows New York, United States. */
  lemma FrameSourceDefaults(city: string, region: string, country: string)
    requires Trim(city) == "" && Trim(region) == "" && Trim(country) == ""
    ensures FrameSource(city, region, country)
            == WidgetPage + ("city=" + "New%20York" + "&" + "country=" + "United_States"
                             + "&" + "region=" + "New_York")
  {
    var c, r, n := FieldValue(city, DefaultCity), FieldValue(region, DefaultRegion),
                   FieldValue(country, DefaultCountry);
    assert c == "New York" && r == "New_York" && n == "United_States";
    DefaultParameterList(c, r, n);
  }

  lemma DefaultParameterList(c: string, r: string, n: string)
    requires c == "New York" && r == "New_York" && n == "United_States"
    ensures ParameterList(c, r, n)
            == "city=" + "New%20York" + "&" + "country=" + "United_States" + "&" + "region=" + "New_York"
  {
    EncodeDefaultCity(c);
    EncodeDefaultUnescaped(r);
    EncodeDefaultUnescaped(n);
  }

  lemma EncodeDefaultCity(s: string)
    requires s == "New York"
    ensures Encode(s) == "New%20York"
  {
    var first, rest := "New", " York";
    assert s == first + rest;
    EncodeAppend(first, rest);
    var space, last := " ", "York";
    assert rest == space + last;
    EncodeAppend(space, last);
    EncodeSpace();
    EncodeUnescaped(first);
    EncodeUnescaped(last);
  }

  /** The region and country defaults need no escaping. */
  lemma EncodeDefaultUnescaped(s: string)
    requires s == "New_York" || s == "United_States"
    ensures Encode(s) == s
  {
    EncodeUnescaped(s);
  }
}
