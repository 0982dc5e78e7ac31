/** The request-preparation half of `HttpWebHelper`: everything the three
    builders do before the network call. A request is a record of the fields
    the builders configure; a field left at `None` keeps the framework's
    default. Each builder either raises `ArgumentNullException` (a `Failure`)
    or returns the configured request. */
module HttpWebHelper {
  import opened Wrappers
  import opened Strings

  const DefaultUserAgent: string := "Mozilla/4.0 (compatible; MSIE 6.0; Windows NT 5.2; SV1; .NET CLR 1.1.4322; .NET CLR 2.0.50727)"
  const FormContentType: string := "application/x-www-form-urlencoded"

  datatype Cookie = Cookie(name: string, value: string)
  type CookieCollection = seq<Cookie>

  /** The caller's `System.Text.Encoding`; only its presence is inspected here. */
  datatype Encoding = Encoding(webName: string)

  /** A prepared `HttpWebRequest`. `cookies` is the collection placed in the
      request's fresh cookie container; `body` is the text handed to the
      request encoding and written to the request stream; `httpsSetup` records
      that the https branch ran (certificate callback installed, HTTP/1.0). */
  datatype HttpRequest = HttpRequest(
    url: string,
    verb: string,
    contentType: Option<string>,
    userAgent: Option<string>,
    keepAlive: Option<bool>,
    allowWriteStreamBuffering: Option<bool>,
    timeout: Option<int>,
    cookies: Option<CookieCollection>,
    body: Option<string>,
    httpsSetup: bool)

  /** `string.IsNullOrEmpty`. */
  predicate IsNullOrEmpty(s: Option<string>)
  {
    s.None? || |s.value| == 0
  }

  /** `WebRequest.Create(url)`: a GET request with nothing configured. */
  function Create(url: string): HttpRequest
  {
    HttpRequest(url, "GET", None, None, None, None, None, None, None, false)
  }

  // ---------------------------------------------------------------------
  // Form bodies
  // ---------------------------------------------------------------------

  predicate UniqueKeys(ps: seq<(string, Option<string>)>)
  {
    forall i, j :: 0 <= i < j < |ps| ==> ps[i].0 != ps[j].0
  }

  /** An `IDictionary<string, string>` as the sequence of its entries in
      enumeration order; keys are distinct and values may be null. */
  type FormParameters = ps: seq<(string, Option<string>)> | UniqueKeys(ps)

  /** `parameters.Keys`, in enumeration order. */
  function Keys(ps: FormParameters): (keys: seq<string>)
    ensures |keys| == |ps|
    ensures forall i :: 0 <= i < |ps| ==> keys[i] == ps[i].0
  {
    seq(|ps|, i requires 0 <= i < |ps| => ps[i].0)
  }

  /** `parameters[key]` for a key the dictionary holds: the value stored under it. */
  function Lookup(ps: FormParameters, key: string): (v: Option<string>)
    requires exists i :: 0 <= i < |ps| && ps[i].0 == key
    ensures forall i :: 0 <= i < |ps| && ps[i].0 == key ==> v == ps[i].1
  {
    if ps[0].0 == key then ps[0].1
    else
      var rest: FormParameters := ps[1..];
      assert forall i :: 1 <= i < |ps| ==> rest[i - 1] == ps[i];
      Lookup(rest, key)
  }

  /** How `String.Format` renders an argument: a null value as the empty string. */
  function Text(v: Option<string>): string
  {
    if v.None? then "" else v.value
  }

  /** One `key=value` field, unescaped. */
  function Field(key: string, value: Option<string>): string
  {
    key + "=" + Text(value)
  }

  function Fields(ps: seq<(string, Option<string>)>): (fs: seq<string>)
    ensures |fs| == |ps|
    ensures forall i :: 0 <= i < |ps| ==> fs[i] == Field(ps[i].0, ps[i].1)
  {
    seq(|ps|, i requires 0 <= i < |ps| => Field(ps[i].0, ps[i].1))
  }

  /** The form body: every field, in enumeration order, joined by `&`. */
  function FormBody(ps: seq<(string, Option<string>)>): string
  {
    Join(Fields(ps), '&')
  }

  lemma FormBodySnoc(ps: seq<(string, Option<string>)>, key: string, value: Option<string>)
    ensures |ps| == 0 ==> FormBody(ps + [(key, value)]) == Field(key, value)
    ensures |ps| > 0 ==> FormBody(ps + [(key, value)]) == FormBody(ps) + "&" + Field(key, value)
  {
    assert Fields(ps + [(key, value)]) == Fields(ps) + [Field(key, value)];
    if |ps| > 0 {
      JoinSnoc(Fields(ps), Field(key, value), '&');
    }
  }

  /** The body loop: one `AppendFormat` per key, with `&` before every field
      but the first. */
  method BuildFormBody(parameters: FormParameters) returns (data: string)
    ensures data == FormBody(parameters)
  {
    var buffer := "";
    var keys := Keys(parameters);
    var i := 0;
    while i < |keys|
      invariant 0 <= i <= |keys|
      invariant buffer == FormBody(parameters[..i])
    {
      var key := keys[i];
      var value := Lookup(parameters, key);
      FormBodySnoc(parameters[..i], key, value);
      assert parameters[..i + 1] == parameters[..i] + [(key, value)];
      if i > 0 {
        buffer := buffer + "&" + key + "=" + Text(value);
      } else {
        buffer := buffer + key + "=" + Text(value);
      }
      i := i + 1;
    }
    assert parameters[..i] == parameters;
    data := buffer;
  }

  /** A non-empty body begins with the first field and ends with the last one:
      no separator is placed before the first field or after the last. Only
      when no key or value holds `&` does this mean that the body neither
      starts nor ends with `&`. */
  lemma FormBodyEnds(ps: seq<(string, Option<string>)>)
    requires |ps| > 0
    ensures Field(ps[0].0, ps[0].1) <= FormBody(ps)
    ensures var last := Field(ps[|ps| - 1].0, ps[|ps| - 1].1);
      |last| <= |FormBody(ps)| && FormBody(ps)[|FormBody(ps)| - |last|..] == last
    ensures NoAmpersands(ps) ==> FormBody(ps)[0] != '&' && FormBody(ps)[|FormBody(ps)| - 1] != '&'
  {
    JoinEnds(Fields(ps), '&');
    var body := FormBody(ps);
    var first, last := Field(ps[0].0, ps[0].1), Field(ps[|ps| - 1].0, ps[|ps| - 1].1);
    if NoAmpersands(ps) {
      assert body[0] == first[0];
      assert body[|body| - 1] == last[|last| - 1];
      assert first[0] in ps[0].0 + "=" + Text(ps[0].1);
      assert last[|last| - 1] in ps[|ps| - 1].0 + "=" + Text(ps[|ps| - 1].1);
    }
  }

  /** No key and no rendered value contains `&`. */
  predicate NoAmpersands(ps: seq<(string, Option<string>)>)
  {
    forall i :: 0 <= i < |ps| ==> '&' !in ps[i].0 && '&' !in Text(ps[i].1)
  }

  lemma FieldsHaveNoAmpersand(ps: seq<(string, Option<string>)>)
    requires NoAmpersands(ps)
    ensures forall i :: 0 <= i < |ps| ==> '&' !in Fields(ps)[i]
  {
    forall i | 0 <= i < |ps|
      ensures '&' !in Fields(ps)[i]
    {
      assert Fields(ps)[i] == ps[i].0 + "=" + Text(ps[i].1);
    }
  }

  /** n entries whose keys and values hold no `&` give exactly n - 1 separators. */
  lemma FormBodySeparators(ps: seq<(string, Option<string>)>)
    requires |ps| > 0 && NoAmpersands(ps)
    ensures Count(FormBody(ps), '&') == |ps| - 1
  {
    FieldsHaveNoAmpersand(ps);
    SplitJoin(Fields(ps), '&');
  }

  /** The entries as a reader of the body sees them: null values as "". */
  function Rendered(ps: seq<(string, Option<string>)>): (rs: seq<(string, string)>)
    ensures |rs| == |ps|
    ensures forall i :: 0 <= i < |ps| ==> rs[i] == (ps[i].0, Text(ps[i].1))
  {
    seq(|ps|, i requires 0 <= i < |ps| => (ps[i].0, Text(ps[i].1)))
  }

  /** Reading a form body back: split at `&`, then each field at its first `=`. */
  function ParseForm(body: string): seq<(string, string)>
  {
    var fs := Split(body, '&');
    seq(|fs|, i requires 0 <= i < |fs| => (Before(fs[i], '='), After(fs[i], '=')))
  }

  /** Keys free of `&` and `=` and values free of `&` survive the body unchanged. */
  lemma FormBodyRoundTrip(ps: seq<(string, Option<string>)>)
    requires |ps| > 0 && NoAmpersands(ps)
    requires forall i :: 0 <= i < |ps| ==> '=' !in ps[i].0
    ensures ParseForm(FormBody(ps)) == Rendered(ps)
  {
    var fs := Fields(ps);
    FieldsHaveNoAmpersand(ps);
    SplitJoin(fs, '&');
    forall i | 0 <= i < |ps|
      ensures ParseForm(FormBody(ps))[i] == Rendered(ps)[i]
    {
      assert fs[i] == ps[i].0 + ['='] + Text(ps[i].1);
      BeforeAfter(ps[i].0, Text(ps[i].1), '=');
    }
  }

  /** The body of `{a:1, b:2}`. */
  lemma FormBodyOfTwoEntries()
    ensures FormBody([("a", Some("1")), ("b", Some("2"))]) == "a=1&b=2"
  {
    var ps := [("a", Some("1")), ("b", Some("2"))];
    assert Fields(ps)[0] == "a" + "=" + "1" == "a=1";
    assert Fields(ps)[1] == "b" + "=" + "2" == "b=2";
    assert Fields(ps) == ["a=1", "b=2"];
  }

  /** Values are not escaped: a value holding `&` and `=` reads as two entries. */
  lemma FormBodyIsAmbiguous()
    ensures FormBody([("a", Some("1&b=2"))]) == FormBody([("a", Some("1")), ("b", Some("2"))])
  {
    FormBodyOfTwoEntries();
    assert Fields([("a", Some("1&b=2"))])[0] == "a" + "=" + "1&b=2" == "a=1&b=2";
    assert Fields([("a", Some("1&b=2"))]) == ["a=1&b=2"];
  }

  // ---------------------------------------------------------------------
  // Request builders
  // ---------------------------------------------------------------------

  /** `CreateGetHttpResponse` up to `GetResponse`. */
  method CreateGetRequest(url: Option<string>, timeout: Option<int>, keepAlive: bool,
                          userAgent: Option<string>, cookies: Option<CookieCollection>)
    returns (r: Result<HttpRequest, ArgumentError>)
    ensures r.Failure? <==> IsNullOrEmpty(url)
    ensures r.Failure? ==> r.error == ArgumentNull("url")
    ensures r.Success? ==>
      && r.value.url == url.value
      && r.value.verb == "GET"
      && r.value.allowWriteStreamBuffering == Some(false)
      && r.value.keepAlive == Some(keepAlive)
      && (!IsNullOrEmpty(userAgent) ==> r.value.userAgent == userAgent)
      && (IsNullOrEmpty(userAgent) ==> r.value.userAgent == Some(DefaultUserAgent))
      && r.value.timeout == timeout
      && r.value.cookies == cookies
      && r.value.contentType.None? && r.value.body.None? && !r.value.httpsSetup
  {
    if IsNullOrEmpty(url) {
      return Failure(ArgumentNull("url"));
    }
    var request := Create(url.value);
    request := request.(verb := "GET");
    request := request.(allowWriteStreamBuffering := Some(false));
    request := request.(userAgent := Some(DefaultUserAgent));
    request := request.(keepAlive := Some(keepAlive));
    if !IsNullOrEmpty(userAgent) {
      request := request.(userAgent := userAgent);
    }
    if timeout.Some? {
      request := request.(timeout := timeout);
    }
    if cookies.Some? {
      request := request.(cookies := cookies);
    }
    return Success(request);
  }

  /** The configuration both POST builders share, once their arguments are valid. */
  method CreatePostBase(url: string, timeout: Option<int>, userAgent: Option<string>,
                        cookies: Option<CookieCollection>)
    returns (request: HttpRequest)
    ensures request.url == url
    ensures request.httpsSetup <==> StartsWithIgnoreCase(url, "https")
    ensures request.verb == "POST"
    ensures request.contentType == Some(FormContentType)
    ensures !IsNullOrEmpty(userAgent) ==> request.userAgent == userAgent
    ensures IsNullOrEmpty(userAgent) ==> request.userAgent == Some(DefaultUserAgent)
    ensures request.timeout == timeout
    ensures request.cookies == cookies
    ensures request.keepAlive.None? && request.allowWriteStreamBuffering.None? && request.body.None?
  {
    if StartsWithIgnoreCase(url, "https") {
      request := Create(url);
      request := request.(httpsSetup := true);
    } else {
      request := Create(url);
    }
    request := request.(verb := "POST");
    request := request.(contentType := Some(FormContentType));
    if !IsNullOrEmpty(userAgent) {
      request := request.(userAgent := userAgent);
    } else {
      request := request.(userAgent := Some(DefaultUserAgent));
    }
    if timeout.Some? {
      request := request.(timeout := timeout);
    }
    if cookies.Some? {
      request := request.(cookies := cookies);
    }
  }

  /** `CreatePostHttpResponse` up to `GetResponse`. */
  method CreatePostRequest(url: Option<string>, parameters: Option<FormParameters>, timeout: Option<int>,
                           userAgent: Option<string>, requestEncoding: Option<Encoding>,
                           cookies: Option<CookieCollection>)
    returns (r: Result<HttpRequest, ArgumentError>)
    ensures IsNullOrEmpty(url) ==> r == Failure(ArgumentNull("url"))
    ensures !IsNullOrEmpty(url) && requestEncoding.None? ==> r == Failure(ArgumentNull("requestEncoding"))
    ensures r.Success? <==> !IsNullOrEmpty(url) && requestEncoding.Some?
    ensures r.Success? ==>
      && r.value.url == url.value
      && (r.value.httpsSetup <==> StartsWithIgnoreCase(url.value, "https"))
      && r.value.verb == "POST"
      && r.value.contentType == Some(FormContentType)
      && (!IsNullOrEmpty(userAgent) ==> r.value.userAgent == userAgent)
      && (IsNullOrEmpty(userAgent) ==> r.value.userAgent == Some(DefaultUserAgent))
      && r.value.timeout == timeout
      && r.value.cookies == cookies
      && (parameters.None? || |parameters.value| == 0 ==> r.value.body.None?)
      && (parameters.Some? && |parameters.value| > 0 ==> r.value.body == Some(FormBody(parameters.value)))
      && r.value.keepAlive.None? && r.value.allowWriteStreamBuffering.None?
  {
    if IsNullOrEmpty(url) {
      return Failure(ArgumentNull("url"));
    }
    if requestEncoding.None? {
      return Failure(ArgumentNull("requestEncoding"));
    }
    var request := CreatePostBase(url.value, timeout, userAgent, cookies);
    if !(parameters.None? || |parameters.value| == 0) {
      var data := BuildFormBody(parameters.value);
      request := request.(body := Some(data));
    }
    return Success(request);
  }

  /** `CreatePostHttpResponseEx` up to `GetResponse`: the body is the caller's
      string, verbatim, whenever it is non-null. */
  method CreatePostRequestEx(url: Option<string>, parameters: Option<string>, timeout: Option<int>,
                             userAgent: Option<string>, requestEncoding: Option<Encoding>,
                             cookies: Option<CookieCollection>)
    returns (r: Result<HttpRequest, ArgumentError>)
    ensures IsNullOrEmpty(url) ==> r == Failure(ArgumentNull("url"))
    ensures !IsNullOrEmpty(url) && requestEncoding.None? ==> r == Failure(ArgumentNull("requestEncoding"))
    ensures r.Success? <==> !IsNullOrEmpty(url) && requestEncoding.Some?
    ensures r.Success? ==>
      && r.value.url == url.value
      && (r.value.httpsSetup <==> StartsWithIgnoreCase(url.value, "https"))
      && r.value.verb == "POST"
      && r.value.contentType == Some(FormContentType)
      && (!IsNullOrEmpty(userAgent) ==> r.value.userAgent == userAgent)
      && (IsNullOrEmpty(userAgent) ==> r.value.userAgent == Some(DefaultUserAgent))
      && r.value.timeout == timeout
      && r.value.cookies == cookies
      && r.value.body == parameters
      && r.value.keepAlive.None? && r.value.allowWriteStreamBuffering.None?
  {
    if IsNullOrEmpty(url) {
      return Failure(ArgumentNull("url"));
    }
    if requestEncoding.None? {
      return Failure(ArgumentNull("requestEncoding"));
    }
    var request := CreatePostBase(url.value, timeout, userAgent, cookies);
    if parameters.Some? {
      request := request.(body := Some(parameters.value));
    }
    return Success(request);
  }
}
