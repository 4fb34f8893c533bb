/**
 * The request helper of the browser script: reading the CSRF token out of
 * the cookie string, the cache-busting rewrite of GET URLs, the text of the
 * error a failed response raises, and what a successful response resolves
 * to. The network round trip itself is not modelled: a response is given as
 * its status, its body text and the value `JSON.parse` makes of that text.
 */
module Api {
  import opened Wrappers
  import opened Text
  import opened Json

  const ApiBase: string := "/api"

  // ---- the CSRF cookie ----------------------------------------------------------

  const CsrfPrefix: string := "csrftoken="

  /** The text before the first `c`: `s.split(c)[0]`. */
  function UpTo(s: string, c: char): (r: string)
    ensures |r| <= |s| && r == s[..|r|]
    ensures c !in r
    ensures |r| < |s| ==> s[|r|] == c
  {
    if s == [] || s[0] == c then [] else [s[0]] + UpTo(s[1..], c)
  }

  /** `rows.find(row => row.startsWith(p))`, as an index. */
  function FirstStartingWith(rows: seq<string>, p: string): (r: Option<nat>)
    ensures r.Some? ==> r.value < |rows| && StartsWith(rows[r.value], p)
    ensures r.Some? ==> forall j :: 0 <= j < r.value ==> !StartsWith(rows[j], p)
    ensures r.None? ==> forall j :: 0 <= j < |rows| ==> !StartsWith(rows[j], p)
  {
    if rows == [] then None
    else if StartsWith(rows[0], p) then Some(0)
    else match FirstStartingWith(rows[1..], p)
      case None => None
      case Some(j) => Some(j + 1)
  }

  /**
   * `getCSRFToken()`: the `; `-separated rows of `document.cookie`, the first
   * that starts with `csrftoken=`, and the text after it up to the next `=`;
   * `None` stands for `undefined`.
   */
  function CsrfToken(cookie: string): (r: Option<string>)
  {
    var rows := SplitOn(cookie, "; ");
    match FirstStartingWith(rows, CsrfPrefix)
    case None => None
    case Some(i) => Some(UpTo(rows[i][|CsrfPrefix|..], '='))
  }

  /** The token of a row is its second `=`-separated field, `row.split('=')[1]`. */
  lemma TokenIsSecondField(row: string)
    requires StartsWith(row, CsrfPrefix)
    ensures |SplitOn(row, "=")| >= 2 && SplitOn(row, "=")[1] == UpTo(row[|CsrfPrefix|..], '=')
  {
    var k := |CsrfPrefix| - 1;
    assert row[k] == '=';
    assert OccursAt(row, "=", k);
    forall j | 0 <= j < k ensures !OccursAt(row, "=", j) {
      assert row[j] == CsrfPrefix[j] != '=';
      assert row[j..j + 1][0] == row[j];
    }
    assert IndexOf(row, "=") == Some(k);
    SplitOnFirstField(row[|CsrfPrefix|..], '=');
  }

  /** The first field of a split on one character is the text up to that character. */
  lemma SplitOnFirstField(s: string, c: char)
    ensures SplitOn(s, [c])[0] == UpTo(s, c)
  {
    var u := UpTo(s, c);
    UpToStops(s, c);
    match IndexOf(s, [c])
    case None =>
    case Some(i) =>
      assert s[i] == c by { assert s[i..i + 1] == [c]; }
      assert forall j :: 0 <= j < |u| ==> s[j] == u[j];
      assert i >= |u|;
  }

  /** Where `UpTo` stops short of the end, the character occurs. */
  lemma UpToStops(s: string, c: char)
    ensures |UpTo(s, c)| < |s| ==> OccursAt(s, [c], |UpTo(s, c)|)
  {
    var u := UpTo(s, c);
    if |u| < |s| {
      assert s[|u|..|u| + 1] == [c];
    }
  }

  /** One cookie of the jar: `name=value`. */
  datatype CookiePair = CookiePair(name: string, value: string)

  function Row(p: CookiePair): string {
    p.name + "=" + p.value
  }

  function Rows(pairs: seq<CookiePair>): (r: seq<string>)
    ensures |r| == |pairs|
    ensures forall i :: 0 <= i < |pairs| ==> r[i] == Row(pairs[i])
  {
    if pairs == [] then [] else [Row(pairs[0])] + Rows(pairs[1..])
  }

  /** `document.cookie`: the pairs joined with `; ` (section 5.4 of RFC 6265). */
  function CookieString(pairs: seq<CookiePair>): string {
    Join(Rows(pairs), "; ")
  }

  /** Names and values carry neither `;` nor `=`. */
  predicate PlainPairs(pairs: seq<CookiePair>) {
    forall i :: 0 <= i < |pairs| ==>
      ';' !in pairs[i].name && '=' !in pairs[i].name && ';' !in pairs[i].value && '=' !in pairs[i].value
  }

  /** The value of the first cookie named `csrftoken`. */
  function CsrfCookie(pairs: seq<CookiePair>): Option<string> {
    if pairs == [] then None
    else if pairs[0].name == "csrftoken" then Some(pairs[0].value)
    else CsrfCookie(pairs[1..])
  }

  /** A cookie row starts with `csrftoken=` exactly when its name is `csrftoken`, and then its token is its value. */
  lemma RowToken(p: CookiePair)
    requires '=' !in p.name && '=' !in p.value
    ensures StartsWith(Row(p), CsrfPrefix) <==> p.name == "csrftoken"
    ensures p.name == "csrftoken" ==> UpTo(Row(p)[|CsrfPrefix|..], '=') == p.value
  {
    var row := Row(p);
    assert forall j :: 0 <= j < |p.name| ==> row[j] == p.name[j];
    assert row[|p.name|] == '=';
    if StartsWith(row, CsrfPrefix) {
      assert forall j :: 0 <= j < |CsrfPrefix| ==> row[j] == CsrfPrefix[j];
      assert CsrfPrefix[9] == '=' && forall j :: 0 <= j < 9 ==> CsrfPrefix[j] != '=';
      assert |p.name| == 9;
      assert p.name == row[..9];
    }
    if p.name == "csrftoken" {
      assert row[|CsrfPrefix|..] == p.value;
    }
  }

  lemma {:induction false} FirstRowIsFirstCookie(pairs: seq<CookiePair>)
    requires PlainPairs(pairs)
    ensures (match FirstStartingWith(Rows(pairs), CsrfPrefix)
             case None => None
             case Some(i) => Some(UpTo(Rows(pairs)[i][|CsrfPrefix|..], '='))) == CsrfCookie(pairs)
  {
    if pairs != [] {
      RowToken(pairs[0]);
      assert Rows(pairs)[1..] == Rows(pairs[1..]);
      FirstRowIsFirstCookie(pairs[1..]);
    }
  }

  /** Reading the token back out of a cookie string gives the value of the first `csrftoken` cookie. */
  lemma CsrfTokenOfCookies(pairs: seq<CookiePair>)
    requires PlainPairs(pairs)
    ensures CsrfToken(CookieString(pairs)) == CsrfCookie(pairs)
  {
    if pairs == [] {
      assert CookieString(pairs) == "";
      assert SplitOn("", "; ") == [""];
    } else {
      SplitOnJoin(Rows(pairs), "; ");
      FirstRowIsFirstCookie(pairs);
    }
  }

  // ---- the cache-busting rewrite --------------------------------------------------

  /**
   * A GET whose URL holds no `?_=` gets `_=<now>` appended, after `&` when the
   * URL already has a query and after `?` otherwise; other URLs are left as they are.
   */
  function AddCacheBuster(url: string, httpMethod: string, now: nat): (r: string)
  {
    if httpMethod == "GET" && !Contains(url, "?_=") then
      url + (if Contains(url, "?") then "&" else "?") + "_=" + NatToString(now)
    else url
  }

  /** The URL `apiRequest` fetches for an endpoint. */
  function RequestUrl(endpoint: string, httpMethod: string, now: nat): (r: string)
    ensures StartsWith(r, ApiBase + endpoint)
    ensures httpMethod != "GET" ==> r == ApiBase + endpoint
  {
    AddCacheBuster(ApiBase + endpoint, httpMethod, now)
  }

  lemma ContainsAt(s: string, sub: string, i: int)
    requires OccursAt(s, sub, i)
    ensures Contains(s, sub)
  {
    ContainsIff(s, sub);
  }

  /** Without a query, the appended `?_=` makes a second rewrite leave the URL alone. */
  lemma CacheBusterOnce(url: string, t1: nat, t2: nat)
    requires !Contains(url, "?")
    ensures AddCacheBuster(url, "GET", t1) == url + "?_=" + NatToString(t1)
    ensures AddCacheBuster(AddCacheBuster(url, "GET", t1), "GET", t2) == AddCacheBuster(url, "GET", t1)
  {
    MarkNeedsQuestion(url);
    var u1 := url + "?_=" + NatToString(t1);
    assert AddCacheBuster(url, "GET", t1) == u1;
    MarkAppended(url, NatToString(t1));
    assert AddCacheBuster(u1, "GET", t2) == u1;
  }

  /** A text holding `?_=` holds `?`. */
  lemma MarkNeedsQuestion(s: string)
    ensures Contains(s, "?_=") ==> Contains(s, "?")
  {
    ContainsIff(s, "?_=");
    if Contains(s, "?_=") {
      var i :| OccursAt(s, "?_=", i);
      assert s[i..i + 1] == s[i..i + 3][..1];
      ContainsAt(s, "?", i);
    }
  }

  /** The text with `?_=` appended holds `?_=`. */
  lemma MarkAppended(url: string, d: string)
    ensures Contains(url + "?_=" + d, "?_=")
  {
    var u := url + "?_=" + d;
    assert u[|url|..|url| + 3] == "?_=";
    ContainsAt(u, "?_=", |url|);
  }

  /**
   * With a query, the rewrite appends `&_=`, which the `?_=` guard does not
   * see: a second rewrite appends another timestamp.
   */
  lemma CacheBusterRepeats(url: string, t1: nat, t2: nat)
    requires Contains(url, "?") && !Contains(url, "?_=")
    ensures AddCacheBuster(AddCacheBuster(url, "GET", t1), "GET", t2) == url + "&_=" + NatToString(t1) + "&_=" + NatToString(t2)
  {
    var tail := "&_=" + NatToString(t1);
    BusterWithQuery(url, t1);
    assert url + "&_=" + NatToString(t1) == url + tail;
    ContainsExtended(url, tail, "?");
    AmpersandTail(t1);
    NoMarkAfterAmpersand(url, tail);
    BusterWithQuery(url + tail, t2);
  }

  /** A GET URL with a query and no `?_=` gets `&_=<now>`. */
  lemma BusterWithQuery(url: string, now: nat)
    requires Contains(url, "?") && !Contains(url, "?_=")
    ensures AddCacheBuster(url, "GET", now) == url + "&_=" + NatToString(now)
  {
  }

  /** What a text contains, it still contains once extended. */
  lemma ContainsExtended(s: string, t: string, sub: string)
    requires Contains(s, sub)
    ensures Contains(s + t, sub)
  {
    ContainsIff(s, sub);
    var q :| OccursAt(s, sub, q);
    assert (s + t)[q..q + |sub|] == s[q..q + |sub|];
    ContainsAt(s + t, sub, q);
  }

  /** The appended `&_=<now>` starts with `&` and holds no `?`. */
  lemma AmpersandTail(now: nat)
    ensures var tail := "&_=" + NatToString(now);
      tail != [] && tail[0] == '&' && forall k :: 0 <= k < |tail| ==> tail[k] != '?'
  {
    var d := NatToString(now);
    var tail := "&_=" + d;
    assert forall k :: 3 <= k < |tail| ==> tail[k] == d[k - 3];
  }

  /** Appending a text that starts with `&` and holds no `?` creates no `?_=`. */
  lemma NoMarkAfterAmpersand(url: string, tail: string)
    requires !Contains(url, "?_=")
    requires tail != [] && tail[0] == '&' && forall k :: 0 <= k < |tail| ==> tail[k] != '?'
    ensures !Contains(url + tail, "?_=")
  {
    var u := url + tail;
    ContainsIff(url, "?_=");
    forall i ensures !OccursAt(u, "?_=", i) {
      if i < 0 || i + 3 > |u| {
      } else if i + 3 <= |url| {
        assert u[i..i + 3] == url[i..i + 3];
        assert !OccursAt(url, "?_=", i);
      } else if i + 1 == |url| || i + 2 == |url| {
        assert u[i..i + 3][|url| - i] == u[|url|] == '&';
      } else {
        assert u[i..i + 3][0] == u[i] == tail[i - |url|];
      }
    }
    ContainsIff(u, "?_=");
  }

  // ---- the error of a failed response ---------------------------------------------

  const DefaultError: string := "Error en la petici\U{F3}n"

  /** `\w` in a JavaScript regular expression: ASCII letters and digits and `_`. */
  predicate IsWordChar(c: char) {
    ('a' <= c <= 'z') || ('A' <= c <= 'Z') || IsDigit(c) || c == '_'
  }

  /** `.replace(/\b\w/g, l => l.toUpperCase())`: the first character of every run of word characters upper-cased. */
  function CapitalizeWords(s: string): (r: string)
    ensures |r| == |s|
  {
    seq(|s|, i requires 0 <= i < |s| =>
      if IsWordChar(s[i]) && (i == 0 || !IsWordChar(s[i - 1])) then UpperChar(s[i]) else s[i])
  }

  /** `key.replace(/_/g, ' ')`. */
  function Unsnake(key: string): (r: string)
    ensures |r| == |key| && '_' !in r
    ensures forall i :: 0 <= i < |key| && key[i] != '_' ==> r[i] == key[i]
  {
    seq(|key|, i requires 0 <= i < |key| => if key[i] == '_' then ' ' else key[i])
  }

  /** The field name shown for a key of a validation error. */
  function Humanize(key: string): (r: string)
    ensures |r| == |key| && '_' !in r
    ensures forall i :: 0 <= i < |key| && key[i] == '_' ==> r[i] == ' '
    ensures forall i :: 0 <= i < |key| && key[i] != '_' ==> r[i] == key[i] || r[i] == UpperChar(key[i])
  {
    var u := Unsnake(key);
    var r := CapitalizeWords(u);
    assert forall i :: 0 <= i < |r| ==> r[i] == u[i] || r[i] == UpperChar(u[i]);
    r
  }

  /** A humanized field name is left as it is by a second pass. */
  lemma HumanizeIdempotent(key: string)
    ensures Humanize(Humanize(key)) == Humanize(key)
  {
    var h := Humanize(key);
    UnsnakePlain(h);
    CapitalizeIdempotent(Unsnake(key));
  }

  /** A text without underscores is left as it is by `Unsnake`. */
  lemma UnsnakePlain(s: string)
    requires '_' !in s
    ensures Unsnake(s) == s
  {
  }

  /** Capitalizing twice is capitalizing once. */
  lemma CapitalizeIdempotent(u: string)
    ensures CapitalizeWords(CapitalizeWords(u)) == CapitalizeWords(u)
  {
    var h := CapitalizeWords(u);
    forall i | 0 <= i < |h| ensures CapitalizeWords(h)[i] == h[i] {
      assert IsWordChar(h[i]) <==> IsWordChar(u[i]);
      if i > 0 {
        assert IsWordChar(h[i - 1]) <==> IsWordChar(u[i - 1]);
      }
    }
  }

  /** Words separated by a blank are capitalized independently. */
  lemma CapitalizeAround(x: string, y: string)
    ensures CapitalizeWords(x + " " + y) == CapitalizeWords(x) + " " + CapitalizeWords(y)
  {
    var s := x + " " + y;
    var r := CapitalizeWords(x) + " " + CapitalizeWords(y);
    forall i | 0 <= i < |s| ensures CapitalizeWords(s)[i] == r[i] {
      if i < |x| {
        assert s[i] == x[i];
        if i > 0 { assert s[i - 1] == x[i - 1]; }
      } else if i > |x| {
        var k := i - |x| - 1;
        assert s[i] == y[k];
        if k > 0 { assert s[i - 1] == y[k - 1]; }
      }
    }
  }

  /** The parts of a key between underscores are humanized independently and joined by a blank. */
  lemma HumanizeAround(x: string, y: string)
    ensures Humanize(x + "_" + y) == Humanize(x) + " " + Humanize(y)
  {
    assert Unsnake(x + "_" + y) == Unsnake(x) + " " + Unsnake(y);
    CapitalizeAround(Unsnake(x), Unsnake(y));
  }

  /** A non-ASCII letter breaks a word for `\b\w`, so "teléfono" shows as "TeléFono". */
  lemma HumanizeExamples()
    ensures Humanize("tel\U{E9}fono") == "Tel\U{E9}Fono"
  {
  }

  /** `Array.isArray(v) ? v.join(', ') : v`, as a template literal prints it. */
  function ErrorValueText(v: Json): string {
    if v.JArray? then Join(JsItems(v.items), ", ") else JsString(v)
  }

  /** `${fieldName}: ${errorText}` for one entry. */
  function ValidationLine(key: string, v: Json): (r: string)
    ensures |r| >= 2 + |key|
  {
    Humanize(key) + ": " + ErrorValueText(v)
  }

  function ValidationLines(entries: seq<(string, Json)>): (r: seq<string>)
    ensures |r| == |entries|
    ensures forall i :: 0 <= i < |entries| ==> r[i] == ValidationLine(entries[i].0, entries[i].1)
  {
    seq(|entries|, i requires 0 <= i < |entries| => ValidationLine(entries[i].0, entries[i].1))
  }

  /** `Object.entries(v)` of an object or an array (whose keys are its indices). */
  function Entries(v: Json): seq<(string, Json)> {
    match v
    case JObject(members) => members
    case JArray(items) => seq(|items|, i requires 0 <= i < |items| => (NatToString(i), items[i]))
    case _ => []
  }

  /** Joined lines are empty only when there are none. */
  lemma JoinLinesNonEmpty(lines: seq<string>)
    requires lines != [] && lines[0] != ""
    ensures Join(lines, "\n") != ""
  {
    if |lines| > 1 {
      assert Join(lines, "\n")[0] == lines[0][0];
    }
  }

  /**
   * The message the failed response's error carries: `detail` when truthy,
   * else `message` when truthy, else one "Field Name: errors" line per entry
   * of an object or array body; otherwise the body text, or the default text
   * for an empty body. A `null` body makes the property read throw inside the
   * `try`, which also keeps the body text.
   */
  function ErrorMessage(text: string, parsed: Option<Json>): (r: string)
    ensures parsed.None? ==> r == (if text == "" then DefaultError else text)
    ensures r == "" ==>
      && parsed.Some? && parsed.value.JObject?
      && ((JsTruthy(Get(parsed.value.members, "detail")) && Get(parsed.value.members, "detail").value.JArray?) ||
          (JsTruthy(Get(parsed.value.members, "message")) && Get(parsed.value.members, "message").value.JArray?))
  {
    var fallback := if text == "" then DefaultError else text;
    match parsed
    case None => fallback
    case Some(JNull) => fallback
    case Some(JObject(members)) =>
      var detail := Get(members, "detail");
      var message := Get(members, "message");
      if JsTruthy(detail) then JsString(detail.value)
      else if JsTruthy(message) then JsString(message.value)
      else
        var lines := Join(ValidationLines(members), "\n");
        if lines != "" then lines else fallback
    case Some(JArray(items)) =>
      var lines := Join(ValidationLines(Entries(parsed.value)), "\n");
      if lines != "" then lines else fallback
    case Some(_) => fallback
  }

  /** A truthy `detail` wins over everything else. */
  lemma ErrorDetailFirst(text: string, members: seq<(string, Json)>, d: string)
    requires Get(members, "detail") == Some(JString(d)) && d != ""
    ensures ErrorMessage(text, Some(JObject(members))) == d
  {
  }

  /** With no truthy `detail` or `message`, each non-empty object body gives one line per field, in order. */
  lemma ErrorValidationLines(text: string, members: seq<(string, Json)>)
    requires members != []
    requires !JsTruthy(Get(members, "detail")) && !JsTruthy(Get(members, "message"))
    ensures ErrorMessage(text, Some(JObject(members))) == Join(ValidationLines(members), "\n")
  {
    JoinLinesNonEmpty(ValidationLines(members));
  }

  /** A body that is JSON but not an object or array (or is `null`) leaves the raw text. */
  lemma ErrorScalarKeepsText(text: string, v: Json)
    requires text != "" && !v.JObject? && !v.JArray?
    ensures ErrorMessage(text, Some(v)) == text
  {
  }

  // ---- what a response resolves to ------------------------------------------------

  /** The error an `apiRequest` promise rejects with. */
  datatype JsError = ReferenceError(message: string) | Error(message: string) | SyntaxError

  datatype Outcome = Resolved(body: Json) | Rejected(error: JsError)

  /** A response: its status, its body text, and `JSON.parse` of that text (`None` when it throws). */
  datatype Response = Response(status: int, text: string, parsed: Option<Json>)

  /** `response.ok`: a 2xx status. */
  predicate IsOk(status: int) {
    200 <= status <= 299
  }

  /** A successful response: `null` for 204 No Content (section 15.3.5 of RFC 9110), else the parsed body. */
  function SuccessOutcome(r: Response): (o: Outcome)
    requires IsOk(r.status)
    ensures r.status == 204 ==> o == Resolved(JNull)
    ensures r.status != 204 ==> (o.Resolved? <==> r.parsed.Some?)
    ensures r.status != 204 && r.parsed.Some? ==> o.body == r.parsed.value
  {
    if r.status == 204 then Resolved(JNull)
    else match r.parsed
      case None => Rejected(SyntaxError)
      case Some(body) => Resolved(body)
  }

  /**
   * `apiRequest` as written: on a failed response it passes the undeclared
   * `alertMessage` to `mostrarMensaje`, so the call throws a ReferenceError
   * before the `Error(errorMessage)` is built.
   */
  function ResponseOutcomeAsWritten(r: Response): (o: Outcome)
    ensures IsOk(r.status) ==> o == SuccessOutcome(r)
  {
    if !IsOk(r.status) then Rejected(ReferenceError("alertMessage is not defined"))
    else SuccessOutcome(r)
  }

  /** `apiRequest` as intended: a failed response rejects with the extracted message. */
  function ResponseOutcome(r: Response): (o: Outcome)
    ensures IsOk(r.status) ==> o == SuccessOutcome(r)
    ensures !IsOk(r.status) ==> o == Rejected(Error(ErrorMessage(r.text, r.parsed)))
  {
    if !IsOk(r.status) then Rejected(Error(ErrorMessage(r.text, r.parsed)))
    else SuccessOutcome(r)
  }

  /**
   * As written, every failed response rejects with the same ReferenceError,
   * whatever its body says; the intended error carries the body's `detail`.
   */
  lemma AlertMessageMasksError(r: Response)
    requires !IsOk(r.status)
    ensures ResponseOutcomeAsWritten(r) == Rejected(ReferenceError("alertMessage is not defined"))
    ensures r.parsed.Some? && r.parsed.value.JObject? && Get(r.parsed.value.members, "detail") == Some(JString("No encontrado"))
      ==> ResponseOutcome(r) == Rejected(Error("No encontrado"))
    ensures ResponseOutcomeAsWritten(r) != ResponseOutcome(r)
  {
  }

  /** The two agree on every successful response. */
  lemma OutcomesAgreeOnSuccess(r: Response)
    requires IsOk(r.status)
    ensures ResponseOutcomeAsWritten(r) == ResponseOutcome(r)
  {
  }
}
