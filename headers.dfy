/** What the handlers read from a request's headers, and the cookie the login
    handler sets: the client fingerprint (ip, user agent), the session id taken
    from the Cookie header, the Accept check, and the Set-Cookie value. */
module Headers {
  import opened Strings

  /** Request headers as `req.headers.get` sees them: lower-case names to values. */
  type HeaderMap = map<string, string>

  /** `req.headers.get(name)`: `null` when the header is absent. */
  function Get(h: HeaderMap, name: string): (v: Option<string>)
    ensures v.Some? <==> name in h
  {
    if name in h then Some(h[name]) else None
  }

  /** `v || fallback` for a header value: an absent header and the empty string
      are both falsy. */
  function OrElse(v: Option<string>, fallback: string): (r: string)
    ensures Truthy(v) ==> r == v.value
    ensures !Truthy(v) ==> r == fallback
  {
    if Truthy(v) then v.value else fallback
  }

  /** The client ip: `x-forwarded-for || x-real-ip || 'unknown'` (server.js lines 85 and 121). */
  function ClientIp(h: HeaderMap): (ip: string)
    ensures ip != ""
    ensures Truthy(Get(h, "x-forwarded-for")) ==> ip == h["x-forwarded-for"]
    ensures !Truthy(Get(h, "x-forwarded-for")) && Truthy(Get(h, "x-real-ip")) ==> ip == h["x-real-ip"]
    ensures !Truthy(Get(h, "x-forwarded-for")) && !Truthy(Get(h, "x-real-ip")) ==> ip == "unknown"
  {
    OrElse(Get(h, "x-forwarded-for"), OrElse(Get(h, "x-real-ip"), "unknown"))
  }

  /** The user agent, `user-agent || ''`. */
  function UserAgent(h: HeaderMap): (ua: string)
    ensures Truthy(Get(h, "user-agent")) ==> ua == h["user-agent"]
    ensures !Truthy(Get(h, "user-agent")) ==> ua == ""
  {
    OrElse(Get(h, "user-agent"), "")
  }

  /** The regex `/sid=([^;]+)/` matches at offset `i` of `s`: `sid=` followed by at
      least one character other than `;`. */
  predicate SidMatchAt(s: string, i: int) {
    0 <= i && i + 4 < |s| && s[i..i + 4] == "sid=" && s[i + 4] != ';'
  }

  /** The capture `[^;]+`: the longest prefix of `s` free of `;`. */
  function ValueRun(s: string): (v: string)
    ensures |v| <= |s| && v == s[..|v|]
    ensures ';' !in v
    ensures |v| == |s| || s[|v|] == ';'
    decreases |s|
  {
    if s == [] || s[0] == ';' then [] else [s[0]] + ValueRun(s[1..])
  }

  /** The first match of `/sid=([^;]+)/` at or after offset `i`, as
      `String.prototype.match` finds it, and its capture. */
  function SidFrom(s: string, i: nat): (r: Option<string>)
    ensures r.None? <==> forall j :: i <= j ==> !SidMatchAt(s, j)
    ensures r.Some? ==> exists j :: i <= j && SidMatchAt(s, j) && r.value == ValueRun(s[j + 4..])
                                   && forall k :: i <= k < j ==> !SidMatchAt(s, k)
    ensures r.Some? ==> r.value != "" && ';' !in r.value
    decreases |s| - i
  {
    if i + 4 >= |s| then None
    else if SidMatchAt(s, i) then Some(ValueRun(s[i + 4..]))
    else SidFrom(s, i + 1)
  }

  /** `req.headers.get('cookie')?.match(/sid=([^;]+)/)?.[1]` (server.js line 82). */
  function CookieSid(h: HeaderMap): (sid: Option<string>)
    ensures sid.Some? ==> "cookie" in h && sid.value != "" && ';' !in sid.value
  {
    match Get(h, "cookie")
    case None => None
    case Some(c) => SidFrom(c, 0)
  }

  /** The Accept check of the text reads: `(accept || '').includes('application/json')`. */
  predicate WantsJson(h: HeaderMap): (json: bool)
    ensures json <==> "accept" in h && exists i :: OccursAt(h["accept"], "application/json", i)
  {
    var accept := OrElse(Get(h, "accept"), "");
    ContainsIffOccurs(accept, "application/json");
    Contains(accept, "application/json")
  }

  /** Max-Age of the session cookie, in seconds. */
  const CookieMaxAge := 1800

  /** The attributes of the session cookie, in the order the login handler writes
      them; `Secure` only when the server runs TLS. */
  function CookieAttributes(tls: bool): seq<string> {
    ["HttpOnly", "Path=/", "Max-Age=1800", "SameSite=Lax"] + (if tls then ["Secure"] else [])
  }

  /** Each attribute introduced by `; `, the `*( ";" SP cookie-av )` part of the
      set-cookie-string of section 4.1 of RFC 6265. */
  function AttributeText(attrs: seq<string>): string
    decreases |attrs|
  {
    if attrs == [] then "" else "; " + attrs[0] + AttributeText(attrs[1..])
  }

  /** The Set-Cookie value of a login (server.js line 124): the cookie-pair
      `sid=<sid>` and then the attributes. */
  function SetCookie(sid: string, tls: bool): string {
    "sid=" + sid + AttributeText(CookieAttributes(tls))
  }

  /** A value free of `;` ends at the first `;` after it. */
  lemma {:induction false} ValueRunStopsAtSemicolon(v: string, rest: string)
    requires ';' !in v
    requires rest == [] || rest[0] == ';'
    ensures ValueRun(v + rest) == v
    decreases |v|
  {
    if v != [] {
      assert (v + rest)[1..] == v[1..] + rest;
      ValueRunStopsAtSemicolon(v[1..], rest);
    }
  }

  /** A cookie string that begins with the pair `sid=<sid>` yields that sid, and so
      does the Set-Cookie value itself. */
  lemma {:induction false} SidRoundTrip(sid: string, rest: string)
    requires sid != "" && ';' !in sid
    requires rest == [] || rest[0] == ';'
    ensures SidFrom("sid=" + sid + rest, 0) == Some(sid)
  {
    var s := "sid=" + sid + rest;
    assert s[..4] == "sid=";
    assert s[4] == sid[0];
    assert SidMatchAt(s, 0);
    assert s[4..] == sid + rest;
    ValueRunStopsAtSemicolon(sid, rest);
  }

  lemma SetCookieRoundTrip(sid: string, tls: bool)
    requires sid != "" && ';' !in sid
    ensures SidFrom(SetCookie(sid, tls), 0) == Some(sid)
  {
    var rest := AttributeText(CookieAttributes(tls));
    assert rest[0] == "; "[0] == ';';
    SidRoundTrip(sid, rest);
  }

  lemma {:induction false} AttributeTextAppend(a: seq<string>, b: seq<string>)
    ensures AttributeText(a + b) == AttributeText(a) + AttributeText(b)
    decreases |a|
  {
    if a == [] {
      assert a + b == b;
    } else {
      assert (a + b)[1..] == a[1..] + b;
      AttributeTextAppend(a[1..], b);
    }
  }

  /** The cookie carries `Secure` exactly when TLS is on. */
  lemma SetCookieSecureIffTls(sid: string, tls: bool)
    ensures EndsWith(SetCookie(sid, tls), "; Secure") <==> tls
  {
    var base := ["HttpOnly", "Path=/", "Max-Age=1800"];
    var last := if tls then "Secure" else "SameSite=Lax";
    var attrs := CookieAttributes(tls);
    var front := if tls then base + ["SameSite=Lax"] else base;
    assert attrs == front + [last];
    AttributeTextAppend(front, [last]);
    var c := SetCookie(sid, tls);
    assert c == ("sid=" + sid + AttributeText(front)) + ("; " + last);
    assert c[|c| - 8..] == ("; " + last)[|"; " + last| - 8..];
    if !tls {
      assert ("; " + last)[|"; " + last| - 8..] == "Site=Lax";
    }
  }

  /** The regex is not anchored to a cookie name: `xsid=` matches too, so a cookie
      named `xsid` placed before `sid` supplies the session id. */
  lemma NamePrefixQuirk()
    ensures SidFrom("xsid=a; sid=b", 0) == Some("a")
  {
    var s := "xsid=a; sid=b";
    assert s[0..4] == "xsid";
    assert SidMatchAt(s, 1);
    assert s[5..] == "a; sid=b";
    ValueRunStopsAtSemicolon("a", "; sid=b");
  }
}
