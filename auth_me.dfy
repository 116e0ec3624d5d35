/**
 * The session route: its picture-URL helper, the reduce that turns the
 * `Cookie` header into a name-to-value record, and the decision to answer
 * 401 when there is no access token. The call to Google that follows is
 * not part of this model.
 */
module AuthMe {
  import opened Text
  import opened Wrappers
  import opened SizeTokens

  const GoogleHost: string := "googleusercontent.com"

  /** `url.replace('http://', 'https://')` for a URL that starts with `http://`; others are kept. */
  function UpgradeScheme(url: string): (r: string)
    ensures StartsWith(url, "http://") ==> StartsWith(r, "https://") && r[|"https://"|..] == url[|"http://"|..]
    ensures !StartsWith(url, "http://") ==> r == url
  {
    if StartsWith(url, "http://") then "https://" + url[|"http://"|..] else url
  }

  /**
   * `getProfilePictureUrl` of the route: nothing for a missing or empty URL;
   * otherwise the scheme upgraded and, for a Google-hosted picture, every
   * size token removed in one pass and the 96-pixel size appended.
   */
  function RoutePictureUrl(pictureUrl: Option<string>): (r: Option<string>)
    ensures r.None? <==> pictureUrl.None? || pictureUrl.value == ""
    ensures r.Some? ==>
      var secure := UpgradeScheme(pictureUrl.value);
      if Contains(secure, GoogleHost) then r.value == Replace(secure, "") + Size96 && EndsWith(r.value, Size96)
      else r.value == secure
  {
    match pictureUrl
    case None => None
    case Some(url) =>
      if url == "" then None
      else
        var secure := UpgradeScheme(url);
        if Contains(secure, GoogleHost) then
          var r := Replace(secure, "") + Size96;
          assert r[|r| - |Size96|..] == Size96;
          Some(r)
        else Some(secure)
  }

  /** An `http://` picture URL is served over `https://`, Google-hosted or not. */
  lemma HttpUpgraded(url: string)
    requires StartsWith(url, "http://")
    ensures var r := RoutePictureUrl(Some(url));
      r.Some? && StartsWith(r.value, "https://")
  {
    var secure := UpgradeScheme(url);
    if Contains(secure, GoogleHost) {
      ReplaceKeepsHttps(secure);
    }
  }

  /** Size tokens never reach into the scheme, so rewriting an `https://` URL keeps it `https://`. */
  lemma ReplaceKeepsHttps(secure: string)
    requires StartsWith(secure, "https://")
    ensures StartsWith(Replace(secure, "") + Size96, "https://")
  {
    var scheme: string := "https://";
    var rest := secure[|scheme|..];
    assert secure == scheme + rest;
    assert '=' !in scheme;
    PrefixUntouched(scheme, rest, "");
    var r := Replace(secure, "") + Size96;
    assert r == scheme + (Replace(rest, "") + Size96);
    assert r[..|scheme|] == scheme;
  }

  /** A URL that is not Google-hosted and not `http://` is returned as given. */
  lemma OtherUrlsKept(url: string)
    requires url != "" && !StartsWith(url, "http://") && !Contains(url, GoogleHost)
    ensures RoutePictureUrl(Some(url)) == Some(url)
  {
  }

  /** A URL that holds the host keeps holding it with text added at the end. */
  lemma HostKept(p: string, x: string)
    requires Contains(p, GoogleHost)
    ensures Contains(p + x, GoogleHost)
  {
    assert (p + x)[0..|p|] == p;
    ContainsSlice(p + x, 0, |p|, GoogleHost);
  }

  /**
   * Unlike the profile component's helper, the route's is not idempotent:
   * on a Google URL ending in `==s5s7`, removing `=s5` splices a new token
   * `=s7`, which only a second pass removes.
   */
  lemma RoutePictureUrlNotIdempotent(p: string)
    requires Contains(p, GoogleHost) && '=' !in p && StartsWith(p, "https://")
    ensures var once := RoutePictureUrl(Some(p + "==s5s7"));
      once == Some(p + "=s7" + Size96)
      && RoutePictureUrl(once) == Some(p + Size96)
      && RoutePictureUrl(once) != once
  {
    FirstPass(p);
    SecondPass(p);
    var once := p + "=s7" + Size96;
    assert |p + Size96| < |once|;
  }

  /** The first pass removes `=s5` and appends the size suffix. */
  lemma FirstPass(p: string)
    requires Contains(p, GoogleHost) && '=' !in p && StartsWith(p, "https://")
    ensures RoutePictureUrl(Some(p + "==s5s7")) == Some(p + "=s7" + Size96)
  {
    var url := p + "==s5s7";
    HostKept(p, "==s5s7");
    assert url[4] == p[4] == 's';
    assert UpgradeScheme(url) == url;
    PrefixUntouched(p, "==s5s7", "");
    SplicedTail();
  }

  lemma SplicedTail()
    ensures Replace("==s5s7", "") == "=s7"
  {
    assert TokenLen("==s5s7") == 0;
    var t := "=s5s7";
    assert DigitsEnd(t, 3) == 3;
    assert TokenLen(t) == 3;
    assert t[3..] == "s7";
    assert Replace("s7", "") == "s7";
  }

  /** The second pass removes the spliced `=s7` and the suffix, and appends the suffix again. */
  lemma SecondPass(p: string)
    requires Contains(p, GoogleHost) && '=' !in p && StartsWith(p, "https://")
    ensures RoutePictureUrl(Some(p + "=s7" + Size96)) == Some(p + Size96)
  {
    var tail := "=s7" + Size96;
    var once := p + tail;
    assert p + "=s7" + Size96 == once;
    HostKept(p, tail);
    assert once[4] == p[4];
    assert UpgradeScheme(once) == once;
    PrefixUntouched(p, tail, "");
    SplicedTokensRemoved();
    assert Replace(once, "") == p;
  }

  lemma SplicedTokensRemoved()
    ensures Replace("=s7" + Size96, "") == ""
  {
    var tail := "=s7" + Size96;
    assert tail[3] == '=';
    assert DigitsEnd(tail, 3) == 3;
    assert TokenLen(tail) == 3;
    assert tail[3..] == Size96;
    Size96IsToken([]);
    assert Size96 + [] == Size96;
    assert Size96[|Size96|..] == [];
    assert Replace(Size96, "") == "";
  }

  // ---------------------------------------------------------------------
  // Cookie header

  /** Assigning this name on a plain object sets its prototype, not a property: a string value is ignored. */
  const ProtoKey: string := "__proto__"

  /**
   * The name and value of one `;`-separated entry: in the trimmed entry, the
   * name is the text before the first `=` and the value the text after it,
   * up to the next `=` or the end. There is none exactly when the entry has
   * no `=`, starts with one, or has nothing but another `=` or the end after
   * the first.
   */
  function CookieEntry(cookie: string): (r: Option<(string, string)>)
    ensures r.Some? ==> r.value.0 != "" && r.value.1 != "" && '=' !in r.value.0 && '=' !in r.value.1
    ensures r.Some? ==>
              var t, n, v := Trim(cookie), |r.value.0|, |r.value.1|;
              n + 1 + v <= |t| && t[..n] == r.value.0 && t[n] == '=' && t[n + 1..n + 1 + v] == r.value.1
              && (n + 1 + v == |t| || t[n + 1 + v] == '=')
    ensures r.Some? <==>
              exists n :: 0 < n && n + 1 < |Trim(cookie)| && Trim(cookie)[n] == '=' && '=' !in Trim(cookie)[..n]
                && Trim(cookie)[n + 1] != '='
  {
    var t := Trim(cookie);
    var parts := Split(t, '=');
    SecondPiece(t);
    BothPiecesWhen(t);
    var name := parts[0];
    var value := if |parts| > 1 then parts[1] else "";
    if name != "" && value != "" then Some((name, value)) else None
  }

  /** The first two pieces of `t` cut at `=`: where they lie in `t`, and when both are non-empty. */
  lemma FirstTwoPieces(t: string)
    ensures var parts := Split(t, '=');
      var name, value := parts[0], if |parts| > 1 then parts[1] else "";
      (name != "" && value != "" ==>
        |name| + 1 + |value| <= |t| && t[..|name|] == name && t[|name|] == '='
        && t[|name| + 1..|name| + 1 + |value|] == value
        && (|name| + 1 + |value| == |t| || t[|name| + 1 + |value|] == '='))
      && (name != "" && value != "" <==>
            exists n :: 0 < n && n + 1 < |t| && t[n] == '=' && '=' !in t[..n] && t[n + 1] != '=')
  {
    SecondPiece(t);
    BothPiecesWhen(t);
  }

  /** Where the second piece lies: after the first `=`, up to the next `=` or the end. */
  lemma SecondPiece(t: string)
    ensures var parts := Split(t, '=');
      |parts| > 1 ==>
        |parts[0]| + 1 + |parts[1]| <= |t| && t[..|parts[0]|] == parts[0] && t[|parts[0]|] == '='
        && t[|parts[0]| + 1..|parts[0]| + 1 + |parts[1]|] == parts[1]
        && (|parts[0]| + 1 + |parts[1]| == |t| || t[|parts[0]| + 1 + |parts[1]|] == '=')
  {
    hide Split;
    var parts := Split(t, '=');
    SplitHead(t, '=');
    if |parts| > 1 {
      var name := parts[0];
      var u := t[|name| + 1..];
      SplitHead(u, '=');
      var value := parts[1];
      assert value == Split(u, '=')[0];
      assert |value| <= |u| && u[..|value|] == value;
      assert u[..|value|] == t[|name| + 1..|name| + 1 + |value|];
    }
  }

  /** Both pieces are non-empty exactly when the first `=` is neither at the start nor followed by `=` or the end. */
  lemma BothPiecesWhen(t: string)
    ensures var parts := Split(t, '=');
      var name, value := parts[0], if |parts| > 1 then parts[1] else "";
      name != "" && value != "" <==>
        exists n :: 0 < n && n + 1 < |t| && t[n] == '=' && '=' !in t[..n] && t[n + 1] != '='
  {
    var parts := Split(t, '=');
    SplitHead(t, '=');
    SecondPiece(t);
    var name := parts[0];
    var value := if |parts| > 1 then parts[1] else "";
    forall n | 0 < n && n + 1 < |t| && t[n] == '=' && '=' !in t[..n] && t[n + 1] != '='
      ensures name != "" && value != ""
    {
      assert t[..|name|] == name;
      assert |name| == n;
      assert |parts| > 1;
      assert t[|name| + 1..][0] == t[n + 1];
    }
    if name != "" && value != "" {
      assert t[|name| + 1] == value[0];
      assert '=' !in t[..|name|];
    }
  }

  /** `acc[name] = value` */
  function Assign(acc: map<string, string>, name: string, value: string): map<string, string> {
    if name == ProtoKey then acc else acc[name := value]
  }

  /** The record the reduce builds from the entries seen so far. */
  function CookieMap(entries: seq<string>): map<string, string> {
    if entries == [] then map[]
    else
      var acc := CookieMap(entries[..|entries| - 1]);
      match CookieEntry(entries[|entries| - 1])
      case Some((name, value)) => Assign(acc, name, value)
      case None => acc
  }

  /** Reference reading: the value of the last entry that names `name` and has a value. */
  function LastValue(entries: seq<string>, name: string): Option<string> {
    if entries == [] then None
    else
      var e := CookieEntry(entries[|entries| - 1]);
      if e.Some? && e.value.0 == name then Some(e.value.1) else LastValue(entries[..|entries| - 1], name)
  }

  /** The record holds, for each name but `__proto__`, the value of its last valid entry: later entries overwrite earlier ones. */
  lemma {:induction false} CookieMapIsLastValue(entries: seq<string>, name: string)
    ensures ProtoKey !in CookieMap(entries)
    ensures name != ProtoKey ==>
      (name in CookieMap(entries) <==> LastValue(entries, name).Some?)
      && (name in CookieMap(entries) ==> CookieMap(entries)[name] == LastValue(entries, name).value)
  {
    if entries != [] {
      var init := entries[..|entries| - 1];
      CookieMapIsLastValue(init, name);
      var acc := CookieMap(init);
      var e := CookieEntry(entries[|entries| - 1]);
      if e.Some? {
        assert CookieMap(entries) == Assign(acc, e.value.0, e.value.1);
        if e.value.0 == name {
          assert LastValue(entries, name) == Some(e.value.1);
        } else {
          assert LastValue(entries, name) == LastValue(init, name);
        }
      } else {
        assert CookieMap(entries) == acc;
        assert LastValue(entries, name) == LastValue(init, name);
      }
    }
  }

  predicate Clean(name: string, value: string) {
    name != "" && value != "" && '=' !in value && ';' !in value
  }

  /** Every stored name and value is non-empty, and a value holds no `=` and no `;`. */
  lemma {:induction false} CookieValuesClean(entries: seq<string>)
    requires forall k :: 0 <= k < |entries| ==> ';' !in entries[k]
    ensures forall n :: n in CookieMap(entries) ==> Clean(n, CookieMap(entries)[n])
  {
    hide CookieEntry;
    if entries != [] {
      var init := entries[..|entries| - 1];
      CookieValuesClean(init);
      var acc := CookieMap(init);
      var last := entries[|entries| - 1];
      var e := CookieEntry(last);
      if e.Some? {
        var name, value := e.value.0, e.value.1;
        assert CookieMap(entries) == Assign(acc, name, value);
        assert Clean(name, value);
      } else {
        assert CookieMap(entries) == acc;
      }
    }
  }

  /** The `reduce` over `cookieHeader.split(';')`, writing into a fresh record. */
  method ParseCookies(cookieHeader: string) returns (cookies: map<string, string>)
    ensures cookies == CookieMap(Split(cookieHeader, ';'))
  {
    var entries := Split(cookieHeader, ';');
    cookies := map[];
    for i := 0 to |entries|
      invariant cookies == CookieMap(entries[..i])
    {
      assert entries[..i + 1][..i] == entries[..i];
      var parts := Split(Trim(entries[i]), '=');
      var name := parts[0];
      var value := if |parts| > 1 then parts[1] else "";
      if name != "" && value != "" {
        if name != ProtoKey {
          cookies := cookies[name := value];
        }
      }
    }
    assert entries[..|entries|] == entries;
  }

  const TokenCookie: string := "google_access_token"

  /** What the handler does next. */
  datatype Outcome = NotAuthenticated | FetchProfile(accessToken: string)

  /** `request.headers.get('cookie') || ''` */
  function HeaderText(cookieHeader: Option<string>): string {
    match cookieHeader
    case Some(h) => h
    case None => ""
  }

  /** The decision the handler takes before calling Google. */
  function Decide(cookies: map<string, string>): Outcome {
    if TokenCookie in cookies && cookies[TokenCookie] != "" then FetchProfile(cookies[TokenCookie])
    else NotAuthenticated
  }

  /** The start of `GET`: parse the cookies, then answer 401 or go on with the token. */
  method Get(cookieHeader: Option<string>) returns (outcome: Outcome)
    ensures outcome == Decide(CookieMap(Split(HeaderText(cookieHeader), ';')))
  {
    var cookies := ParseCookies(HeaderText(cookieHeader));
    if TokenCookie !in cookies || cookies[TokenCookie] == "" {
      return NotAuthenticated;
    }
    outcome := FetchProfile(cookies[TokenCookie]);
  }

  /** The 401 branch is taken exactly when no entry gives `google_access_token` a value; otherwise the last such value is used. */
  lemma NotAuthenticatedIffNoToken(cookieHeader: Option<string>)
    ensures var entries := Split(HeaderText(cookieHeader), ';');
      var outcome := Decide(CookieMap(entries));
      (outcome == NotAuthenticated <==> LastValue(entries, TokenCookie).None?)
      && (outcome.FetchProfile? ==> outcome.accessToken == LastValue(entries, TokenCookie).value)
  {
    var entries := Split(HeaderText(cookieHeader), ';');
    CookieMapIsLastValue(entries, TokenCookie);
    CookieValuesClean(entries);
  }
}
