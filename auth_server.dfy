/** The server-side cookie helpers of the frontend (`utils/auth.server.ts`): building
    `Set-Cookie` headers (RFC 6265, section 4.1.1), parsing the `Cookie` request header, and
    deciding whether the stored access token is about to expire. The environment
    (`NODE_ENV`), the clock (`Date.now()`, in milliseconds) and `parseInt` are parameters. */
module AuthServer {
  import opened Wrappers
  import opened Strings
  import opened Cookies

  const AccessTokenCookie: string := "accessToken"
  const RefreshTokenCookie: string := "refreshToken"
  const TokenExpiryCookie: string := "tokenExpiry"

  /** The cookies' lifetime, 30 days, in seconds (`Max-Age`). */
  const MaxAge: int := 30 * 24 * 60 * 60
  /** The margin before the recorded expiry from which a token counts as expired: 5 minutes,
      in milliseconds. */
  const ExpiryMargin: int := 5 * 60 * 1000

  datatype SameSite = Lax | Strict | NoRestriction
  {
    function Text(): string
    {
      match this
      case Lax => "lax"
      case Strict => "strict"
      case NoRestriction => "none"
    }
  }

  /** `CookieOptions`. A `maxAge` of 0 is falsy and leaves `Max-Age` out. */
  datatype CookieOptions = CookieOptions(httpOnly: bool, secure: bool, sameSite: SameSite, path: string, maxAge: int)

  /** The response of the token endpoints the helpers store; the user part is not used here. */
  datatype TokenResponse = TokenResponse(token: string, refreshToken: string)

  // ---------------------------------------------------------------------------------------
  // Set-Cookie

  /** The attributes `getCookieHeader` pushes after the pair, in order, each only when its
      option is truthy (`sameSite` always is). */
  function Attributes(options: CookieOptions): seq<string>
  {
    (if options.httpOnly then ["HttpOnly"] else [])
    + (if options.secure then ["Secure"] else [])
    + ["SameSite=" + options.sameSite.Text()]
    + (if options.path != "" then ["Path=" + options.path] else [])
    + (if options.maxAge != 0 then ["Max-Age=" + IntToString(options.maxAge)] else [])
  }

  /** The parts of `getCookieHeader`: the pair, then the attributes. */
  function CookieParts(name: string, value: string, options: CookieOptions): (parts: seq<string>)
    ensures |parts| >= 2 && parts[0] == name + "=" + value && parts[1..] == Attributes(options)
  {
    [name + "=" + value] + Attributes(options)
  }

  /** Each attribute is present exactly when its option is truthy. */
  lemma AttributesPresent(options: CookieOptions)
    ensures var attributes := Attributes(options);
      ("HttpOnly" in attributes <==> options.httpOnly)
      && ("Secure" in attributes <==> options.secure)
      && "SameSite=" + options.sameSite.Text() in attributes
      && ("Path=" + options.path in attributes <==> options.path != "")
      && ("Max-Age=" + IntToString(options.maxAge) in attributes <==> options.maxAge != 0)
  {
    var attributes := Attributes(options);
    assert "SameSite=" + options.sameSite.Text() in attributes by {
      assert attributes[|Heads(options)|] == "SameSite=" + options.sameSite.Text();
    }
    HttpOnlyPresent(options);
    SecurePresent(options);
    TailPresent(options);
  }

  /** The attributes before `SameSite`. */
  function Heads(options: CookieOptions): seq<string>
  {
    (if options.httpOnly then ["HttpOnly"] else []) + (if options.secure then ["Secure"] else [])
  }

  /** The attributes after `SameSite`. */
  function Tails(options: CookieOptions): seq<string>
  {
    (if options.path != "" then ["Path=" + options.path] else [])
    + (if options.maxAge != 0 then ["Max-Age=" + IntToString(options.maxAge)] else [])
  }

  lemma AttributesSplit(options: CookieOptions)
    ensures Attributes(options) == Heads(options) + ["SameSite=" + options.sameSite.Text()] + Tails(options)
  {
  }

  /** Every attribute after `SameSite` starts with 'P' or 'M'. */
  lemma TailsInitials(options: CookieOptions)
    ensures forall a :: a in Tails(options) ==> a != [] && (a[0] == 'P' || a[0] == 'M')
  {
    var path := "Path=" + options.path;
    var maxAge := "Max-Age=" + IntToString(options.maxAge);
    assert path[0] == 'P' && maxAge[0] == 'M';
  }

  lemma HttpOnlyPresent(options: CookieOptions)
    ensures "HttpOnly" in Attributes(options) <==> options.httpOnly
  {
    var ss := "SameSite=" + options.sameSite.Text();
    AttributesSplit(options);
    TailsInitials(options);
    assert "HttpOnly" !in Tails(options) by {
      assert "HttpOnly"[0] == 'H';
    }
    assert "HttpOnly" != ss by {
      assert ss[0] == 'S';
    }
  }

  lemma SecurePresent(options: CookieOptions)
    ensures "Secure" in Attributes(options) <==> options.secure
  {
    var ss := "SameSite=" + options.sameSite.Text();
    AttributesSplit(options);
    TailsInitials(options);
    assert "Secure" !in Tails(options) by {
      assert "Secure"[0] == 'S';
    }
    assert "Secure" != ss by {
      assert "Secure"[1] == 'e' && ss[1] == 'a';
    }
  }

  lemma TailPresent(options: CookieOptions)
    ensures "Path=" + options.path in Attributes(options) <==> options.path != ""
    ensures "Max-Age=" + IntToString(options.maxAge) in Attributes(options) <==> options.maxAge != 0
  {
    var ss := "SameSite=" + options.sameSite.Text();
    var path := "Path=" + options.path;
    var maxAge := "Max-Age=" + IntToString(options.maxAge);
    AttributesSplit(options);
    assert path[0] == 'P' && maxAge[0] == 'M' && ss[0] == 'S';
    assert forall a :: a in Heads(options) ==> a[0] == 'H' || a[0] == 'S';
    assert path != maxAge;
  }

  /** `getCookieHeader`: the parts joined by "; ". */
  function GetCookieHeader(name: string, value: string, options: CookieOptions): (header: string)
    ensures StartsWith(header, name + "=" + value)
  {
    var parts := CookieParts(name, value, options);
    assert Join(parts, "; ") == parts[0] + "; " + Join(parts[1..], "; ");
    Join(parts, "; ")
  }

  /** `getCookieHeader` as written: the parts pushed one by one, then joined. */
  method BuildCookieHeader(name: string, value: string, options: CookieOptions) returns (header: string)
    ensures header == GetCookieHeader(name, value, options)
  {
    var parts := [name + "=" + value];
    ghost var h := if options.httpOnly then ["HttpOnly"] else [];
    ghost var s := if options.secure then ["Secure"] else [];
    ghost var p := if options.path != "" then ["Path=" + options.path] else [];
    ghost var m := if options.maxAge != 0 then ["Max-Age=" + IntToString(options.maxAge)] else [];
    if options.httpOnly { parts := parts + ["HttpOnly"]; }
    assert parts == [name + "=" + value] + h;
    if options.secure { parts := parts + ["Secure"]; }
    assert parts == [name + "=" + value] + h + s;
    parts := parts + ["SameSite=" + options.sameSite.Text()];
    if options.path != "" { parts := parts + ["Path=" + options.path]; }
    assert parts == [name + "=" + value] + h + s + ["SameSite=" + options.sameSite.Text()] + p;
    if options.maxAge != 0 { parts := parts + ["Max-Age=" + IntToString(options.maxAge)]; }
    assert parts == [name + "=" + value] + (h + s + ["SameSite=" + options.sameSite.Text()] + p + m);
    header := Join(parts, "; ");
  }

  /** No attribute holds ';' when the path does not. */
  lemma AttributesFree(options: CookieOptions)
    requires ';' !in options.path
    ensures forall a :: a in Attributes(options) ==> ';' !in a
  {
    var maxAgeText := IntToString(options.maxAge);
    assert ';' !in maxAgeText by {
      var digits := NatToString(if options.maxAge < 0 then -options.maxAge else options.maxAge);
      assert forall i :: 0 <= i < |digits| ==> IsDigit(digits[i]);
    }
    var t := options.sameSite.Text();
    assert ';' !in t;
    assert ';' !in "SameSite=" + t;
    assert ';' !in "Path=" + options.path;
    assert ';' !in "Max-Age=" + maxAgeText;
  }

  /** A header splits back into its parts when the pair and the path hold no ';'. */
  lemma CookieHeaderRoundTrip(name: string, value: string, options: CookieOptions)
    requires ';' !in name && ';' !in value && ';' !in options.path
    ensures SplitOn(GetCookieHeader(name, value, options), "; ") == CookieParts(name, value, options)
  {
    var parts := CookieParts(name, value, options);
    AttributesFree(options);
    assert forall i :: 1 <= i < |parts| ==> parts[i] in Attributes(options) by {
      forall i | 1 <= i < |parts| ensures parts[i] in Attributes(options) {
        assert parts[i] == parts[1..][i - 1];
      }
    }
    SplitOnJoin(parts, "; ");
  }

  /** The options `setAuthCookies` and `clearAuthCookies` use. */
  function SessionOptions(production: bool, maxAge: int): CookieOptions
  {
    CookieOptions(true, production, Lax, "/", maxAge)
  }

  /** `setAuthCookies`: the access token, the refresh token and the expiry instant in
      milliseconds, each kept for `MaxAge` seconds. */
  function SetAuthCookies(response: TokenResponse, now: nat, production: bool): (headers: seq<string>)
    ensures |headers| == 3
  {
    var options := SessionOptions(production, MaxAge);
    var expiry := now + MaxAge * 1000;
    [GetCookieHeader(AccessTokenCookie, response.token, options),
     GetCookieHeader(RefreshTokenCookie, response.refreshToken, options),
     GetCookieHeader(TokenExpiryCookie, NatToString(expiry), options)]
  }

  /** `clearAuthCookies`: the three cookies with empty values; `maxAge: 0` is falsy, so the
      headers carry no `Max-Age`. */
  function ClearAuthCookies(production: bool): (headers: seq<string>)
    ensures |headers| == 3
  {
    var options := SessionOptions(production, 0);
    [GetCookieHeader(AccessTokenCookie, "", options),
     GetCookieHeader(RefreshTokenCookie, "", options),
     GetCookieHeader(TokenExpiryCookie, "", options)]
  }

  /** The attributes the session cookies carry, `Secure` only in production. */
  function SessionAttributes(production: bool, maxAge: seq<string>): seq<string>
  {
    ["HttpOnly"] + (if production then ["Secure"] else []) + ["SameSite=lax", "Path=/"] + maxAge
  }

  /** `String(2592000)`. */
  lemma MaxAgeText()
    ensures IntToString(MaxAge) == "2592000"
  {
    assert NatToString(2) == "2";
    assert NatToString(25) == NatToString(2) + ['5'];
    assert NatToString(259) == NatToString(25) + ['9'];
    assert NatToString(2592) == NatToString(259) + ['2'];
    assert NatToString(25920) == NatToString(2592) + ['0'];
    assert NatToString(259200) == NatToString(25920) + ['0'];
    assert NatToString(2592000) == NatToString(259200) + ['0'];
  }

  /** A session cookie's header, read back: the pair, then the session attributes. */
  lemma SessionHeaderParts(name: string, value: string, production: bool, maxAge: int)
    requires ';' !in name && ';' !in value
    ensures SplitOn(GetCookieHeader(name, value, SessionOptions(production, maxAge)), "; ")
         == [name + "=" + value]
            + SessionAttributes(production, if maxAge != 0 then ["Max-Age=" + IntToString(maxAge)] else [])
  {
    CookieHeaderRoundTrip(name, value, SessionOptions(production, maxAge));
    assert "SameSite=" + Lax.Text() == "SameSite=lax";
    assert "Path=" + "/" == "Path=/";
  }

  /** The headers of `setAuthCookies`, read back: the three pairs in order, then the same
      attributes on each, ending in `Max-Age` with the 30 days in seconds (see `MaxAgeText`). */
  lemma SetAuthCookiesParts(response: TokenResponse, now: nat, production: bool)
    requires ';' !in response.token && ';' !in response.refreshToken
    ensures var headers := SetAuthCookies(response, now, production);
      var attributes := SessionAttributes(production, ["Max-Age=" + IntToString(MaxAge)]);
      SplitOn(headers[0], "; ") == [AccessTokenCookie + "=" + response.token] + attributes
      && SplitOn(headers[1], "; ") == [RefreshTokenCookie + "=" + response.refreshToken] + attributes
      && SplitOn(headers[2], "; ") == [TokenExpiryCookie + "=" + NatToString(now + MaxAge * 1000)] + attributes
  {
    var expiry := NatToString(now + MaxAge * 1000);
    var headers := SetAuthCookies(response, now, production);
    var options := SessionOptions(production, MaxAge);
    assert headers[0] == GetCookieHeader(AccessTokenCookie, response.token, options);
    assert headers[1] == GetCookieHeader(RefreshTokenCookie, response.refreshToken, options);
    assert headers[2] == GetCookieHeader(TokenExpiryCookie, expiry, options);
    CookieNamesAreTokens();
    ExpiryIsToken(now + MaxAge * 1000);
    assert ';' !in AccessTokenCookie && ';' !in RefreshTokenCookie && ';' !in TokenExpiryCookie && ';' !in expiry;
    SessionHeaderParts(AccessTokenCookie, response.token, production, MaxAge);
    SessionHeaderParts(RefreshTokenCookie, response.refreshToken, production, MaxAge);
    SessionHeaderParts(TokenExpiryCookie, expiry, production, MaxAge);
  }

  /** The headers of `clearAuthCookies`, read back: empty values and no `Max-Age`. */
  lemma ClearAuthCookiesParts(production: bool)
    ensures var headers := ClearAuthCookies(production);
      var attributes := SessionAttributes(production, []);
      SplitOn(headers[0], "; ") == [AccessTokenCookie + "="] + attributes
      && SplitOn(headers[1], "; ") == [RefreshTokenCookie + "="] + attributes
      && SplitOn(headers[2], "; ") == [TokenExpiryCookie + "="] + attributes
  {
    var headers := ClearAuthCookies(production);
    var options := SessionOptions(production, 0);
    assert headers[0] == GetCookieHeader(AccessTokenCookie, "", options);
    assert headers[1] == GetCookieHeader(RefreshTokenCookie, "", options);
    assert headers[2] == GetCookieHeader(TokenExpiryCookie, "", options);
    SessionHeaderParts(AccessTokenCookie, "", production, 0);
    SessionHeaderParts(RefreshTokenCookie, "", production, 0);
    SessionHeaderParts(TokenExpiryCookie, "", production, 0);
    assert AccessTokenCookie + "=" + "" == AccessTokenCookie + "=";
    assert RefreshTokenCookie + "=" + "" == RefreshTokenCookie + "=";
    assert TokenExpiryCookie + "=" + "" == TokenExpiryCookie + "=";
  }

  // ---------------------------------------------------------------------------------------
  // Cookie header

  /** What `parseCookies` can return: non-empty names and values, neither holding '='. */
  predicate WellFormedCookies(m: map<string, string>)
  {
    forall n :: n in m ==> n != "" && '=' !in n && m[n] != "" && '=' !in m[n]
  }

  /** One step of the `reduce` in `parseCookies`: the trimmed piece split at '=' gives the
      name and the value (the second piece only); both must be non-empty. */
  function AddCookie(acc: map<string, string>, piece: string): (r: map<string, string>)
    ensures WellFormedCookies(acc) ==> WellFormedCookies(r)
    ensures acc.Keys <= r.Keys
  {
    var parts := Split(Trim(piece), '=');
    SplitPiecesFree(Trim(piece), '=');
    var name := parts[0];
    var value := if |parts| >= 2 then parts[1] else "";
    if name != "" && value != "" then acc[name := value] else acc
  }

  /** The `reduce` of `parseCookies` over `pieces`, from the accumulator `acc`. */
  function CookiesFrom(acc: map<string, string>, pieces: seq<string>): (r: map<string, string>)
    ensures WellFormedCookies(acc) ==> WellFormedCookies(r)
    decreases |pieces|
  {
    if pieces == [] then acc else CookiesFrom(AddCookie(acc, pieces[0]), pieces[1..])
  }

  /** The cookies `parseCookies` returns for the header, if any. A missing or empty header
      gives none. */
  function CookiesOf(cookieHeader: Option<string>): (r: map<string, string>)
    ensures WellFormedCookies(r)
  {
    if cookieHeader.None? || cookieHeader.value == "" then map[]
    else CookiesFrom(map[], Split(cookieHeader.value, ';'))
  }

  /** `parseCookies`: the reduce, one piece at a time. */
  method ParseCookies(cookieHeader: Option<string>) returns (cookies: map<string, string>)
    ensures cookies == CookiesOf(cookieHeader)
    ensures cookieHeader.None? ==> cookies == map[]
  {
    if cookieHeader.None? || cookieHeader.value == "" {
      return map[];
    }
    var pieces := Split(cookieHeader.value, ';');
    cookies := map[];
    for k := 0 to |pieces|
      invariant CookiesFrom(cookies, pieces[k..]) == CookiesOf(cookieHeader)
    {
      var parts := Split(Trim(pieces[k]), '=');
      var name := parts[0];
      var value := if |parts| >= 2 then parts[1] else "";
      if name != "" && value != "" {
        cookies := cookies[name := value];
      }
      assert pieces[k..][1..] == pieces[k + 1..];
    }
  }

  /** A piece holding one pair, with or without the space after the separator, trims and
      splits into its name and value. */
  lemma PieceSplits(piece: string, p: CookiePair)
    requires Token(p.name) && Token(p.value)
    requires piece == Render(p) || piece == " " + Render(p)
    ensures Split(Trim(piece), '=') == [p.name, p.value]
  {
    TrimPiece(piece, p);
    RenderSplits(p);
  }

  lemma RenderSplits(p: CookiePair)
    requires Token(p.name) && Token(p.value)
    ensures Split(Render(p), '=') == [p.name, p.value]
  {
    assert '=' !in p.name && '=' !in p.value;
    RenderedPairFree(p);
    SplitOnJoin([p.name, p.value], "=");
  }

  lemma TrimPiece(piece: string, p: CookiePair)
    requires Token(p.name) && Token(p.value)
    requires piece == Render(p) || piece == " " + Render(p)
    ensures Trim(piece) == Render(p)
  {
    var r := Render(p);
    assert forall i :: 0 <= i < |r| ==> !IsSpace(r[i]) by {
      RenderedPairFree(p);
    }
    TrimPadded(piece, r);
  }

  /** Such a piece adds its pair. */
  lemma AddPair(acc: map<string, string>, piece: string, p: CookiePair)
    requires Token(p.name) && Token(p.value)
    requires piece == Render(p) || piece == " " + Render(p)
    ensures AddCookie(acc, piece) == acc[p.name := p.value]
  {
    PieceSplits(piece, p);
  }

  /** The pieces of a well-formed header add their pairs in order. */
  lemma {:induction false} CookiesFromPairs(acc: map<string, string>, pieces: seq<string>, pairs: seq<CookiePair>)
    requires SafePairs(pairs) && |pieces| == |pairs|
    requires forall i :: 0 <= i < |pairs| ==> pieces[i] == Render(pairs[i]) || pieces[i] == " " + Render(pairs[i])
    ensures CookiesFrom(acc, pieces) == acc + CookieMap(pairs)
    decreases |pairs|
  {
    if pairs != [] {
      var p := pairs[0];
      AddPair(acc, pieces[0], p);
      CookiesFromPairs(acc[p.name := p.value], pieces[1..], pairs[1..]);
      UpdateThenMerge(acc, p.name, p.value, CookieMap(pairs[1..]));
    }
  }

  lemma EmptyMerge(m: map<string, string>)
    ensures map[] + m == m
  {
  }

  lemma UpdateThenMerge(acc: map<string, string>, k: string, v: string, rest: map<string, string>)
    ensures acc[k := v] + rest == acc + (map[k := v] + rest)
  {
    var a := acc[k := v] + rest;
    var b := acc + (map[k := v] + rest);
    assert a.Keys == b.Keys;
    forall key | key in a
      ensures a[key] == b[key]
    {
    }
  }

  /** Parsing the header a browser sends for cookies set by these helpers gives back exactly
      those cookies, a later duplicate overriding an earlier one. */
  lemma ParseCookieString(pairs: seq<CookiePair>)
    requires SafePairs(pairs)
    ensures CookiesOf(Some(CookieString(pairs))) == CookieMap(pairs)
  {
    if pairs != [] {
      HeaderPieces(pairs);
      CookiesFromPairs(map[], Split(CookieString(pairs), ';'), pairs);
      EmptyMerge(CookieMap(pairs));
    }
  }

  /** A header with at least one cookie is not empty, and its pieces are its pairs. */
  lemma HeaderPieces(pairs: seq<CookiePair>)
    requires SafePairs(pairs) && |pairs| >= 1
    ensures CookieString(pairs) != ""
    ensures var pieces := Split(CookieString(pairs), ';');
      |pieces| == |pairs|
      && forall i :: 0 <= i < |pairs| ==> pieces[i] == Render(pairs[i]) || pieces[i] == " " + Render(pairs[i])
  {
    var header := CookieString(pairs);
    var pieces := Split(header, ';');
    SplitCookieString("", pairs);
    assert "" + header == header;
    assert "" + Render(pairs[0]) == Render(pairs[0]);
    JoinSplitOn(header, [';']);
    assert |Join(pieces, ";")| >= |pieces[0]|;
  }

  /** A value holding '=' is cut at it: only the piece between the first and the second '='
      is kept. */
  lemma ValueCutAtEquals(name: string, value: string, more: string)
    requires Token(name) && Token(value) && Token(more)
    ensures CookiesOf(Some(name + "=" + value + "=" + more)) == map[name := value]
  {
    var s := name + "=" + value + "=" + more;
    ThreeTokensFree(name, value, more);
    assert Split(Trim(s), '=') == [name, value, more] by {
      TrimPadded(s, s);
      ThreeTokensSplit(name, value, more);
    }
    assert Split(s, ';') == [s] by {
      SplitOnNoSep(s, [';']);
    }
    assert AddCookie(map[], s) == map[name := value];
    assert CookiesFrom(map[], [s]) == CookiesFrom(map[name := value], []);
    assert CookiesOf(Some(s)) == CookiesFrom(map[], [s]);
  }

  /** Three tokens joined by '=' hold no white space and no ';'. */
  lemma ThreeTokensFree(name: string, value: string, more: string)
    requires Token(name) && Token(value) && Token(more)
    ensures var s := name + "=" + value + "=" + more;
      forall i :: 0 <= i < |s| ==> !IsSpace(s[i]) && s[i] != ';'
  {
    var s := name + "=" + value + "=" + more;
    forall i | 0 <= i < |s|
      ensures !IsSpace(s[i]) && s[i] != ';'
    {
      if i < |name| {
        assert s[i] == name[i];
      } else if i == |name| {
        assert s[i] == '=';
      } else if i < |name| + 1 + |value| {
        assert s[i] == value[i - |name| - 1];
      } else if i == |name| + 1 + |value| {
        assert s[i] == '=';
      } else {
        assert s[i] == more[i - |name| - |value| - 2];
      }
    }
  }

  /** Three tokens joined by '=' split back into the three. */
  lemma ThreeTokensSplit(name: string, value: string, more: string)
    requires Token(name) && Token(value) && Token(more)
    ensures Split(name + "=" + value + "=" + more, '=') == [name, value, more]
  {
    assert Join([name, value, more], "=") == name + "=" + value + "=" + more by {
      assert [name, value, more][1..] == [value, more];
      assert [value, more][1..] == [more];
      assert Join([value, more], "=") == value + "=" + more;
    }
    assert '=' !in name && '=' !in value && '=' !in more;
    SplitOnJoin([name, value, more], "=");
  }

  /** `getAccessToken`: the access-token cookie, if the header carries one (values are never
      empty, so `|| null` only maps a missing cookie to none). */
  function GetAccessToken(cookieHeader: Option<string>): (r: Option<string>)
    ensures r.Some? <==> AccessTokenCookie in CookiesOf(cookieHeader)
    ensures r.Some? ==> r.value == CookiesOf(cookieHeader)[AccessTokenCookie] && r.value != ""
  {
    var cookies := CookiesOf(cookieHeader);
    if AccessTokenCookie in cookies then Some(cookies[AccessTokenCookie]) else None
  }

  /** `getRefreshToken`: the refresh-token cookie, if the header carries one. */
  function GetRefreshToken(cookieHeader: Option<string>): (r: Option<string>)
    ensures r.Some? <==> RefreshTokenCookie in CookiesOf(cookieHeader)
    ensures r.Some? ==> r.value == CookiesOf(cookieHeader)[RefreshTokenCookie] && r.value != ""
  {
    var cookies := CookiesOf(cookieHeader);
    if RefreshTokenCookie in cookies then Some(cookies[RefreshTokenCookie]) else None
  }

  // ---------------------------------------------------------------------------------------
  // Expiry

  /** What `getTokenExpiry` returns: `null`, `NaN` or a number. */
  datatype ExpiryReading = Missing | NotANumber | Expiry(ms: int)

  /** `getTokenExpiry`. `parseInt(text, 10)` is an oracle: `None` stands for `NaN`. */
  function GetTokenExpiry(cookieHeader: Option<string>, parseInt: string -> Option<int>): (r: ExpiryReading)
    ensures r.Missing? <==> TokenExpiryCookie !in CookiesOf(cookieHeader)
    ensures r.Expiry? ==> parseInt(CookiesOf(cookieHeader)[TokenExpiryCookie]) == Some(r.ms)
  {
    var cookies := CookiesOf(cookieHeader);
    if TokenExpiryCookie !in cookies then Missing
    else
      match parseInt(cookies[TokenExpiryCookie])
      case None => NotANumber
      case Some(n) => Expiry(n)
  }

  /** `isTokenExpired` at time `now`: a missing, zero or unreadable expiry counts as expired;
      otherwise the token counts as expired from `ExpiryMargin` before the recorded instant. */
  function IsTokenExpired(cookieHeader: Option<string>, parseInt: string -> Option<int>, now: int): (expired: bool)
    ensures !expired <==> exists ms :: GetTokenExpiry(cookieHeader, parseInt) == Expiry(ms) && ms != 0 && now < ms - ExpiryMargin
  {
    match GetTokenExpiry(cookieHeader, parseInt)
    case Missing => true
    case NotANumber => true
    case Expiry(ms) => ms == 0 || now >= ms - ExpiryMargin
  }

  /** Once the token counts as expired, it counts as expired at every later time. */
  lemma ExpiredStaysExpired(cookieHeader: Option<string>, parseInt: string -> Option<int>, now: int, later: int)
    requires IsTokenExpired(cookieHeader, parseInt, now) && now <= later
    ensures IsTokenExpired(cookieHeader, parseInt, later)
  {
  }

  /** The session cookies, as the browser sends them back: the pairs of `setAuthCookies`. */
  function SessionPairs(response: TokenResponse, now: nat): seq<CookiePair>
  {
    [CookiePair(AccessTokenCookie, response.token),
     CookiePair(RefreshTokenCookie, response.refreshToken),
     CookiePair(TokenExpiryCookie, NatToString(now + MaxAge * 1000))]
  }

  /** `setAuthCookies` writes exactly the pairs the browser sends back: each header starts
      with its pair. */
  lemma SessionHeadersLead(response: TokenResponse, now: nat, production: bool)
    requires ';' !in response.token && ';' !in response.refreshToken
    ensures var pairs := SessionPairs(response, now);
      var headers := SetAuthCookies(response, now, production);
      forall i :: 0 <= i < 3 ==> SplitOn(headers[i], "; ")[0] == Render(pairs[i])
  {
    SetAuthCookiesParts(response, now, production);
  }

  /** The expiry cookie's value is a decimal number, hence a cookie token. */
  lemma ExpiryIsToken(n: nat)
    ensures Token(NatToString(n))
  {
    var t := NatToString(n);
    assert forall i :: 0 <= i < |t| ==> IsDigit(t[i]);
  }

  /** A session stored at `now` and sent back: `parseCookies` recovers both tokens and the
      expiry instant. */
  lemma SessionCookies(response: TokenResponse, now: nat)
    requires Token(response.token) && Token(response.refreshToken)
    ensures CookiesOf(Some(CookieString(SessionPairs(response, now))))
         == map[AccessTokenCookie := response.token, RefreshTokenCookie := response.refreshToken,
                TokenExpiryCookie := NatToString(now + MaxAge * 1000)]
  {
    var pairs := SessionPairs(response, now);
    ExpiryIsToken(now + MaxAge * 1000);
    CookieNamesAreTokens();
    ThreeSafePairs(pairs);
    SessionMap(response, now);
    ParsedMap(pairs, map[AccessTokenCookie := response.token, RefreshTokenCookie := response.refreshToken,
                         TokenExpiryCookie := NatToString(now + MaxAge * 1000)]);
  }

  /** The three cookie names are cookie tokens. */
  lemma CookieNamesAreTokens()
    ensures Token(AccessTokenCookie) && Token(RefreshTokenCookie) && Token(TokenExpiryCookie)
  {
  }

  lemma ThreeSafePairs(pairs: seq<CookiePair>)
    requires |pairs| == 3
    requires forall i :: 0 <= i < 3 ==> Token(pairs[i].name) && Token(pairs[i].value)
    ensures SafePairs(pairs)
  {
  }

  lemma ParsedMap(pairs: seq<CookiePair>, m: map<string, string>)
    requires SafePairs(pairs) && CookieMap(pairs) == m
    ensures CookiesOf(Some(CookieString(pairs))) == m
  {
    ParseCookieString(pairs);
  }

  lemma SessionMap(response: TokenResponse, now: nat)
    ensures CookieMap(SessionPairs(response, now))
         == map[AccessTokenCookie := response.token, RefreshTokenCookie := response.refreshToken,
                TokenExpiryCookie := NatToString(now + MaxAge * 1000)]
  {
    ThreePairMap(SessionPairs(response, now));
  }

  lemma ThreePairMap(pairs: seq<CookiePair>)
    requires |pairs| == 3
    ensures CookieMap(pairs)
         == map[pairs[0].name := pairs[0].value, pairs[1].name := pairs[1].value, pairs[2].name := pairs[2].value]
  {
    var last := CookieMap(pairs[2..]);
    assert pairs[2..][1..] == [];
    assert last == map[pairs[2].name := pairs[2].value];
    assert pairs[1..][1..] == pairs[2..];
    assert CookieMap(pairs[1..]) == map[pairs[1].name := pairs[1].value] + last;
    MergeThree(pairs[0].name, pairs[0].value, pairs[1].name, pairs[1].value, pairs[2].name, pairs[2].value);
  }

  lemma MergeThree(a: string, x: string, b: string, y: string, c: string, z: string)
    ensures map[a := x] + (map[b := y] + map[c := z]) == map[a := x, b := y, c := z]
  {
  }

  /** With the session sent back, both tokens read back as stored. */
  lemma SessionTokens(response: TokenResponse, now: nat)
    requires Token(response.token) && Token(response.refreshToken)
    ensures var header := Some(CookieString(SessionPairs(response, now)));
      GetAccessToken(header) == Some(response.token) && GetRefreshToken(header) == Some(response.refreshToken)
  {
    SessionCookies(response, now);
  }

  /** With the session sent back, the access token counts as fresh until `ExpiryMargin` before
      the 30 days are over, provided `parseInt` reads the decimal expiry correctly. */
  lemma SessionExpiry(response: TokenResponse, now: nat, parseInt: string -> Option<int>, later: int)
    requires Token(response.token) && Token(response.refreshToken)
    requires parseInt(NatToString(now + MaxAge * 1000)) == Some(now + MaxAge * 1000)
    ensures var header := Some(CookieString(SessionPairs(response, now)));
      IsTokenExpired(header, parseInt, later) <==> later >= now + MaxAge * 1000 - ExpiryMargin
  {
    SessionCookies(response, now);
  }
}
