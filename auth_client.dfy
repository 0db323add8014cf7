/** The browser-side cookie lookup of the frontend (`getCookie` in `auth.client.ts`): it puts
    "; " in front of `document.cookie`, splits at "; name=" and keeps what follows up to the
    next ';'. The model shows which cookie it finds in a header built from pairs, and where it
    and the server-side parser agree. */
module AuthClient {
  import opened Wrappers
  import opened Strings
  import opened Cookies
  import opened AuthServer

  /** The separator `getCookie` splits at. */
  function Marker(name: string): (sep: string)
    ensures |sep| == |name| + 3 && sep[0] == ';'
  {
    "; " + name + "="
  }

  /** `getCookie`. `documentCookie` is `None` where there is no `document` (server-side
      rendering). */
  function GetCookie(documentCookie: Option<string>, name: string): Option<string>
  {
    if documentCookie.None? then None
    else
      var parts := SplitOn("; " + documentCookie.value, Marker(name));
      if |parts| == 2 then
        var v := Split(parts[1], ';')[0];
        if v == "" then None else Some(v)
      else None
  }

  /** A segment "; n=v" of another cookie does not hold the marker of `name` at its start. */
  lemma OtherSegment(p: CookiePair, name: string, t: string)
    requires Token(p.name) && Token(p.value) && Token(name) && p.name != name
    ensures var s := "; " + Render(p) + t;
      |s| >= |Marker(name)| ==> s[..|Marker(name)|] != Marker(name)
  {
    var s := "; " + Render(p) + t;
    var sep := Marker(name);
    if |s| >= |sep| {
      var k: int;
      if |name| < |p.name| {
        k := 2 + |name|;
        assert s[k] == p.name[|name|] != '=' && sep[k] == '=';
      } else if |name| > |p.name| {
        k := 2 + |p.name|;
        assert s[k] == '=' && sep[k] == name[|p.name|] != '=';
      } else {
        var i :| 0 <= i < |name| && name[i] != p.name[i];
        k := 2 + i;
        assert s[k] == p.name[i] && sep[k] == name[i];
      }
      assert s[..|sep|][k] != sep[k];
    }
  }

  /** The first piece of a value followed by nothing or by another ';'-led piece. */
  lemma ValueBeforeSemicolon(v: string, rest: string)
    requires ';' !in v && (rest == "" || rest[0] == ';')
    ensures Split(v + rest, ';')[0] == v
  {
    if rest == "" {
      assert v + rest == v;
      SplitOnNoSep(v, [';']);
    } else {
      assert v + rest == v + [';'] + rest[1..];
      SplitOnCons(v, [';'], rest[1..]);
    }
  }

  /** The pieces for segments led by a pair named `name`: an empty piece, then the value
      absorbed into the first piece of the rest. */
  lemma MatchingSegment(p: CookiePair, name: string, tail: string)
    requires Token(p.value) && p.name == name
    ensures var rest := SplitOn(tail, Marker(name));
      SplitOn("; " + Render(p) + tail, Marker(name)) == ["", p.value + rest[0]] + rest[1..]
  {
    var sep := Marker(name);
    var u := p.value + tail;
    var s := "; " + Render(p) + tail;
    assert s == sep + u;
    assert s[..|sep|] == sep && s[|sep|..] == u;
    assert SplitOn(s, sep) == [""] + SplitOn(u, sep);
    SplitOnAbsorb(p.value, tail, sep);
  }

  /** The pieces for segments led by another pair: the whole segment is absorbed into the
      first piece of the rest. */
  lemma OtherSegmentSplit(p: CookiePair, name: string, tail: string)
    requires Token(p.name) && Token(p.value) && Token(name) && p.name != name
    ensures var rest := SplitOn(tail, Marker(name));
      SplitOn("; " + Render(p) + tail, Marker(name)) == [("; " + Render(p)) + rest[0]] + rest[1..]
  {
    var sep := Marker(name);
    var x := " " + Render(p);
    assert "; " + Render(p) + tail == [';'] + (x + tail);
    assert ';' !in x by {
      RenderedPairFree(p);
    }
    OtherSegment(p, name, tail);
    MissThenAbsorb(';', x, tail, sep);
    assert [';'] + x == "; " + Render(p);
  }

  /** A character that does not start the separator, then a separator-free run: both are
      absorbed into the first piece of the rest. */
  lemma MissThenAbsorb(c: char, x: string, tail: string, sep: string)
    requires |sep| > 0 && sep[0] !in x
    requires |x + tail| + 1 >= |sep| ==> ([c] + (x + tail))[..|sep|] != sep
    ensures var rest := SplitOn(tail, sep);
      SplitOn([c] + (x + tail), sep) == [([c] + x) + rest[0]] + rest[1..]
  {
    var rest := SplitOn(tail, sep);
    SplitOnAbsorb(x, tail, sep);
    SplitOnMiss(c, x + tail, sep);
    assert [c] + (x + rest[0]) == ([c] + x) + rest[0];
  }

  /** Splitting the segments at the marker of `name`: one more piece than there are pairs named
      `name`, and the second piece starts with the first such pair's value, up to a ';'. */
  lemma {:induction false} SplitSegments(pairs: seq<CookiePair>, name: string)
    requires SafePairs(pairs) && Token(name)
    ensures var parts := SplitOn(Segments(pairs), Marker(name));
      |parts| == 1 + CountNamed(pairs, name)
      && (parts[0] == "" || parts[0][0] == ';')
      && (|parts| >= 2 ==> Split(parts[1], ';')[0] == FirstValue(pairs, name).value)
    decreases |pairs|
  {
    if pairs == [] {
      assert Segments(pairs) == "";
    } else {
      var p := pairs[0];
      var tail := Segments(pairs[1..]);
      assert Segments(pairs) == "; " + Render(p) + tail;
      assert SafePairs(pairs[1..]);
      SplitSegments(pairs[1..], name);
      var rest := SplitOn(tail, Marker(name));
      if p.name == name {
        MatchingSegment(p, name, tail);
        ValueBeforeSemicolon(p.value, rest[0]);
      } else {
        OtherSegmentSplit(p, name, tail);
      }
    }
  }

  /** In a header of well-formed pairs, `getCookie` finds a cookie exactly when its name occurs
      once, and then returns that pair's value. */
  lemma CookieLookup(pairs: seq<CookiePair>, name: string)
    requires SafePairs(pairs) && Token(name)
    ensures GetCookie(Some(CookieString(pairs)), name)
         == if CountNamed(pairs, name) == 1 then FirstValue(pairs, name) else None
  {
    var sep := Marker(name);
    if pairs == [] {
      assert "; " + CookieString(pairs) == "; ";
      assert SplitOn("; ", sep) == ["; "];
    } else {
      SegmentsOfCookieString(pairs);
      SplitSegments(pairs, name);
    }
  }

  /** Without a document there is nothing to find. */
  lemma NoDocument(name: string)
    ensures GetCookie(None, name) == None
  {
  }

  /** For a name sent at most once, the browser-side lookup and `parseCookies` agree. */
  lemma ClientAgreesWithServer(pairs: seq<CookiePair>, name: string)
    requires SafePairs(pairs) && Token(name) && CountNamed(pairs, name) <= 1
    ensures var cookies := CookiesOf(Some(CookieString(pairs)));
      GetCookie(Some(CookieString(pairs)), name)
        == if name in cookies then Some(cookies[name]) else None
  {
    CookieLookup(pairs, name);
    ParseCookieString(pairs);
    if CountNamed(pairs, name) == 1 {
      UniqueNameInMap(pairs, name);
    } else {
      AbsentName(pairs, name);
    }
  }

  /** A name sent twice or more: `parseCookies` keeps the last value, `getCookie` finds
      nothing. */
  lemma DuplicateNameHidden(pairs: seq<CookiePair>, name: string)
    requires SafePairs(pairs) && Token(name) && CountNamed(pairs, name) >= 2
    ensures GetCookie(Some(CookieString(pairs)), name) == None
    ensures exists i :: (0 <= i < |pairs| && pairs[i].name == name
                         && (forall j :: i < j < |pairs| ==> pairs[j].name != name)
                         && name in CookiesOf(Some(CookieString(pairs)))
                         && CookiesOf(Some(CookieString(pairs)))[name] == pairs[i].value)
  {
    CookieLookup(pairs, name);
    ParseCookieString(pairs);
    var k :| 0 <= k < |pairs| && pairs[k] == CookiePair(name, FirstValue(pairs, name).value);
    var i := LastNamed(pairs, name);
    CookieMapLast(pairs, i);
  }
}
