/** The `Cookie` request header as a browser sends it back (RFC 6265, section 4.2.1): the
    cookie pairs `name=value`, separated by a semicolon and a space. Both the server-side parser
    and the client-side lookup of the frontend read this format. */
module Cookies {
  import opened Wrappers
  import opened Strings

  datatype CookiePair = CookiePair(name: string, value: string)

  /** A name or value that survives every split the frontend makes: non-empty, and free of
      ';', '=' and white space. */
  predicate Token(s: string)
  {
    s != [] && forall i :: 0 <= i < |s| ==> s[i] != ';' && s[i] != '=' && !IsSpace(s[i])
  }

  predicate SafePairs(pairs: seq<CookiePair>)
  {
    forall i :: 0 <= i < |pairs| ==> Token(pairs[i].name) && Token(pairs[i].value)
  }

  function Render(p: CookiePair): string
  {
    p.name + "=" + p.value
  }

  function Rendered(pairs: seq<CookiePair>): (r: seq<string>)
    ensures |r| == |pairs| && forall i :: 0 <= i < |pairs| ==> r[i] == Render(pairs[i])
  {
    if pairs == [] then [] else [Render(pairs[0])] + Rendered(pairs[1..])
  }

  /** The header value for the cookies `pairs`, in order. */
  function CookieString(pairs: seq<CookiePair>): string
  {
    Join(Rendered(pairs), "; ")
  }

  /** A rendered pair holds no white space and no ';'; its only '=' follows the name. */
  lemma RenderedPairFree(p: CookiePair)
    requires Token(p.name) && Token(p.value)
    ensures var r := Render(p);
      (forall i :: 0 <= i < |r| ==> !IsSpace(r[i]) && r[i] != ';')
      && Join([p.name, p.value], "=") == r
  {
    var r := Render(p);
    forall i | 0 <= i < |r|
      ensures !IsSpace(r[i]) && r[i] != ';'
    {
      if i < |p.name| {
        assert r[i] == p.name[i];
      } else if i == |p.name| {
        assert r[i] == '=';
      } else {
        assert r[i] == p.value[i - |p.name| - 1];
      }
    }
  }

  /** The cookies the header carries, a later pair with the same name overriding an earlier one. */
  function CookieMap(pairs: seq<CookiePair>): (m: map<string, string>)
    ensures forall n :: n in m <==> exists i :: 0 <= i < |pairs| && pairs[i].name == n
  {
    if pairs == [] then map[]
    else
      var rest := CookieMap(pairs[1..]);
      assert forall n :: n in rest ==> exists i :: 0 <= i < |pairs| && pairs[i].name == n by {
        forall n | n in rest ensures exists i :: 0 <= i < |pairs| && pairs[i].name == n {
          var i :| 0 <= i < |pairs[1..]| && pairs[1..][i].name == n;
          assert pairs[i + 1].name == n;
        }
      }
      map[pairs[0].name := pairs[0].value] + rest
  }

  /** The map keeps, for each name, the value of the last pair with that name. */
  lemma {:induction false} CookieMapLast(pairs: seq<CookiePair>, i: nat)
    requires i < |pairs| && forall j :: i < j < |pairs| ==> pairs[j].name != pairs[i].name
    ensures pairs[i].name in CookieMap(pairs) && CookieMap(pairs)[pairs[i].name] == pairs[i].value
  {
    if i == 0 {
      assert pairs[i].name !in CookieMap(pairs[1..]);
    } else {
      assert forall j :: i - 1 < j < |pairs[1..]| ==> pairs[1..][j] == pairs[j + 1];
      CookieMapLast(pairs[1..], i - 1);
    }
  }

  /** Where a name occurs, it has a last occurrence. */
  lemma {:induction false} LastNamed(pairs: seq<CookiePair>, name: string) returns (i: nat)
    requires exists k :: 0 <= k < |pairs| && pairs[k].name == name
    ensures i < |pairs| && pairs[i].name == name
    ensures forall j :: i < j < |pairs| ==> pairs[j].name != name
  {
    var n := |pairs| - 1;
    if pairs[n].name == name {
      i := n;
    } else {
      var k :| 0 <= k < |pairs| && pairs[k].name == name;
      assert pairs[..n][k] == pairs[k];
      i := LastNamed(pairs[..n], name);
      assert pairs[..n][i] == pairs[i];
    }
  }

  /** How many pairs are named `name`. */
  function CountNamed(pairs: seq<CookiePair>, name: string): nat
  {
    if pairs == [] then 0 else (if pairs[0].name == name then 1 else 0) + CountNamed(pairs[1..], name)
  }

  /** The value of the first pair named `name`. */
  function FirstValue(pairs: seq<CookiePair>, name: string): (r: Option<string>)
    ensures r.Some? <==> CountNamed(pairs, name) >= 1
    ensures r.Some? ==> exists i :: 0 <= i < |pairs| && pairs[i] == CookiePair(name, r.value)
  {
    if pairs == [] then None
    else if pairs[0].name == name then Some(pairs[0].value)
    else
      var r := FirstValue(pairs[1..], name);
      assert r.Some? ==> pairs[1..][0] in pairs[1..];
      assert r.Some? ==> exists i :: 0 <= i < |pairs| && pairs[i] == CookiePair(name, r.value) by {
        if r.Some? {
          var i :| 0 <= i < |pairs[1..]| && pairs[1..][i] == CookiePair(name, r.value);
          assert pairs[i + 1] == CookiePair(name, r.value);
        }
      }
      r
  }

  /** A name carried once: the map holds exactly that pair's value. */
  lemma {:induction false} UniqueNameInMap(pairs: seq<CookiePair>, name: string)
    requires CountNamed(pairs, name) == 1
    ensures name in CookieMap(pairs) && CookieMap(pairs)[name] == FirstValue(pairs, name).value
  {
    if pairs[0].name == name {
      AbsentName(pairs[1..], name);
    } else {
      UniqueNameInMap(pairs[1..], name);
    }
  }

  /** A name carried by no pair is not in the map. */
  lemma {:induction false} AbsentName(pairs: seq<CookiePair>, name: string)
    requires CountNamed(pairs, name) == 0
    ensures name !in CookieMap(pairs)
  {
    if pairs != [] {
      AbsentName(pairs[1..], name);
    }
  }

  /** The header split at ';': the first pair as is, every later one after its space. */
  lemma {:induction false} SplitCookieString(lead: string, pairs: seq<CookiePair>)
    requires SafePairs(pairs) && |pairs| >= 1 && ';' !in lead
    ensures var pieces := Split(lead + CookieString(pairs), ';');
      |pieces| == |pairs| && pieces[0] == lead + Render(pairs[0])
      && forall i :: 1 <= i < |pairs| ==> pieces[i] == " " + Render(pairs[i])
    decreases |pairs|
  {
    var first := Render(pairs[0]);
    assert ';' !in lead + first by {
      RenderedPairFree(pairs[0]);
    }
    if |pairs| == 1 {
      assert lead + CookieString(pairs) == lead + first;
      SplitOnNoSep(lead + first, [';']);
    } else {
      var rest := pairs[1..];
      assert lead + CookieString(pairs) == (lead + first) + [';'] + (" " + CookieString(rest)) by {
        CookieStringCons(pairs);
      }
      SplitOnCons(lead + first, [';'], " " + CookieString(rest));
      SplitCookieString(" ", rest);
    }
  }

  lemma CookieStringCons(pairs: seq<CookiePair>)
    requires |pairs| >= 2
    ensures CookieString(pairs) == Render(pairs[0]) + "; " + CookieString(pairs[1..])
  {
    assert Rendered(pairs[1..]) == Rendered(pairs)[1..];
  }

  /** The header with "; " in front: one segment "; name=value" per pair, back to back. */
  function Segments(pairs: seq<CookiePair>): string
  {
    if pairs == [] then "" else "; " + Render(pairs[0]) + Segments(pairs[1..])
  }

  lemma {:induction false} SegmentsOfCookieString(pairs: seq<CookiePair>)
    requires |pairs| >= 1
    ensures "; " + CookieString(pairs) == Segments(pairs)
  {
    if |pairs| > 1 {
      SegmentsOfCookieString(pairs[1..]);
      assert Rendered(pairs[1..]) == Rendered(pairs)[1..];
    }
  }
}
