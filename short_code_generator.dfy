/** The short-code generator: a bounded search for a code that neither gallery table uses.
    Each length from 4 to 10 gets up to 10 random draws; the first free draw is returned,
    and the search fails once every length is exhausted.

    Randomness is an input: `draws[k]` is what the fresh `Random` of the k-th attempt yields
    (one `Next(30)` per character). The two repository existence checks become membership
    in the two sets of codes in use. */
module ShortCodeGenerator {

  /** The alphabet: lower-case letters and digits without the look-alikes 0, 1, i, j, l and v. */
  const Chars: string := "abcdefghkmnopqrstuwxyz23456789"
  const InitialLength: nat := 4
  const MaxLength: nat := 10
  const MaxRetries: nat := 10
  /** Attempts made before giving up: MaxRetries at each length from InitialLength to MaxLength. */
  const MaxAttempts: nat := (MaxLength - InitialLength + 1) * MaxRetries

  /** Position by position, no character of the alphabet is a lookalike. */
  lemma NoLookalikeAt()
    ensures forall i :: 0 <= i < |Chars| ==>
      Chars[i] != '0' && Chars[i] != '1' && Chars[i] != 'i' && Chars[i] != 'j' && Chars[i] != 'l' && Chars[i] != 'v'
  {
  }

  lemma DigitLookalikesExcluded()
    ensures '0' !in Chars && '1' !in Chars && 'i' !in Chars
  {
    NoLookalikeAt();
  }

  lemma LetterLookalikesExcluded()
    ensures 'j' !in Chars && 'l' !in Chars && 'v' !in Chars
  {
    NoLookalikeAt();
  }

  /** 30 characters, none of them 0, 1, i, j, l or v; 70 attempts in all. */
  lemma AlphabetExcludesLookalikes()
    ensures |Chars| == 30 && MaxAttempts == 70
    ensures '0' !in Chars && '1' !in Chars && 'i' !in Chars && 'j' !in Chars && 'l' !in Chars && 'v' !in Chars
  {
    DigitLookalikesExcluded();
    LetterLookalikesExcluded();
  }

  /** The outcome of the search: a code, or the `InvalidOperationException` of an exhausted search. */
  datatype Generated = Code(code: string) | Exhausted

  /** Every pick is a possible result of `Random.Next(Chars.Length)`. */
  predicate ValidPicks(picks: seq<nat>)
  {
    forall i :: 0 <= i < |picks| ==> picks[i] < |Chars|
  }

  /** What the random source can supply: enough attempts, each with enough picks for the longest code. */
  predicate ValidDraws(draws: seq<seq<nat>>)
  {
    |draws| >= MaxAttempts && forall k :: 0 <= k < |draws| ==> |draws[k]| >= MaxLength && ValidPicks(draws[k])
  }

  /** `GenerateShortCode`: one character of the alphabet per pick, filled into a `char[]`. */
  method GenerateShortCode(length: nat, picks: seq<nat>) returns (code: string)
    requires |picks| >= length && ValidPicks(picks)
    ensures |code| == length
    ensures forall i :: 0 <= i < length ==> code[i] == Chars[picks[i]]
    ensures forall c :: c in code ==> c in Chars
  {
    var stringChars := new char[length];
    for i := 0 to length
      invariant forall k :: 0 <= k < i ==> stringChars[k] == Chars[picks[k]]
    {
      stringChars[i] := Chars[picks[i]];
    }
    code := stringChars[..];
  }

  /** The code length used by the k-th attempt (counting from 0). */
  function LengthAt(k: nat): nat
  {
    InitialLength + k / MaxRetries
  }

  /** The code drawn at the k-th attempt. */
  function CodeAt(draws: seq<seq<nat>>, k: nat): (code: string)
    requires ValidDraws(draws) && k < MaxAttempts
    ensures |code| == LengthAt(k)
  {
    seq(LengthAt(k), i requires 0 <= i < LengthAt(k) => Chars[draws[k][i]])
  }

  /** The specification of the search from attempt k on: the first drawn code not in `taken`. */
  function Search(draws: seq<seq<nat>>, taken: set<string>, k: nat): Generated
    requires ValidDraws(draws)
    decreases MaxAttempts - k
  {
    if k >= MaxAttempts then Exhausted
    else if CodeAt(draws, k) !in taken then Code(CodeAt(draws, k))
    else Search(draws, taken, k + 1)
  }

  /** The length steps up by one exactly after every MaxRetries attempts, so lengths run 4, 5, ..., 10. */
  lemma LengthSchedule(k: nat)
    requires k < MaxAttempts
    ensures InitialLength <= LengthAt(k) <= MaxLength
    ensures LengthAt(k + 1) == if (k + 1) % MaxRetries == 0 then LengthAt(k) + 1 else LengthAt(k)
  {
  }

  /** A found code is a draw from some attempt at or after k, is free, has a length in [4, 10]
      and uses only the alphabet. */
  lemma {:induction false} SearchFound(draws: seq<seq<nat>>, taken: set<string>, k: nat)
    requires ValidDraws(draws)
    requires Search(draws, taken, k).Code?
    ensures var c := Search(draws, taken, k).code;
      && c !in taken
      && InitialLength <= |c| <= MaxLength
      && (forall ch :: ch in c ==> ch in Chars)
      && exists j :: k <= j < MaxAttempts && c == CodeAt(draws, j)
    decreases MaxAttempts - k
  {
    if CodeAt(draws, k) !in taken {
      var c := CodeAt(draws, k);
      assert forall ch :: ch in c ==> ch in Chars by {
        forall ch | ch in c ensures ch in Chars {
          var i :| 0 <= i < |c| && c[i] == ch;
          assert c[i] == Chars[draws[k][i]];
        }
      }
    } else {
      SearchFound(draws, taken, k + 1);
    }
  }

  /** The search fails exactly when every remaining attempt collides. */
  lemma {:induction false} SearchExhausted(draws: seq<seq<nat>>, taken: set<string>, k: nat)
    requires ValidDraws(draws)
    ensures Search(draws, taken, k) == Exhausted
        <==> forall j :: k <= j < MaxAttempts ==> CodeAt(draws, j) in taken
    decreases MaxAttempts - k
  {
    if k < MaxAttempts {
      SearchExhausted(draws, taken, k + 1);
    }
  }

  /** `GenerateUniqueShortCodeAsync`. `attempts` counts the draws made (a proof device). */
  method GenerateUniqueShortCode(draws: seq<seq<nat>>, anonymousCodes: set<string>, galleryCodes: set<string>)
    returns (r: Generated, ghost attempts: nat)
    requires ValidDraws(draws)
    ensures r == Search(draws, anonymousCodes + galleryCodes, 0)
    ensures attempts <= MaxAttempts
    ensures forall j :: 0 <= j < attempts - 1 ==> CodeAt(draws, j) in anonymousCodes + galleryCodes
    ensures r.Code? ==> 1 <= attempts && r.code == CodeAt(draws, attempts - 1)
    ensures r.Code? ==> r.code !in anonymousCodes && r.code !in galleryCodes
    ensures r.Code? ==> InitialLength <= |r.code| <= MaxLength && forall c :: c in r.code ==> c in Chars
    ensures r.Exhausted? ==> attempts == MaxAttempts && CodeAt(draws, MaxAttempts - 1) in anonymousCodes + galleryCodes
  {
    ghost var taken := anonymousCodes + galleryCodes;
    var length := InitialLength;
    var k := 0;  // the index of the next fresh Random
    while length <= MaxLength
      invariant InitialLength <= length <= MaxLength + 1
      invariant k == (length - InitialLength) * MaxRetries
      invariant forall j :: 0 <= j < k ==> CodeAt(draws, j) in taken
      invariant Search(draws, taken, 0) == Search(draws, taken, k)
    {
      for attempt := 0 to MaxRetries
        invariant k == (length - InitialLength) * MaxRetries + attempt
        invariant forall j :: 0 <= j < k ==> CodeAt(draws, j) in taken
        invariant Search(draws, taken, 0) == Search(draws, taken, k)
      {
        assert LengthAt(k) == length;
        var shortCode := GenerateShortCode(length, draws[k]);
        assert shortCode == CodeAt(draws, k);
        var existsInAnonymous := shortCode in anonymousCodes;
        var existsInGalleries := shortCode in galleryCodes;
        k := k + 1;
        if !existsInAnonymous && !existsInGalleries {
          r, attempts := Code(shortCode), k;
          return;
        }
      }
      length := length + 1;
    }
    r, attempts := Exhausted, k;
  }
}
