/**
  Extraction of the OAuth2 authorization code from what the operator pastes
  after approving access (main.ts, extractCode).

  Input that does not start with "http" is taken to be the code itself.
  Otherwise the code is the first capture of the regular expression
  /code=([^&]+)/: the leftmost place where the five characters "code=" are
  followed by a character other than '&', and from there the longest run of
  characters other than '&'. This is a plain substring search, not query
  string parsing: "xcode=1" matches, and "code=&code=A" yields "A".
 */
module AuthCode {
  import opened Wrappers

  /** The failures of the authorization step; the second is raised by the token exchange. */
  datatype AuthError =
    | AuthCodeNotFound
    | TokenExchangeFailed(detail: Option<string>)

  /** The length of the literal "code=" that precedes the captured code. */
  const KeyLength: nat := 5

  /** s begins with "http". */
  predicate StartsWithHttp(s: string)
  {
    4 <= |s| && s[0] == 'h' && s[1] == 't' && s[2] == 't' && s[3] == 'p'
  }

  /** The regular expression can start a match at position i: "code=" followed by a non-'&'. */
  predicate MatchAt(s: string, i: int)
  {
    && 0 <= i && i + KeyLength < |s|
    && s[i] == 'c' && s[i + 1] == 'o' && s[i + 2] == 'd' && s[i + 3] == 'e' && s[i + 4] == '='
    && s[i + KeyLength] != '&'
  }

  /** c is exactly the text that [^&]+ consumes greedily when started at position j. */
  ghost predicate CaptureAt(s: string, j: int, c: string)
  {
    && c != []
    && 0 <= j && j + |c| <= |s|
    && s[j..j + |c|] == c
    && (forall k :: 0 <= k < |c| ==> c[k] != '&')
    && (j + |c| == |s| || s[j + |c|] == '&')
  }

  /** c is the first capture group of the leftmost match of /code=([^&]+)/ in s. */
  ghost predicate IsLeftmostCapture(s: string, c: string)
  {
    exists i :: MatchAt(s, i) && (forall k :: 0 <= k < i ==> !MatchAt(s, k)) && CaptureAt(s, i + KeyLength, c)
  }

  /** The leftmost match position at or after `from`, as the regex engine's scan finds it. */
  function FindMatch(s: string, from: nat): (r: Option<nat>)
    decreases |s| - from
    ensures r.Some? ==> from <= r.value && MatchAt(s, r.value)
    ensures r.Some? ==> forall k :: from <= k < r.value ==> !MatchAt(s, k)
    ensures r.None? ==> forall k :: from <= k ==> !MatchAt(s, k)
  {
    if |s| <= from + KeyLength then None
    else if MatchAt(s, from) then Some(from)
    else FindMatch(s, from + 1)
  }

  /** The greedy run of non-'&' characters starting at j. */
  function NonAmpersandRun(s: string, j: nat): (r: string)
    requires j <= |s|
    decreases |s| - j
    ensures j + |r| <= |s| && s[j..j + |r|] == r
    ensures forall k :: 0 <= k < |r| ==> r[k] != '&'
    ensures j + |r| == |s| || s[j + |r|] == '&'
  {
    if j == |s| || s[j] == '&' then []
    else [s[j]] + NonAmpersandRun(s, j + 1)
  }

  /** extractCode: pass non-URL input through, otherwise return the code= capture or fail. */
  function ExtractCode(s: string): (r: Result<string, AuthError>)
    ensures !StartsWithHttp(s) ==> r == Success(s)
    ensures StartsWithHttp(s) ==> (r.Failure? <==> forall i :: 0 <= i < |s| ==> !MatchAt(s, i))
    ensures StartsWithHttp(s) && r.Success? ==> IsLeftmostCapture(s, r.value)
    ensures r.Failure? ==> r.error == AuthCodeNotFound
  {
    if !StartsWithHttp(s) then Success(s)
    else
      match FindMatch(s, 0)
      case None => Failure(AuthCodeNotFound)
      case Some(i) =>
        var c := NonAmpersandRun(s, i + KeyLength);
        assert CaptureAt(s, i + KeyLength, c);
        Success(c)
  }

  /** The capture is determined: any two texts that both satisfy IsLeftmostCapture are equal. */
  lemma LeftmostCaptureUnique(s: string, c1: string, c2: string)
    requires IsLeftmostCapture(s, c1) && IsLeftmostCapture(s, c2)
    ensures c1 == c2
  {
    var i1 :| MatchAt(s, i1) && (forall k :: 0 <= k < i1 ==> !MatchAt(s, k)) && CaptureAt(s, i1 + KeyLength, c1);
    var i2 :| MatchAt(s, i2) && (forall k :: 0 <= k < i2 ==> !MatchAt(s, k)) && CaptureAt(s, i2 + KeyLength, c2);
    LeftmostMatchUnique(s, i1, i2);
    CaptureAtUnique(s, i1 + KeyLength, c1, c2);
  }

  /** Two match positions that each have no match before them are the same position. */
  lemma LeftmostMatchUnique(s: string, i1: int, i2: int)
    requires MatchAt(s, i1) && forall k :: 0 <= k < i1 ==> !MatchAt(s, k)
    requires MatchAt(s, i2) && forall k :: 0 <= k < i2 ==> !MatchAt(s, k)
    ensures i1 == i2
  {
    assert i1 < i2 ==> !MatchAt(s, i1);
    assert i2 < i1 ==> !MatchAt(s, i2);
  }

  lemma CaptureAtUnique(s: string, j: int, c1: string, c2: string)
    requires CaptureAt(s, j, c1) && CaptureAt(s, j, c2)
    ensures c1 == c2
  {
    forall p | j <= p < j + |c1| ensures s[p] != '&' {
      assert s[p] == c1[p - j];
    }
    forall p | j <= p < j + |c2| ensures s[p] != '&' {
      assert s[p] == c2[p - j];
    }
    assert |c1| == |c2|;
    assert c1 == s[j..j + |c1|] == c2;
  }

  /** For URL-shaped input, extraction succeeds with c exactly when c is the leftmost capture. */
  lemma ExtractCodeExact(s: string, c: string)
    requires StartsWithHttp(s)
    ensures ExtractCode(s) == Success(c) <==> IsLeftmostCapture(s, c)
  {
    if IsLeftmostCapture(s, c) {
      var i :| MatchAt(s, i) && (forall k :: 0 <= k < i ==> !MatchAt(s, k)) && CaptureAt(s, i + KeyLength, c);
      assert ExtractCode(s).Success?;
      LeftmostCaptureUnique(s, c, ExtractCode(s).value);
    }
  }

  /** A successful extraction from a URL is non-empty and holds no '&'. */
  lemma ExtractedCodeShape(s: string)
    requires StartsWithHttp(s) && ExtractCode(s).Success?
    ensures ExtractCode(s).value != []
    ensures '&' !in ExtractCode(s).value
  {
    var c := ExtractCode(s).value;
    var i :| MatchAt(s, i) && (forall k :: 0 <= k < i ==> !MatchAt(s, k)) && CaptureAt(s, i + KeyLength, c);
  }

  /** Input that is not URL-shaped is taken as the code itself. */
  lemma ExtractCodeRawCode()
    ensures ExtractCode("abc123") == Success("abc123")
  {
  }

  /** A redirect URL without "code=" fails with AuthCodeNotFound. */
  lemma ExtractCodeMissing()
    ensures ExtractCode("https://x/cb?state=foo") == Failure(AuthCodeNotFound)
  {
    var url := "https://x/cb?state=foo";
    assert StartsWithHttp(url);
    assert forall k :: 0 <= k < |url| ==> !MatchAt(url, k);
  }

  /** An occurrence of "code=" directly followed by '&' is skipped in favour of a later one. */
  lemma ExtractCodeSkipsEmptyValue()
    ensures ExtractCode("http://h/?code=&code=A") == Success("A")
  {
    var url := "http://h/?code=&code=A";
    assert StartsWithHttp(url);
    assert forall k :: 0 <= k < 16 ==> !MatchAt(url, k);
    assert MatchAt(url, 16);
    assert url[21..22] == "A";
    assert CaptureAt(url, 21, "A");
    ExtractCodeExact(url, "A");
  }

  /** A typical redirect URL yields the value of its code parameter. */
  lemma ExtractCodeFromRedirect()
    ensures ExtractCode("https://x/cb?code=XYZ&state=foo") == Success("XYZ")
  {
    var url := "https://x/cb?code=XYZ&state=foo";
    assert StartsWithHttp(url);
    assert forall k :: 0 <= k < 13 ==> !MatchAt(url, k);
    assert MatchAt(url, 13);
    assert url[18..21] == "XYZ";
    assert CaptureAt(url, 18, "XYZ");
    ExtractCodeExact(url, "XYZ");
  }
}
