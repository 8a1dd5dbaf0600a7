/**
 * Validation of the url field of a create or update request: it must not be
 * blank, and it must match ^(https?|ftp)://.+$ under Java regular-expression
 * semantics, where '.' matches any character except a line terminator.
 */
module UrlRequests {
  import opened Wrappers

  /** The request body; its url is None when the field is missing or null. */
  datatype UrlRequest = UrlRequest(url: Option<string>)

  /** Blank in the sense of trimming: every character is at most U+0020. */
  predicate IsBlank(s: string) {
    forall i :: 0 <= i < |s| ==> s[i] <= ' '
  }

  /** The characters Java's '.' does not match when DOTALL is off. */
  predicate IsLineTerminator(c: char) {
    c == '\n' || c == '\r' || c == '\U{0085}' || c == '\U{2028}' || c == '\U{2029}'
  }

  predicate HasPrefix(s: string, p: string) {
    |p| <= |s| && s[..|p|] == p
  }

  /**
   * How far the alternative (https?|ftp) followed by "://" reaches into s,
   * or None when s starts with neither alternative.
   */
  function SchemeEnd(s: string): (r: Option<nat>)
    ensures r.Some? ==> r.value <= |s|
  {
    if HasPrefix(s, "https://") then Some(8)
    else if HasPrefix(s, "http://") then Some(7)
    else if HasPrefix(s, "ftp://") then Some(6)
    else None
  }

  /** Whole-input match of ^(https?|ftp)://.+$ */
  predicate MatchesUrlPattern(s: string) {
    match SchemeEnd(s)
    case None => false
    case Some(k) => k < |s| && NoLineTerminator(s[k..])
  }

  /** The request passes @NotBlank and @Pattern together. */
  predicate IsValid(request: UrlRequest) {
    request.url.Some? && !IsBlank(request.url.value) && MatchesUrlPattern(request.url.value)
  }

  predicate IsScheme(scheme: string) {
    scheme == "http" || scheme == "https" || scheme == "ftp"
  }

  predicate NoLineTerminator(s: string) {
    forall i :: 0 <= i < |s| ==> !IsLineTerminator(s[i])
  }

  /** The alternatives are tried longest first, so each scheme is recognised as itself. */
  lemma SchemeEndOfScheme(scheme: string, rest: string)
    requires IsScheme(scheme)
    ensures SchemeEnd(scheme + "://" + rest) == Some(|scheme| + 3)
  {
    var s := scheme + "://" + rest;
    var k := |scheme| + 3;
    assert s[..k] == scheme + "://";
    if scheme == "https" {
      assert HasPrefix(s, "https://");
    } else if scheme == "http" {
      assert s[4] == ':';
      assert !HasPrefix(s, "https://") && HasPrefix(s, "http://");
    } else {
      assert s[0] == 'f';
      assert !HasPrefix(s, "https://") && !HasPrefix(s, "http://") && HasPrefix(s, "ftp://");
    }
  }

  /**
   * The matcher agrees with the pattern read declaratively: a scheme among
   * http, https and ftp, then "://", then at least one character none of
   * which ends a line.
   */
  lemma MatchesUrlPatternIff(s: string)
    ensures MatchesUrlPattern(s) <==>
      exists scheme, rest :: IsScheme(scheme) && s == scheme + "://" + rest && rest != [] && NoLineTerminator(rest)
  {
    if MatchesUrlPattern(s) {
      var k := SchemeEnd(s).value;
      var scheme, rest := s[..k - 3], s[k..];
      assert s == scheme + "://" + rest;
      assert IsScheme(scheme);
      assert NoLineTerminator(rest);
    }
    if exists scheme, rest :: IsScheme(scheme) && s == scheme + "://" + rest && rest != [] && NoLineTerminator(rest) {
      var scheme, rest :| IsScheme(scheme) && s == scheme + "://" + rest && rest != [] && NoLineTerminator(rest);
      SchemeEndOfScheme(scheme, rest);
      assert s[|scheme| + 3..] == rest;
    }
  }

  /** A string that matches the pattern is never blank: it starts with 'h' or 'f'. */
  lemma PatternExcludesBlank(s: string)
    ensures MatchesUrlPattern(s) ==> !IsBlank(s)
  {
    if MatchesUrlPattern(s) {
      var k := SchemeEnd(s).value;
      assert s[0] == s[..k][0];
    }
  }

  /** A missing url is rejected by @NotBlank even though @Pattern alone accepts null. */
  lemma MissingUrlInvalid()
    ensures !IsValid(UrlRequest(None))
  {
  }

  /** An empty or whitespace-only url is rejected. */
  lemma BlankUrlInvalid(s: string)
    requires IsBlank(s)
    ensures !IsValid(UrlRequest(Some(s)))
  {
  }

  lemma EmptyUrlInvalid()
    ensures !IsValid(UrlRequest(Some("")))
  {
  }

  /** Without a scheme and "://" a url is rejected. */
  lemma InvalidUrlRejected()
    ensures !IsValid(UrlRequest(Some("invalid-url")))
  {
  }

  /** The scheme and "://" alone are not enough: something must follow. */
  lemma SchemeAloneRejected()
    ensures !IsValid(UrlRequest(Some("https://")))
    ensures !IsValid(UrlRequest(Some("ftp://")))
  {
  }

  /** A line terminator after the scheme makes the whole input fail to match. */
  lemma LineTerminatorRejected()
    ensures !IsValid(UrlRequest(Some("http://a\nb")))
  {
    var s := "http://a\nb";
    assert IsLineTerminator(s[8]);
  }

  /** The urls the service's own scenarios submit are accepted. */
  lemma ExampleUrlsValid()
    ensures IsValid(UrlRequest(Some("https://example.com")))
    ensures IsValid(UrlRequest(Some("https://updated.com")))
  {
    PatternExcludesBlank("https://example.com");
    PatternExcludesBlank("https://updated.com");
  }

  /** An ftp url is accepted as well. */
  lemma FtpUrlValid()
    ensures IsValid(UrlRequest(Some("ftp://files.example.com")))
  {
    var s := "ftp://files.example.com";
    assert s[0] == 'f' && s[..6] == "ftp://";
    PatternExcludesBlank(s);
  }
}
