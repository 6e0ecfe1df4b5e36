/** The magic-link request (`signUp`): the email is normalised, the site URL
    is taken from the configuration (or the production URL), the provider is
    asked to send a link that comes back to the confirmation endpoint, and a
    provider error becomes a thrown error. */
module AuthActions {
  import opened Base

  const FallbackSiteUrl := "https://sayappz.netlify.app"
  const ConfirmRoute := "/auth/confirm"
  const FallbackFailure := "Failed to send magic link"

  /** `email.trim().toLowerCase()`. */
  function NormalizeEmail(email: string): (r: string)
    ensures |r| == |Trim(email)| && forall k :: 0 <= k < |r| ==> r[k] == LowerChar(Trim(email)[k])
    ensures |r| <= |email|
    ensures r != [] ==> !IsJsWhitespace(r[0]) && !IsJsWhitespace(r[|r| - 1])
    ensures forall k :: 0 <= k < |r| ==> !IsUpperAscii(r[k])
  {
    var t := Trim(email);
    if t == [] then ToLower(t)
    else
      LowerKeepsWhitespace(t[0]);
      LowerKeepsWhitespace(t[|t| - 1]);
      ToLower(t)
  }

  lemma LowerKeepsWhitespace(c: char)
    ensures IsJsWhitespace(LowerChar(c)) <==> IsJsWhitespace(c)
  {
  }

  /** Normalising an already normalised email changes nothing. */
  lemma NormalizeEmailIdempotent(email: string)
    ensures NormalizeEmail(NormalizeEmail(email)) == NormalizeEmail(email)
  {
    var t := Trim(email);
    var r := ToLower(t);
    if r != [] {
      LowerKeepsWhitespace(t[0]);
      LowerKeepsWhitespace(t[|t| - 1]);
    }
    TrimOfTrimmed(r);
    ToLowerIdempotent(t);
  }

  /** `replace(/\/$/, '')`: one `/` at the very end is removed, no more. */
  function StripTrailingSlash(s: string): (r: string)
    ensures s == r + "/" || (r == s && (s == [] || s[|s| - 1] != '/'))
  {
    if s != [] && s[|s| - 1] == '/' then s[..|s| - 1] else s
  }

  /** The site URL: the configured value without one trailing `/`, and the
      production URL when it is unset or nothing is left after stripping. */
  function SiteUrl(configured: Option<string>): (url: string)
    ensures url != []
    ensures configured.None? || configured.value in {"", "/"} ==> url == FallbackSiteUrl
    ensures configured.Some? && configured.value !in {"", "/"} ==>
              url == configured.value || url + "/" == configured.value
    ensures configured.Some? && StripTrailingSlash(configured.value) != [] ==>
              url == StripTrailingSlash(configured.value)
  {
    var stripped := if configured.Some? then StripTrailingSlash(configured.value) else "";
    if stripped == "" then FallbackSiteUrl else stripped
  }

  /** What `signInWithOtp` is sent. */
  datatype OtpRequest = OtpRequest(email: string, emailRedirectTo: string)

  function MagicLinkRequest(email: string, configured: Option<string>): (req: OtpRequest)
    ensures req.email == NormalizeEmail(email)
    ensures |req.emailRedirectTo| > |ConfirmRoute|
    ensures req.emailRedirectTo[|req.emailRedirectTo| - |ConfirmRoute|..] == ConfirmRoute
    ensures req.emailRedirectTo[..|req.emailRedirectTo| - |ConfirmRoute|] == SiteUrl(configured)
  {
    var target := SiteUrl(configured) + ConfirmRoute;
    assert target[|target| - |ConfirmRoute|..] == ConfirmRoute;
    OtpRequest(NormalizeEmail(email), target)
  }

  /** A configured URL with a single trailing slash gives a redirect target
      with exactly one `/` between the site and the route. */
  lemma RedirectTargetWithTrailingSlash(email: string, site: string)
    requires site != [] && site[|site| - 1] != '/'
    ensures MagicLinkRequest(email, Some(site + "/")).emailRedirectTo == site + ConfirmRoute
  {
    assert (site + "/")[..|site|] == site;
    assert SiteUrl(Some(site + "/")) == site;
  }

  /** The end of `signUp`: it returns normally, or throws an Error. */
  datatype Outcome = Sent | Thrown(message: string)

  /** `signUp(email)`, with the configured site URL and the provider's answer
      to the request as inputs. */
  function SignUp(email: string, configured: Option<string>, provider: OtpRequest -> Option<Error>): (r: Outcome)
    ensures r.Thrown? <==> provider(MagicLinkRequest(email, configured)).Some?
    ensures r.Thrown? ==> r.message != []
    ensures r.Thrown? ==>
              var e := provider(MagicLinkRequest(email, configured)).value;
              r.message == if e.message == [] then FallbackFailure else e.message
  {
    match provider(MagicLinkRequest(email, configured))
    case None => Sent
    case Some(e) => Thrown(if e.message == [] then FallbackFailure else e.message)
  }
}
