/** The confirmation endpoint: a request carrying a one-time token hash and a
    link type is verified with the auth provider, and the response redirects
    to the login page with an error, to the username setup page (no profile
    row yet) or to the dashboard. */
module Confirm {
  import opened Base

  /** `verifyOtp`'s answer: `data.user` and `error`. */
  datatype VerifyResult = VerifyResult(user: Option<User>, error: Option<Error>)

  /** The `profiles` lookup's answer: `data` (the row, given by its id) and `error`. */
  datatype LookupResult = LookupResult(data: Option<string>, error: Option<Error>)

  /** A request the endpoint makes to the auth provider or the datastore. */
  datatype ProviderCall = VerifyOtp(tokenHash: string, linkType: string) | LookupProfile(userId: string)

  const InvalidLink := "/login?error=invalid_link"
  const AuthFailed := "/login?error=auth_failed"
  const SetupPath := "/auth/setup"

  /** `searchParams.get(name)`: the value of the first pair with that name. */
  function QueryParam(query: seq<(string, string)>, name: string): (v: Option<string>)
    ensures v.None? <==> forall k :: 0 <= k < |query| ==> query[k].0 != name
    ensures v.Some? ==> exists k :: 0 <= k < |query| && query[k] == (name, v.value) && NameAbsentBefore(query, name, k)
  {
    if query == [] then None
    else if query[0].0 == name then Some(query[0].1)
    else QueryParam(query[1..], name)
  }

  predicate NameAbsentBefore(query: seq<(string, string)>, name: string, k: nat)
    requires k <= |query|
  {
    forall m :: 0 <= m < k ==> query[m].0 != name
  }

  /** `!value` in the source: the parameter is absent or empty. */
  predicate Missing(v: Option<string>) { v.None? || v.value == [] }

  /** `GET`. The provider's `verifyOtp` and the profile lookup are given as
      functions; `calls` records, in order, which of them the request made.
      Every request ends in exactly one of four redirect targets: the invalid
      link error (and no call at all) when a parameter is missing or empty;
      the authentication error when verification fails or yields no user; and
      otherwise, after looking up the profile of the verified user's id, the
      setup page when no row comes back (also when the lookup itself failed)
      or the dashboard when one does. */
  method Get(query: seq<(string, string)>, verify: (string, string) -> VerifyResult,
             lookup: string -> LookupResult)
    returns (location: string, calls: seq<ProviderCall>)
    ensures location in {InvalidLink, AuthFailed, SetupPath, DashboardPath}
    ensures var tokenHash, linkType := QueryParam(query, "token_hash"), QueryParam(query, "type");
      (location == InvalidLink <==> Missing(tokenHash) || Missing(linkType))
      && (location == InvalidLink ==> calls == [])
    ensures var tokenHash, linkType := QueryParam(query, "token_hash"), QueryParam(query, "type");
      !Missing(tokenHash) && !Missing(linkType) ==>
        var v := verify(tokenHash.value, linkType.value);
        (location == AuthFailed <==> v.error.Some? || v.user.None?)
        && (location == AuthFailed ==> calls == [VerifyOtp(tokenHash.value, linkType.value)])
        && (v.error.None? && v.user.Some? ==>
              calls == [VerifyOtp(tokenHash.value, linkType.value), LookupProfile(v.user.value.id)]
              && (location == SetupPath <==> lookup(v.user.value.id).data.None?)
              && (location == DashboardPath <==> lookup(v.user.value.id).data.Some?))
  {
    var tokenHash := QueryParam(query, "token_hash");
    var linkType := QueryParam(query, "type");
    if Missing(tokenHash) || Missing(linkType) {
      return InvalidLink, [];
    }

    var redirectTo := DashboardPath;
    var responseLocation := redirectTo;

    calls := [VerifyOtp(tokenHash.value, linkType.value)];
    var verified := verify(tokenHash.value, linkType.value);
    if verified.error.Some? || verified.user.None? {
      return AuthFailed, calls;
    }

    var userId := verified.user.value.id;
    calls := calls + [LookupProfile(userId)];
    var profile := lookup(userId);
    if profile.data.None? {
      redirectTo := SetupPath;
    }

    responseLocation := redirectTo;
    location := responseLocation;
  }
}
