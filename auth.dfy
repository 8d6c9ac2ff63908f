/**
 * The token cache of `OAuth2Client` (backup.py:165-199). The clock is a
 * parameter counting microseconds (the resolution of `datetime`), and the
 * outcome of the client-credentials request is an input: the status code
 * and the `access_token` member of its JSON body, if any.
 */
module Auth {
  import opened Wrappers

  /** `timedelta(hours=1)` in microseconds. */
  const TokenLifetime: int := 3_600_000_000

  /** The response to the token request. */
  datatype TokenResponse = TokenResponse(statusCode: int, accessToken: Option<string>)

  /** A non-200 token response raises. */
  datatype AuthError = TokenRequestFailed(statusCode: int)

  /** The two cached fields: `access_token` and `token_expiry`. */
  datatype TokenCache = TokenCache(accessToken: Option<string>, tokenExpiry: Option<int>)

  /** What one call of `get_access_token` leaves behind and returns. */
  datatype Outcome = Outcome(cache: TokenCache, fetched: bool, token: Result<Option<string>, AuthError>)

  /** Python truthiness of the cached token: set and not the empty string. */
  predicate Truthy(token: Option<string>) {
    token.Some? && token.value != ""
  }

  /** The guard under which the cached token is returned without a request. */
  predicate CacheValid(cache: TokenCache, now: int) {
    Truthy(cache.accessToken) && cache.tokenExpiry.Some? && now < cache.tokenExpiry.value
  }

  /**
   * One call of `get_access_token` made at `now`, the request (when one is
   * made) answered by `response` at `receivedAt`.
   */
  function Refresh(cache: TokenCache, now: int, response: TokenResponse, receivedAt: int): (o: Outcome)
    ensures o.fetched <==> !CacheValid(cache, now)
    ensures !o.fetched ==> o.cache == cache && o.token == Success(cache.accessToken)
    ensures o.fetched && response.statusCode == 200 ==>
              o.cache == TokenCache(response.accessToken, Some(receivedAt + TokenLifetime))
                && o.token == Success(response.accessToken)
    ensures o.fetched && response.statusCode != 200 ==>
              o.cache == cache && o.token == Failure(TokenRequestFailed(response.statusCode))
  {
    if CacheValid(cache, now) then Outcome(cache, false, Success(cache.accessToken))
    else if response.statusCode == 200 then
      Outcome(TokenCache(response.accessToken, Some(receivedAt + TokenLifetime)), true, Success(response.accessToken))
    else Outcome(cache, true, Failure(TokenRequestFailed(response.statusCode)))
  }

  /** The request `make_request` sends: its Authorization header and query. */
  datatype Request = Request(authorization: string, query: string)

  /** `f"{self.access_token}"`: a missing token is rendered as `None`. */
  function TokenText(token: Option<string>): string {
    match token
    case None => "None"
    case Some(t) => t
  }

  class OAuth2Client {
    var accessToken: Option<string>
    var tokenExpiry: Option<int>

    function Cache(): TokenCache
      reads this
    {
      TokenCache(accessToken, tokenExpiry)
    }

    /** The field initialisation of `__init__`, before its first token request. */
    constructor Init()
      ensures accessToken == None && tokenExpiry == None
    {
      accessToken := None;
      tokenExpiry := None;
    }

    /** `get_access_token`; `fetched` tells whether the token endpoint was called. */
    method GetAccessToken(now: int, response: TokenResponse, receivedAt: int)
      returns (fetched: bool, r: Result<Option<string>, AuthError>)
      modifies this
      ensures Outcome(Cache(), fetched, r) == Refresh(old(Cache()), now, response, receivedAt)
    {
      if accessToken.Some? && accessToken.value != "" && tokenExpiry.Some? && now < tokenExpiry.value {
        return false, Success(accessToken);
      }
      if response.statusCode == 200 {
        accessToken := response.accessToken;
        tokenExpiry := Some(receivedAt + TokenLifetime);
        return true, Success(accessToken);
      } else {
        return true, Failure(TokenRequestFailed(response.statusCode));
      }
    }

    /** `make_request`: reads the cached token as it is, refreshing nothing. */
    method MakeRequest(query: string) returns (request: Request)
      ensures request == Request("Bearer " + TokenText(accessToken), query)
    {
      request := Request("Bearer " + TokenText(accessToken), query);
    }
  }

  /**
   * `__init__`: the fields start unset, so the first token request is
   * always made; when it fails the constructor raises.
   */
  method Connect(now: int, response: TokenResponse, receivedAt: int) returns (r: Result<OAuth2Client, AuthError>)
    ensures response.statusCode != 200 ==> r == Failure(TokenRequestFailed(response.statusCode))
    ensures response.statusCode == 200 ==> r.Success?
    ensures r.Success? ==>
              fresh(r.value) && response.statusCode == 200
                && r.value.Cache() == TokenCache(response.accessToken, Some(receivedAt + TokenLifetime))
  {
    var client := new OAuth2Client.Init();
    var fetched, token := client.GetAccessToken(now, response, receivedAt);
    if token.Failure? {
      return Failure(token.error);
    }
    return Success(client);
  }

  /** A truthy token fetched at `receivedAt` is reused by every call before the hour is up. */
  lemma ReusedWithinTheHour(cache: TokenCache, now: int, response: TokenResponse, receivedAt: int,
                            later: int, next: TokenResponse, nextAt: int)
    requires response.statusCode == 200 && Truthy(response.accessToken)
    requires later < receivedAt + TokenLifetime
    ensures var first := Refresh(cache, now, response, receivedAt);
            first.fetched ==>
              var second := Refresh(first.cache, later, next, nextAt);
              !second.fetched && second.cache == first.cache && second.token == Success(response.accessToken)
  {
  }

  /** From the hour on, the next call requests a new token. */
  lemma RefetchedAfterTheHour(cache: TokenCache, now: int, response: TokenResponse, receivedAt: int,
                              later: int, next: TokenResponse, nextAt: int)
    requires response.statusCode == 200
    requires later >= receivedAt + TokenLifetime
    ensures var first := Refresh(cache, now, response, receivedAt);
            first.fetched ==> Refresh(first.cache, later, next, nextAt).fetched
  {
  }

  /** A response without a usable `access_token` leaves a falsy token, so every next call fetches again. */
  lemma FalsyTokenForcesRefetch(cache: TokenCache, now: int, response: TokenResponse, receivedAt: int,
                                later: int, next: TokenResponse, nextAt: int)
    requires response.statusCode == 200 && !Truthy(response.accessToken)
    ensures var first := Refresh(cache, now, response, receivedAt);
            first.fetched ==> Refresh(first.cache, later, next, nextAt).fetched
  {
  }

  /** A failed request changes neither field, whatever was cached. */
  lemma FailureKeepsCache(cache: TokenCache, now: int, response: TokenResponse, receivedAt: int)
    requires response.statusCode != 200
    ensures Refresh(cache, now, response, receivedAt).cache == cache
    ensures Refresh(cache, now, response, receivedAt).token.Success? <==> CacheValid(cache, now)
  {
  }

  /** Calls within the hour reuse the cache any number of times. */
  lemma {:induction false} CacheStable(cache: TokenCache, nows: seq<int>, responses: seq<TokenResponse>, ats: seq<int>)
    requires |nows| == |responses| == |ats|
    requires forall k :: 0 <= k < |nows| ==> CacheValid(cache, nows[k])
    ensures Calls(cache, nows, responses, ats) == cache
    ensures FetchCount(cache, nows, responses, ats) == 0
  {
    if nows != [] {
      CacheStable(cache, nows[1..], responses[1..], ats[1..]);
    }
  }

  /** The cache after a run of calls. */
  function Calls(cache: TokenCache, nows: seq<int>, responses: seq<TokenResponse>, ats: seq<int>): TokenCache
    requires |nows| == |responses| == |ats|
    decreases |nows|
  {
    if nows == [] then cache
    else Calls(Refresh(cache, nows[0], responses[0], ats[0]).cache, nows[1..], responses[1..], ats[1..])
  }

  /** How many of a run of calls request a token. */
  function FetchCount(cache: TokenCache, nows: seq<int>, responses: seq<TokenResponse>, ats: seq<int>): nat
    requires |nows| == |responses| == |ats|
    decreases |nows|
  {
    if nows == [] then 0
    else
      var o := Refresh(cache, nows[0], responses[0], ats[0]);
      (if o.fetched then 1 else 0) + FetchCount(o.cache, nows[1..], responses[1..], ats[1..])
  }
}
