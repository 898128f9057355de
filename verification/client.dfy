/** `Client`: the Egnyte base URL and the authorization header, both fixed
    when the client is built from the subdomain and the OAuth token. The
    Guzzle instance itself is the transport, which is not modelled. */
module Client {
  import opened Text

  const EgnyteDomain: Bytes := "egnyte.com"
  const EgnyteEndpoint: Bytes := "/pubapi/v1"
  const Scheme: Bytes := "https://"
  const Bearer: Bytes := "Bearer "

  datatype Client = Client(baseUrl: Bytes, authorization: Bytes)

  /** What follows the subdomain in every base URL. */
  const HostSuffix: Bytes := "." + EgnyteDomain + EgnyteEndpoint

  /** `new Client($domain, $oauth_token)`. */
  function New(domain: Bytes, oauthToken: Bytes): (c: Client)
    ensures StartsWith(c.baseUrl, "https://") && EndsWith(c.baseUrl, ".egnyte.com/pubapi/v1")
    ensures |c.baseUrl| == |Scheme| + |domain| + |HostSuffix|
    ensures c.baseUrl[|Scheme|..|c.baseUrl| - |HostSuffix|] == domain
    ensures StartsWith(c.authorization, "Bearer ") && c.authorization[|Bearer|..] == oauthToken
  {
    Client(Scheme + domain + HostSuffix, Bearer + oauthToken)
  }

  /** The subdomain a base URL was built from. */
  function DomainOf(baseUrl: Bytes): Bytes
    requires |baseUrl| >= |Scheme| + |HostSuffix|
  {
    baseUrl[|Scheme|..|baseUrl| - |HostSuffix|]
  }

  /** The token an authorization header carries. */
  function TokenOf(authorization: Bytes): Bytes
    requires |authorization| >= |Bearer|
  {
    authorization[|Bearer|..]
  }

  /** The base URL is determined by the subdomain alone, and the subdomain
      can be read back from it; likewise the header and the token. */
  lemma NewRoundTrip(domain: Bytes, oauthToken: Bytes)
    ensures DomainOf(New(domain, oauthToken).baseUrl) == domain
    ensures TokenOf(New(domain, oauthToken).authorization) == oauthToken
  {
  }

  /** The other direction: every client whose base URL has the Egnyte shape
      and whose header is a bearer header is the one `New` builds from the
      subdomain and the token read back from it. */
  lemma NewFromParts(c: Client)
    requires |c.baseUrl| >= |Scheme| + |HostSuffix|
    requires StartsWith(c.baseUrl, Scheme) && EndsWith(c.baseUrl, HostSuffix)
    requires StartsWith(c.authorization, Bearer)
    ensures New(DomainOf(c.baseUrl), TokenOf(c.authorization)) == c
  {
    var u := c.baseUrl;
    var cut := |u| - |HostSuffix|;
    assert u == u[..|Scheme|] + u[|Scheme|..cut] + u[cut..];
    assert c.authorization == c.authorization[..|Bearer|] + c.authorization[|Bearer|..];
  }

  /** Two clients share a base URL exactly when they share a subdomain, and an
      authorization header exactly when they share a token. */
  lemma NewInjective(d1: Bytes, t1: Bytes, d2: Bytes, t2: Bytes)
    ensures New(d1, t1).baseUrl == New(d2, t2).baseUrl <==> d1 == d2
    ensures New(d1, t1).authorization == New(d2, t2).authorization <==> t1 == t2
  {
    NewRoundTrip(d1, t1);
    NewRoundTrip(d2, t2);
  }
}
