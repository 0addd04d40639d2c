/**
 * The release-catalog client of ghafuse: a `GitHub` object holding optional
 * basic-auth credentials and a per-endpoint ETag cache, and the conditional
 * GET that consults and refreshes that cache (If-None-Match / ETag /
 * 304 Not Modified, section 3.2 of RFC 7232).
 *
 * The HTTP exchange is a parameter `send: Request -> Response`, and JSON
 * decoding of a body into releases is a parameter `decode`.
 */
module GitHubApi {
  import opened Wrappers

  type u32 = x: int | 0 <= x < 0x1_0000_0000

  /** A decoded JSON value; the cache stores it without looking inside. */
  type Body = string

  datatype Asset = Asset(id: u32, name: string)

  datatype Release = Release(id: u32, tagName: string, assets: seq<Asset>)

  datatype Credentials = Credentials(username: string, password: string)

  /** One cache entry: the validator (`hash`) and the body it validates. */
  datatype EtagCache = EtagCache(hash: string, content: Body)

  const GITHUB_API_URL := "https://api.github.com"
  const STATUS_OK: nat := 200
  const STATUS_NOT_MODIFIED: nat := 304

  /** What the client hands to the transport. */
  datatype Request = Request(url: string, basicAuth: Option<Credentials>, ifNoneMatch: Option<string>)

  /** What the transport hands back: status, the ETag header if any, and the decoded body. */
  datatype Response = Response(status: nat, etag: Option<string>, body: Body)

  /** The source's panics (`unimplemented!`) and its decode error, as values. */
  datatype FetchError =
    | NotModifiedWithoutEntry
    | UnexpectedStatus(status: nat)
    | Malformed

  /** The result of one cached GET together with the cache it leaves behind. */
  datatype Outcome = Outcome(result: Result<Body, FetchError>, etags: map<string, EtagCache>)

  /**
   * The request `cached_get` sends: the endpoint under the API root, basic auth
   * whenever credentials are configured, and If-None-Match carrying the cached
   * validator exactly when the endpoint has a cache entry.
   */
  function BuildRequest(creds: Option<Credentials>, etags: map<string, EtagCache>, endpoint: string): (req: Request)
    ensures req.url == GITHUB_API_URL + "/" + endpoint
    ensures req.basicAuth.Some? <==> creds.Some?
    ensures creds.Some? ==> req.basicAuth == creds
    ensures req.ifNoneMatch.Some? <==> endpoint in etags
    ensures forall h :: req.ifNoneMatch == Some(h) <==> (endpoint in etags && etags[endpoint].hash == h)
  {
    Request(GITHUB_API_URL + "/" + endpoint, creds,
            if endpoint in etags then Some(etags[endpoint].hash) else None)
  }

  /**
   * The decision `cached_get` takes once the response is in: on 200 the body is
   * returned and, if the response carries an ETag, stored under the endpoint; on
   * 304 the cached body is returned; anything else fails.
   */
  function CacheStep(etags: map<string, EtagCache>, endpoint: string, rsp: Response): (o: Outcome)
    // no other endpoint's entry is touched
    ensures forall k :: k != endpoint ==> (k in o.etags <==> k in etags)
    ensures forall k :: k != endpoint && k in etags ==> o.etags[k] == etags[k]
    // the cache changes only on a fresh response that carries a validator
    ensures o.etags != etags ==> rsp.status == STATUS_OK && rsp.etag.Some?
    // success exactly on 200, or on 304 when there is something to serve
    ensures o.result.Ok? <==> rsp.status == STATUS_OK || (rsp.status == STATUS_NOT_MODIFIED && endpoint in etags)
    // what is returned is either what the server sent or what was cached for this endpoint
    ensures o.result.Ok? ==>
              if rsp.status == STATUS_OK then o.result.value == rsp.body
              else o.result.value == etags[endpoint].content
    ensures o.result.Err? ==>
              o.result.error == (if rsp.status == STATUS_NOT_MODIFIED then NotModifiedWithoutEntry
                                 else UnexpectedStatus(rsp.status))
  {
    if rsp.status == STATUS_OK then
      var etags' := if rsp.etag.Some? then etags[endpoint := EtagCache(rsp.etag.value, rsp.body)] else etags;
      Outcome(Ok(rsp.body), etags')
    else if rsp.status == STATUS_NOT_MODIFIED then
      Outcome(if endpoint in etags then Ok(etags[endpoint].content) else Err(NotModifiedWithoutEntry), etags)
    else
      Outcome(Err(UnexpectedStatus(rsp.status)), etags)
  }

  /** A fresh response with ETag `e` and body `b` is returned and cached as `(e, b)`. */
  lemma FreshResponseIsStored(etags: map<string, EtagCache>, endpoint: string, e: string, b: Body)
    ensures var o := CacheStep(etags, endpoint, Response(STATUS_OK, Some(e), b));
            o.result == Ok(b) && endpoint in o.etags && o.etags[endpoint] == EtagCache(e, b)
  {
  }

  /** A fresh response without ETag is returned and the cache is left as it was. */
  lemma FreshResponseWithoutEtagKeepsCache(etags: map<string, EtagCache>, endpoint: string, b: Body)
    ensures CacheStep(etags, endpoint, Response(STATUS_OK, None, b)) == Outcome(Ok(b), etags)
  {
  }

  /** Does this call replace the cache entry of `endpoint`? */
  predicate Refreshes(call: (string, Response), endpoint: string)
  {
    call.0 == endpoint && call.1.status == STATUS_OK && call.1.etag.Some?
  }

  /** The cache after a sequence of cached GETs, oldest first. */
  function Replay(etags: map<string, EtagCache>, calls: seq<(string, Response)>): map<string, EtagCache>
    decreases |calls|
  {
    if calls == [] then etags
    else Replay(CacheStep(etags, calls[0].0, calls[0].1).etags, calls[1..])
  }

  /** Calls that do not refresh `endpoint` leave its entry (or its absence) exactly as it was. */
  lemma {:induction false} EntrySurvivesOtherCalls(etags: map<string, EtagCache>, calls: seq<(string, Response)>, endpoint: string)
    requires forall i :: 0 <= i < |calls| ==> !Refreshes(calls[i], endpoint)
    ensures var after := Replay(etags, calls);
            (endpoint in after <==> endpoint in etags) && (endpoint in etags ==> after[endpoint] == etags[endpoint])
    decreases |calls|
  {
    if calls != [] {
      var next := CacheStep(etags, calls[0].0, calls[0].1).etags;
      assert !Refreshes(calls[0], endpoint);
      assert (endpoint in next <==> endpoint in etags) && (endpoint in etags ==> next[endpoint] == etags[endpoint]);
      forall i | 0 <= i < |calls[1..]| ensures !Refreshes(calls[1..][i], endpoint) {
        assert calls[1..][i] == calls[i + 1];
      }
      EntrySurvivesOtherCalls(next, calls[1..], endpoint);
    }
  }

  /**
   * Round trip: after a 200 carrying ETag `e` and body `b`, and any number of
   * calls that do not refresh the same endpoint, the next request to it carries
   * `If-None-Match: e` and a 304 answer yields `b` with the cache unchanged.
   */
  lemma {:induction false} NotModifiedReturnsStoredBody(
    creds: Option<Credentials>, etags: map<string, EtagCache>, endpoint: string,
    e: string, b: Body, calls: seq<(string, Response)>, rsp: Response)
    requires forall i :: 0 <= i < |calls| ==> !Refreshes(calls[i], endpoint)
    requires rsp.status == STATUS_NOT_MODIFIED
    ensures var cache := Replay(CacheStep(etags, endpoint, Response(STATUS_OK, Some(e), b)).etags, calls);
            BuildRequest(creds, cache, endpoint).ifNoneMatch == Some(e) &&
            CacheStep(cache, endpoint, rsp) == Outcome(Ok(b), cache)
  {
    var stored := CacheStep(etags, endpoint, Response(STATUS_OK, Some(e), b)).etags;
    FreshResponseIsStored(etags, endpoint, e, b);
    EntrySurvivesOtherCalls(stored, calls, endpoint);
  }

  /**
   * A server that answers 304 only to a conditional request (section 4.1 of
   * RFC 7232) never drives the client into its "no cache entry" failure.
   */
  lemma ConditionalProtocolNeverMisses(creds: Option<Credentials>, etags: map<string, EtagCache>, endpoint: string, rsp: Response)
    requires rsp.status == STATUS_NOT_MODIFIED ==> BuildRequest(creds, etags, endpoint).ifNoneMatch.Some?
    ensures CacheStep(etags, endpoint, rsp).result != Err(NotModifiedWithoutEntry)
  {
  }

  /** The endpoint of a repository's release list. */
  function ReleasesEndpoint(owner: string, repo: string): (e: string)
    ensures |e| == |owner| + |repo| + 16
    ensures e[..6] == "repos/" && e[6..|e| - 9] == owner + "/" + repo && e[|e| - 9..] == "/releases"
  {
    "repos/" + owner + "/" + repo + "/releases"
  }

  /** Splitting at the first slash: a slash-free head is determined by the whole. */
  lemma SlashFreeHeadIsUnique(a: string, b: string, c: string, d: string)
    requires '/' !in a && '/' !in c
    requires a + "/" + b == c + "/" + d
    ensures a == c && b == d
  {
    var s := a + "/" + b;
    assert s[|a|] == '/' && s[|c|] == '/';
    assert a == s[..|a|] == c;
    assert b == s[|a| + 1..] == d;
  }

  /**
   * Distinct repositories use distinct endpoints (hence distinct cache
   * entries), since owner and repository names never contain a slash.
   */
  lemma ReleasesEndpointInjective(owner: string, repo: string, owner': string, repo': string)
    requires '/' !in owner && '/' !in owner'
    requires ReleasesEndpoint(owner, repo) == ReleasesEndpoint(owner', repo')
    ensures owner == owner' && repo == repo'
  {
    var e := ReleasesEndpoint(owner, repo);
    var middle := owner + "/" + repo;
    var middle' := owner' + "/" + repo';
    assert e == "repos/" + middle + "/releases";
    assert e == "repos/" + middle' + "/releases";
    assert middle == e[6..|e| - 9] == middle';
    SlashFreeHeadIsUnique(owner, repo, owner', repo');
  }

  /** The API client: optional credentials and the per-endpoint ETag cache. */
  class GitHub {
    var creds: Option<Credentials>
    var etags: map<string, EtagCache>

    /** `GitHub::new`: no credentials, empty cache. */
    constructor ()
      ensures creds == None && etags == map[]
    {
      creds := None;
      etags := map[];
    }

    /** `GitHub::with_creds`: the given credentials, empty cache. */
    constructor WithCreds(c: Credentials)
      ensures creds == Some(c) && etags == map[]
    {
      creds := Some(c);
      etags := map[];
    }

    /** `cached_get`: one conditional GET of `endpoint`, through the transport `send`. */
    method CachedGet(endpoint: string, send: Request -> Response) returns (r: Result<Body, FetchError>)
      modifies this
      ensures creds == old(creds)
      ensures var o := CacheStep(old(etags), endpoint, send(BuildRequest(old(creds), old(etags), endpoint)));
              r == o.result && etags == o.etags
    {
      var req := BuildRequest(creds, etags, endpoint);
      var rsp := send(req);
      if rsp.status == STATUS_OK {
        if rsp.etag.Some? {
          etags := etags[endpoint := EtagCache(rsp.etag.value, rsp.body)];
        }
        r := Ok(rsp.body);
      } else if rsp.status == STATUS_NOT_MODIFIED {
        if endpoint in etags {
          r := Ok(etags[endpoint].content);
        } else {
          r := Err(NotModifiedWithoutEntry);
        }
      } else {
        r := Err(UnexpectedStatus(rsp.status));
      }
    }

    /** `releases`: the cached GET of the release endpoint, decoded into releases. */
    method Releases(owner: string, repo: string, send: Request -> Response, decode: Body -> Option<seq<Release>>)
      returns (r: Result<seq<Release>, FetchError>)
      modifies this
      ensures creds == old(creds)
      ensures var endpoint := ReleasesEndpoint(owner, repo);
              var o := CacheStep(old(etags), endpoint, send(BuildRequest(old(creds), old(etags), endpoint)));
              etags == o.etags &&
              r == match o.result
                   case Err(err) => Err(err)
                   case Ok(b) => if decode(b).Some? then Ok(decode(b).value) else Err(Malformed)
    {
      var content := CachedGet(ReleasesEndpoint(owner, repo), send);
      match content {
        case Err(err) => r := Err(err);
        case Ok(b) =>
          var decoded := decode(b);
          r := if decoded.Some? then Ok(decoded.value) else Err(Malformed);
      }
    }
  }
}
