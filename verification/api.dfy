/** The classification client of `src/api.js`: base-URL normalisation, the endpoint, and the
    optional query parameters. The HTTP request itself is not modelled. */
module Api {
  import opened Common

  const DefaultBase: string := "http://127.0.0.1:8000"

  /** `replace(/\/+$/, "")`: drop the run of slashes at the end of the string. */
  function StripTrailingSlashes(s: string): (r: string)
    ensures |r| <= |s| && r == s[..|r|]
    ensures forall k :: |r| <= k < |s| ==> s[k] == '/'
    ensures |r| == 0 || r[|r| - 1] != '/'
    decreases |s|
  {
    if |s| > 0 && s[|s| - 1] == '/' then StripTrailingSlashes(s[..|s| - 1]) else s
  }

  /** Only the maximal trailing run goes: any prefix that is followed by slashes only and does not
      itself end in a slash is the stripped string. */
  lemma {:induction false} StripIsMaximalRun(s: string, n: nat)
    requires n <= |s|
    requires forall k :: n <= k < |s| ==> s[k] == '/'
    requires n == 0 || s[n - 1] != '/'
    ensures StripTrailingSlashes(s) == s[..n]
    decreases |s|
  {
    if n < |s| {
      var t := s[..|s| - 1];
      StripIsMaximalRun(t, n);
      assert t[..n] == s[..n];
    } else {
      assert s[..n] == s;
    }
  }

  /** Stripping twice is stripping once. */
  lemma StripIdempotent(s: string)
    ensures StripTrailingSlashes(StripTrailingSlashes(s)) == StripTrailingSlashes(s)
  {
    var r := StripTrailingSlashes(s);
    StripIsMaximalRun(r, |r|);
    assert r[..|r|] == r;
  }

  /** `getBaseURL`: the configured base, or the local default when unset or empty, stripped. */
  function GetBaseURL(env: Option<string>): (r: string)
    ensures |r| == 0 || r[|r| - 1] != '/'
    ensures Falsy(env) ==> r == DefaultBase
    ensures !Falsy(env) ==> r == StripTrailingSlashes(env.value)
  {
    assert DefaultBase[|DefaultBase| - 1] != '/';
    StripIsMaximalRun(DefaultBase, |DefaultBase|);
    assert DefaultBase[..|DefaultBase|] == DefaultBase;
    StripTrailingSlashes(if Falsy(env) then DefaultBase else env.value)
  }

  /** `urlBase` in `predictSignature`: the caller's `baseURL` if truthy, else `getBaseURL()`,
      then stripped. */
  function UrlBase(baseURL: Option<string>, env: Option<string>): (r: string)
    ensures |r| == 0 || r[|r| - 1] != '/'
    ensures !Falsy(baseURL) ==> r == StripTrailingSlashes(baseURL.value)
    ensures Falsy(baseURL) ==> r == GetBaseURL(env)
  {
    if Falsy(baseURL) then
      StripIdempotent(if Falsy(env) then DefaultBase else env.value);
      StripTrailingSlashes(GetBaseURL(env))
    else StripTrailingSlashes(baseURL.value)
  }

  /** App.jsx passes the already-normalised `getBaseURL()` back in; re-stripping changes nothing,
      so requests go to the configured base. */
  lemma AppBaseUnchanged(env: Option<string>)
    ensures UrlBase(Some(GetBaseURL(env)), env) == GetBaseURL(env)
  {
    var b := GetBaseURL(env);
    StripIsMaximalRun(b, |b|);
    assert b[..|b|] == b;
  }

  /** The `/predict` request path under a base. */
  function Endpoint(urlBase: string): string
  {
    urlBase + "/predict"
  }

  /** Whatever the caller passes and whatever is configured, the request path is the base
      followed by a single slash and "predict": never `//predict`. */
  lemma EndpointSingleSlash(baseURL: Option<string>, env: Option<string>)
    ensures var u := UrlBase(baseURL, env);
      var e := Endpoint(u);
      && e[|u|..] == "/predict"
      && (|u| == 0 || e[|u| - 1] != '/')
  {
  }

  /** A base URL with trailing slashes reaches the same endpoint as without them. */
  lemma SlashesDoNotReachEndpoint(base: string, k: nat)
    requires |base| > 0 && base[|base| - 1] != '/'
    ensures UrlBase(Some(base + seq(k, _ => '/')), None) == base
    ensures Endpoint(UrlBase(Some(base + seq(k, _ => '/')), None)) == Endpoint(base)
  {
    var s := base + seq(k, _ => '/');
    StripIsMaximalRun(s, |base|);
    assert s[..|base|] == base;
  }

  /** A JavaScript argument value: `undefined`, `null`, or a number. */
  datatype Arg = Undefined | Null | Num(n: real)

  /** The `params` object: each key present only when its argument is not `undefined`. */
  function Params(threshold: Arg, tta: Arg): (ps: seq<(string, Arg)>)
    ensures (exists k :: 0 <= k < |ps| && ps[k].0 == "threshold") <==> threshold != Undefined
    ensures (exists k :: 0 <= k < |ps| && ps[k].0 == "tta") <==> tta != Undefined
    ensures forall k :: 0 <= k < |ps| && ps[k].0 == "threshold" ==> ps[k].1 == threshold
    ensures forall k :: 0 <= k < |ps| && ps[k].0 == "tta" ==> ps[k].1 == tta
    ensures |ps| == (if threshold != Undefined then 1 else 0) + (if tta != Undefined then 1 else 0)
  {
    var t := if threshold != Undefined then [("threshold", threshold)] else [];
    var a := if tta != Undefined then [("tta", tta)] else [];
    var ps := t + a;
    assert "threshold" != "tta";
    assert forall k :: 0 <= k < |ps| ==> ps[k] == if k < |t| then t[k] else a[k - |t|];
    assert threshold != Undefined ==> ps[0].0 == "threshold";
    assert tta != Undefined ==> ps[|ps| - 1].0 == "tta";
    ps
  }

  /** The pipeline's call with threshold 0.7 and `tta` 0 sends both: a zero is not dropped. */
  lemma ZeroTtaKept()
    ensures Params(Num(0.7), Num(0.0)) == [("threshold", Num(0.7)), ("tta", Num(0.0))]
  {
  }

  /** PdfAnalyzer.jsx's own request: the configured base (or the default), stripped, plus
      "/predict". It reaches the same endpoint as `predictSignature` with no explicit base. */
  lemma PdfEndpointAgrees(env: Option<string>)
    ensures Endpoint(StripTrailingSlashes(if Falsy(env) then DefaultBase else env.value))
         == Endpoint(UrlBase(None, env))
  {
  }
}
