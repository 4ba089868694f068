/** Joining the publisher's base URL with an API path
    (`_normalize_base_url`, `_build_endpoint`). */
module Endpoint {

  /** `p` is `s` with its run of trailing `/` removed: `s` is `p` followed by
      slashes only, and `p` does not itself end in `/`. */
  ghost predicate SlashTrimmed(s: string, p: string) {
    && |p| <= |s|
    && s[..|p|] == p
    && (forall i :: |p| <= i < |s| ==> s[i] == '/')
    && (|p| == 0 || p[|p| - 1] != '/')
  }

  /** `base_url.rstrip("/")`. */
  function NormalizeBaseUrl(s: string): (r: string)
    ensures SlashTrimmed(s, r)
  {
    if |s| > 0 && s[|s| - 1] == '/' then NormalizeBaseUrl(s[..|s| - 1]) else s
  }

  /** Only one prefix of `s` fits that description, so any prefix that does
      is the normalized URL. */
  lemma SlashTrimmedUnique(s: string, p: string)
    requires SlashTrimmed(s, p)
    ensures p == NormalizeBaseUrl(s)
  {
    var r := NormalizeBaseUrl(s);
    assert |p| == |r|;
  }

  /** Normalizing twice is normalizing once. */
  lemma NormalizeIdempotent(s: string)
    ensures NormalizeBaseUrl(NormalizeBaseUrl(s)) == NormalizeBaseUrl(s)
  {
    var r := NormalizeBaseUrl(s);
    assert r[..|r|] == r;
    SlashTrimmedUnique(r, r);
  }

  /** Slashes appended to a base URL make no difference. */
  lemma NormalizeIgnoresSlashes(s: string, slashes: string)
    requires forall i :: 0 <= i < |slashes| ==> slashes[i] == '/'
    ensures NormalizeBaseUrl(s + slashes) == NormalizeBaseUrl(s)
  {
    var r := NormalizeBaseUrl(s);
    assert (s + slashes)[..|r|] == s[..|r|];
    SlashTrimmedUnique(s + slashes, r);
  }

  /** `f"{_normalize_base_url(base_url)}{path}"`: the API path, verbatim,
      after the base URL with its trailing slashes trimmed. */
  function BuildEndpoint(base: string, path: string): (r: string)
    ensures |path| <= |r| && r[|r| - |path|..] == path
    ensures SlashTrimmed(base, r[..|r| - |path|])
  {
    var head := NormalizeBaseUrl(base);
    assert (head + path)[..|head|] == head;
    head + path
  }

  /** Extra trailing slashes on the base never reach the endpoint. */
  lemma EndpointIgnoresSlashes(base: string, slashes: string, path: string)
    requires forall i :: 0 <= i < |slashes| ==> slashes[i] == '/'
    ensures BuildEndpoint(base + slashes, path) == BuildEndpoint(base, path)
  {
    NormalizeIgnoresSlashes(base, slashes);
  }
}
