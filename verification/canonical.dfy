/** URL canonicalisation (`normalizeUrl`, server/index.js): the single key
    deciding whether two acquisitions name the same source. */
module Canonical {
  import opened Wrappers
  import opened Text

  /** The parts of a WHATWG URL record the canonicaliser can see. `host`
      carries the port, as the `URL.host` getter does. */
  datatype ParsedUrl = ParsedUrl(
    scheme: string,
    host: string,
    pathname: string,
    query: string,
    fragment: string)

  /** `new URL(s)`: the parsed record, or None where the constructor throws.
      The WHATWG parser is a foreign library, so it is a parameter. */
  type Parser = string -> Option<ParsedUrl>

  /** True when `s` ends with a `/`. */
  predicate EndsWithSlash(s: string) {
    |s| > 0 && s[|s| - 1] == '/'
  }

  /** The path part of the key: one trailing `/` removed, except from the
      root path `/` (and from the empty path, which has none). */
  function PathKey(p: string): (r: string)
    ensures r == p || (|p| > 1 && r + "/" == p)
    ensures r != p <==> |p| > 1 && EndsWithSlash(p)
    ensures |r| == 0 <==> |p| == 0
  {
    if |p| > 1 && EndsWithSlash(p) then p[..|p| - 1] else p
  }

  /** The fallback's final step: a single `/` at the very end of the string,
      if there is one, is removed; nothing else changes. */
  function StripSlash(s: string): (r: string)
    ensures r == s || r + "/" == s
    ensures r != s <==> EndsWithSlash(s)
  {
    if EndsWithSlash(s) then s[..|s| - 1] else s
  }

  /** The canonical key of a raw URL string.

      Absent or empty input gives the empty key. Otherwise the trimmed input is
      parsed: on success the key is the lower-cased host followed by the path
      key, and scheme, query and fragment play no part; on failure the key is
      the trimmed, lower-cased input with one trailing `/` removed. The
      function is total: no input makes it fail. */
  function NormalizeUrl(parse: Parser, urlStr: Option<string>): (r: string)
    ensures !Truthy(urlStr) ==> r == []
    ensures Truthy(urlStr) && parse(Trim(urlStr.value)).Some? ==>
              var u := parse(Trim(urlStr.value)).value;
              r == Lower(u.host) + PathKey(u.pathname)
    ensures Truthy(urlStr) && parse(Trim(urlStr.value)).None? ==>
              r == StripSlash(Lower(Trim(urlStr.value)))
  {
    if !Truthy(urlStr) then []
    else
      var trimmed := Trim(urlStr.value);
      match parse(trimmed)
      case Some(u) => Lower(u.host) + PathKey(u.pathname)
      case None => StripSlash(Lower(trimmed))
  }

  // ---------------------------------------------------------------------------
  // Properties

  /** Two inputs whose parses agree on host (up to case) and path get the same
      key, whatever their schemes, queries and fragments. */
  lemma IgnoresSchemeQueryFragment(parse: Parser, a: string, b: string)
    requires a != [] && b != []
    requires parse(Trim(a)).Some? && parse(Trim(b)).Some?
    requires Lower(parse(Trim(a)).value.host) == Lower(parse(Trim(b)).value.host)
    requires parse(Trim(a)).value.pathname == parse(Trim(b)).value.pathname
    ensures NormalizeUrl(parse, Some(a)) == NormalizeUrl(parse, Some(b))
  {
  }

  /** A path and the same path with one `/` added have the same key. */
  lemma PathKeyTrailingSlash(p: string)
    requires p != [] && !EndsWithSlash(p)
    ensures PathKey(p + "/") == PathKey(p) == p
  {
    assert (p + "/")[..|p|] == p;
  }

  /** Two parsed inputs that differ only by one trailing `/` on the path get the
      same key. */
  lemma IgnoresTrailingSlash(parse: Parser, a: string, b: string)
    requires a != [] && b != []
    requires parse(Trim(a)).Some? && parse(Trim(b)).Some?
    requires Lower(parse(Trim(a)).value.host) == Lower(parse(Trim(b)).value.host)
    requires var p := parse(Trim(b)).value.pathname;
             p != [] && !EndsWithSlash(p) && parse(Trim(a)).value.pathname == p + "/"
    ensures NormalizeUrl(parse, Some(a)) == NormalizeUrl(parse, Some(b))
  {
    PathKeyTrailingSlash(parse(Trim(b)).value.pathname);
  }

  /** White space around a non-blank input does not change its key. */
  lemma IgnoresPadding(parse: Parser, pre: string, s: string, post: string)
    requires AllSpace(pre) && AllSpace(post) && s != []
    ensures NormalizeUrl(parse, Some(pre + s + post)) == NormalizeUrl(parse, Some(s))
  {
    TrimPadded(pre, s, post);
  }

  /** A key computed by the fallback is already lower case, and inputs that
      differ only in letter case share it. */
  lemma FallbackIgnoresCase(parse: Parser, a: string, b: string)
    requires a != [] && b != []
    requires parse(Trim(a)).None? && parse(Trim(b)).None?
    requires Lower(a) == Lower(b)
    ensures NormalizeUrl(parse, Some(a)) == NormalizeUrl(parse, Some(b))
    ensures Lower(NormalizeUrl(parse, Some(a))) == NormalizeUrl(parse, Some(a))
  {
    TrimLower(a);
    TrimLower(b);
    LowerIdempotent(Trim(a));
    StripSlashLower(Lower(Trim(a)));
  }

  /** Removing a trailing `/` keeps a lower-case string lower case. */
  lemma StripSlashLower(l: string)
    requires Lower(l) == l
    ensures Lower(StripSlash(l)) == StripSlash(l)
  {
    if EndsWithSlash(l) {
      assert Lower(l[..|l| - 1]) == Lower(l)[..|l| - 1];
    }
  }

  /** The structured key always begins with the lower-cased host, and its
      host part is lower case. */
  lemma StructuredHostPrefix(parse: Parser, s: string)
    requires s != [] && parse(Trim(s)).Some?
    ensures var h := Lower(parse(Trim(s)).value.host);
            var r := NormalizeUrl(parse, Some(s));
            |h| <= |r| && r[..|h|] == h && Lower(h) == h
  {
    LowerIdempotent(parse(Trim(s)).value.host);
  }
}
