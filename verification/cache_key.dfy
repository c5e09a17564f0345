/**
  Cache-key derivation of the PDF viewer: a URL's absolute string becomes a
  file name in the caches directory by prefixing `pdf_` and turning every
  `/` into `_`.  The transform is deterministic but not injective.
 */
module CacheKey {
  import opened Text

  /** A URL, represented by its absolute string (`URL.absoluteString`). */
  type Url = string

  /** Namespace tag in front of every cached file name. */
  const Prefix: string := "pdf_"

  function SlashToUnderscore(c: char): char {
    if c == '/' then '_' else c
  }

  /** Every `/` of `s` replaced by `_`, all other characters kept in place. */
  function ReplaceSlashes(s: string): (r: string)
    ensures |r| == |s|
    ensures forall i :: 0 <= i < |s| ==> r[i] == SlashToUnderscore(s[i])
    ensures '/' !in r
    decreases |s|
  {
    if |s| == 0 then [] else [SlashToUnderscore(s[0])] + ReplaceSlashes(s[1..])
  }

  /** The cache file name of a URL (`url2CachePath`). */
  function Key(url: Url): (k: string)
    ensures |k| == 4 + |url|
    ensures IsPrefix(Prefix, k)
    ensures '/' !in k
    ensures forall i :: 0 <= i < |url| ==> k[4 + i] == SlashToUnderscore(url[i])
  {
    Prefix + ReplaceSlashes(url)
  }

  /**
    Appending one path component to a directory, as `URL.appendingPathComponent`
    does for a component without `/`: a separator is inserted unless the
    directory already ends in one.
   */
  function AppendComponent(dir: string, name: string): (p: string)
    ensures IsPrefix(dir, p)
    ensures |p| == |dir| + |name| + (if |dir| > 0 && dir[|dir| - 1] == '/' then 0 else 1)
    ensures |p| > |name| && p[|p| - |name|..] == name && p[|p| - |name| - 1] == '/'
  {
    if |dir| > 0 && dir[|dir| - 1] == '/' then dir + name else dir + "/" + name
  }

  /** The cache file of a URL under the caches directory `root` (`getPDFPath`). */
  function CachePath(root: string, url: Url): (p: string)
    ensures IsPrefix(root, p)
    ensures |p| == |root| + 5 + |url| - (if |root| > 0 && root[|root| - 1] == '/' then 1 else 0)
    ensures |p| > |Key(url)| && p[|p| - |Key(url)|..] == Key(url) && p[|p| - |Key(url)| - 1] == '/'
  {
    AppendComponent(root, Key(url))
  }

  /** Two characters are the same once `/` and `_` are identified. */
  predicate SameUpToSlash(c: char, d: char) {
    c == d || ((c == '/' || c == '_') && (d == '/' || d == '_'))
  }

  /** Two URL strings that differ at most by `/` versus `_` at some positions. */
  ghost predicate Collide(u: Url, v: Url) {
    |u| == |v| && forall i :: 0 <= i < |u| ==> SameUpToSlash(u[i], v[i])
  }

  /** Below one directory, appending is injective in the component. */
  lemma AppendComponentInjective(dir: string, a: string, b: string)
    ensures AppendComponent(dir, a) == AppendComponent(dir, b) <==> a == b
  {
    var stem := if |dir| > 0 && dir[|dir| - 1] == '/' then dir else dir + "/";
    assert AppendComponent(dir, a) == stem + a;
    assert AppendComponent(dir, b) == stem + b;
    if stem + a == stem + b {
      assert a == (stem + a)[|stem|..];
      assert b == (stem + b)[|stem|..];
    }
  }

  /** Two URLs share a cache key exactly when they differ only in `/` versus `_`. */
  lemma KeyCollision(u: Url, v: Url)
    ensures Key(u) == Key(v) <==> Collide(u, v)
  {
    if Key(u) == Key(v) {
      forall i | 0 <= i < |u|
        ensures SameUpToSlash(u[i], v[i])
      {
        assert Key(u)[4 + i] == Key(v)[4 + i];
      }
    }
    if Collide(u, v) {
      assert ReplaceSlashes(u) == ReplaceSlashes(v);
    }
  }

  /**
    The cache path is a function of the key alone: under one caches directory,
    two URLs share a cache file exactly when they collide.
   */
  lemma CachePathCollision(root: string, u: Url, v: Url)
    ensures CachePath(root, u) == CachePath(root, v) <==> Collide(u, v)
  {
    AppendComponentInjective(root, Key(u), Key(v));
    KeyCollision(u, v);
  }

  /** The key is not injective: `a/b` and `a_b` are distinct URLs with one cache file. */
  lemma KeyNotInjective(root: string)
    ensures "a/b" != "a_b" && CachePath(root, "a/b") == CachePath(root, "a_b")
  {
    CachePathCollision(root, "a/b", "a_b");
  }
}
