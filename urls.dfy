/**
 * `splitUrl` and `joinUrl`: a URL cut at its first `?` and its first `#` into
 * location, query string and hash, and the parts glued back together.
 */
module Urls {
  import opened Wrappers
  import opened Strings

  /**
   * The three capture groups of the match; `None` is a group that did not
   * take part (the JavaScript value `undefined`).
   */
  datatype UrlParts = UrlParts(location: Option<string>, queryString: Option<string>, hash: Option<string>)

  /** Where a group stops: at `#`, and also at `?` when `atQuery` holds. */
  predicate IsStop(c: char, atQuery: bool)
  {
    c == '#' || (atQuery && c == '?')
  }

  /** The length of the longest prefix of `s` that holds no stop. */
  function RunBefore(s: string, atQuery: bool): (n: nat)
    ensures n <= |s|
    ensures forall i :: 0 <= i < n ==> !IsStop(s[i], atQuery)
    ensures n == |s| || IsStop(s[n], atQuery)
  {
    if s == [] || IsStop(s[0], atQuery) then 0 else 1 + RunBefore(s[1..], atQuery)
  }

  /** A run free of `stops`, followed by the end or by a stop, is measured whole. */
  lemma {:induction false} RunBeforeOf(a: string, b: string, atQuery: bool)
    requires forall i :: 0 <= i < |a| ==> !IsStop(a[i], atQuery)
    requires b == [] || IsStop(b[0], atQuery)
    ensures RunBefore(a + b, atQuery) == |a|
  {
    if a != [] {
      assert (a + b)[1..] == a[1..] + b;
      RunBeforeOf(a[1..], b, atQuery);
    }
  }

  predicate HasLineTerminator(s: string)
  {
    exists i :: 0 <= i < |s| && IsLineTerminator(s[i])
  }

  /** Text holding no stop. */
  predicate Avoids(s: string, atQuery: bool)
  {
    forall i :: 0 <= i < |s| ==> !IsStop(s[i], atQuery)
  }

  /**
   * Parts the pattern can produce: a location is non-empty (an empty
   * `([^?#]*)?` leaves its group out) and holds no `?` or `#`, a query holds
   * no `#`, and a hash holds no line terminator (`.` does not match one).
   */
  predicate WellFormed(p: UrlParts)
  {
    && (p.location.Some? ==> p.location.value != "" && Avoids(p.location.value, true))
    && (p.queryString.Some? ==> Avoids(p.queryString.value, false))
    && (p.hash.Some? ==> !HasLineTerminator(p.hash.value))
  }

  /** The text the three groups matched, in order, with the `?` and `#` they follow. */
  function Recompose(p: UrlParts): string
  {
    (if p.location.Some? then p.location.value else "")
    + (if p.queryString.Some? then "?" + p.queryString.value else "")
    + (if p.hash.Some? then "#" + p.hash.value else "")
  }

  /** Where the first `#` of `url` sits, or `|url|` when it has none. */
  function HashStart(url: string): (k: nat)
    ensures k <= |url| && Avoids(url[..k], false)
    ensures k == |url| || url[k] == '#'
  {
    RunBefore(url, false)
  }

  /** Stopping at more characters never makes the run longer. */
  lemma {:induction false} RunBeforeMonotone(s: string)
    ensures RunBefore(s, true) <= RunBefore(s, false)
  {
    if s != [] && !IsStop(s[0], true) {
      RunBeforeMonotone(s[1..]);
    }
  }

  /**
   * The three groups of `/^([^?#]*)?(?:\?([^#]*))?(?:#(.*))?$/` on `url`,
   * whether or not the final `(.*)$` can succeed.
   */
  function Groups(url: string): (p: UrlParts)
    ensures Recompose(p) == url
    ensures p.location.Some? ==> p.location.value != "" && Avoids(p.location.value, true)
    ensures p.queryString.Some? ==> Avoids(p.queryString.value, false)
    ensures p.hash.Some? <==> HashStart(url) < |url|
    ensures p.hash.Some? ==> p.hash.value == url[HashStart(url) + 1..]
  {
    var i := RunBefore(url, true);
    var k := HashStart(url);
    RunBeforeMonotone(url);
    GroupsJoin(url, i, k);
    UrlParts(if i == 0 then None else Some(url[..i]),
             if i < k then Some(url[i + 1..k]) else None,
             if k < |url| then Some(url[k + 1..]) else None)
  }

  /** The location, the `?` with the query and the `#` with the hash make up the whole text. */
  lemma GroupsJoin(url: string, i: nat, k: nat)
    requires i <= k <= |url|
    requires i == k || url[i] == '?'
    requires k == |url| || url[k] == '#'
    ensures url == url[..i] + (if i < k then "?" + url[i + 1..k] else "")
                   + (if k < |url| then "#" + url[k + 1..] else "")
  {
    assert i < k ==> url[i..k] == "?" + url[i + 1..k];
    assert k < |url| ==> url[k..] == "#" + url[k + 1..];
    assert url == url[..i] + url[i..k] + url[k..];
  }

  /**
   * `url.match(...)` read as its three groups. `None` is a failed match (the
   * source then throws on `match[1]`), which happens exactly when the text
   * after the first `#` holds a line terminator.
   */
  function SplitUrl(url: string): (r: Option<UrlParts>)
    ensures r.Some? ==> WellFormed(r.value) && Recompose(r.value) == url
    ensures r.None? <==> HashStart(url) < |url| && HasLineTerminator(url[HashStart(url) + 1..])
  {
    var p := Groups(url);
    if p.hash.Some? && HasLineTerminator(p.hash.value) then None else Some(p)
  }

  /** In the text of well-formed parts, the location ends where the parts after it begin. */
  lemma LocationBoundary(l: string, q: string, h: string)
    requires Avoids(l, true)
    requires q == [] || q[0] == '?'
    requires q == [] ==> h == [] || h[0] == '#'
    ensures RunBefore(l + q + h, true) == |l|
  {
    assert l + q + h == l + (q + h);
    RunBeforeOf(l, q + h, true);
  }

  /** In the text of well-formed parts, the hash starts where the location and query end. */
  lemma HashBoundary(l: string, q: string, h: string)
    requires Avoids(l, true) && Avoids(q, false)
    requires h == [] || h[0] == '#'
    ensures HashStart(l + q + h) == |l| + |q|
  {
    assert Avoids(l + q, false);
    RunBeforeOf(l + q, h, false);
  }

  /** The three pieces of a concatenation, read back by position. */
  lemma Pieces(a: string, b: string, c: string)
    ensures (a + b + c)[..|a|] == a
    ensures (a + b + c)[|a|..|a| + |b|] == b
    ensures (a + b + c)[|a| + |b|..] == c
  {
  }

  /** The text of the location, of the `?` and query, and of the `#` and hash. */
  function Texts(p: UrlParts): (string, string, string)
  {
    (if p.location.Some? then p.location.value else "",
     if p.queryString.Some? then "?" + p.queryString.value else "",
     if p.hash.Some? then "#" + p.hash.value else "")
  }

  /** Where the groups of the text of well-formed parts begin and end. */
  lemma RecomposeLayout(p: UrlParts)
    requires WellFormed(p)
    ensures var (l, q, h) := Texts(p);
            var url := Recompose(p);
            && url == l + q + h
            && RunBefore(url, true) == |l| && HashStart(url) == |l| + |q|
            && url[..|l|] == l && url[|l|..|l| + |q|] == q && url[|l| + |q|..] == h
  {
    var (l, q, h) := Texts(p);
    LocationBoundary(l, q, h);
    HashBoundary(l, q, h);
    Pieces(l, q, h);
  }

  /** The groups of the text of well-formed parts are those parts. */
  lemma GroupsRecompose(p: UrlParts)
    requires WellFormed(p)
    ensures Groups(Recompose(p)) == p
  {
    var (l, q, h) := Texts(p);
    var url := Recompose(p);
    RecomposeLayout(p);
    var i, k := |l|, |l| + |q|;
    if p.queryString.Some? {
      assert url[i + 1..k] == url[i..k][1..];
    }
    if p.hash.Some? {
      assert url[k + 1..] == url[k..][1..];
    }
  }

  /** Splitting the text of well-formed parts gives those parts back. */
  lemma SplitRecompose(p: UrlParts)
    requires WellFormed(p)
    ensures SplitUrl(Recompose(p)) == Some(p)
  {
    GroupsRecompose(p);
  }

  /** A text that `SplitUrl` refuses is the text of no well-formed parts. */
  lemma SplitUrlFailsOnlyWithoutParts(url: string)
    requires SplitUrl(url).None?
    ensures forall p :: WellFormed(p) ==> Recompose(p) != url
  {
    forall p | WellFormed(p)
      ensures Recompose(p) != url
    {
      SplitRecompose(p);
    }
  }

  /** `joinUrl(splitted, noHash)`: falsy parts are skipped, together with their `?` or `#`. */
  function JoinUrl(p: UrlParts, noHash: bool): (url: string)
    ensures url == Recompose(p.(queryString := if p.queryString == Some("") then None else p.queryString,
                                hash := if noHash || p.hash == Some("") then None else p.hash))
  {
    (if p.location.Some? then p.location.value else "")
    + (if p.queryString.Some? && p.queryString.value != "" then "?" + p.queryString.value else "")
    + (if !noHash && p.hash.Some? && p.hash.value != "" then "#" + p.hash.value else "")
  }

  /**
   * Joining split parts gives the URL back exactly when the split found no
   * empty query after a `?` and no empty hash after a `#`.
   */
  lemma JoinSplitUrl(url: string)
    requires SplitUrl(url).Some?
    ensures var p := SplitUrl(url).value;
            JoinUrl(p, false) == url <==> p.queryString != Some("") && p.hash != Some("")
  {
    var p := SplitUrl(url).value;
    if p.queryString == Some("") || p.hash == Some("") {
      assert |JoinUrl(p, false)| < |Recompose(p)|;
    }
  }

  /** With an empty query or hash, the join drops just that lone `?` or `#`. */
  lemma JoinSplitUrlDropsEmpty(url: string)
    requires SplitUrl(url).Some?
    ensures var p := SplitUrl(url).value;
            JoinUrl(p, false) == Recompose(p.(queryString := if p.queryString == Some("") then None else p.queryString,
                                               hash := if p.hash == Some("") then None else p.hash))
  {
  }

  /** With `noHash` the hash is left out, as if the split had found none. */
  lemma JoinWithoutHash(p: UrlParts)
    ensures JoinUrl(p, true) == JoinUrl(p.(hash := None), false)
  {
  }

  /** Parts without empty groups survive a join followed by a split. */
  lemma SplitJoinUrl(p: UrlParts)
    requires WellFormed(p) && p.queryString != Some("") && p.hash != Some("")
    ensures SplitUrl(JoinUrl(p, false)) == Some(p)
  {
    assert JoinUrl(p, false) == Recompose(p);
    SplitRecompose(p);
  }
}
