/** The GitHub Pages single-page redirect: a `?p=` path (and `q=` query)
    left by the 404 page is turned back into a route. */
module Redirect {
  import opened Wrappers
  import opened Text

  const AND_TOKEN: string := "~and~"

  /** `query.replace(/~and~/g, '&')`: left to right, each match replaced,
      scanning on after it. */
  function ReplaceAnd(s: string): string
    decreases |s|
  {
    if s == [] then ""
    else if |s| >= |AND_TOKEN| && s[..|AND_TOKEN|] == AND_TOKEN then "&" + ReplaceAnd(s[|AND_TOKEN|..])
    else [s[0]] + ReplaceAnd(s[1..])
  }

  predicate StartsWith(s: string, t: string) {
    |s| >= |t| && s[..|t|] == t
  }

  /** A character of the output is `&` or the next input character. */
  lemma ReplaceAndHead(s: string)
    requires s != []
    ensures ReplaceAnd(s) != []
    ensures StartsWith(s, AND_TOKEN) ==> ReplaceAnd(s)[0] == '&'
    ensures !StartsWith(s, AND_TOKEN) ==> ReplaceAnd(s)[0] == s[0]
  {
  }

  /** An output that begins with `t`, a string without `&`, comes from an
      input that begins with `t`. */
  lemma {:induction false} ReplaceAndPrefix(s: string, t: string)
    requires '&' !in t && StartsWith(ReplaceAnd(s), t)
    ensures StartsWith(s, t)
    decreases |t|
  {
    if t != [] {
      ReplaceAndHead(s);
      assert ReplaceAnd(s)[0] == t[0];
      assert !StartsWith(s, AND_TOKEN);
      assert ReplaceAnd(s) == [s[0]] + ReplaceAnd(s[1..]);
      assert ReplaceAnd(s)[1..] == ReplaceAnd(s[1..]);
      assert StartsWith(ReplaceAnd(s[1..]), t[1..]);
      ReplaceAndPrefix(s[1..], t[1..]);
      assert s == [s[0]] + s[1..];
    }
  }

  /** After the replacement no `~and~` is left. */
  lemma {:induction false} ReplaceAndLeavesNoToken(s: string)
    ensures !Includes(ReplaceAnd(s), AND_TOKEN)
    decreases |s|
  {
    var r := ReplaceAnd(s);
    if s != [] {
      var rest := if StartsWith(s, AND_TOKEN) then s[|AND_TOKEN|..] else s[1..];
      ReplaceAndLeavesNoToken(rest);
      assert r[1..] == ReplaceAnd(rest);
      ReplaceAndNoTokenAtStart(s);
    }
  }

  /** The output never begins with `~and~`: a `~` in front comes from a `~`
      in the input that does not start the token. */
  lemma ReplaceAndNoTokenAtStart(s: string)
    ensures !StartsWith(ReplaceAnd(s), AND_TOKEN)
  {
    if s != [] {
      ReplaceAndHead(s);
      if !StartsWith(s, AND_TOKEN) {
        assert ReplaceAnd(s)[1..] == ReplaceAnd(s[1..]);
        if StartsWith(ReplaceAnd(s[1..]), "and~") {
          ReplaceAndPrefix(s[1..], "and~");
          assert s[..|AND_TOKEN|] == [s[0]] + s[1..][..4];
          assert s[0] != '~';
        }
      }
    }
  }

  /** A query without `~and~` passes unchanged. */
  lemma {:induction false} ReplaceAndKeepsPlainText(s: string)
    requires !Includes(s, AND_TOKEN)
    ensures ReplaceAnd(s) == s
    decreases |s|
  {
    if s != [] {
      assert !StartsWith(s, AND_TOKEN);
      ReplaceAndKeepsPlainText(s[1..]);
    }
  }

  /** Replacing twice is replacing once. */
  lemma ReplaceAndIdempotent(s: string)
    ensures ReplaceAnd(ReplaceAnd(s)) == ReplaceAnd(s)
  {
    ReplaceAndLeavesNoToken(s);
    ReplaceAndKeepsPlainText(ReplaceAnd(s));
  }

  /** The route to open: `/` + path, then `?` and the query when there is
      one, then the hash. */
  function FullPath(redirectPath: string, query: Option<string>, hash: string): (fullPath: string)
    ensures |fullPath| > |hash| && fullPath[0] == '/'
    ensures fullPath[|fullPath| - |hash|..] == hash
  {
    "/" + redirectPath + (if Truthy(query) then "?" + ReplaceAnd(query.value) else "") + hash
  }

  /** What the hook does to the browser, in order. */
  datatype Effect =
    | ReplaceUrl(url: string)                 // `history.replaceState(null, '', url)`
    | Navigate(to: string, replace: bool)     // `navigate(to, { replace })`

  /** The effects the hook has performed so far. */
  class Browser {
    var effects: seq<Effect>

    constructor ()
      ensures effects == []
    {
      effects := [];
    }

    /** The hook's effect, given the decoded `p` and `q` parameters and the
        location's pathname and hash: nothing unless `p` is non-empty;
        otherwise the address is reset to the pathname, then the router
        replaces the entry with the full path. */
    method RunRedirect(p: Option<string>, q: Option<string>, pathname: string, hash: string)
      modifies this
      ensures !Truthy(p) ==> effects == old(effects)
      ensures Truthy(p) ==>
        effects == old(effects) + [ReplaceUrl(pathname), Navigate(FullPath(p.value, q, hash), true)]
    {
      if Truthy(p) {
        var fullPath := "/" + p.value + (if Truthy(q) then "?" + ReplaceAnd(q.value) else "") + hash;
        effects := effects + [ReplaceUrl(pathname)];
        effects := effects + [Navigate(fullPath, true)];
      }
    }
  }

  /** The route carries the path right after the slash, and a query with
      every `~and~` turned back into `&`, so no `~and~` reaches the route's
      query. */
  lemma FullPathParts(redirectPath: string, query: string, hash: string)
    requires query != ""
    ensures var fullPath := FullPath(redirectPath, Some(query), hash);
      && fullPath[1..1 + |redirectPath|] == redirectPath
      && fullPath[1 + |redirectPath|] == '?'
      && fullPath[2 + |redirectPath|..|fullPath| - |hash|] == ReplaceAnd(query)
      && !Includes(fullPath[2 + |redirectPath|..|fullPath| - |hash|], AND_TOKEN)
  {
    ReplaceAndLeavesNoToken(query);
  }
}
