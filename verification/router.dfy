/**
 * The frontend router: its route table and the global `beforeEach` guard,
 * which sends a visitor without a token to the login page and a visitor with
 * one away from it.
 */
module Router {
  import opened Base

  /** A route record: its path, `meta.requiresAuth`, `meta.adminOnly`, and its redirect target if it only redirects. */
  datatype Route = Route(path: string, requiresAuth: bool, adminOnly: bool, redirect: Option<string>)

  /** What the guard tells `next`: go on, or go to another path instead. */
  datatype Navigation = Proceed | RedirectTo(path: string)

  /** The route table; a missing `meta` flag reads as false. */
  const Routes: seq<Route> := [
    Route("/login", false, false, None),
    Route("/dashboard", true, false, None),
    Route("/reports", true, false, None),
    Route("/users", true, true, None),
    Route("/", false, false, Some("/login"))
  ]

  /** ASCII case folding: what a case-insensitive match of an ASCII record path compares. */
  function Lower(c: char): char {
    if 'A' <= c <= 'Z' then (c as int + 32) as char else c
  }

  /** A text folded char by char. */
  function Fold(s: string): (r: string)
    ensures |r| == |s| && forall i :: 0 <= i < |s| ==> r[i] == Lower(s[i])
  {
    seq(|s|, i requires 0 <= i < |s| => Lower(s[i]))
  }

  /** A record path without its trailing '/': "/" has the empty stem. */
  function Stem(record: string): string {
    if |record| > 0 && record[|record| - 1] == '/' then record[..|record| - 1] else record
  }

  /**
   * The matcher `createRouter` builds for a static record path under its
   * default options (`strict: false`, `sensitive: false`): the stem, ignoring
   * ASCII case, optionally followed by one '/'.
   */
  predicate PathMatches(record: string, path: string) {
    var stem := Stem(record);
    && (|path| == |stem| || (|path| == |stem| + 1 && path[|stem|] == '/'))
    && forall i :: 0 <= i < |stem| ==> Lower(path[i]) == Lower(stem[i])
  }

  /** The matcher is the pattern `^stem/?$` with the case-insensitive flag: equality after folding, up to one trailing '/'. */
  lemma MatchesIffFoldedEqual(record: string, path: string)
    ensures PathMatches(record, path) <==>
      Fold(path) == Fold(Stem(record)) || Fold(path) == Fold(Stem(record)) + "/"
  {
    var stem := Stem(record);
    if PathMatches(record, path) {
      if |path| == |stem| {
        assert Fold(path) == Fold(stem);
      } else {
        assert Fold(path) == Fold(stem) + "/";
      }
    }
    if Fold(path) == Fold(stem) + "/" {
      assert Fold(path)[|stem|] == '/';
      assert forall i :: 0 <= i < |stem| ==> Fold(path)[i] == Fold(stem)[i];
    }
    if Fold(path) == Fold(stem) {
      assert forall i :: 0 <= i < |stem| ==> Fold(path)[i] == Fold(stem)[i];
    }
  }

  /** The first route whose record matches `path`, if any. */
  function Lookup(path: string, routes: seq<Route>): Option<Route> {
    if routes == [] then None
    else if PathMatches(routes[0].path, path) then Some(routes[0])
    else Lookup(path, routes[1..])
  }

  /** Lookup finds a route matching the path, and finds none only when no route of the table matches. */
  lemma {:induction false} LookupFinds(path: string, routes: seq<Route>)
    ensures Lookup(path, routes).Some? ==> Lookup(path, routes).value in routes && PathMatches(Lookup(path, routes).value.path, path)
    ensures Lookup(path, routes).None? <==> forall k :: 0 <= k < |routes| ==> !PathMatches(routes[k].path, path)
  {
    if routes != [] {
      LookupFinds(path, routes[1..]);
      if !PathMatches(routes[0].path, path) {
        assert forall k :: 1 <= k < |routes| ==> routes[k] == routes[1..][k - 1];
      }
    }
  }

  /** The stems of the table's paths. */
  lemma TableStems()
    ensures Stem(Routes[0].path) == "/login" && Stem(Routes[1].path) == "/dashboard"
    ensures Stem(Routes[2].path) == "/reports" && Stem(Routes[3].path) == "/users"
    ensures Stem(Routes[4].path) == ""
  {
    assert "/" [..0] == "";
  }

  /**
   * No path matches two records of the table, so taking the first match in
   * table order picks the same record as vue-router's ranking by score.
   */
  lemma RoutesDisjoint(path: string, i: nat, j: nat)
    requires i < j < |Routes|
    ensures !(PathMatches(Routes[i].path, path) && PathMatches(Routes[j].path, path))
  {
    TableStems();
    if PathMatches(Routes[0].path, path) {
      assert Lower(path[1]) == Lower("/login"[1]);
    }
  }

  /** Lookup finds the first matching route. */
  lemma {:induction false} LookupFirst(path: string, routes: seq<Route>, k: nat)
    requires k < |routes| && PathMatches(routes[k].path, path)
    requires forall j :: 0 <= j < k ==> !PathMatches(routes[j].path, path)
    ensures Lookup(path, routes) == Some(routes[k])
  {
    if k > 0 {
      assert routes[1..][k - 1] == routes[k];
      assert forall j :: 0 <= j < k - 1 ==> routes[1..][j] == routes[j + 1];
      LookupFirst(path, routes[1..], k - 1);
    }
  }

  /** The route a path matches is the one Lookup finds. */
  lemma LookupIsTheMatch(path: string, k: nat)
    requires k < |Routes| && PathMatches(Routes[k].path, path)
    ensures Lookup(path, Routes) == Some(Routes[k])
  {
    forall j | 0 <= j < k ensures !PathMatches(Routes[j].path, path) {
      RoutesDisjoint(path, j, k);
    }
    LookupFirst(path, Routes, k);
  }

  /** The path navigation lands on once a redirect record has been followed. */
  function Resolve(path: string): string {
    match Lookup(path, Routes)
    case Some(Route(_, _, _, Some(target))) => target
    case _ => path
  }

  /** `to.meta.requiresAuth` for the landing path; an unmatched path has empty meta. */
  predicate RequiresAuth(path: string) {
    match Lookup(path, Routes)
    case Some(route) => route.requiresAuth
    case None => false
  }

  /** `localStorage.getItem('token')` is truthy: present and not the empty string. */
  predicate HasToken(token: Option<string>) {
    token.Some? && token.value != ""
  }

  /** The `beforeEach` decision for a landing path, its `requiresAuth` flag and the stored token. */
  function Guard(to: string, requiresAuth: bool, token: Option<string>): (n: Navigation)
    ensures requiresAuth && !HasToken(token) ==> n == RedirectTo("/login")
    ensures to == "/login" && HasToken(token) ==> n == RedirectTo("/dashboard")
    ensures n == Proceed <==> !(requiresAuth && !HasToken(token)) && !(to == "/login" && HasToken(token))
  {
    if requiresAuth && !HasToken(token) then RedirectTo("/login")
    else if to == "/login" && HasToken(token) then RedirectTo("/dashboard")
    else Proceed
  }

  /** A navigation to `path`: resolve the redirect records, then run the guard on where it lands. */
  function Navigate(path: string, token: Option<string>): Navigation {
    var to := Resolve(path);
    Guard(to, RequiresAuth(to), token)
  }

  /** The table's own facts: the login page is public, the others need a token, and "/" redirects to the login page. */
  lemma TableFacts()
    ensures !RequiresAuth("/login") && Resolve("/login") == "/login"
    ensures RequiresAuth("/dashboard") && Resolve("/dashboard") == "/dashboard"
    ensures RequiresAuth("/reports") && Resolve("/reports") == "/reports"
    ensures RequiresAuth("/users") && Resolve("/users") == "/users" && Lookup("/users", Routes).value.adminOnly
    ensures Resolve("/") == "/login"
  {
    TableStems();
    LookupIsTheMatch("/login", 0);
    LookupIsTheMatch("/dashboard", 1);
    LookupIsTheMatch("/reports", 2);
    LookupIsTheMatch("/users", 3);
    LookupIsTheMatch("/", 4);
  }

  /**
   * `adminOnly` is never consulted: the user page is gated by the token alone,
   * exactly like the reports page.
   */
  lemma AdminOnlyIgnored(token: Option<string>)
    ensures Lookup("/users", Routes).Some? && Lookup("/users", Routes).value.adminOnly
    ensures Navigate("/users", token) == Navigate("/reports", token)
    ensures Navigate("/users", token) == if HasToken(token) then Proceed else RedirectTo("/login")
  {
    TableFacts();
  }

  /** "/" lands on the login page, which a visitor with a token is sent on from to the dashboard. */
  lemma RootLandsOnLogin(token: Option<string>)
    ensures Navigate("/", token) == if HasToken(token) then RedirectTo("/dashboard") else Proceed
  {
    TableFacts();
  }

  /**
   * A path that matches a protected record, in any ASCII case and with or
   * without a trailing '/', sends a visitor without a token to the login page.
   */
  lemma ProtectedVariantsNeedToken(path: string, k: nat, token: Option<string>)
    requires 1 <= k <= 3 && PathMatches(Routes[k].path, path)
    requires !HasToken(token)
    ensures Navigate(path, token) == RedirectTo("/login")
  {
    LookupIsTheMatch(path, k);
  }

  /** "/dashboard/" and "/Users" are the dashboard and the user page to the matcher, so both need a token. */
  lemma LooseSpellingsNeedToken()
    ensures Navigate("/dashboard/", None) == RedirectTo("/login")
    ensures Navigate("/Users", None) == RedirectTo("/login")
  {
    TableStems();
    ProtectedVariantsNeedToken("/dashboard/", 1, None);
    ProtectedVariantsNeedToken("/Users", 3, None);
  }

  /**
   * The guard compares `to.path` with "/login" exactly, while the matcher
   * ignores case: "/Login" reaches the login page even with a token.
   */
  lemma LoginSpellingIsNotLogin(token: Option<string>)
    requires HasToken(token)
    ensures Navigate("/Login", token) == Proceed
  {
    TableStems();
    LookupIsTheMatch("/Login", 0);
    assert "/Login"[1] != "/login"[1];
  }

  /** A path no record matches proceeds with or without a token. */
  lemma UnknownPathProceeds(path: string, token: Option<string>)
    requires forall k :: 0 <= k < |Routes| ==> !PathMatches(Routes[k].path, path)
    ensures Navigate(path, token) == Proceed
  {
    LookupFinds(path, Routes);
  }

  /** The guard never loops: the path it redirects to is one it lets through with the same token. */
  lemma RedirectSettles(path: string, token: Option<string>)
    requires Navigate(path, token).RedirectTo?
    ensures Navigate(Navigate(path, token).path, token) == Proceed
  {
    TableFacts();
    assert "/dashboard"[1] != "/login"[1];
  }
}
