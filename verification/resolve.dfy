/** Path resolution: from a route table and a URL to one handler call.

    The route table is given as the sequence of its keys in `Object.keys`
    order. Three resolutions are modelled: the dispatch the router makes
    when it is called (the first key whose pattern matches wins), the
    lookup of `router.getRoutePatternFromUrlPath` (the last key whose
    pattern matches wins) and `router.href`, which goes through that
    lookup. A handler call is represented by the key whose handler runs
    and the parameter object it receives. */
module Resolve {
  import opened Wrappers
  import opened Text
  import opened Pattern
  import opened Params

  /** What makes the router throw. */
  datatype RouterError =
    | BadPattern(error: PatternError) // the key is not a valid route pattern
    | NoRoutedPath                    // `undefined.match(...)`: the URL has no `#`
    | NoRoute                         // `routeToParams(undefined, ...)` in `href`
    | UndeclaredRoutePattern          // the last statement reads `routePattern`, which no scope declares

  /** The inputs the router reads from its environment besides the URL:
      the command-line arguments after the script name and the query
      parameters of the current URL. */
  datatype Env = Env(argv: seq<string>, query: ParamSet)

  /** `routes[key](params)`. */
  datatype Call = Call(pattern: string, params: ParamSet)

  /** What the key loop of the router does: at most one handler call,
      possibly followed by an exception that ends the loop. */
  datatype LoopOutcome = LoopOutcome(call: Option<Call>, failure: Option<RouterError>)

  /** What a call of `router(routes, ...)` does: at most one handler call,
      and the exception it always ends with. */
  datatype InitOutcome = InitOutcome(call: Option<Call>, error: RouterError)

  /** `url.split("#")[1]`: the text between the first `#` and the next
      one (or the end), absent when there is no `#`. */
  function RoutedPath(url: string): (r: Option<string>)
    ensures r.None? <==> '#' !in url
    ensures r.Some? ==>
              var rest := url[IndexOf(url, '#') + 1..];
              r.value == rest[..IndexOf(rest, '#')]
  {
    var parts := Split(url, '#');
    var i := IndexOf(url, '#');
    if i < |url| then
      assert url == url[..i] + ['#'] + url[i + 1..];
      SplitCons(url[..i], '#', url[i + 1..]);
      SplitFirst(url[i + 1..], '#');
      assert |parts| > 1;
      Some(parts[1])
    else
      assert |parts| == 1;
      None
  }

  /** `urlPathMatchesRoutePattern(routed, key)`, which throws when the
      routed path is missing or the key is not a valid pattern. */
  function KeyMatches(routed: Option<string>, key: string): (r: Result<bool, RouterError>)
    ensures r.Success? <==> routed.Some? && Tokenize(key).Success?
    ensures r.Success? ==> r.value == Matches(Tokenize(key).value, routed.value)
    ensures r.Failure? && routed.Some? ==> r.error == BadPattern(Tokenize(key).error)
    ensures routed.None? ==> r == Failure(NoRoutedPath)
  {
    if routed.None? then Failure(NoRoutedPath)
    else match PathMatches(routed.value, key)
      case Success(b) => Success(b)
      case Failure(e) => Failure(BadPattern(e))
  }

  /** The call the router makes for `key`: the command-line arguments,
      overridden by the query parameters, overridden by the path
      parameters of `key` read from the routed path. */
  function CallFor(key: string, routed: string, env: Env): (c: Call)
    ensures c.pattern == key
    ensures c.params.Keys == GetArgs(env.argv).Keys + env.query.Keys + RouteToParams(key, routed).Keys
  {
    Call(key, Merge(GetArgs(env.argv), env.query, RouteToParams(key, routed)))
  }

  // ---------------------------------------------------------------------
  // Reference definitions: first failure, first match, last match
  // ---------------------------------------------------------------------

  /** Position of the first key whose test throws, `|keys|` when none does. */
  function FirstFailure(routed: Option<string>, keys: seq<string>): (i: nat)
    ensures i <= |keys|
    ensures forall j :: 0 <= j < i ==> KeyMatches(routed, keys[j]).Success?
    ensures i < |keys| ==> KeyMatches(routed, keys[i]).Failure?
  {
    if keys == [] then 0
    else if KeyMatches(routed, keys[0]).Failure? then 0
    else
      var i := 1 + FirstFailure(routed, keys[1..]);
      assert forall j :: 1 <= j < |keys| ==> keys[j] == keys[1..][j - 1];
      i
  }

  predicate Matched(routed: Option<string>, key: string) {
    KeyMatches(routed, key) == Success(true)
  }

  predicate Unmatched(routed: Option<string>, key: string) {
    KeyMatches(routed, key) == Success(false)
  }

  /** `keys[i]` matches and every earlier key was tested without a match. */
  predicate IsFirstMatch(routed: Option<string>, keys: seq<string>, i: int) {
    0 <= i < |keys| && Matched(routed, keys[i]) && forall j :: 0 <= j < i ==> Unmatched(routed, keys[j])
  }

  /** `keys[i]` matches and every later key was tested without a match. */
  predicate IsLastMatch(routed: Option<string>, keys: seq<string>, i: int) {
    0 <= i < |keys| && Matched(routed, keys[i]) && forall j :: i < j < |keys| ==> Unmatched(routed, keys[j])
  }

  lemma FirstMatchShift(routed: Option<string>, keys: seq<string>, i: int)
    requires 0 < i
    ensures IsFirstMatch(routed, keys, i) <==>
              |keys| > 0 && Unmatched(routed, keys[0]) && IsFirstMatch(routed, keys[1..], i - 1)
  {
    if |keys| > 0 {
      assert forall j :: 1 <= j < |keys| ==> keys[j] == keys[1..][j - 1];
    }
  }

  lemma LastMatchShift(routed: Option<string>, keys: seq<string>, i: int)
    requires 0 < i
    ensures IsLastMatch(routed, keys, i) <==> |keys| > 0 && IsLastMatch(routed, keys[1..], i - 1)
  {
    if |keys| > 0 {
      assert forall j :: 1 <= j < |keys| ==> keys[j] == keys[1..][j - 1];
    }
  }

  // ---------------------------------------------------------------------
  // Dispatch on init
  // ---------------------------------------------------------------------

  /** The `Object.keys(routes).forEach` loop of the router: every key is
      tested against the routed path, before the `matchedRoute` guard, so
      a key that throws stops the loop even after a handler ran; the
      first key that matches gets its handler called. `call` is the call
      made so far. */
  function InitLoop(keys: seq<string>, routed: Option<string>, env: Env, call: Option<Call>): LoopOutcome
    decreases |keys|
  {
    if keys == [] then LoopOutcome(call, None)
    else match KeyMatches(routed, keys[0])
      case Failure(e) => LoopOutcome(call, Some(e))
      case Success(matched) =>
        if !matched || call.Some? then InitLoop(keys[1..], routed, env, call)
        else InitLoop(keys[1..], routed, env, Some(CallFor(keys[0], routed.value, env)))
  }

  /** `router(routes, ...)` for the URL `url` (the path the environment
      provides: the part of the browser location after the host, `"#"`
      and the request URL, or `"#"` and the first command-line argument).
      When the key loop finishes without an exception, the statement after
      it, `return routes[routePattern](params)`, reads a name that is only
      the loop callback's parameter and throws a `ReferenceError`. */
  function Init(keys: seq<string>, url: string, env: Env): InitOutcome {
    var o := InitLoop(keys, RoutedPath(url), env, None);
    InitOutcome(o.call, if o.failure.Some? then o.failure.value else UndeclaredRoutePattern)
  }

  /** Once a handler has run, no other handler runs. */
  lemma {:induction false} InitLoopKeepsCall(keys: seq<string>, routed: Option<string>, env: Env, call: Option<Call>)
    requires call.Some?
    ensures InitLoop(keys, routed, env, call).call == call
    decreases |keys|
  {
    if keys != [] && KeyMatches(routed, keys[0]).Success? {
      InitLoopKeepsCall(keys[1..], routed, env, call);
    }
  }

  /** The loop throws exactly when some key's test throws, with the error
      of the first such key. */
  lemma {:induction false} InitLoopFailure(keys: seq<string>, routed: Option<string>, env: Env, call: Option<Call>)
    ensures var f := FirstFailure(routed, keys);
            InitLoop(keys, routed, env, call).failure ==
              if f < |keys| then Some(KeyMatches(routed, keys[f]).error) else None
    decreases |keys|
  {
    if keys != [] {
      match KeyMatches(routed, keys[0])
      case Failure(_) =>
      case Success(matched) =>
        var call' := if !matched || call.Some? then call else Some(CallFor(keys[0], routed.value, env));
        assert InitLoop(keys, routed, env, call) == InitLoop(keys[1..], routed, env, call');
        InitLoopFailure(keys[1..], routed, env, call');
        assert FirstFailure(routed, keys) == 1 + FirstFailure(routed, keys[1..]);
    }
  }

  lemma {:induction false} InitLoopFirstMatch(keys: seq<string>, routed: Option<string>, env: Env)
    ensures var o := InitLoop(keys, routed, env, None);
            (o.call.None? <==> forall i :: 0 <= i < |keys| ==> !IsFirstMatch(routed, keys, i))
            && forall i :: IsFirstMatch(routed, keys, i) ==> o.call == Some(CallFor(keys[i], routed.value, env))
    decreases |keys|
  {
    if keys != [] {
      var o := InitLoop(keys, routed, env, None);
      match KeyMatches(routed, keys[0])
      case Failure(_) =>
        forall i | 0 <= i < |keys|
          ensures !IsFirstMatch(routed, keys, i)
        {
          if i > 0 { assert !Unmatched(routed, keys[0]); }
        }
      case Success(matched) =>
        if matched {
          var c := CallFor(keys[0], routed.value, env);
          InitLoopKeepsCall(keys[1..], routed, env, Some(c));
          assert IsFirstMatch(routed, keys, 0);
          forall i | 0 < i < |keys|
            ensures !IsFirstMatch(routed, keys, i)
          {
            assert !Unmatched(routed, keys[0]);
          }
        } else {
          InitLoopFirstMatch(keys[1..], routed, env);
          forall i | 0 < i
            ensures IsFirstMatch(routed, keys, i) <==> IsFirstMatch(routed, keys[1..], i - 1)
          {
            FirstMatchShift(routed, keys, i);
          }
          assert !IsFirstMatch(routed, keys, 0);
          forall i | 0 <= i < |keys[1..]|
            ensures IsFirstMatch(routed, keys[1..], i) ==> IsFirstMatch(routed, keys, i + 1)
            ensures keys[1..][i] == keys[i + 1]
          {
          }
        }
    }
  }

  /** Dispatch on init: the handler called is that of the first key, in
      table order, whose pattern matches the routed path, with the merged
      parameters; no handler is called when no key matches before a key
      whose test throws. The key loop throws exactly when the test of some
      key throws (a URL without `#`, or a key that is not a valid
      pattern), with the first such error, even after the handler ran;
      when it does not, the statement after the loop throws, so the router
      always ends with an exception. */
  lemma InitDispatchesFirstMatch(keys: seq<string>, url: string, env: Env)
    ensures var routed := RoutedPath(url);
            var o := Init(keys, url, env);
            var f := FirstFailure(routed, keys);
            && o.error == (if f < |keys| then KeyMatches(routed, keys[f]).error else UndeclaredRoutePattern)
            && (o.call.None? <==> forall i :: 0 <= i < |keys| ==> !IsFirstMatch(routed, keys, i))
            && (forall i :: IsFirstMatch(routed, keys, i) ==> o.call == Some(CallFor(keys[i], routed.value, env)))
  {
    InitLoopFailure(keys, RoutedPath(url), env, None);
    InitLoopFirstMatch(keys, RoutedPath(url), env);
  }

  /** Without a `#` in the URL a non-empty table makes the router throw
      before any handler runs. */
  lemma InitWithoutHash(keys: seq<string>, url: string, env: Env)
    requires '#' !in url && keys != []
    ensures Init(keys, url, env) == InitOutcome(None, NoRoutedPath)
  {
    assert RoutedPath(url) == None;
    InitDispatchesFirstMatch(keys, url, env);
  }

  // ---------------------------------------------------------------------
  // router.getRoutePatternFromUrlPath and router.href
  // ---------------------------------------------------------------------

  /** The `forEach` of `getRoutePatternFromUrlPath`: every key is tested
      and each one that matches overwrites `pattern`. */
  function LastLoop(keys: seq<string>, routed: Option<string>, pattern: Option<string>): Result<Option<string>, RouterError>
    decreases |keys|
  {
    if keys == [] then Success(pattern)
    else
      var matched :- KeyMatches(routed, keys[0]);
      LastLoop(keys[1..], routed, if matched then Some(keys[0]) else pattern)
  }

  /** `router.getRoutePatternFromUrlPath(url)`. An empty `url` falls back
      to the request URL or the browser location, given as `fallback`. */
  function GetRoutePatternFromUrlPath(keys: seq<string>, url: string, fallback: string): Result<Option<string>, RouterError> {
    var urlPath := if url != [] then url else fallback;
    LastLoop(keys, RoutedPath(urlPath), None)
  }

  lemma {:induction false} LastLoopSpec(keys: seq<string>, routed: Option<string>, pattern: Option<string>)
    ensures var r := LastLoop(keys, routed, pattern);
            var f := FirstFailure(routed, keys);
            && (r.Failure? <==> f < |keys|)
            && (f < |keys| ==> r.error == KeyMatches(routed, keys[f]).error)
            && (f == |keys| && (forall i :: 0 <= i < |keys| ==> !Matched(routed, keys[i])) ==> r == Success(pattern))
            && (f == |keys| ==> forall i :: IsLastMatch(routed, keys, i) ==> r == Success(Some(keys[i])))
    decreases |keys|
  {
    if keys != [] {
      var rest := keys[1..];
      assert forall j :: 0 <= j < |rest| ==> rest[j] == keys[j + 1];
      match KeyMatches(routed, keys[0])
      case Failure(_) =>
      case Success(matched) =>
        var p := if matched then Some(keys[0]) else pattern;
        LastLoopSpec(rest, routed, p);
        forall i | 0 < i
          ensures IsLastMatch(routed, keys, i) <==> IsLastMatch(routed, rest, i - 1)
        {
          LastMatchShift(routed, keys, i);
        }
    }
  }

  /** `getRoutePatternFromUrlPath` returns the last key, in table order,
      whose pattern matches the routed path, and `undefined` when none
      matches; it throws exactly when some key's test throws. */
  lemma GetRoutePatternIsLastMatch(keys: seq<string>, url: string)
    requires url != []
    ensures var routed := RoutedPath(url);
            var r := GetRoutePatternFromUrlPath(keys, url, []);
            var f := FirstFailure(routed, keys);
            && (r.Failure? <==> f < |keys|)
            && (f < |keys| ==> r.error == KeyMatches(routed, keys[f]).error)
            && (f == |keys| ==> (r == Success(None) <==> forall i :: 0 <= i < |keys| ==> !Matched(routed, keys[i])))
            && (f == |keys| ==> forall i :: IsLastMatch(routed, keys, i) ==> r == Success(Some(keys[i])))
  {
    var routed := RoutedPath(url);
    LastLoopSpec(keys, routed, None);
    if FirstFailure(routed, keys) == |keys| && exists i :: 0 <= i < |keys| && Matched(routed, keys[i]) {
      var i :| 0 <= i < |keys| && Matched(routed, keys[i]);
      var last := LastMatchFrom(routed, keys, i);
      assert IsLastMatch(routed, keys, last);
    }
  }

  /** The last matching position at or after a matching position `i`. */
  function LastMatchFrom(routed: Option<string>, keys: seq<string>, i: nat): (j: nat)
    requires i < |keys| && Matched(routed, keys[i]) && FirstFailure(routed, keys) == |keys|
    ensures i <= j && IsLastMatch(routed, keys, j)
    decreases |keys| - i
  {
    if forall k :: i < k < |keys| ==> !Matched(routed, keys[k]) then
      assert forall k :: i < k < |keys| ==> KeyMatches(routed, keys[k]).Success?;
      i
    else
      var k :| i < k < |keys| && Matched(routed, keys[k]);
      LastMatchFrom(routed, keys, k)
  }

  /** `path.replace("#", "") || "/home"`: the first `#` is dropped and an
      empty result becomes `/home`. */
  function HrefUrl(path: string): (url: string)
    ensures url != []
    ensures path == [] || path == "#" ==> url == "/home"
    ensures '#' !in path && path != [] ==> url == path
    ensures |path| > 1 && path[0] == '#' ==> url == path[1..]
    ensures '#' in path && |path| > 1 ==> url == path[..IndexOf(path, '#')] + path[IndexOf(path, '#') + 1..]
  {
    var u := RemoveFirst(path, '#');
    if u == [] then "/home" else u
  }

  /** `router.href(path)`: looks the pattern up with
      `getRoutePatternFromUrlPath("#" + url)` and calls its handler with
      the merged parameters read from `"#" + url`. When no key matches,
      `routeToParams(undefined, ...)` throws. */
  function Href(keys: seq<string>, path: string, env: Env): Result<Call, RouterError> {
    var url := HrefUrl(path);
    var pattern :- GetRoutePatternFromUrlPath(keys, "#" + url, []);
    if pattern.None? then Failure(NoRoute)
    else
      assert '#' in "#" + url;
      Success(CallFor(pattern.value, RoutedPath("#" + url).value, env))
  }

  lemma HrefRoutedPath(url: string)
    ensures RoutedPath("#" + url) == Some(url[..IndexOf(url, '#')])
  {
    var s := "#" + url;
    assert IndexOf(s, '#') == 0;
    assert s[1..] == url;
  }

  /** `router.href` calls the handler of the last key whose pattern
      matches the text of `url` up to its first `#`; with no such key it
      throws `NoRoute`, and a key whose test throws makes it throw. */
  lemma HrefDispatchesLastMatch(keys: seq<string>, path: string, env: Env)
    ensures var url := HrefUrl(path);
            var routed := RoutedPath("#" + url);
            var f := FirstFailure(routed, keys);
            var r := Href(keys, path, env);
            && routed == Some(url[..IndexOf(url, '#')])
            && (f < |keys| ==> r == Failure(KeyMatches(routed, keys[f]).error))
            && (f == |keys| && (forall i :: 0 <= i < |keys| ==> !Matched(routed, keys[i])) ==> r == Failure(NoRoute))
            && (f == |keys| ==> forall i :: IsLastMatch(routed, keys, i) ==> r == Success(CallFor(keys[i], routed.value, env)))
  {
    var url := HrefUrl(path);
    HrefRoutedPath(url);
    GetRoutePatternIsLastMatch(keys, "#" + url);
  }

  // ---------------------------------------------------------------------
  // First match on init, last match in href
  // ---------------------------------------------------------------------

  lemma TokenizeParamExample()
    ensures Tokenize("/:x") == Success([One(Lit('/')), One(Param("x"))])
  {
    var p := "/:x";
    assert LexAtom(p) == Success((Lit('/'), 1));
    assert p[1..] == ":x";
    var q := ":x";
    assert q[1..] == "x" && IsWordChar('x');
    assert "x"[1..] == [];
    assert WordRun("x") == 1;
    assert q[1..1 + 1] == "x";
    assert LexAtom(q) == Success((Param("x"), 2));
    assert q[2..] == [];
    assert Tokenize([]) == Success([]);
    assert [One(Param("x"))] + [] == [One(Param("x"))];
    assert Tokenize(q) == Success([One(Param("x"))]);
    assert [One(Lit('/'))] + [One(Param("x"))] == [One(Lit('/')), One(Param("x"))];
  }

  lemma ParamExampleMatches()
    ensures Matched(Some("/a"), "/:x")
  {
    TokenizeParamExample();
    var ts := [One(Lit('/')), One(Param("x"))];
    assert ts[1..] == [One(Param("x"))];
    assert "/a"[1..] == "a";
    assert "a"[..1] == "a" && "a"[1..] == [];
    assert [One(Param("x"))][1..] == [];
    assert Matches([One(Param("x"))], "a");
    assert Matches(ts, "/a");
  }

  lemma PlainExampleMatches()
    ensures Matched(Some("/a"), "/a")
  {
    PlainPatternMatchesOnlyItself("/a", "/a");
  }

  /** Both keys of the table `{"/a": ..., "/:x": ...}` match `/a`. */
  lemma ExampleTable()
    ensures FirstFailure(Some("/a"), ["/a", "/:x"]) == 2
    ensures IsFirstMatch(Some("/a"), ["/a", "/:x"], 0)
    ensures IsLastMatch(Some("/a"), ["/a", "/:x"], 1)
  {
    var keys := ["/a", "/:x"];
    PlainExampleMatches();
    ParamExampleMatches();
    assert keys[1..] == ["/:x"] && keys[1..][1..] == [];
  }

  lemma InitExample(env: Env)
    ensures Init(["/a", "/:x"], "#/a", env) == InitOutcome(Some(CallFor("/a", "/a", env)), UndeclaredRoutePattern)
  {
    HrefRoutedPath("/a");
    ExampleTable();
    InitDispatchesFirstMatch(["/a", "/:x"], "#/a", env);
  }

  lemma HrefExample(env: Env)
    ensures Href(["/a", "/:x"], "/a", env) == Success(CallFor("/:x", "/a", env))
  {
    var keys := ["/a", "/:x"];
    var routed := Some("/a");
    assert '#' !in "/a";
    assert HrefUrl("/a") == "/a";
    assert IndexOf("/a", '#') == 2;
    HrefRoutedPath("/a");
    assert RoutedPath("#/a") == routed;
    ExampleTable();
    HrefLastMatch(keys, "/a", env, 1);
  }

  /** `HrefDispatchesLastMatch` for a known last match. */
  lemma HrefLastMatch(keys: seq<string>, path: string, env: Env, i: nat)
    requires var routed := RoutedPath("#" + HrefUrl(path));
             FirstFailure(routed, keys) == |keys| && IsLastMatch(routed, keys, i)
    ensures Href(keys, path, env) == Success(CallFor(keys[i], RoutedPath("#" + HrefUrl(path)).value, env))
  {
    HrefDispatchesLastMatch(keys, path, env);
  }

  /** With the table `{"/a": ..., "/:x": ...}` and the routed path `/a`,
      the router calls the handler of `/a` on init while `router.href`
      calls that of `/:x`. */
  lemma FirstAndLastDiverge(env: Env)
    ensures Init(["/a", "/:x"], "#/a", env).call.Some?
    ensures Init(["/a", "/:x"], "#/a", env).call.value.pattern == "/a"
    ensures Href(["/a", "/:x"], "/a", env).Success?
    ensures Href(["/a", "/:x"], "/a", env).value.pattern == "/:x"
  {
    InitExample(env);
    HrefExample(env);
  }
}
