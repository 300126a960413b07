# A verified model of the vanilla JS router (`src/router.js`)

The router is a single function, `router(routes, req, res, cb)`. It takes a
table from route patterns such as `/profile/:id` to handlers. It finds the
pattern that matches the current URL path and calls that pattern's handler
with a parameter object. That object merges three sources: the command-line
arguments, the query parameters and the path parameters.

The same function serves three settings. In a browser the path is the
location hash. On a Node HTTP server it is the request URL. In a CLI it is
the first argument. `router.href(path)` later re-routes to another path, and
`router.use(fn)` registers middleware.

This project models the logic behind those decisions as pure Dafny
functions over strings, sequences and maps, and proves what they do.

| file | module | models |
|---|---|---|
| `wrappers.dfy` | `Wrappers` | `Option` and `Result` |
| `text.dfy` | `Text` | the JavaScript primitives the router uses: `indexOf`, `split` on one character (with `Join` as its inverse), `replace` of the first occurrence of a character, `\w` and line terminators |
| `pattern.dfy` | `Pattern` | `routeToRegExp` and `urlPathMatchesRoutePattern`: the language of a route pattern, given as tokens and an anchored match predicate instead of a regular-expression engine |
| `params.dfy` | `Params` | `getArgs`, `routeToParams` and the `{...args, ...query, ...route}` merge |
| `resolve.dfy` | `Resolve` | the routed path (`url.split("#")[1]`), the dispatch loop run on init, `router.getRoutePatternFromUrlPath` and `router.href` |
| `middleware.dfy` | `Middleware` | `router.use` and the wrapping pass over `router.middleware` |

**The pattern language.** `routeToRegExp` rewrites a pattern in four passes:

1. It escapes metacharacters.
2. It turns `(…)` (up to the first `)`) into an optional group.
3. It turns `:name` into `([^/]+)`.
4. It turns `*name` into `(.*?)`.

The model tokenises a pattern into:

- literal characters;
- `Param(name)`, which matches one or more characters other than `/`;
- `Splat(name)`, which matches any run without a line terminator;
- optional groups of those atoms.

`Matches` consumes the whole path, because the expression is anchored with
`^…$`. Anchoring also means the laziness of `.*?` does not change which paths
are accepted.

Some patterns make the regular expression throw or mean something else. They
are `Failure`s of `Tokenize`:

- an unclosed `(`;
- a stray `)`;
- a `*` with no word character after it;
- a `(` or a line terminator inside a group.

**Values.** A parameter value is a string, the `true` of a flag, or
`undefined`. `undefined` is what a path parameter gets when the URL has too
few segments; spreading an object copies such a key, so it still overrides.
Every parameter object is built by assignments `params[key] = value` on a
fresh `{}`. The key `__proto__` is the exception: the assignment runs the
setter inherited from `Object.prototype`, which ignores a string, `true` or
`undefined`, so that key is never stored (`Params.Put`).
The route table is the sequence of its keys in `Object.keys` order. A handler
call is a `Call(pattern, params)`.

**Errors.** An exception is an error value:

- `BadPattern` comes from a key that is not a valid pattern;
- `NoRoutedPath` is `undefined.match` on a URL without `#`;
- `NoRoute` is `routeToParams(undefined, …)` in `href`;
- `UndeclaredRoutePattern` is the `ReferenceError` of the last statement of
  `router` (src/router.js:437), `return routes[routePattern](params)`:
  `routePattern` is declared only as the parameter of the loop callback.

On init the router can call a handler and then throw. It always throws:
either a key's test throws and ends the loop, or the loop finishes and the
last statement throws. So `Init` returns the call and the error.

**Where the code and its own documentation differ.** The model follows the
code:

- `router.href` dispatches to the **last** matching key, while init
  dispatches to the **first** (`Resolve.FirstAndLastDiverge`).
- The routed path is the text between the first `#` and the **second** one,
  not everything after the first `#`.
- Path parameters are paired by position, not by name: the k-th `:` segment
  takes URL segment `2k+1`. It is therefore right only for patterns that
  alternate literal and parameter segments (`Params.AdjacentParamsSkewed`).
- A bare `"*"` catch-all key, as in the usage examples, is not a pattern the
  matcher supports: the regular expression `^*$` throws.
- Calling the router always ends in an exception, even after the right
  handler ran (`Resolve.InitDispatchesFirstMatch`).
- The middleware chain never runs. Every wrapper's `next` is `noop`, and the
  first wrapper is never called (`Middleware.WrapMiddleware`).

## Model

| member | source | states |
|---|---|---|
| Pattern.LexAtom | src/router.js:143-153 | `:` followed by word characters is a parameter and `*` followed by word characters is a splat; each name is the maximal `\w` run. `:` followed by anything else is a literal, and a `*` with no word character after it is an error. The atom renders back to exactly the text it consumed |
| Pattern.TokenizeBody | src/router.js:142-153 | a group body tokenises into atoms that render back to it; a body holding `(` or `)` is rejected |
| Pattern.Tokenize | src/router.js:141-157 | every tokenisation that succeeds renders back to the pattern text exactly: nothing in a valid pattern is dropped or invented |
| Pattern.TokenizeRender | src/router.js:141-157 | conversely, a token sequence in canonical form (no literal `(`, `)` or `*`, no literal `:` and no name followed by a word character, no line terminator in a group) renders to a pattern that tokenises back to exactly those tokens |
| Pattern.TokenizeCanonical | src/router.js:141-157 | every successful tokenisation is in canonical form, so tokenising and rendering are inverse bijections between valid patterns and canonical token sequences |
| Pattern.MatchesAppend | src/router.js:155 | the anchored language of a token sequence `a + b` is the concatenation of the languages of `a` and `b` |
| Pattern.SingleToken | src/router.js:142-155 | what one token accepts on its own: its literal character; a non-empty run without `/` for a parameter; a run without a line terminator for a splat; nothing or the body for a group |
| Pattern.MatchesCons | src/router.js:142-155 | a path matches `[t] + rest` exactly when some prefix is accepted by `t` and the remainder matches `rest`, so the token meanings fix the whole language |
| Pattern.TokenizePlain | src/router.js:145-149 | a pattern without `:`, `*`, `(`, `)` tokenises to its characters as literals, since every other metacharacter is escaped |
| Pattern.MatchesLiterals | src/router.js:155 | a sequence of literal tokens matches the identical string and nothing else |
| Pattern.PlainPatternMatchesOnlyItself | src/router.js:141-163 | a pattern without `:`, `*`, `(`, `)` matches exactly the identical path and no other |
| Params.AssignKeys | src/router.js:180-183 | performing a run of property assignments from `{}` yields exactly the keys assigned, except `__proto__`, whose assignment goes to the inherited setter |
| Params.AssignLastWins | src/router.js:180-183 | a key other than `__proto__` holds the value of the last assignment to it, and `__proto__` is never present |
| Params.AssignAppend | src/router.js:119-135 | assigning one run and then another is the override-union of the two results |
| Params.Merge | src/router.js:240-244 | the merged parameters have every key of the three sources; a path parameter wins over a query parameter, which wins over a command-line argument |
| Params.GetArgsAppend | src/router.js:120-135 | tokens are processed left to right and a later token overwrites an earlier one: the arguments of `a + b` are those of `a` overridden by those of `b` |
| Params.LongArgWithValue | src/router.js:122-126 | `--name=value…` maps `name` to the text between the first and the second `=`, and yields no key when `name` is `__proto__` |
| Params.LongFlag | src/router.js:122-126 | `--name` without `=` maps `name` to `true`, and yields no key when `name` is `__proto__` |
| Params.ProtoArgIgnored | src/router.js:123-126 | `--__proto__=value` leaves the arguments empty |
| Params.ShortFlags | src/router.js:129-133 | `-abc` sets exactly `a`, `b`, `c`, each to `true` |
| Params.IgnoredToken | src/router.js:120-134 | a token that does not start with `-` changes nothing |
| Params.StripColons | src/router.js:169-171 | each parameter key is its pattern segment with the first `:` removed |
| Params.RouteBindings | src/router.js:169-183 | the k-th `:` segment of the pattern is paired with element `2k+1` of the URL segments after the leading one, or `undefined` when that is out of range |
| Params.RouteToParams | src/router.js:167-185 | the keys of the path parameters are exactly the pattern's `:` segments with their first `:` removed, less `__proto__` |
| Params.AlternatingPatternParams | src/router.js:167-185 | on a pattern alternating literal and `:name` segments (`/profile/:id/tab/:tabId`) and a path of the same shape, each name other than `__proto__` gets its own segment and there are no other keys |
| Params.AdjacentParamsSkewed | src/router.js:181-183 | on `/:a/:b` and `/x/y` the pairing gives `a` the value `y` and `b` the value `undefined` (neither is stored when it is `__proto__`) |
| Resolve.RoutedPath | src/router.js:73 | the routed path is the text between the first `#` and the next `#` or the end; there is none when the URL has no `#` |
| Resolve.KeyMatches | src/router.js:161-163 | testing a key fails with `NoRoutedPath` when there is no routed path and with the key's pattern error when the key is invalid; otherwise it is the anchored match of the routed path against the key's tokens |
| Resolve.CallFor | src/router.js:240-244 | the call for a key carries that key and every key of the arguments, query and path parameters |
| Resolve.InitDispatchesFirstMatch | src/router.js:229-437 | on init the handler called is that of the first key in table order whose pattern matches, with the merged parameters; none is called when no key matches before a key whose test throws; the key loop throws exactly when some key's test throws, with the first such error, even after the handler ran; otherwise the last statement throws because `routePattern` is undeclared there |
| Resolve.InitWithoutHash | src/router.js:73 | with a URL without `#` and a non-empty table, no handler runs and the router throws at the first key's test |
| Resolve.GetRoutePatternIsLastMatch | src/router.js:188-200 | the lookup returns the last key whose pattern matches, and `undefined` exactly when none matches; it throws exactly when some key's test throws |
| Resolve.HrefUrl | src/router.js:206 | the first `#` of the argument is dropped wherever it stands, an argument without `#` is kept, and an empty result becomes `/home` |
| Resolve.HrefDispatchesLastMatch | src/router.js:204-223 | `href` calls the handler of the last key that matches the new URL up to its first `#`, with the merged parameters; it throws `NoRoute` when no key matches, and throws when a key's test throws |
| Resolve.FirstAndLastDiverge | src/router.js:195-197 | with keys `/a` and `/:x` and the path `/a`, init calls `/a` while `href` calls `/:x` |
| Middleware.Use | src/router.js:443-452 | `router.use` keeps the existing list as a prefix and appends what it registers: the function, or each element of an array in order; any other argument leaves the router unchanged |
| Middleware.UseAllAppends | src/router.js:443-452 | a chain of `router.use` calls never removes or reorders entries: the list grows by each call's registrations, in call order |
| Middleware.MountPathFormIgnored | src/router.js:443-450 | the Express form `router.use("/home", fn)` registers nothing, because only the first argument is read and it is a string |
| Middleware.WrapMiddleware | src/router.js:252-259 | there is one wrapper per middleware, in order, and every wrapper's `next` is `noop`, because position `i + 1` is read before it is filled |
| Middleware.WrappingBreaksChain | src/router.js:253-254 | with two or more middleware, the first wrapper is not linked to the second, as a middleware chain would need |

## Left out

- Environment detection (src/router.js:39-71). This covers `window`, `process`, `req` and the Lambda variables. The URL path is a parameter of `Resolve.Init`, and the command-line arguments are a parameter (`Env.argv`).
- `getParamsFromUrlPath` (src/router.js:77-99). It relies on DOM anchor parsing and `req.url`, and its `vars` is a string, not a list of pairs, because of operator precedence. The query map it yields is an opaque input (`Env.query`).
- `getHashParams` (src/router.js:102-113). It is never called.
- The request-body stream and the `res.status`/`send`/`json`/`jsonp` helpers (src/router.js:261-394). The body merge runs in the `end` callback. All of this is I/O and asynchronous.
- The Lambda branch (src/router.js:397-430). It is event glue plus `JSON.parse`.
- What a handler or a middleware does, and any exception it throws. A handler call is recorded as a `Call`, and a middleware is an identity.
- `location.hash = …` in `href` (src/router.js:224). In a browser it is a side effect. Under Node `location` is undeclared, so `href` throws a `ReferenceError` after the handler has run; `Resolve.Href` describes the handler call only.
- A global `routePattern` defined by the embedding program. With one, src/router.js:437 would call that handler instead of throwing; the model assumes there is none.
- The call of the first wrapper (src/router.js:353). The statement only reads `wrappedMiddleware[0]` and never calls it, so no middleware runs and there is no `next`/error chain to model.
- Resolve.GetRoutePatternFromUrlPath: the fallback `req.url || window.location…` for an empty argument is a string parameter. When `req` is undefined, as in a browser, that expression throws instead.
- Object.keys ordering: integer-like keys such as `"1"` come first in JavaScript. The model takes the key sequence as given.
- Characters: JavaScript strings are UTF-16 code units, while Dafny `char`s are Unicode scalar values. Surrogate pairs are not modelled.
- Arrays with holes passed to `router.use`: `forEach` skips holes, and the model has none.
- Patterns outside the modelled language are `Failure`s. These are a bare `*` (which would be a quantifier), a `(` inside a group and a line terminator inside a group (where the lazy `(.*?)` of the group pass stops). Real regular-expression behaviour for them is not modelled.
