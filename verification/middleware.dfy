/** Middleware registration (`router.use`) and the wrapping pass the
    router makes over the registered list when it serves an HTTP request.

    A registered value is kept as it is: `router.use` pushes a function,
    or each element of an array whatever that element is, and ignores any
    other argument. Functions are told apart by an identity only; what
    they do is not modelled. */
module Middleware {

  /** The values `router.use` tells apart. */
  datatype JsValue =
    | Function(id: nat)
    | Array(elements: seq<JsValue>)
    | Other // a string, a number, an object, `undefined`, ...

  /** The state `router.use` changes: `router.middleware`. */
  datatype Router = Router(middleware: seq<JsValue>)

  /** What one call of `router.use(fn)` pushes. */
  function Registered(fn: JsValue): seq<JsValue> {
    match fn
    case Function(_) => [fn]
    case Array(elements) => elements
    case Other => []
  }

  /** `router.use(fn)`, returning the router (so calls chain). */
  function Use(r: Router, fn: JsValue): (r': Router)
    ensures r.middleware <= r'.middleware
    ensures |r'.middleware| == |r.middleware| + |Registered(fn)|
    ensures forall i :: 0 <= i < |Registered(fn)| ==> r'.middleware[|r.middleware| + i] == Registered(fn)[i]
    ensures fn.Other? ==> r' == r
  {
    match fn
    case Array(elements) => UsePushAll(r, elements)
    case Function(_) => Router(r.middleware + [fn])
    case Other => r
  }

  /** `fn.forEach(f => router.middleware.push(f))`. */
  function UsePushAll(r: Router, fs: seq<JsValue>): (r': Router)
    ensures r'.middleware == r.middleware + fs
    decreases |fs|
  {
    if fs == [] then r
    else
      var r' := UsePushAll(Router(r.middleware + [fs[0]]), fs[1..]);
      assert r.middleware + [fs[0]] + fs[1..] == r.middleware + fs;
      r'
  }

  /** A chain `router.use(a).use(b)...`, left to right. */
  function UseAll(r: Router, fns: seq<JsValue>): Router
    decreases |fns|
  {
    if fns == [] then r else UseAll(Use(r, fns[0]), fns[1..])
  }

  /** Everything a chain of calls pushes, in order. */
  function RegisteredAll(fns: seq<JsValue>): seq<JsValue>
    decreases |fns|
  {
    if fns == [] then [] else Registered(fns[0]) + RegisteredAll(fns[1..])
  }

  /** A chain of `router.use` calls only appends, never removes or
      reorders: the list ends with what each call registers, in call
      order. */
  lemma {:induction false} UseAllAppends(r: Router, fns: seq<JsValue>)
    ensures UseAll(r, fns).middleware == r.middleware + RegisteredAll(fns)
    decreases |fns|
  {
    if fns != [] {
      var r1 := Use(r, fns[0]);
      assert r1.middleware == r.middleware + Registered(fns[0]);
      UseAllAppends(r1, fns[1..]);
    }
  }

  /** `router.use("/home", fn)`, as written in the Express style, adds
      nothing: only the first argument is read and a string is neither a
      function nor an array. */
  lemma MountPathFormIgnored(r: Router, fns: seq<JsValue>)
    ensures UseAll(r, [Other] + fns) == UseAll(r, fns)
  {
    assert ([Other] + fns)[1..] == fns;
  }

  // ---------------------------------------------------------------------
  // Wrapping
  // ---------------------------------------------------------------------

  /** The `next` a wrapper passes to its middleware: `noop`, or the
      wrapper at some position of `wrappedMiddleware`. */
  datatype Next = Noop | WrapperAt(index: int)

  /** `function() { return fn(req, res, next) }` with its `next` bound. */
  datatype Wrapped = Wrapped(fn: JsValue, next: Next)

  /** The continuation a chain of middleware would give the wrapper at
      `i` out of `n`: the next wrapper, and `noop` after the last. */
  function ChainNext(i: nat, n: nat): Next {
    if i + 1 < n then WrapperAt(i + 1) else Noop
  }

  /** The wrapping pass: for each middleware, in order, bind `next` to
      `wrappedMiddleware[i + 1] || noop` and push the wrapper. Position
      `i + 1` is read before it has been pushed, so every `next` is
      `noop` and no middleware can hand on to the following one. */
  method WrapMiddleware(middleware: seq<JsValue>) returns (wrapped: seq<Wrapped>)
    ensures |wrapped| == |middleware|
    ensures forall i :: 0 <= i < |wrapped| ==> wrapped[i].fn == middleware[i] && wrapped[i].next == Noop
  {
    wrapped := [];
    var i := 0;
    while i < |middleware|
      invariant 0 <= i <= |middleware|
      invariant |wrapped| == i
      invariant forall j :: 0 <= j < i ==> wrapped[j] == Wrapped(middleware[j], Noop)
    {
      var next := if i + 1 < |wrapped| then WrapperAt(i + 1) else Noop;
      wrapped := wrapped + [Wrapped(middleware[i], next)];
      i := i + 1;
    }
  }

  /** With two or more middleware, the first wrapper's `next` is not the
      second wrapper, as a chain would have it. */
  method WrappingBreaksChain(middleware: seq<JsValue>) returns (wrapped: seq<Wrapped>)
    requires |middleware| >= 2
    ensures |wrapped| == |middleware|
    ensures wrapped[0].next != ChainNext(0, |middleware|)
  {
    wrapped := WrapMiddleware(middleware);
  }
}
