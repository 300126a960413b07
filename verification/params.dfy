/** Parameter sets: command-line arguments (`getArgs`), path parameters
    (`routeToParams`) and the spread that merges them with the query
    parameters. Every source is built by a run of property assignments
    `params[key] = value` on a fresh `{}`, modelled once as `Assign`. */
module Params {
  import opened Text

  /** A parameter value: a string, the `true` of a command-line flag, or
      `undefined` (a path parameter with no URL segment; spreading an
      object copies such a key, so it still overrides). */
  datatype Value = Str(s: string) | True | Undefined

  type ParamSet = map<string, Value>

  /** One assignment `params[key] = value`. */
  type Binding = (string, Value)

  /** No later binding in `bs` assigns the key of `bs[i]` again. */
  predicate LastBinding(bs: seq<Binding>, i: int)
    requires 0 <= i < |bs|
  {
    forall j :: i < j < |bs| ==> bs[j].0 != bs[i].0
  }

  /** Some binding in `bs` assigns `k`. */
  predicate Assigns(bs: seq<Binding>, k: string) {
    exists i :: 0 <= i < |bs| && bs[i].0 == k
  }

  /** The one key a plain object does not store: `obj["__proto__"] = v`
      runs the setter inherited from `Object.prototype`, which ignores a
      string, `true` or `undefined`, so no property is created. */
  const ProtoKey: string := "__proto__"

  /** `m[k] = v` on an object whose prototype is `Object.prototype`. */
  function Put(m: ParamSet, k: string, v: Value): ParamSet {
    if k == ProtoKey then m else m[k := v]
  }

  /** The object that results from performing the assignments in order,
      starting from `{}`. */
  function Assign(bs: seq<Binding>): (m: ParamSet)
    ensures ProtoKey !in m
    ensures |bs| > 0 && bs[|bs| - 1].0 != ProtoKey ==> bs[|bs| - 1].0 in m && m[bs[|bs| - 1].0] == bs[|bs| - 1].1
  {
    if bs == [] then map[]
    else Put(Assign(bs[..|bs| - 1]), bs[|bs| - 1].0, bs[|bs| - 1].1)
  }

  /** Exactly the assigned keys are present, except `__proto__`. */
  lemma {:induction false} AssignKeys(bs: seq<Binding>)
    ensures forall k :: k in Assign(bs) <==> Assigns(bs, k) && k != ProtoKey
  {
    if bs != [] {
      var init := bs[..|bs| - 1];
      var last := bs[|bs| - 1];
      AssignKeys(init);
      forall k
        ensures Assigns(bs, k) <==> Assigns(init, k) || k == last.0
      {
        if Assigns(bs, k) {
          var i :| 0 <= i < |bs| && bs[i].0 == k;
          if i < |init| {
            assert init[i].0 == k;
          }
        }
        if Assigns(init, k) {
          var i :| 0 <= i < |init| && init[i].0 == k;
          assert bs[i].0 == k;
        }
      }
    }
  }

  /** A key holds the value of the last assignment to it (`__proto__`
      is never present). */
  lemma {:induction false} AssignLastWins(bs: seq<Binding>, i: nat)
    requires i < |bs| && LastBinding(bs, i)
    ensures bs[i].0 in Assign(bs) <==> bs[i].0 != ProtoKey
    ensures bs[i].0 != ProtoKey ==> Assign(bs)[bs[i].0] == bs[i].1
  {
    if i < |bs| - 1 {
      var init := bs[..|bs| - 1];
      assert init[i] == bs[i];
      assert bs[i].0 != bs[|bs| - 1].0;
      AssignLastWins(init, i);
    }
  }

  /** Assigning `a` then `b` is the override-union of the two results. */
  lemma {:induction false} AssignAppend(a: seq<Binding>, b: seq<Binding>)
    ensures Assign(a + b) == Assign(a) + Assign(b)
    decreases |b|
  {
    if b == [] {
      assert a + b == a;
    } else {
      var b' := b[..|b| - 1];
      assert (a + b)[..|a + b| - 1] == a + b';
      AssignAppend(a, b');
    }
  }

  /** `{...args, ...query, ...route}`: every key of the three sources, a
      path parameter overriding a query parameter, which overrides a
      command-line argument. */
  function Merge(args: ParamSet, query: ParamSet, route: ParamSet): (r: ParamSet)
    ensures r.Keys == args.Keys + query.Keys + route.Keys
    ensures forall k :: k in route ==> r[k] == route[k]
    ensures forall k :: k in query && k !in route ==> r[k] == query[k]
    ensures forall k :: k in args && k !in query && k !in route ==> r[k] == args[k]
  {
    args + query + route
  }

  // ---------------------------------------------------------------------
  // Command-line arguments
  // ---------------------------------------------------------------------

  /** The assignments `true` to each character of `letters`. */
  function FlagBindings(letters: string): (bs: seq<Binding>)
    ensures |bs| == |letters|
    ensures forall i :: 0 <= i < |bs| ==> bs[i] == ([letters[i]], True)
  {
    seq(|letters|, i requires 0 <= i < |letters| => ([letters[i]], True))
  }

  /** The assignments one command-line token makes: `--name=value` and
      `--name` assign `name` (the value being the text between the first
      and the second `=`, or `true`), `-abc` assigns `true` to each of
      `a`, `b` and `c`, and any other token assigns nothing. */
  function TokenBindings(arg: string): (bs: seq<Binding>)
  {
    if |arg| >= 2 && arg[0] == '-' && arg[1] == '-' then [LongArgBinding(arg)]
    else if |arg| >= 1 && arg[0] == '-' then FlagBindings(arg[1..])
    else []
  }

  /** The assignment of a `--` token: the text before the first `=`, less
      the dashes, takes the text between the first and the second `=`, or
      `true` when there is no `=`. */
  function LongArgBinding(arg: string): Binding
    requires |arg| >= 2 && arg[0] == '-' && arg[1] == '-'
  {
    var longArg := Split(arg, '=');
    SplitFirst(arg, '=');
    assert IndexOf(arg, '=') >= 2;
    var flag := longArg[0][2..];
    (flag, if |longArg| > 1 then Str(longArg[1]) else True)
  }

  /** The assignments of a whole argument list, token after token. */
  function ArgvBindings(argv: seq<string>): seq<Binding> {
    if argv == [] then [] else TokenBindings(argv[0]) + ArgvBindings(argv[1..])
  }

  /** `getArgs()`, given the arguments after the program name and the
      script (`process.argv.slice(2)`). */
  function GetArgs(argv: seq<string>): ParamSet {
    Assign(ArgvBindings(argv))
  }

  lemma {:induction false} ArgvBindingsAppend(a: seq<string>, b: seq<string>)
    ensures ArgvBindings(a + b) == ArgvBindings(a) + ArgvBindings(b)
    decreases |a|
  {
    if a == [] {
      assert a + b == b;
    } else {
      var ab := a + b;
      assert ab[0] == a[0];
      assert ab[1..] == a[1..] + b;
      ArgvBindingsAppend(a[1..], b);
    }
  }

  /** Tokens are processed left to right and a later token overwrites what
      an earlier one assigned: the arguments of a concatenated list are the
      override-union of the two lists' arguments. */
  lemma GetArgsAppend(a: seq<string>, b: seq<string>)
    ensures GetArgs(a + b) == GetArgs(a) + GetArgs(b)
  {
    ArgvBindingsAppend(a, b);
    AssignAppend(ArgvBindings(a), ArgvBindings(b));
  }

  lemma SingleArg(arg: string)
    ensures GetArgs([arg]) == Assign(TokenBindings(arg))
  {
    assert [arg][1..] == [];
    assert ArgvBindings([arg]) == TokenBindings(arg) + [];
    assert TokenBindings(arg) + [] == TokenBindings(arg);
  }

  lemma AssignSingle(k: string, v: Value)
    ensures Assign([(k, v)]) == map[k := v] - {ProtoKey}
  {
    assert [(k, v)][..0] == [];
  }

  lemma LongArgBindings(name: string, value: string, tail: string)
    requires '=' !in name && '=' !in value
    requires tail == [] || tail[0] == '='
    ensures TokenBindings("--" + name + "=" + value + tail) == [(name, Str(value))]
  {
    var arg := "--" + name + "=" + value + tail;
    assert arg[..2] == "--";
    assert arg == ("--" + name) + ['='] + (value + tail);
    SplitCons("--" + name, '=', value + tail);
    SplitHead(value, '=', tail);
    var longArg := Split(arg, '=');
    assert longArg[0] == "--" + name;
    assert |longArg| > 1 && longArg[1] == value;
    assert ("--" + name)[2..] == name;
    assert LongArgBinding(arg) == (name, Str(value));
  }

  /** `--name=value` maps `name` to the text between the first and the
      second `=`. */
  lemma LongArgWithValue(name: string, value: string, tail: string)
    requires '=' !in name && '=' !in value
    requires tail == [] || tail[0] == '='
    ensures GetArgs(["--" + name + "=" + value + tail]) == map[name := Str(value)] - {ProtoKey}
  {
    var arg := "--" + name + "=" + value + tail;
    LongArgBindings(name, value, tail);
    SingleArg(arg);
    AssignSingle(name, Str(value));
  }

  /** `--name` maps `name` to `true`. */
  lemma LongFlag(name: string)
    requires '=' !in name
    ensures GetArgs(["--" + name]) == map[name := True] - {ProtoKey}
  {
    var arg := "--" + name;
    assert arg[..2] == "--";
    assert '=' !in arg;
    assert Split(arg, '=') == [arg];
    assert arg[2..] == name;
    assert LongArgBinding(arg) == (name, True);
    assert TokenBindings(arg) == [(name, True)];
    SingleArg(arg);
    AssignSingle(name, True);
  }

  lemma ShortFlagBindings(letters: string)
    requires letters == [] || letters[0] != '-'
    ensures TokenBindings("-" + letters) == FlagBindings(letters)
  {
    var arg := "-" + letters;
    assert !(|arg| >= 2 && arg[0] == '-' && arg[1] == '-') by {
      if |arg| >= 2 { assert arg[1] == letters[0]; }
    }
    assert arg[1..] == letters;
  }

  /** `--__proto__=value` leaves the arguments empty: the assignment goes
      to the inherited setter. */
  lemma ProtoArgIgnored(value: string)
    requires '=' !in value
    ensures GetArgs(["--__proto__=" + value]) == map[]
  {
    assert "--__proto__=" + value == "--" + ProtoKey + "=" + value + [];
    LongArgWithValue(ProtoKey, value, []);
  }

  /** `-abc` sets each of its letters to `true`, and nothing else. */
  lemma ShortFlags(letters: string)
    requires letters == [] || letters[0] != '-'
    ensures forall k :: k in GetArgs(["-" + letters]) <==> exists i :: 0 <= i < |letters| && k == [letters[i]]
    ensures forall k :: k in GetArgs(["-" + letters]) ==> GetArgs(["-" + letters])[k] == True
  {
    SingleArg("-" + letters);
    ShortFlagBindings(letters);
    var bs := FlagBindings(letters);
    var m := Assign(bs);
    AssignKeys(bs);
    forall k
      ensures k in m <==> exists i :: 0 <= i < |letters| && k == [letters[i]]
    {
      if k in m {
        var i :| 0 <= i < |bs| && bs[i].0 == k;
        assert k == [letters[i]];
      }
      if exists i :: 0 <= i < |letters| && k == [letters[i]] {
        var i :| 0 <= i < |letters| && k == [letters[i]];
        assert bs[i].0 == k;
      }
    }
    forall k | k in m
      ensures m[k] == True
    {
      var i :| 0 <= i < |bs| && bs[i].0 == k;
      var last := LastIndexOf(bs, i);
      AssignLastWins(bs, last);
    }
  }

  /** The last position in `bs` that assigns the key of `bs[i]`. */
  function LastIndexOf(bs: seq<Binding>, i: nat): (j: nat)
    requires i < |bs|
    ensures i <= j < |bs| && bs[j].0 == bs[i].0 && LastBinding(bs, j)
    decreases |bs| - i
  {
    if forall k :: i < k < |bs| ==> bs[k].0 != bs[i].0 then i
    else
      var k :| i < k < |bs| && bs[k].0 == bs[i].0;
      LastIndexOf(bs, k)
  }

  /** Tokens that do not start with `-` are ignored, like the path that
      precedes the options on a command line. */
  lemma IgnoredToken(argv: seq<string>, arg: string)
    requires arg == [] || arg[0] != '-'
    ensures GetArgs(argv + [arg]) == GetArgs(argv)
  {
    GetArgsAppend(argv, [arg]);
    SingleArg(arg);
    assert TokenBindings(arg) == [];
    assert GetArgs([arg]) == map[];
    assert GetArgs(argv) + map[] == GetArgs(argv);
  }

  // ---------------------------------------------------------------------
  // Path parameters
  // ---------------------------------------------------------------------

  /** The `/`-segments of a pattern that contain a `:`, in order. */
  function ParamSegments(segs: seq<string>): (r: seq<string>)
    ensures forall i :: 0 <= i < |r| ==> ':' in r[i]
    ensures |r| <= |segs|
  {
    if segs == [] then []
    else if ':' in segs[0] then [segs[0]] + ParamSegments(segs[1..])
    else ParamSegments(segs[1..])
  }

  /** The parameter names of a pattern: its segments containing `:`, with
      the first `:` removed. */
  function ParamKeys(pattern: string): seq<string> {
    StripColons(ParamSegments(Split(pattern, '/')))
  }

  /** Each segment with its first `:` removed. */
  function StripColons(segs: seq<string>): (keys: seq<string>)
    ensures |keys| == |segs|
    ensures forall i :: 0 <= i < |segs| ==> keys[i] == RemoveFirst(segs[i], ':')
  {
    seq(|segs|, i requires 0 <= i < |segs| => RemoveFirst(segs[i], ':'))
  }

  /** `url.split("#")[1].split("/").slice(1)` for the routed path. */
  function UrlSegments(path: string): seq<string> {
    Split(path, '/')[1..]
  }

  /** The assignments of `routeToParams`: key `k` takes URL segment
      `2k + 1`, or `undefined` when the path is too short. */
  function RouteBindings(pattern: string, path: string): (bs: seq<Binding>)
    ensures |bs| == |ParamKeys(pattern)|
    ensures forall i :: 0 <= i < |bs| ==> bs[i] == (ParamKeys(pattern)[i], SegmentAt(UrlSegments(path), 2 * i + 1))
  {
    PairSegments(ParamKeys(pattern), UrlSegments(path))
  }

  function PairSegments(keys: seq<string>, segs: seq<string>): (bs: seq<Binding>)
    ensures |bs| == |keys|
    ensures forall i :: 0 <= i < |bs| ==> bs[i] == (keys[i], SegmentAt(segs, 2 * i + 1))
  {
    seq(|keys|, i requires 0 <= i < |keys| => (keys[i], SegmentAt(segs, 2 * i + 1)))
  }

  /** `segs[j]`, `undefined` when out of range. */
  function SegmentAt(segs: seq<string>, j: nat): Value {
    if j < |segs| then Str(segs[j]) else Undefined
  }

  /** `routeToParams(pattern, url)`, `path` being the text of `url` between
      its first and second `#`. */
  function RouteToParams(pattern: string, path: string): (r: ParamSet)
    ensures forall k :: k in r <==> k in ParamKeys(pattern) && k != ProtoKey
  {
    PairedKeys(ParamKeys(pattern), UrlSegments(path));
    Assign(RouteBindings(pattern, path))
  }

  /** Pairing assigns exactly the keys. */
  lemma PairedKeys(keys: seq<string>, segs: seq<string>)
    ensures forall k :: k in Assign(PairSegments(keys, segs)) <==> k in keys && k != ProtoKey
  {
    var bs := PairSegments(keys, segs);
    AssignKeys(bs);
    forall k | k in keys
      ensures Assigns(bs, k)
    {
      var i :| 0 <= i < |keys| && keys[i] == k;
      assert bs[i].0 == k;
    }
  }

  /** `"/" + lits[0] + "/" + xs[0] + "/" + lits[1] + "/" + xs[1] ...`: a
      pattern or a path that alternates literal segments with parameter
      segments. */
  function Alternate(lits: seq<string>, xs: seq<string>): string
    requires |lits| == |xs|
  {
    if lits == [] then [] else "/" + lits[0] + "/" + xs[0] + Alternate(lits[1..], xs[1..])
  }

  function Interleave(lits: seq<string>, xs: seq<string>): (r: seq<string>)
    requires |lits| == |xs|
    ensures |r| == 2 * |lits|
    ensures forall i :: 0 <= i < |lits| ==> r[2 * i] == lits[i] && r[2 * i + 1] == xs[i]
  {
    if lits == [] then []
    else
      var rest := Interleave(lits[1..], xs[1..]);
      var r := [lits[0], xs[0]] + rest;
      forall i | 1 <= i < |lits|
        ensures r[2 * i] == lits[i] && r[2 * i + 1] == xs[i]
      {
        var j := i - 1;
        assert r[2 * i] == rest[2 * j] && r[2 * i + 1] == rest[2 * j + 1];
      }
      r
  }

  /** The names written as `:name` segments. */
  function Colons(names: seq<string>): (r: seq<string>)
    ensures |r| == |names|
    ensures forall i :: 0 <= i < |r| ==> r[i] == ":" + names[i]
  {
    seq(|names|, i requires 0 <= i < |names| => ":" + names[i])
  }

  lemma JoinThree(p: string, q: string, r: string, c: char)
    ensures Join([p, q, r], c) == p + [c] + q + [c] + r
  {
    JoinCons(q, [r], c);
    JoinCons(p, [q, r], c);
    assert [q] + [r] == [q, r];
    assert [p] + [q, r] == [p, q, r];
  }

  lemma JoinAfterEmpty(xs: seq<string>)
    ensures Join([""] + xs, '/') == if xs == [] then "" else "/" + Join(xs, '/')
  {
    assert ([""] + xs)[1..] == xs;
  }

  lemma {:induction false} AlternateIsJoin(lits: seq<string>, xs: seq<string>)
    requires |lits| == |xs|
    ensures Alternate(lits, xs) == Join([""] + Interleave(lits, xs), '/')
    decreases |lits|
  {
    if lits != [] {
      var rest := Interleave(lits[1..], xs[1..]);
      AlternateIsJoin(lits[1..], xs[1..]);
      JoinAfterEmpty(rest);
      JoinAfterEmpty([lits[0], xs[0]] + rest);
      assert ([lits[0], xs[0]] + rest)[1..] == [xs[0]] + rest;
      assert ([xs[0]] + rest)[1..] == rest;
    }
  }

  lemma SplitAlternate(lits: seq<string>, xs: seq<string>)
    requires |lits| == |xs|
    requires forall i :: 0 <= i < |lits| ==> '/' !in lits[i] && '/' !in xs[i]
    ensures Split(Alternate(lits, xs), '/') == [""] + Interleave(lits, xs)
  {
    AlternateIsJoin(lits, xs);
    var parts := [""] + Interleave(lits, xs);
    forall i | 0 <= i < |parts|
      ensures '/' !in parts[i]
    {
      if i > 0 {
        var j := (i - 1) / 2;
        assert i - 1 == 2 * j || i - 1 == 2 * j + 1;
      }
    }
    SplitJoin(parts, '/');
  }

  lemma ParamSegmentsCons(seg: string, rest: seq<string>)
    ensures ParamSegments([seg] + rest) == if ':' in seg then [seg] + ParamSegments(rest) else ParamSegments(rest)
  {
    assert ([seg] + rest)[1..] == rest;
  }

  lemma {:induction false} ParamSegmentsInterleave(lits: seq<string>, names: seq<string>)
    requires |lits| == |names|
    requires forall i :: 0 <= i < |lits| ==> ':' !in lits[i]
    ensures ParamSegments(Interleave(lits, Colons(names))) == Colons(names)
    decreases |lits|
  {
    if lits != [] {
      var rest := Interleave(lits[1..], Colons(names[1..]));
      assert Colons(names)[1..] == Colons(names[1..]);
      ParamSegmentsInterleave(lits[1..], names[1..]);
      var segs := Interleave(lits, Colons(names));
      assert segs == [lits[0]] + ([":" + names[0]] + rest);
      ParamSegmentsCons(lits[0], [":" + names[0]] + rest);
      assert ':' in ":" + names[0];
      ParamSegmentsCons(":" + names[0], rest);
      assert Colons(names) == [":" + names[0]] + Colons(names[1..]);
    }
  }

  lemma RemoveLeadingColon(name: string)
    ensures RemoveFirst(":" + name, ':') == name
  {
    assert (":" + name)[0] == ':';
    assert (":" + name)[1..] == name;
  }

  lemma StripColonsOfColons(names: seq<string>)
    ensures StripColons(Colons(names)) == names
  {
    forall i | 0 <= i < |names|
      ensures StripColons(Colons(names))[i] == names[i]
    {
      RemoveLeadingColon(names[i]);
    }
  }

  lemma AlternatingParamSegments(lits: seq<string>, names: seq<string>)
    requires |lits| == |names|
    requires forall i :: 0 <= i < |lits| ==> ':' !in lits[i]
    ensures ParamSegments([""] + Interleave(lits, Colons(names))) == Colons(names)
  {
    ParamSegmentsCons("", Interleave(lits, Colons(names)));
    ParamSegmentsInterleave(lits, names);
  }

  lemma AlternatingKeys(lits: seq<string>, names: seq<string>)
    requires |lits| == |names|
    requires forall i :: 0 <= i < |lits| ==> '/' !in lits[i] && ':' !in lits[i]
    requires forall i :: 0 <= i < |names| ==> '/' !in names[i]
    ensures ParamKeys(Alternate(lits, Colons(names))) == names
  {
    SplitAlternate(lits, Colons(names));
    AlternatingParamSegments(lits, names);
    StripColonsOfColons(names);
  }

  lemma AlternatingSegments(lits: seq<string>, vals: seq<string>)
    requires |lits| == |vals|
    requires forall i :: 0 <= i < |lits| ==> '/' !in lits[i] && '/' !in vals[i]
    ensures UrlSegments(Alternate(lits, vals)) == Interleave(lits, vals)
  {
    SplitAlternate(lits, vals);
  }

  lemma AlternatingBindings(lits: seq<string>, names: seq<string>, vals: seq<string>)
    requires |lits| == |names| == |vals|
    requires forall i :: 0 <= i < |lits| ==> '/' !in lits[i] && ':' !in lits[i]
    requires forall i :: 0 <= i < |names| ==> '/' !in names[i] && '/' !in vals[i]
    ensures var bs := RouteBindings(Alternate(lits, Colons(names)), Alternate(lits, vals));
            |bs| == |names| && forall i :: 0 <= i < |names| ==> bs[i] == (names[i], Str(vals[i]))
  {
    AlternatingKeys(lits, names);
    AlternatingSegments(lits, vals);
    var woven := Interleave(lits, vals);
    forall i | 0 <= i < |names|
      ensures SegmentAt(woven, 2 * i + 1) == Str(vals[i])
    {
      assert woven[2 * i + 1] == vals[i];
    }
  }

  /** Path parameters on the patterns they are meant for: when literal
      segments and `:name` segments alternate (as in
      `/profile/:id/tab/:tabId`) and the path has the same shape, each name
      receives its own segment and there are no other keys. */
  lemma AlternatingPatternParams(lits: seq<string>, names: seq<string>, vals: seq<string>)
    requires |lits| == |names| == |vals|
    requires forall i :: 0 <= i < |lits| ==> '/' !in lits[i] && ':' !in lits[i]
    requires forall i :: 0 <= i < |names| ==> '/' !in names[i] && '/' !in vals[i]
    requires forall i, j :: 0 <= i < j < |names| ==> names[i] != names[j]
    ensures forall k :: k in RouteToParams(Alternate(lits, Colons(names)), Alternate(lits, vals)) <==> k in names && k != ProtoKey
    ensures forall i :: 0 <= i < |names| && names[i] != ProtoKey ==>
              RouteToParams(Alternate(lits, Colons(names)), Alternate(lits, vals))[names[i]] == Str(vals[i])
  {
    var pattern := Alternate(lits, Colons(names));
    var path := Alternate(lits, vals);
    AlternatingKeys(lits, names);
    AlternatingBindings(lits, names, vals);
    var bs := RouteBindings(pattern, path);
    assert RouteToParams(pattern, path) == Assign(bs);
    forall i | 0 <= i < |names| && names[i] != ProtoKey
      ensures Assign(bs)[names[i]] == Str(vals[i])
    {
      assert LastBinding(bs, i);
      AssignLastWins(bs, i);
    }
  }

  /** The pairing rule does not look at the pattern's literal segments:
      `/:a/:b` on `/x/y` gives `a` the second segment and leaves `b`
      undefined. */
  lemma AdjacentParamsSkewed(a: string, b: string, x: string, y: string)
    requires '/' !in a && '/' !in b && '/' !in x && '/' !in y
    requires a != b
    ensures RouteToParams("/:" + a + "/:" + b, "/" + x + "/" + y) == map[a := Str(y), b := Undefined] - {ProtoKey}
  {
    var pattern := "/:" + a + "/:" + b;
    var path := "/" + x + "/" + y;
    SkewedKeys(a, b);
    SkewedSegments(x, y);
    var bs := PairSegments([a, b], [x, y]);
    assert bs == RouteBindings(pattern, path);
    assert bs == [(a, Str(y)), (b, Undefined)];
    AssignTwo(a, Str(y), b, Undefined);
  }

  lemma AssignTwo(a: string, u: Value, b: string, v: Value)
    requires a != b
    ensures Assign([(a, u), (b, v)]) == map[a := u, b := v] - {ProtoKey}
  {
    var bs := [(a, u), (b, v)];
    assert bs[..1] == [(a, u)];
    AssignSingle(a, u);
  }

  /** `"/p/q".split("/")` is `["", p, q]`. */
  lemma SplitTwoSegments(p: string, q: string)
    requires '/' !in p && '/' !in q
    ensures Split("/" + p + "/" + q, '/') == ["", p, q]
  {
    JoinThree("", p, q, '/');
    assert "/" + p + "/" + q == "" + "/" + p + "/" + q;
    SplitJoin(["", p, q], '/');
  }

  lemma SkewedSplit(a: string, b: string)
    requires '/' !in a && '/' !in b
    ensures Split("/:" + a + "/:" + b, '/') == ["", ":" + a, ":" + b]
  {
    assert "/:" + a + "/:" + b == "/" + (":" + a) + "/" + (":" + b);
    SplitTwoSegments(":" + a, ":" + b);
  }

  lemma TwoParamSegments(p: string, q: string)
    requires ':' in p && ':' in q
    ensures ParamSegments(["", p, q]) == [p, q]
  {
    ParamSegmentsCons("", [p, q]);
    ParamSegmentsCons(p, [q]);
    ParamSegmentsCons(q, []);
  }

  lemma SkewedKeys(a: string, b: string)
    requires '/' !in a && '/' !in b
    ensures ParamKeys("/:" + a + "/:" + b) == [a, b]
  {
    SkewedSplit(a, b);
    assert ':' in ":" + a && ':' in ":" + b;
    TwoParamSegments(":" + a, ":" + b);
    assert Colons([a, b]) == [":" + a, ":" + b];
    StripColonsOfColons([a, b]);
  }

  lemma SkewedSegments(x: string, y: string)
    requires '/' !in x && '/' !in y
    ensures UrlSegments("/" + x + "/" + y) == [x, y]
  {
    SplitTwoSegments(x, y);
  }
}
