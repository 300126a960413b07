/** Route patterns (`routeToRegExp` and `urlPathMatchesRoutePattern`).

    The router turns a pattern such as `/profile/:id(/tab/:tab)` into an
    anchored regular expression in four rewriting passes: it escapes the
    metacharacters `- { } [ ] + ? . , \ ^ $ | #` and whitespace, turns the
    text from a `(` to the first following `)` into an optional group,
    turns `:name` into `([^/]+)` and `*name` into `(.*?)`. Instead of a
    regular-expression engine this module gives the language those passes
    define: a pattern is tokenised into literal characters, named
    parameters, splats and optional groups, and `Matches` says when a path
    belongs to the language of the tokens. Because the expression is
    anchored at both ends, the laziness of `(.*?)` does not change which
    paths are accepted. */
module Pattern {
  import opened Wrappers
  import opened Text

  /** One element of a pattern outside or inside an optional group. */
  datatype Atom =
    | Lit(c: char)        // matches exactly this character
    | Param(name: string) // `:name`: one or more characters other than '/'
    | Splat(name: string) // `*name`: any run of characters without a line terminator

  datatype Token = One(atom: Atom) | Optional(body: seq<Atom>)

  /** Patterns outside the language of this module. An unclosed `(` and a
      stray `)` make the regular-expression constructor throw; a `*` that no
      word character follows is left in the expression as a quantifier (or
      throws when there is nothing to repeat); a `(` between a `(` and its
      `)`, or a line terminator there, defeats the optional-group pass. */
  datatype PatternError = UnclosedGroup | StrayClose | BareStar | NestedGroup | BrokenGroup

  /** The `(` / `)` and `*` characters are never escaped; `:` and `*` start
      a parameter only in front of a word character. */
  predicate IsPlain(p: string) {
    forall i :: 0 <= i < |p| ==> p[i] != ':' && p[i] != '*' && p[i] != '(' && p[i] != ')'
  }

  // ---------------------------------------------------------------------
  // Rendering tokens back to pattern text
  // ---------------------------------------------------------------------

  function RenderAtom(a: Atom): string {
    match a
    case Lit(c) => [c]
    case Param(n) => [':'] + n
    case Splat(n) => ['*'] + n
  }

  function RenderAtoms(atoms: seq<Atom>): string {
    if atoms == [] then [] else RenderAtom(atoms[0]) + RenderAtoms(atoms[1..])
  }

  function RenderToken(t: Token): string {
    match t
    case One(a) => RenderAtom(a)
    case Optional(b) => ['('] + RenderAtoms(b) + [')']
  }

  function Render(ts: seq<Token>): string {
    if ts == [] then [] else RenderToken(ts[0]) + Render(ts[1..])
  }

  lemma RenderCons(t: Token, rest: seq<Token>)
    ensures Render([t] + rest) == RenderToken(t) + Render(rest)
  {
    assert ([t] + rest)[1..] == rest;
  }

  lemma RenderAtomsCons(a: Atom, rest: seq<Atom>)
    ensures RenderAtoms([a] + rest) == RenderAtom(a) + RenderAtoms(rest)
  {
    assert ([a] + rest)[1..] == rest;
  }

  // ---------------------------------------------------------------------
  // Tokenising
  // ---------------------------------------------------------------------

  /** Reads one atom from the front of `p`, returning it and its length. */
  function LexAtom(p: string): (r: Result<(Atom, nat), PatternError>)
    requires |p| > 0 && p[0] != '(' && p[0] != ')'
    ensures r.Success? ==> 1 <= r.value.1 <= |p| && RenderAtom(r.value.0) == p[..r.value.1]
    ensures r.Success? && r.value.0.Lit? ==> r.value == (Lit(p[0]), 1)
    ensures r.Failure? <==> p[0] == '*' && (|p| == 1 || !IsWordChar(p[1]))
    ensures r.Success? ==> (r.value.0.Param? <==> p[0] == ':' && |p| > 1 && IsWordChar(p[1]))
    ensures r.Success? ==> (r.value.0.Splat? <==> p[0] == '*')
    ensures r.Success? && (r.value.0.Param? || r.value.0.Splat?) ==>
              |r.value.0.name| >= 1 && (forall i :: 0 <= i < |r.value.0.name| ==> IsWordChar(r.value.0.name[i]))
              && (r.value.1 < |p| ==> !IsWordChar(p[r.value.1]))
  {
    if p[0] == ':' && |p| > 1 && IsWordChar(p[1]) then
      var n := WordRun(p[1..]);
      Success((Param(p[1..1 + n]), 1 + n))
    else if p[0] == '*' then
      if |p| > 1 && IsWordChar(p[1]) then
        var n := WordRun(p[1..]);
        Success((Splat(p[1..1 + n]), 1 + n))
      else
        Failure(BareStar)
    else
      Success((Lit(p[0]), 1))
  }

  /** Tokenises the text of an optional group's body. */
  function TokenizeBody(p: string): (r: Result<seq<Atom>, PatternError>)
    ensures r.Success? ==> RenderAtoms(r.value) == p
    ensures r.Success? ==> '(' !in p && ')' !in p
    decreases |p|
  {
    if p == [] then Success([])
    else if p[0] == '(' then Failure(NestedGroup)
    else if p[0] == ')' then Failure(StrayClose)
    else
      var (a, n) :- LexAtom(p);
      var rest :- TokenizeBody(p[n..]);
      assert p == p[..n] + p[n..];
      RenderAtomsCons(a, rest);
      Success([a] + rest)
  }

  /** Tokenises a route pattern; a `Failure` is a pattern outside the
      language (see `PatternError`). */
  function Tokenize(p: string): (r: Result<seq<Token>, PatternError>)
    ensures r.Success? ==> Render(r.value) == p
    decreases |p|
  {
    if p == [] then Success([])
    else if p[0] == '(' then
      var j := IndexOf(p[1..], ')');
      if j == |p| - 1 then Failure(UnclosedGroup)
      else
        var body := p[1..1 + j];
        if !NoLineTerminator(body) then Failure(BrokenGroup)
        else
          var atoms :- TokenizeBody(body);
          var rest :- Tokenize(p[j + 2..]);
          RenderGroup(p, j, atoms, rest);
          Success([Optional(atoms)] + rest)
    else if p[0] == ')' then Failure(StrayClose)
    else
      var (a, n) :- LexAtom(p);
      var rest :- Tokenize(p[n..]);
      RenderOne(p, n, a, rest);
      Success([One(a)] + rest)
  }

  lemma RenderGroup(p: string, j: nat, atoms: seq<Atom>, rest: seq<Token>)
    requires j + 2 <= |p| && p[0] == '(' && p[1 + j] == ')'
    requires RenderAtoms(atoms) == p[1..1 + j] && Render(rest) == p[j + 2..]
    ensures Render([Optional(atoms)] + rest) == p
  {
    RenderCons(Optional(atoms), rest);
    Reassemble(p, j);
  }

  /** `p` is its first character, the next `j` characters, one more
      character and the rest. */
  lemma Reassemble(p: string, j: nat)
    requires j + 2 <= |p|
    ensures p == [p[0]] + p[1..1 + j] + [p[1 + j]] + p[j + 2..]
  {
    assert p[..1 + j] == [p[0]] + p[1..1 + j];
    assert p[1 + j..] == [p[1 + j]] + p[j + 2..];
    assert p == p[..1 + j] + p[1 + j..];
  }

  lemma RenderOne(p: string, n: nat, a: Atom, rest: seq<Token>)
    requires n <= |p| && RenderAtom(a) == p[..n] && Render(rest) == p[n..]
    ensures Render([One(a)] + rest) == p
  {
    RenderCons(One(a), rest);
    assert p == p[..n] + p[n..];
  }

  // ---------------------------------------------------------------------
  // Canonical tokens: the inverse direction of the round trip
  // ---------------------------------------------------------------------

  /** A parameter or splat name: one or more word characters. */
  predicate IsName(n: string) {
    |n| > 0 && forall i :: 0 <= i < |n| ==> IsWordChar(n[i])
  }

  predicate StartsWithWordChar(s: string) {
    |s| > 0 && IsWordChar(s[0])
  }

  /** `a` reads back as itself when the text `next` follows it: a literal
      is none of `( ) *`, a literal `:` is not followed by a word
      character, and a name is a whole `\w` run. */
  predicate AtomFits(a: Atom, next: string) {
    match a
    case Lit(c) => c != '(' && c != ')' && c != '*' && (c == ':' ==> !StartsWithWordChar(next))
    case Param(n) => IsName(n) && !StartsWithWordChar(next)
    case Splat(n) => IsName(n) && !StartsWithWordChar(next)
  }

  /** A group body whose every atom fits in front of what follows it. */
  predicate AtomsFit(atoms: seq<Atom>) {
    atoms == [] || (AtomFits(atoms[0], RenderAtoms(atoms[1..])) && AtomsFit(atoms[1..]))
  }

  /** `t` reads back as itself when the text `next` follows it; a group
      body also has no line terminator. */
  predicate TokenFits(t: Token, next: string) {
    match t
    case One(a) => AtomFits(a, next)
    case Optional(b) => AtomsFit(b) && NoLineTerminator(RenderAtoms(b))
  }

  /** The token sequences that are the tokenisation of some pattern. */
  predicate Canonical(ts: seq<Token>) {
    ts == [] || (TokenFits(ts[0], Render(ts[1..])) && Canonical(ts[1..]))
  }

  lemma {:induction false} WordRunName(n: string, next: string)
    requires IsName(n) && !StartsWithWordChar(next)
    ensures WordRun(n + next) == |n|
    decreases |n|
  {
    assert (n + next)[1..] == n[1..] + next;
    if |n| > 1 {
      WordRunName(n[1..], next);
    }
  }

  lemma LexFittingAtom(a: Atom, next: string)
    requires AtomFits(a, next)
    ensures var p := RenderAtom(a) + next;
      |p| > 0 && p[0] != '(' && p[0] != ')' && LexAtom(p) == Success((a, |RenderAtom(a)|))
  {
    match a
    case Lit(c) =>
      assert ([c] + next)[1..] == next;
    case Param(n) => LexFittingName(':', n, next);
    case Splat(n) => LexFittingName('*', n, next);
  }

  /** A name after `:` or `*` is read whole. */
  lemma LexFittingName(sigil: char, n: string, next: string)
    requires sigil == ':' || sigil == '*'
    requires IsName(n) && !StartsWithWordChar(next)
    ensures var p := [sigil] + n + next;
      LexAtom(p) == Success((if sigil == ':' then Param(n) else Splat(n), 1 + |n|))
  {
    var p := [sigil] + n + next;
    assert p[1..] == n + next;
    WordRunName(n, next);
    assert p[1..1 + |n|] == n;
  }

  /** No atom renders to a parenthesis. */
  lemma {:induction false} FittingAtomsHaveNoParens(atoms: seq<Atom>)
    requires AtomsFit(atoms)
    ensures '(' !in RenderAtoms(atoms) && ')' !in RenderAtoms(atoms)
  {
    if atoms != [] {
      FittingAtomsHaveNoParens(atoms[1..]);
      match atoms[0]
      case Lit(c) =>
      case Param(n) =>
      case Splat(n) =>
    }
  }

  lemma {:induction false} TokenizeBodyRender(atoms: seq<Atom>)
    requires AtomsFit(atoms)
    ensures TokenizeBody(RenderAtoms(atoms)) == Success(atoms)
  {
    if atoms != [] {
      var p := RenderAtoms(atoms);
      var a := atoms[0];
      LexFittingAtom(a, RenderAtoms(atoms[1..]));
      assert p[|RenderAtom(a)|..] == RenderAtoms(atoms[1..]);
      TokenizeBodyRender(atoms[1..]);
      assert [a] + atoms[1..] == atoms;
    }
  }

  /** The other half of the round trip: a canonical token sequence renders
      to a pattern that tokenises back to it. */
  lemma {:induction false} TokenizeRender(ts: seq<Token>)
    requires Canonical(ts)
    ensures Tokenize(Render(ts)) == Success(ts)
  {
    if ts != [] {
      var p := Render(ts);
      var rest := ts[1..];
      assert [ts[0]] + rest == ts;
      TokenizeRender(rest);
      match ts[0]
      case One(a) =>
        LexFittingAtom(a, Render(rest));
        assert p[|RenderAtom(a)|..] == Render(rest);
      case Optional(b) =>
        TokenizeGroupRender(b, rest);
    }
  }

  lemma TokenizeGroupRender(b: seq<Atom>, rest: seq<Token>)
    requires AtomsFit(b) && NoLineTerminator(RenderAtoms(b))
    requires Tokenize(Render(rest)) == Success(rest)
    ensures Tokenize(Render([Optional(b)] + rest)) == Success([Optional(b)] + rest)
  {
    RenderCons(Optional(b), rest);
    FittingAtomsHaveNoParens(b);
    GroupText(RenderAtoms(b), Render(rest));
    TokenizeBodyRender(b);
  }

  /** Where the group pass finds the parts of `(body)tail`. */
  lemma GroupText(body: string, tail: string)
    requires ')' !in body
    ensures var p := ['('] + body + [')'] + tail;
      p[0] == '(' && IndexOf(p[1..], ')') == |body| && |body| + 2 <= |p|
      && p[1..1 + |body|] == body && p[|body| + 2..] == tail
  {
    var p := ['('] + body + [')'] + tail;
    var j := |body|;
    assert p[1..] == body + [')'] + tail;
    assert p[1..][j] == ')' && p[1..][..j] == body;
    IndexOfFirst(p[1..], ')', j);
  }

  /** Every successful tokenisation is canonical, so `Tokenize` and
      `Render` are inverse bijections between valid patterns and
      canonical token sequences. */
  lemma {:induction false} TokenizeCanonical(p: string)
    requires Tokenize(p).Success?
    ensures Canonical(Tokenize(p).value)
    decreases |p|
  {
    var ts := Tokenize(p).value;
    if p != [] {
      if p[0] == '(' {
        var j := IndexOf(p[1..], ')');
        var body := p[1..1 + j];
        TokenizeBodyFits(body);
        TokenizeCanonical(p[j + 2..]);
        assert ts[1..] == Tokenize(p[j + 2..]).value;
      } else {
        var (a, n) := LexAtom(p).value;
        TokenizeCanonical(p[n..]);
        assert ts[1..] == Tokenize(p[n..]).value;
        assert Render(ts[1..]) == p[n..];
      }
    }
  }

  lemma {:induction false} TokenizeBodyFits(p: string)
    requires TokenizeBody(p).Success?
    ensures AtomsFit(TokenizeBody(p).value)
    decreases |p|
  {
    if p != [] {
      var atoms := TokenizeBody(p).value;
      var (a, n) := LexAtom(p).value;
      TokenizeBodyFits(p[n..]);
      assert atoms[1..] == TokenizeBody(p[n..]).value;
      assert RenderAtoms(atoms[1..]) == p[n..];
    }
  }

  // ---------------------------------------------------------------------
  // Matching
  // ---------------------------------------------------------------------

  function Weight(t: Token): nat {
    match t
    case One(_) => 1
    case Optional(b) => |b| + 1
  }

  /** Atoms left to match, counting those inside groups. */
  function Size(ts: seq<Token>): nat {
    if ts == [] then 0 else Weight(ts[0]) + Size(ts[1..])
  }

  function Lift(b: seq<Atom>): (ts: seq<Token>)
    ensures |ts| == |b|
    ensures forall i :: 0 <= i < |b| ==> ts[i] == One(b[i])
  {
    seq(|b|, i requires 0 <= i < |b| => One(b[i]))
  }

  lemma {:induction false} SizeLiftAppend(b: seq<Atom>, rest: seq<Token>)
    ensures Size(Lift(b) + rest) == |b| + Size(rest)
    decreases |b|
  {
    if b != [] {
      assert (Lift(b) + rest)[1..] == Lift(b[1..]) + rest;
      SizeLiftAppend(b[1..], rest);
    } else {
      assert Lift(b) + rest == rest;
    }
  }

  /** The path `s` belongs to the language of `ts`, the whole of `s` being
      consumed (the expression is anchored with `^` and `$`). */
  predicate Matches(ts: seq<Token>, s: string)
    decreases Size(ts)
  {
    if ts == [] then s == []
    else match ts[0]
      case One(Lit(c)) => |s| > 0 && s[0] == c && Matches(ts[1..], s[1..])
      case One(Param(_)) =>
        exists k :: 1 <= k <= |s| && '/' !in s[..k] && Matches(ts[1..], s[k..])
      case One(Splat(_)) =>
        exists k :: 0 <= k <= |s| && NoLineTerminator(s[..k]) && Matches(ts[1..], s[k..])
      case Optional(b) =>
        assert Size(Lift(b) + ts[1..]) < Size(ts) by { SizeLiftAppend(b, ts[1..]); }
        Matches(Lift(b) + ts[1..], s) || Matches(ts[1..], s)
  }

  /** `urlPathMatchesRoutePattern(path, pattern)`. */
  function PathMatches(path: string, pattern: string): Result<bool, PatternError> {
    var ts :- Tokenize(pattern);
    Success(Matches(ts, path))
  }

  // ---------------------------------------------------------------------
  // Properties of the language
  // ---------------------------------------------------------------------

  /** `s` can be cut at `k` into a prefix in the language of `a` and a
      suffix in the language of `b`. */
  predicate CutMatches(a: seq<Token>, b: seq<Token>, s: string, k: int) {
    0 <= k <= |s| && Matches(a, s[..k]) && Matches(b, s[k..])
  }

  /** Concatenating token sequences concatenates their languages: a path
      matches `a + b` exactly when it can be cut into a part matching `a`
      followed by a part matching `b`. */
  lemma {:induction false} MatchesAppend(a: seq<Token>, b: seq<Token>, s: string)
    ensures Matches(a + b, s) <==> exists k :: CutMatches(a, b, s, k)
    decreases Size(a), 1
  {
    if a == [] {
      assert a + b == b;
      if Matches(b, s) {
        assert s[..0] == [] && s[0..] == s;
        assert CutMatches(a, b, s, 0);
      }
      if exists k :: CutMatches(a, b, s, k) {
        var k :| CutMatches(a, b, s, k);
        assert |s[..k]| == 0;
        assert s[k..] == s;
      }
    } else {
      match a[0]
      case One(Lit(_)) => AppendLit(a, b, s);
      case One(Param(_)) => AppendParam(a, b, s);
      case One(Splat(_)) => AppendSplat(a, b, s);
      case Optional(_) => AppendOptional(a, b, s);
    }
  }

  lemma {:induction false} AppendLit(a: seq<Token>, b: seq<Token>, s: string)
    requires a != [] && a[0].One? && a[0].atom.Lit?
    ensures Matches(a + b, s) <==> exists k :: CutMatches(a, b, s, k)
    decreases Size(a), 0
  {
    var rest := a[1..];
    assert (a + b)[0] == a[0];
    assert (a + b)[1..] == rest + b;
    if Matches(a + b, s) {
      MatchesAppend(rest, b, s[1..]);
      var k :| CutMatches(rest, b, s[1..], k);
      assert s[..k + 1][1..] == s[1..][..k];
      assert s[k + 1..] == s[1..][k..];
      assert CutMatches(a, b, s, k + 1);
    }
    if exists k :: CutMatches(a, b, s, k) {
      var k :| CutMatches(a, b, s, k);
      assert s[..k][1..] == s[1..][..k - 1];
      assert s[k..] == s[1..][k - 1..];
      assert CutMatches(rest, b, s[1..], k - 1);
      MatchesAppend(rest, b, s[1..]);
    }
  }

  lemma {:induction false} AppendParam(a: seq<Token>, b: seq<Token>, s: string)
    requires a != [] && a[0].One? && a[0].atom.Param?
    ensures Matches(a + b, s) <==> exists k :: CutMatches(a, b, s, k)
    decreases Size(a), 0
  {
    var rest := a[1..];
    assert (a + b)[0] == a[0];
    assert (a + b)[1..] == rest + b;
    if Matches(a + b, s) {
      var j :| 1 <= j <= |s| && '/' !in s[..j] && Matches(rest + b, s[j..]);
      MatchesAppend(rest, b, s[j..]);
      var k :| CutMatches(rest, b, s[j..], k);
      assert s[..j + k][..j] == s[..j];
      assert s[..j + k][j..] == s[j..][..k];
      assert s[j + k..] == s[j..][k..];
      assert CutMatches(a, b, s, j + k);
    }
    if exists k :: CutMatches(a, b, s, k) {
      var k :| CutMatches(a, b, s, k);
      var t := s[..k];
      var j :| 1 <= j <= |t| && '/' !in t[..j] && Matches(rest, t[j..]);
      assert t[..j] == s[..j];
      assert t[j..] == s[j..][..k - j];
      assert s[k..] == s[j..][k - j..];
      assert CutMatches(rest, b, s[j..], k - j);
      MatchesAppend(rest, b, s[j..]);
    }
  }

  lemma {:induction false} AppendSplat(a: seq<Token>, b: seq<Token>, s: string)
    requires a != [] && a[0].One? && a[0].atom.Splat?
    ensures Matches(a + b, s) <==> exists k :: CutMatches(a, b, s, k)
    decreases Size(a), 0
  {
    var rest := a[1..];
    assert (a + b)[0] == a[0];
    assert (a + b)[1..] == rest + b;
    if Matches(a + b, s) {
      var j :| 0 <= j <= |s| && NoLineTerminator(s[..j]) && Matches(rest + b, s[j..]);
      MatchesAppend(rest, b, s[j..]);
      var k :| CutMatches(rest, b, s[j..], k);
      assert s[..j + k][..j] == s[..j];
      assert s[..j + k][j..] == s[j..][..k];
      assert s[j + k..] == s[j..][k..];
      assert CutMatches(a, b, s, j + k);
    }
    if exists k :: CutMatches(a, b, s, k) {
      var k :| CutMatches(a, b, s, k);
      var t := s[..k];
      var j :| 0 <= j <= |t| && NoLineTerminator(t[..j]) && Matches(rest, t[j..]);
      assert t[..j] == s[..j];
      assert t[j..] == s[j..][..k - j];
      assert s[k..] == s[j..][k - j..];
      assert CutMatches(rest, b, s[j..], k - j);
      MatchesAppend(rest, b, s[j..]);
    }
  }

  lemma {:induction false} AppendOptional(a: seq<Token>, b: seq<Token>, s: string)
    requires a != [] && a[0].Optional?
    ensures Matches(a + b, s) <==> exists k :: CutMatches(a, b, s, k)
    decreases Size(a), 0
  {
    var rest := a[1..];
    assert (a + b)[0] == a[0];
    assert (a + b)[1..] == rest + b;
    var taken := Lift(a[0].body) + rest;
    assert Lift(a[0].body) + (rest + b) == taken + b;
    SizeLiftAppend(a[0].body, rest);
    MatchesAppend(taken, b, s);
    MatchesAppend(rest, b, s);
    forall k | 0 <= k <= |s|
      ensures CutMatches(a, b, s, k) <==> CutMatches(taken, b, s, k) || CutMatches(rest, b, s, k)
    {
    }
  }

  /** What a single token accepts on its own. */
  predicate Accepts(t: Token, x: string) {
    match t
    case One(Lit(c)) => x == [c]
    case One(Param(_)) => |x| >= 1 && '/' !in x
    case One(Splat(_)) => NoLineTerminator(x)
    case Optional(b) => x == [] || Matches(Lift(b), x)
  }

  lemma SingleToken(t: Token, x: string)
    ensures Matches([t], x) <==> Accepts(t, x)
  {
    assert [t][1..] == [];
    match t
    case One(Lit(c)) =>
    case One(Param(_)) =>
      if Accepts(t, x) {
        assert x[..|x|] == x;
      }
    case One(Splat(_)) =>
      if Accepts(t, x) {
        assert x[..|x|] == x;
      }
    case Optional(b) =>
      assert Lift(b) + [t][1..] == Lift(b);
  }

  /** The meaning of each token kind: a path matches `[t] + rest` exactly
      when some prefix of it is accepted by `t` and the remainder matches
      `rest`. With `Accepts`, this pins down the whole language: a `:name`
      takes one or more characters other than '/', a `*name` any run
      without a line terminator, a group its body or nothing, and every
      other character itself. */
  lemma MatchesCons(t: Token, rest: seq<Token>, s: string)
    ensures Matches([t] + rest, s) <==>
              exists k :: 0 <= k <= |s| && Accepts(t, s[..k]) && Matches(rest, s[k..])
  {
    MatchesAppend([t], rest, s);
    forall k | 0 <= k <= |s|
      ensures CutMatches([t], rest, s, k) <==> Accepts(t, s[..k]) && Matches(rest, s[k..])
    {
      SingleToken(t, s[..k]);
    }
  }

  /** The tokens of a pattern made only of literal characters. */
  function LitTokens(p: string): (ts: seq<Token>)
    ensures |ts| == |p|
  {
    seq(|p|, i requires 0 <= i < |p| => One(Lit(p[i])))
  }

  lemma {:induction false} TokenizePlain(p: string)
    requires IsPlain(p)
    ensures Tokenize(p) == Success(LitTokens(p))
    decreases |p|
  {
    if p != [] {
      assert p[0] != '(' && p[0] != ')' && p[0] != ':' && p[0] != '*';
      assert LexAtom(p) == Success((Lit(p[0]), 1));
      assert IsPlain(p[1..]);
      TokenizePlain(p[1..]);
      assert LitTokens(p) == [One(Lit(p[0]))] + LitTokens(p[1..]);
    }
  }

  lemma {:induction false} MatchesLiterals(p: string, s: string)
    ensures Matches(LitTokens(p), s) <==> s == p
    decreases |p|
  {
    if p != [] {
      assert LitTokens(p)[1..] == LitTokens(p[1..]);
      if |s| > 0 {
        MatchesLiterals(p[1..], s[1..]);
        if s[0] == p[0] && s[1..] == p[1..] {
          assert s == [s[0]] + s[1..] && p == [p[0]] + p[1..];
        }
      }
    }
  }

  /** Every metacharacter other than `(`, `)`, `*` and `:` is escaped, so a
      pattern without those four characters matches the identical path and
      no other. */
  lemma PlainPatternMatchesOnlyItself(p: string, path: string)
    requires IsPlain(p)
    ensures PathMatches(path, p) == Success(path == p)
  {
    TokenizePlain(p);
    MatchesLiterals(p, path);
  }
}
