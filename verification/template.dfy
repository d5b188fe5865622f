/**
  Parameter substitution in `%name%` templates (Util.replace / Util.innerReplace).

  `Expand` and `Scan` follow innerReplace: one left-to-right pass in which every `%`
  toggles an "in parameter" flag, and every closed parameter is handed to `Placeholder`.
  `Resolve` is an independent reading of the same text as a placeholder grammar
  (literal text, `%`, name, `%`, rest); `ExpandAgreesWithResolve` proves the two agree.
 */
module Template {
  import opened JavaLang

  /** innerReplace refuses to run once its depth exceeds this bound. */
  const MaxDepth: nat := 12

  /** What a ParameterResolver answers for one name: a value, null, or a thrown exception. */
  datatype Lookup = Found(value: string) | NotFound | Error(cause: string)

  /** A ParameterResolver, as a total function from parameter name to its answer. */
  type Resolver = string -> Lookup

  /**
    The exceptions replace can end in: IllegalArgumentException("Cyclic parameters"),
    a ParameterResolverException thrown by the resolver, or the RuntimeException the
    map overload wraps such an exception in.
   */
  datatype ReplaceError = Cyclic | ResolverFailed(cause: string) | Internal(cause: string)

  /** The resolved text, or the exception that aborted the whole call. */
  datatype Outcome = Done(text: string) | Abort(error: ReplaceError)

  /** Appends `prefix` in front of a successful outcome; an abort passes through. */
  function Prepend(prefix: string, o: Outcome): Outcome
  {
    match o
    case Done(t) => Done(prefix + t)
    case Abort(e) => o
  }

  /**
    The text a closed parameter contributes, preceded by `literal`, in front of the text
    of the rest; the first abort wins.
   */
  function Then(literal: string, piece: Outcome, rest: Outcome): Outcome
  {
    match piece
    case Abort(e) => piece
    case Done(p) => Prepend(literal + p, rest)
  }

  /** Every resolver failure in `o` is an exception some lookup of `r` threw, and `o` is never a wrapped one. */
  ghost predicate Attributable(o: Outcome, r: Resolver)
  {
    && (o.Abort? && o.error.ResolverFailed? ==> exists n :: r(n) == Error(o.error.cause))
    && (o.Abort? ==> !o.error.Internal?)
  }

  /** A name that is looked up: non-empty, not reserved with `#`, and free of `%`. */
  predicate PlainName(name: string)
  {
    |name| > 0 && name[0] != '#' && '%' !in name
  }

  /** What each closed parameter contributes, by name. */
  type Pieces = string -> Outcome

  /** innerReplace(input, r, depth). */
  function Expand(input: string, r: Resolver, depth: nat): (o: Outcome)
    ensures depth > MaxDepth ==> o == Abort(Cyclic)
    ensures Attributable(o, r)
    decreases MaxDepth + 1 - depth, 2
  {
    if depth > MaxDepth then Abort(Cyclic)
    else Scan(input, Params(r, depth), 0, false, 0)
  }

  /** The parameters of one innerReplace call: each name's Placeholder text at `depth`. */
  function Params(r: Resolver, depth: nat): Pieces
    requires depth <= MaxDepth
    decreases MaxDepth + 1 - depth, 1
  {
    name => Placeholder(name, r, depth)
  }

  /**
    The loop of innerReplace from index `i` on, with the flag `inParam` and the index
    `paramStart` of the `%` that opened the current parameter; each closed parameter
    contributes `piece` of its name. The result is the text appended from `i` on, or
    the first abort a parameter produced.
   */
  function Scan(input: string, piece: Pieces, i: nat, inParam: bool, paramStart: nat): (o: Outcome)
    requires i <= |input|
    requires inParam ==> paramStart < i
    ensures o.Abort? ==> exists name :: piece(name) == o
    decreases |input| - i
  {
    if i == |input| then Done("")
    else if input[i] == '%' then
      if !inParam then Scan(input, piece, i + 1, true, i)
      else
        Then("", piece(input[paramStart + 1..i]), Scan(input, piece, i + 1, false, paramStart))
    else if !inParam then Prepend([input[i]], Scan(input, piece, i + 1, inParam, paramStart))
    else Scan(input, piece, i + 1, inParam, paramStart)
  }

  /**
    The text one closed parameter `%name%` contributes at `depth`: nothing for a reserved
    `#` name, one `%` for the escape `%%`, the value expanded one level deeper when the
    resolver knows the name, the parameter itself when it does not.
   */
  function Placeholder(name: string, r: Resolver, depth: nat): (o: Outcome)
    requires depth <= MaxDepth
    ensures Attributable(o, r)
    decreases MaxDepth + 1 - depth, 0
  {
    if |name| > 0 && name[0] == '#' then Done("")
    else if |name| == 0 then Done("%")
    else
      match r(name)
      case Error(cause) => Abort(ResolverFailed(cause))
      case Found(v) => Expand(v, r, depth + 1)
      case NotFound => Done("%" + name + "%")
  }

  /**
    replace(input, resolver): innerReplace from depth 0, which reads the input as the
    placeholder grammar `Resolve` describes.
   */
  function Replace(input: string, r: Resolver): (o: Outcome)
    ensures Attributable(o, r)
    ensures o == Resolve(input, Params(r, 0))
  {
    ExpandAgreesWithResolve(input, r, 0);
    Expand(input, r, 0)
  }

  /** The lookup DefaultParameterResolver performs on a map: the mapped value or null. */
  function MapResolver(m: map<string, string>): Resolver
  {
    name => if name in m then Found(m[name]) else NotFound
  }

  /**
    replace(input, map): a resolver failure would be wrapped in a RuntimeException
    (`Internal`), but a map lookup never fails, so only the cyclic error remains.
   */
  function ReplaceWithMap(input: string, m: map<string, string>): (o: Outcome)
    ensures o.Abort? ==> o.error == Cyclic
    ensures o.Done? <==> Replace(input, MapResolver(m)).Done?
    ensures o.Done? ==> o == Replace(input, MapResolver(m))
  {
    match Replace(input, MapResolver(m))
    case Abort(ResolverFailed(cause)) => Abort(Internal(cause))
    case other => other
  }

  /** The position of the first `%` at or after `from`, or the end of the input when there is none. */
  function NextPercent(input: string, from: nat): (j: nat)
    requires from <= |input|
    ensures from <= j <= |input|
    ensures j < |input| ==> input[j] == '%'
    ensures '%' !in input[from..j]
    decreases |input| - from
  {
    if from == |input| || input[from] == '%' then from
    else
      var j := NextPercent(input, from + 1);
      assert input[from..j] == [input[from]] + input[from + 1..j];
      j
  }

  /** `from` ..< `k` holds no `%` and `k` does: the next `%` from `from` is at `k`. */
  lemma {:induction false} NextPercentAt(s: string, from: nat, k: nat)
    requires from <= k < |s| && s[k] == '%'
    requires '%' !in s[from..k]
    ensures NextPercent(s, from) == k
    decreases k - from
  {
    if from < k {
      assert s[from] == s[from..k][0];
      assert '%' !in s[from + 1..k] by {
        assert s[from + 1..k] == s[from..k][1..];
      }
      NextPercentAt(s, from + 1, k);
    }
  }

  /** No `%` from `from` on: the search runs to the end. */
  lemma {:induction false} NextPercentNone(s: string, from: nat)
    requires from <= |s|
    requires '%' !in s[from..]
    ensures NextPercent(s, from) == |s|
    decreases |s| - from
  {
    if from < |s| {
      assert s[from] == s[from..][0];
      assert '%' !in s[from + 1..] by {
        assert s[from + 1..] == s[from..][1..];
      }
      NextPercentNone(s, from + 1);
    }
  }

  /**
    Reference reading of a template: literal text up to the first `%`; if no second `%`
    follows, the open fragment is dropped; otherwise the name between the two contributes
    its `piece` and the remainder is read the same way.
   */
  function Resolve(s: string, piece: Pieces): Outcome
    decreases |s|
  {
    var k := NextPercent(s, 0);
    if k == |s| then Done(s)
    else
      var j := NextPercent(s, k + 1);
      if j == |s| then Done(s[..k])
      else Then(s[..k], piece(s[k + 1..j]), Resolve(s[j + 1..], piece))
  }

  /** A template without `%` reads as itself. */
  lemma ResolvePlain(s: string, piece: Pieces)
    requires '%' !in s
    ensures Resolve(s, piece) == Done(s)
  {
    assert s[0..] == s;
    NextPercentNone(s, 0);
  }

  /** A template made of literal text, one closed parameter and a remainder. */
  lemma ResolveSplit(literal: string, name: string, rest: string, piece: Pieces)
    requires '%' !in literal && '%' !in name
    ensures Resolve(literal + "%" + name + "%" + rest, piece)
         == Then(literal, piece(name), Resolve(rest, piece))
  {
    var s := literal + "%" + name + "%" + rest;
    var k := |literal|;
    var j := k + 1 + |name|;
    assert s[k] == '%' && s[0..k] == literal && s[..k] == literal;
    NextPercentAt(s, 0, k);
    assert s[j] == '%' && s[k + 1..j] == name;
    NextPercentAt(s, k + 1, j);
    assert s[j + 1..] == rest;
  }

  /** A template made of literal text and a `%` that is never closed. */
  lemma ResolveUnclosedSplit(literal: string, fragment: string, piece: Pieces)
    requires '%' !in literal && '%' !in fragment
    ensures Resolve(literal + "%" + fragment, piece) == Done(literal)
  {
    var s := literal + "%" + fragment;
    var k := |literal|;
    assert s[k] == '%' && s[0..k] == literal && s[..k] == literal;
    NextPercentAt(s, 0, k);
    assert s[k + 1..] == fragment;
    NextPercentNone(s, k + 1);
  }

  lemma PrependAssociates(a: string, b: string, o: Outcome)
    ensures Prepend(a, Prepend(b, o)) == Prepend(a + b, o)
  {
    if o.Done? {
      assert a + (b + o.text) == (a + b) + o.text;
    }
  }

  lemma ThenPrepend(a: string, literal: string, piece: Outcome, rest: Outcome)
    ensures Then(a + literal, piece, rest) == Prepend(a, Then(literal, piece, rest))
  {
    if piece.Done? {
      PrependAssociates(a, literal + piece.text, rest);
      assert a + (literal + piece.text) == (a + literal) + piece.text;
    }
  }

  /** A template cut at a `%` and at the `%` closing it. */
  lemma CutAtParam(t: string, k: nat, j: nat)
    requires k < j < |t| && t[k] == '%' && t[j] == '%'
    ensures t == t[..k] + "%" + t[k + 1..j] + "%" + t[j + 1..]
  {
  }

  /** A template cut at a `%` that is never closed. */
  lemma CutAtOpen(t: string, k: nat)
    requires k < |t| && t[k] == '%'
    ensures t == t[..k] + "%" + t[k + 1..]
  {
  }

  /** Moving a leading character into the literal part of a template. */
  lemma ConsTemplate(c: char, literal: string, name: string, rest: string)
    ensures [c] + (literal + "%" + name + "%" + rest) == ([c] + literal) + "%" + name + "%" + rest
  {
  }

  lemma ResolveLiteralSplit(c: char, literal: string, name: string, rest: string, piece: Pieces)
    requires c != '%' && '%' !in literal && '%' !in name
    ensures Resolve([c] + (literal + "%" + name + "%" + rest), piece)
         == Prepend([c], Resolve(literal + "%" + name + "%" + rest, piece))
  {
    var text := piece(name);
    var after := Resolve(rest, piece);
    assert Resolve(literal + "%" + name + "%" + rest, piece) == Then(literal, text, after) by {
      ResolveSplit(literal, name, rest, piece);
    }
    assert Resolve([c] + (literal + "%" + name + "%" + rest), piece) == Then([c] + literal, text, after) by {
      ConsTemplate(c, literal, name, rest);
      ResolveSplit([c] + literal, name, rest, piece);
    }
    ThenPrepend([c], literal, text, after);
  }

  lemma ResolveLiteralUnclosedSplit(c: char, literal: string, fragment: string, piece: Pieces)
    requires c != '%' && '%' !in literal && '%' !in fragment
    ensures Resolve([c] + (literal + "%" + fragment), piece)
         == Prepend([c], Resolve(literal + "%" + fragment, piece))
  {
    assert [c] + (literal + "%" + fragment) == ([c] + literal) + "%" + fragment;
    ResolveUnclosedSplit(literal, fragment, piece);
    ResolveUnclosedSplit([c] + literal, fragment, piece);
  }

  /** A literal character in front of a template without any `%`. */
  lemma ResolveLiteralPlain(c: char, t: string, piece: Pieces)
    requires c != '%' && '%' !in t
    ensures Resolve([c] + t, piece) == Prepend([c], Resolve(t, piece))
  {
    ResolvePlain(t, piece);
    ResolvePlain([c] + t, piece);
  }

  /** A leading literal character (not `%`) is copied in front of the rest. */
  lemma ResolveLiteral(c: char, t: string, piece: Pieces)
    requires c != '%'
    ensures Resolve([c] + t, piece) == Prepend([c], Resolve(t, piece))
  {
    var k := NextPercent(t, 0);
    assert t[0..k] == t[..k];
    if k == |t| {
      assert t[..k] == t;
      ResolveLiteralPlain(c, t, piece);
    } else {
      var j := NextPercent(t, k + 1);
      if j < |t| {
        CutAtParam(t, k, j);
        ResolveLiteralSplit(c, t[..k], t[k + 1..j], t[j + 1..], piece);
      } else {
        assert t[k + 1..j] == t[k + 1..];
        CutAtOpen(t, k);
        ResolveLiteralUnclosedSplit(c, t[..k], t[k + 1..], piece);
      }
    }
  }

  /** Inside a parameter, characters other than `%` only extend its name: the scan skips them. */
  lemma {:induction false} ScanSkipsName(input: string, piece: Pieces, i: nat, j: nat, paramStart: nat)
    requires paramStart < i <= j <= |input|
    requires '%' !in input[i..j]
    ensures Scan(input, piece, i, true, paramStart) == Scan(input, piece, j, true, paramStart)
    decreases j - i
  {
    if i < j {
      assert input[i] == input[i..j][0];
      assert '%' !in input[i + 1..j] by {
        assert input[i + 1..j] == input[i..j][1..];
      }
      ScanSkipsName(input, piece, i + 1, j, paramStart);
    }
  }

  /**
    A `%` at `i` closed by the `%` at `j`: the scan emits the parameter's text, then goes
    on outside a parameter after `j`.
   */
  lemma ScanThroughParam(input: string, piece: Pieces, i: nat, j: nat, paramStart: nat)
    requires i < j < |input|
    requires input[i] == '%' && input[j] == '%'
    requires '%' !in input[i + 1..j]
    ensures Scan(input, piece, i, false, paramStart)
         == Then("", piece(input[i + 1..j]), Scan(input, piece, j + 1, false, i))
  {
    ScanSkipsName(input, piece, i + 1, j, i);
  }

  /** The reference reading of a template that starts with the parameter `%name%`. */
  lemma ResolveThroughParam(input: string, piece: Pieces, i: nat, j: nat)
    requires i < j < |input|
    requires input[i] == '%' && input[j] == '%'
    requires '%' !in input[i + 1..j]
    ensures Resolve(input[i..], piece)
         == Then("", piece(input[i + 1..j]), Resolve(input[j + 1..], piece))
  {
    var name := input[i + 1..j];
    var rest := input[j + 1..];
    assert input[i..] == "" + "%" + name + "%" + rest;
    ResolveSplit("", name, rest, piece);
  }

  /** A `%` at `i` that is never closed: neither the scan nor the reference emits anything more. */
  lemma UnclosedParam(input: string, piece: Pieces, i: nat, paramStart: nat)
    requires i < |input|
    requires input[i] == '%'
    requires '%' !in input[i + 1..]
    ensures Scan(input, piece, i, false, paramStart) == Done("")
    ensures Resolve(input[i..], piece) == Done("")
  {
    ScanSkipsName(input, piece, i + 1, |input|, i);
    var fragment := input[i + 1..];
    assert input[i..] == "" + "%" + fragment;
    ResolveUnclosedSplit("", fragment, piece);
  }

  /** The step over a closed parameter, given that the scan after it agrees with the reference. */
  lemma ParamStepAgrees(input: string, piece: Pieces, i: nat, j: nat, paramStart: nat)
    requires i < j < |input|
    requires input[i] == '%' && input[j] == '%'
    requires '%' !in input[i + 1..j]
    requires Scan(input, piece, j + 1, false, i) == Resolve(input[j + 1..], piece)
    ensures Scan(input, piece, i, false, paramStart) == Resolve(input[i..], piece)
  {
    ScanThroughParam(input, piece, i, j, paramStart);
    ResolveThroughParam(input, piece, i, j);
  }

  /** The step over a literal character, given that the scan after it agrees with the reference. */
  lemma LiteralStepAgrees(input: string, piece: Pieces, i: nat, paramStart: nat)
    requires i < |input|
    requires input[i] != '%'
    requires Scan(input, piece, i + 1, false, paramStart) == Resolve(input[i + 1..], piece)
    ensures Scan(input, piece, i, false, paramStart) == Resolve(input[i..], piece)
  {
    assert input[i..] == [input[i]] + input[i + 1..];
    ResolveLiteral(input[i], input[i + 1..], piece);
  }

  /** Outside a parameter, the scan from `i` on is the reference reading of the rest. */
  lemma {:induction false} ScanAgrees(input: string, piece: Pieces, i: nat, paramStart: nat)
    requires i <= |input|
    ensures Scan(input, piece, i, false, paramStart) == Resolve(input[i..], piece)
    decreases |input| - i, 1
  {
    if i == |input| {
      assert input[i..] == [];
    } else if input[i] != '%' {
      ScanAgreesLiteral(input, piece, i, paramStart);
    } else if NextPercent(input, i + 1) < |input| {
      ScanAgreesParam(input, piece, i, NextPercent(input, i + 1), paramStart);
    } else {
      UnclosedParam(input, piece, i, paramStart);
    }
  }

  /** ScanAgrees at a literal character. */
  lemma {:induction false} ScanAgreesLiteral(input: string, piece: Pieces, i: nat, paramStart: nat)
    requires i < |input| && input[i] != '%'
    ensures Scan(input, piece, i, false, paramStart) == Resolve(input[i..], piece)
    decreases |input| - i, 0
  {
    assert Scan(input, piece, i + 1, false, paramStart) == Resolve(input[i + 1..], piece) by {
      ScanAgrees(input, piece, i + 1, paramStart);
    }
    LiteralStepAgrees(input, piece, i, paramStart);
  }

  /** ScanAgrees at a `%` closed by the `%` at `j`. */
  lemma {:induction false} ScanAgreesParam(input: string, piece: Pieces, i: nat, j: nat, paramStart: nat)
    requires i < j < |input|
    requires input[i] == '%' && input[j] == '%'
    requires '%' !in input[i + 1..j]
    ensures Scan(input, piece, i, false, paramStart) == Resolve(input[i..], piece)
    decreases |input| - i, 0
  {
    assert Scan(input, piece, j + 1, false, i) == Resolve(input[j + 1..], piece) by {
      ScanAgrees(input, piece, j + 1, i);
    }
    ParamStepAgrees(input, piece, i, j, paramStart);
  }

  /** The toggle scanner of innerReplace and the placeholder grammar give the same outcome. */
  lemma ExpandAgreesWithResolve(s: string, r: Resolver, depth: nat)
    requires depth <= MaxDepth
    ensures Expand(s, r, depth) == Resolve(s, Params(r, depth))
  {
    ScanAgrees(s, Params(r, depth), 0, 0);
    assert s[0..] == s;
  }
}
