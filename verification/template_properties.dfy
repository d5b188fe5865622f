/**
  What replace promises its callers, proved from the placeholder-grammar reading:
  text without `%` is unchanged, `%%` is a literal `%`, `#` names vanish, unknown names
  stay as written, known names are replaced by their expanded value, an unclosed `%`
  drops the rest, and the nesting depth is bounded.
 */
module TemplateProperties {
  import opened JavaLang
  import opened Template

  /** Text without `%` expands to itself at every depth innerReplace accepts. */
  lemma ExpandWithoutPercent(s: string, r: Resolver, depth: nat)
    requires depth <= MaxDepth
    requires '%' !in s
    ensures Expand(s, r, depth) == Done(s)
  {
    ExpandAgreesWithResolve(s, r, depth);
  }

  /** replace returns a string without `%` unchanged, whatever the resolver. */
  lemma ReplaceWithoutPercent(s: string, r: Resolver)
    requires '%' !in s
    ensures Replace(s, r) == Done(s)
  {
    ExpandWithoutPercent(s, r, 0);
  }

  /** Literal text, one closed parameter, and the rest, as seen by replace. */
  lemma ReplaceSplit(literal: string, name: string, rest: string, r: Resolver)
    requires '%' !in literal && '%' !in name
    ensures Replace(literal + "%" + name + "%" + rest, r)
         == Then(literal, Placeholder(name, r, 0), Replace(rest, r))
  {
    ExpandAgreesWithResolve(literal + "%" + name + "%" + rest, r, 0);
    ExpandAgreesWithResolve(rest, r, 0);
    ResolveSplit(literal, name, rest, Params(r, 0));
  }

  /** `%%` produces exactly one `%`, and scanning resumes after it. */
  lemma ReplaceEscape(literal: string, rest: string, r: Resolver)
    requires '%' !in literal
    ensures Replace(literal + "%%" + rest, r) == Prepend(literal + "%", Replace(rest, r))
  {
    assert literal + "%%" + rest == literal + "%" + "" + "%" + rest;
    ReplaceSplit(literal, "", rest, r);
  }

  /** A parameter whose name starts with `#` produces nothing and is never looked up. */
  lemma ReplaceReservedName(literal: string, name: string, rest: string, r: Resolver)
    requires '%' !in literal && '%' !in name
    requires |name| > 0 && name[0] == '#'
    ensures Replace(literal + "%" + name + "%" + rest, r) == Prepend(literal, Replace(rest, r))
  {
    ReplaceSplit(literal, name, rest, r);
    assert literal + "" == literal;
  }

  /** A `%` that is never closed drops everything after it. */
  lemma ReplaceUnterminated(literal: string, fragment: string, r: Resolver)
    requires '%' !in literal && '%' !in fragment
    ensures Replace(literal + "%" + fragment, r) == Done(literal)
  {
    ExpandAgreesWithResolve(literal + "%" + fragment, r, 0);
    ResolveUnclosedSplit(literal, fragment, Params(r, 0));
  }

  /** A name the resolver does not know is written back as `%name%`. */
  lemma ReplaceUnknownName(literal: string, name: string, rest: string, r: Resolver)
    requires '%' !in literal && PlainName(name)
    requires r(name) == NotFound
    ensures Replace(literal + "%" + name + "%" + rest, r)
         == Prepend(literal + "%" + name + "%", Replace(rest, r))
  {
    assert Placeholder(name, r, 0) == Done("%" + name + "%");
    ReplaceSplit(literal, name, rest, r);
    ThenDone(literal, "%" + name + "%", Replace(rest, r));
    assert literal + ("%" + name + "%") == literal + "%" + name + "%";
  }

  lemma ThenDone(literal: string, text: string, rest: Outcome)
    ensures Then(literal, Done(text), rest) == Prepend(literal + text, rest)
  {
  }

  /** A known name is replaced by its value, itself expanded one level deeper. */
  lemma ReplaceKnownName(literal: string, name: string, value: string, rest: string, r: Resolver)
    requires '%' !in literal && PlainName(name)
    requires r(name) == Found(value)
    ensures Replace(literal + "%" + name + "%" + rest, r)
         == Then(literal, Expand(value, r, 1), Replace(rest, r))
  {
    ReplaceSplit(literal, name, rest, r);
  }

  /** A known name whose value has no `%` is replaced by exactly that value. */
  lemma ReplaceKnownPlainName(literal: string, name: string, value: string, rest: string, r: Resolver)
    requires '%' !in literal && PlainName(name)
    requires r(name) == Found(value) && '%' !in value
    ensures Replace(literal + "%" + name + "%" + rest, r) == Prepend(literal + value, Replace(rest, r))
  {
    ReplaceKnownName(literal, name, value, rest, r);
    ExpandWithoutPercent(value, r, 1);
  }

  /** An exception from the resolver aborts the whole call with that exception. */
  lemma ReplaceResolverError(literal: string, name: string, rest: string, r: Resolver, cause: string)
    requires '%' !in literal && PlainName(name)
    requires r(name) == Error(cause)
    ensures Replace(literal + "%" + name + "%" + rest, r) == Abort(ResolverFailed(cause))
  {
    ReplaceSplit(literal, name, rest, r);
  }

  /** `%name%` expands to the Placeholder text of `name` at the same depth. */
  lemma ExpandSingle(name: string, r: Resolver, depth: nat)
    requires depth <= MaxDepth
    requires '%' !in name
    ensures Expand("%" + name + "%", r, depth) == Then("", Placeholder(name, r, depth), Done(""))
  {
    var s := "%" + name + "%";
    assert s == "" + "%" + name + "%" + "";
    ExpandAgreesWithResolve(s, r, depth);
    ResolveSplit("", name, "", Params(r, depth));
  }

  lemma {:induction false} SelfReferenceAt(name: string, r: Resolver, depth: nat)
    requires PlainName(name)
    requires r(name) == Found("%" + name + "%")
    ensures Expand("%" + name + "%", r, depth) == Abort(Cyclic)
    decreases MaxDepth + 1 - depth
  {
    if depth <= MaxDepth {
      ExpandSingle(name, r, depth);
      SelfReferenceAt(name, r, depth + 1);
    }
  }

  /** A parameter whose value is itself always fails as cyclic. */
  lemma SelfReferenceIsCyclic(name: string, r: Resolver)
    requires PlainName(name)
    requires r(name) == Found("%" + name + "%")
    ensures Replace("%" + name + "%", r) == Abort(Cyclic)
  {
    SelfReferenceAt(name, r, 0);
  }

  /**
    `keys[0]` refers to `keys[1]`, which refers to `keys[2]`, and so on; the last key
    has the plain value `value`.
   */
  ghost predicate IsChain(r: Resolver, keys: seq<string>, value: string)
  {
    && |keys| > 0
    && (forall i :: 0 <= i < |keys| ==> PlainName(keys[i]))
    && (forall i :: 0 <= i < |keys| - 1 ==> r(keys[i]) == Found("%" + keys[i + 1] + "%"))
    && r(keys[|keys| - 1]) == Found(value)
    && '%' !in value
  }

  lemma {:induction false} ChainFrom(r: Resolver, keys: seq<string>, value: string, i: nat, depth: nat)
    requires IsChain(r, keys, value)
    requires i < |keys|
    ensures Expand("%" + keys[i] + "%", r, depth)
         == if depth + |keys| - i <= MaxDepth then Done(value) else Abort(Cyclic)
    decreases |keys| - i
  {
    if depth <= MaxDepth {
      ExpandSingle(keys[i], r, depth);
      if i < |keys| - 1 {
        ChainFrom(r, keys, value, i + 1, depth + 1);
      } else if depth + 1 <= MaxDepth {
        ExpandWithoutPercent(value, r, depth + 1);
        assert "" + value + "" == value;
      }
    }
  }

  /**
    Resolving a chain of n nested parameters succeeds with the final value when n is at
    most 12 and fails as cyclic from 13 on: the bound is on depth, not on repetition.
   */
  lemma ChainDepth(r: Resolver, keys: seq<string>, value: string)
    requires IsChain(r, keys, value)
    ensures Replace("%" + keys[0] + "%", r)
         == if |keys| <= MaxDepth then Done(value) else Abort(Cyclic)
  {
    ChainFrom(r, keys, value, 0, 0);
  }
}
