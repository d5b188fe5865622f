/** The small string builders of Util: the three join overloads, fill and isEmpty. */
module Text {
  import opened JavaLang

  /** join(s, delim): the elements in order, with `delim` between neighbours; one delimiter per gap. */
  function Join(s: seq<string>, delim: string): (r: string)
    ensures |s| == 0 ==> r == ""
    ensures |s| > 0 ==> |r| == TotalLength(s) + (|s| - 1) * |delim|
  {
    if |s| == 0 then ""
    else if |s| == 1 then s[0]
    else
      var rest := Join(s[1..], delim);
      assert (|s| - 1) * |delim| == (|s| - 2) * |delim| + |delim|;
      s[0] + delim + rest
  }

  /** A join starts with the first element and ends with the last, and is at least as long as all elements. */
  lemma {:induction false} JoinEnds(s: seq<string>, delim: string)
    requires |s| > 0
    ensures s[0] <= Join(s, delim) && EndsWith(Join(s, delim), s[|s| - 1])
    ensures |Join(s, delim)| >= TotalLength(s)
    decreases |s|
  {
    if |s| > 1 {
      JoinEnds(s[1..], delim);
      var rest := Join(s[1..], delim);
      assert EndsWith(s[0] + delim + rest, rest);
    }
  }

  /** `x` is a suffix of `r`. */
  predicate EndsWith(r: string, x: string)
  {
    |x| <= |r| && r[|r| - |x|..] == x
  }

  /** The summed length of all elements. */
  function TotalLength(s: seq<string>): nat
  {
    if |s| == 0 then 0 else |s[0]| + TotalLength(s[1..])
  }

  /** The first element, the delimiter, then the rest joined. */
  lemma JoinCons(s: seq<string>, delim: string)
    requires |s| >= 2
    ensures Join(s, delim) == s[0] + (delim + Join(s[1..], delim))
  {
    assert s[0] + delim + Join(s[1..], delim) == s[0] + (delim + Join(s[1..], delim));
  }

  /** Joining two non-empty runs puts one delimiter between them. */
  lemma {:induction false} JoinAppend(a: seq<string>, b: seq<string>, delim: string)
    requires |a| > 0 && |b| > 0
    ensures Join(a + b, delim) == Join(a, delim) + delim + Join(b, delim)
    decreases |a|
  {
    if |a| == 1 {
      assert (a + b)[1..] == b;
    } else {
      assert (a + b)[1..] == a[1..] + b;
      JoinAppend(a[1..], b, delim);
      calc {
        Join(a + b, delim);
        a[0] + delim + Join(a[1..] + b, delim);
        a[0] + delim + (Join(a[1..], delim) + delim + Join(b, delim));
        (a[0] + delim + Join(a[1..], delim)) + delim + Join(b, delim);
        Join(a, delim) + delim + Join(b, delim);
      }
    }
  }

  /** `"" + o`: string concatenation renders a null element as `null`. */
  function ObjectString(o: Nullable<string>): string
  {
    if o.Null? then "null" else o.value
  }

  /** The rendering of every element, in order: `null` for a null element, the string itself otherwise. */
  function ObjectStrings(o: seq<Nullable<string>>): (r: seq<string>)
    ensures |r| == |o|
    ensures forall i :: 0 <= i < |o| && o[i].Null? ==> r[i] == "null"
    ensures forall i :: 0 <= i < |o| && o[i].NonNull? ==> r[i] == o[i].value
  {
    seq(|o|, i requires 0 <= i < |o| => ObjectString(o[i]))
  }

  /** join(Object[], delim): a null array joins to the empty string. */
  function JoinObjects(o: Nullable<seq<Nullable<string>>>, delim: string): (r: string)
    ensures o.Null? ==> r == ""
    ensures o.NonNull? && |o.value| == 1 ==> r == ObjectString(o.value[0])
    ensures o.NonNull? && |o.value| > 0 ==>
      ObjectString(o.value[0]) <= r && EndsWith(r, ObjectString(o.value[|o.value| - 1]))
  {
    match o
    case Null => ""
    case NonNull(elements) =>
      var strings := ObjectStrings(elements);
      if |elements| > 0 then JoinEnds(strings, delim); Join(strings, delim) else ""
  }

  /** An array of non-null strings joins as the String[] overload joins their values. */
  lemma JoinObjectsOfStrings(elements: seq<string>, delim: string)
    ensures JoinObjects(NonNull(seq(|elements|, i requires 0 <= i < |elements| => NonNull(elements[i]))), delim)
         == Join(elements, delim)
  {
    var o := seq(|elements|, i requires 0 <= i < |elements| => NonNull(elements[i]));
    assert ObjectStrings(o) == elements;
  }

  /** A null element is rendered as the four characters `null`. */
  lemma JoinObjectsNullElement(delim: string)
    ensures JoinObjects(NonNull([Null, NonNull("x")]), delim) == "null" + delim + "x"
  {
    assert ObjectStrings([Null, NonNull("x")]) == ["null", "x"];
    assert Join(["null", "x"][1..], delim) == "x";
  }

  /**
    A null element at any position `k` is rendered as `null`, between the join of the
    elements before it and the join of those after it, one delimiter on each side that
    has neighbours.
   */
  lemma JoinObjectsNullAt(o: seq<Nullable<string>>, delim: string, k: nat)
    requires k < |o| && o[k].Null?
    ensures JoinObjects(NonNull(o), delim)
         == JoinObjects(NonNull(o[..k]), delim) + (if k > 0 then delim else "") + "null"
            + (if k + 1 < |o| then delim + JoinObjects(NonNull(o[k + 1..]), delim) else "")
  {
    var before, after := ObjectStrings(o[..k]), ObjectStrings(o[k + 1..]);
    ObjectStringsAround(o, k);
    JoinObjectsIsJoin(o, delim);
    JoinObjectsIsJoin(o[..k], delim);
    JoinObjectsIsJoin(o[k + 1..], delim);
    JoinAround(before, "null", after, delim);
  }

  /** A non-null array joins as the join of its renderings, including when it is empty. */
  lemma JoinObjectsIsJoin(o: seq<Nullable<string>>, delim: string)
    ensures JoinObjects(NonNull(o), delim) == Join(ObjectStrings(o), delim)
  {
  }

  /** The renderings of an array are those before `k`, the one at `k`, then those after. */
  lemma ObjectStringsAround(o: seq<Nullable<string>>, k: nat)
    requires k < |o| && o[k].Null?
    ensures ObjectStrings(o) == ObjectStrings(o[..k]) + ["null"] + ObjectStrings(o[k + 1..])
  {
  }

  /** Joining `before`, one element `x`, then `after`, with a delimiter on each side that has neighbours. */
  lemma JoinAround(before: seq<string>, x: string, after: seq<string>, delim: string)
    ensures Join(before + [x] + after, delim)
         == Join(before, delim) + (if |before| > 0 then delim else "") + x
            + (if |after| > 0 then delim + Join(after, delim) else "")
  {
    if |before| > 0 && |after| > 0 {
      JoinAroundBoth(before, x, after, delim);
    } else if |before| > 0 {
      JoinAroundBefore(before, x, after, delim);
    } else if |after| > 0 {
      JoinAroundAfter(before, x, after, delim);
    } else {
      assert before + [x] + after == [x];
    }
  }

  /** Both sides have neighbours. */
  lemma JoinAroundBoth(before: seq<string>, x: string, after: seq<string>, delim: string)
    requires |before| > 0 && |after| > 0
    ensures Join(before + [x] + after, delim) == Join(before, delim) + delim + x + (delim + Join(after, delim))
  {
    JoinAppend([x], after, delim);
    JoinAppend(before, [x] + after, delim);
    assert before + [x] + after == before + ([x] + after);
  }

  /** Only elements before `x`. */
  lemma JoinAroundBefore(before: seq<string>, x: string, after: seq<string>, delim: string)
    requires |before| > 0 && |after| == 0
    ensures Join(before + [x] + after, delim) == Join(before, delim) + delim + x
  {
    assert before + [x] + after == before + [x];
    JoinAppend(before, [x], delim);
  }

  /** Only elements after `x`. */
  lemma JoinAroundAfter(before: seq<string>, x: string, after: seq<string>, delim: string)
    requires |before| == 0 && |after| > 0
    ensures Join(before + [x] + after, delim) == x + (delim + Join(after, delim))
  {
    assert before + [x] + after == [x] + after;
    JoinAppend([x], after, delim);
  }

  /**
    join(components, delim, start, end): joins the elements from `start` to `end`, both
    inclusive. System.arraycopy and the array allocation throw unless the range lies
    inside the array, which is what the requires states.
   */
  function JoinRange(components: seq<string>, delim: string, start: nat, end: int): (r: string)
    requires start <= end + 1 <= |components|
    ensures end + 1 == start ==> r == ""
    ensures start <= end ==> components[start] <= r && EndsWith(r, components[end])
  {
    if start <= end then JoinEnds(components[start..end + 1], delim); Join(components[start..end + 1], delim)
    else ""
  }

  /** Joining the inclusive range from 0 to the last index joins the whole array. */
  lemma JoinRangeWhole(components: seq<string>, delim: string)
    ensures JoinRange(components, delim, 0, |components| - 1) == Join(components, delim)
  {
    assert components[0..|components|] == components;
  }

  /** Cutting the array after element `k` splits its join at one delimiter into two range joins. */
  lemma JoinRangeSplit(components: seq<string>, delim: string, k: nat)
    requires k + 1 < |components|
    ensures Join(components, delim)
         == JoinRange(components, delim, 0, k) + delim + JoinRange(components, delim, k + 1, |components| - 1)
  {
    var left := components[0..k + 1];
    var right := components[k + 1..|components|];
    assert components == left + right;
    JoinAppend(left, right, delim);
  }

  /** fill(c, length): `length` copies of `c`; a negative length throws, hence `nat`. */
  function Fill(c: char, length: nat): (r: string)
    ensures |r| == length
    ensures forall i :: 0 <= i < |r| ==> r[i] == c
  {
    if length == 0 then "" else Fill(c, length - 1) + [c]
  }

  /** isEmpty(text): null or of length zero. */
  predicate IsEmpty(text: Nullable<string>)
  {
    text.Null? || |text.value| == 0
  }
}
