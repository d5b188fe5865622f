/**
  Splitting a command line into arguments (Util.parseCommandLine) and the quoting
  helpers that go the other way (ensureQuoted, trim, trimQuotes).

  `ParseCommandLine` follows the single pass of the source with its buffer and quote
  flag. `Tokens` is a staged reference: first `Fields` cuts the text at unquoted spaces
  and drops the quote characters, then `KeepNonBlank` discards blank fields.
 */
module CommandLine {
  import opened JavaLang
  import Text

  /**
    The text cut at every space met outside quotes, with the quote characters removed;
    empty fields are kept. `inQuote` is the quote state at the start of `s`.
   */
  function Fields(s: string, inQuote: bool): (fs: seq<string>)
    ensures |fs| >= 1
    decreases |s|
  {
    if |s| == 0 then [""]
    else if s[0] == '"' then Fields(s[1..], !inQuote)
    else if s[0] == ' ' && !inQuote then [""] + Fields(s[1..], inQuote)
    else
      var rest := Fields(s[1..], inQuote);
      [[s[0]] + rest[0]] + rest[1..]
  }

  /** No field holds a quote character. */
  lemma {:induction false} FieldsQuoteFree(s: string, inQuote: bool)
    ensures forall k :: 0 <= k < |Fields(s, inQuote)| ==> '"' !in Fields(s, inQuote)[k]
    decreases |s|
  {
    if |s| > 0 {
      FieldsQuoteFree(s[1..], !inQuote);
      FieldsQuoteFree(s[1..], inQuote);
    }
  }

  /** The fields that survive `trim()` non-empty, in their original order. */
  function KeepNonBlank(fs: seq<string>): (ts: seq<string>)
    ensures |ts| <= |fs|
  {
    if |fs| == 0 then []
    else if NonBlank(fs[0]) then [fs[0]] + KeepNonBlank(fs[1..])
    else KeepNonBlank(fs[1..])
  }

  /** Every kept field is non-blank and is one of the fields. */
  lemma {:induction false} KeepNonBlankKeeps(fs: seq<string>)
    ensures forall k :: 0 <= k < |KeepNonBlank(fs)| ==> NonBlank(KeepNonBlank(fs)[k]) && KeepNonBlank(fs)[k] in fs
    decreases |fs|
  {
    if |fs| > 0 {
      KeepNonBlankKeeps(fs[1..]);
      forall t | t in fs[1..]
        ensures t in fs
      {
      }
    }
  }

  /** The expected arguments are quote-free and non-blank. */
  lemma TokensQuoteFreeNonBlank(command: string)
    ensures forall k :: 0 <= k < |Tokens(command)| ==> '"' !in Tokens(command)[k] && NonBlank(Tokens(command)[k])
  {
    FieldsQuoteFree(command, false);
    KeepNonBlankKeeps(Fields(command, false));
  }

  /** The arguments parseCommandLine is expected to produce for `command`. */
  function Tokens(command: string): seq<string>
  {
    KeepNonBlank(Fields(command, false))
  }

  lemma {:induction false} KeepNonBlankAppend(a: seq<string>, b: seq<string>)
    ensures KeepNonBlank(a + b) == KeepNonBlank(a) + KeepNonBlank(b)
    decreases |a|
  {
    if |a| == 0 {
      assert a + b == b;
    } else {
      assert (a + b)[1..] == a[1..] + b;
      KeepNonBlankAppend(a[1..], b);
    }
  }

  /** The field list with `prefix` put in front of its first field. */
  function PrependFirst(prefix: string, fs: seq<string>): seq<string>
    requires |fs| >= 1
  {
    [prefix + fs[0]] + fs[1..]
  }

  lemma PrependFirstEmpty(fs: seq<string>)
    requires |fs| >= 1
    ensures PrependFirst("", fs) == fs
  {
    assert "" + fs[0] == fs[0];
  }

  lemma PrependFirstSeparator(prefix: string, rest: seq<string>)
    ensures PrependFirst(prefix, [""] + rest) == [prefix] + rest
  {
    assert prefix + "" == prefix;
    assert ([""] + rest)[1..] == rest;
  }

  lemma PrependFirstExtend(prefix: string, c: char, rest: seq<string>)
    requires |rest| >= 1
    ensures PrependFirst(prefix, [[c] + rest[0]] + rest[1..]) == PrependFirst(prefix + [c], rest)
  {
    assert prefix + ([c] + rest[0]) == (prefix + [c]) + rest[0];
    assert ([[c] + rest[0]] + rest[1..])[1..] == rest[1..];
  }

  /**
    addIfNotEmpty: the buffer is appended exactly when it holds a character above U+0020,
    which is when `trim()` leaves something of it.
   */
  function AddIfNotEmpty(result: seq<string>, current: string): (r: seq<string>)
    ensures HasVisible(current) ==> r == result + [current]
    ensures !HasVisible(current) ==> r == result
  {
    NonBlankIffVisible(current);
    if |TrimWhitespace(current)| > 0 then result + [current] else result
  }

  lemma KeepNonBlankSingle(current: string)
    ensures KeepNonBlank([current]) == if NonBlank(current) then [current] else []
  {
    assert [current][1..] == [];
  }

  /** An unquoted space hands the buffer to addIfNotEmpty and starts an empty one. */
  lemma SeparatorStep(tokens: seq<string>, current: string, rest: seq<string>)
    requires |rest| >= 1
    ensures tokens + KeepNonBlank(PrependFirst(current, [""] + rest))
         == AddIfNotEmpty(tokens, current) + KeepNonBlank(PrependFirst("", rest))
  {
    var single := KeepNonBlank([current]);
    var others := KeepNonBlank(rest);
    assert KeepNonBlank(PrependFirst(current, [""] + rest)) == single + others by {
      PrependFirstSeparator(current, rest);
      KeepNonBlankAppend([current], rest);
    }
    assert PrependFirst("", rest) == rest by {
      PrependFirstEmpty(rest);
    }
    assert AddIfNotEmpty(tokens, current) == tokens + single by {
      KeepNonBlankSingle(current);
    }
    Regroup(tokens, single, others);
  }

  /** Regrouping a three-part concatenation. */
  lemma Regroup<T>(a: seq<T>, b: seq<T>, c: seq<T>)
    ensures a + (b + c) == (a + b) + c
  {
  }

  /** At the end of the text the buffer is handed to addIfNotEmpty one last time. */
  lemma FinalStep(tokens: seq<string>, current: string, inQuote: bool)
    ensures tokens + KeepNonBlank(PrependFirst(current, Fields([], inQuote))) == AddIfNotEmpty(tokens, current)
  {
    assert current + "" == current;
    assert PrependFirst(current, [""]) == [current];
    KeepNonBlankSingle(current);
  }

  /** parseCommandLine(command). */
  method ParseCommandLine(command: string) returns (tokens: seq<string>)
    ensures tokens == Tokens(command)
    ensures forall k :: 0 <= k < |tokens| ==> '"' !in tokens[k] && NonBlank(tokens[k])
  {
    tokens := [];
    var current := "";
    var inQuote := false;
    PrependFirstEmpty(Fields(command, false));
    assert command[0..] == command;
    for i := 0 to |command|
      invariant tokens + KeepNonBlank(PrependFirst(current, Fields(command[i..], inQuote))) == Tokens(command)
    {
      var c := command[i];
      var rest := Fields(command[i + 1..], inQuote);
      assert command[i..][1..] == command[i + 1..];
      if c == '"' {
        inQuote := !inQuote;
      } else if c == ' ' && !inQuote {
        assert Fields(command[i..], false) == [""] + rest;
        SeparatorStep(tokens, current, rest);
        tokens := AddIfNotEmpty(tokens, current);
        current := "";
      } else {
        assert Fields(command[i..], inQuote) == [[c] + rest[0]] + rest[1..];
        PrependFirstExtend(current, c, rest);
        current := current + [c];
      }
    }
    assert command[|command|..] == [];
    FinalStep(tokens, current, inQuote);
    tokens := AddIfNotEmpty(tokens, current);
    TokensQuoteFreeNonBlank(command);
  }

  /** No argument holds a quote character, and each has a character above U+0020. */
  lemma TokensAreClean(command: string)
    ensures forall t :: t in Tokens(command) ==> '"' !in t && HasVisible(t)
  {
    TokensQuoteFreeNonBlank(command);
    forall t | t in Tokens(command)
      ensures '"' !in t && HasVisible(t)
    {
      NonBlankIffVisible(t);
    }
  }

  lemma {:induction false} FieldsWithoutQuotes(s: string)
    requires '"' !in s
    ensures forall k :: 0 <= k < |Fields(s, false)| ==> ' ' !in Fields(s, false)[k]
    decreases |s|
  {
    if |s| > 0 {
      assert s[1..] <= s[1..];
      assert forall c :: c in s[1..] ==> c in s;
      FieldsWithoutQuotes(s[1..]);
    }
  }

  /** In a command without quotes every space separates: no argument contains one. */
  lemma UnquotedSpacesSeparate(command: string)
    requires '"' !in command
    ensures forall t :: t in Tokens(command) ==> ' ' !in t
  {
    FieldsWithoutQuotes(command);
    KeepNonBlankKeeps(Fields(command, false));
  }

  /** The number of quote characters in `s`. */
  function QuoteCount(s: string): nat
  {
    multiset(s)['"']
  }

  /**
    A space met after text whose quotes toggle the state back to "outside" closes the
    last field of that text; the fields of what follows start afresh outside quotes.
   */
  lemma {:induction false} FieldsSeparator(a: string, b: string, inQuote: bool)
    requires inQuote <==> QuoteCount(a) % 2 == 1
    ensures Fields(a + " " + b, inQuote) == Fields(a, inQuote) + Fields(b, false)
    decreases |a|
  {
    if |a| == 0 {
      FieldsConsSpace(b);
      assert a + " " + b == [' '] + b;
    } else {
      QuoteCountCons(a);
      var c := a[0];
      if c == '"' {
        assert Fields(a[1..] + " " + b, !inQuote) == Fields(a[1..], !inQuote) + Fields(b, false) by {
          FieldsSeparator(a[1..], b, !inQuote);
        }
        FieldsSeparatorQuote(a, b, inQuote);
      } else {
        assert Fields(a[1..] + " " + b, inQuote) == Fields(a[1..], inQuote) + Fields(b, false) by {
          FieldsSeparator(a[1..], b, inQuote);
        }
        if c == ' ' && !inQuote {
          FieldsSeparatorSpace(a, b, inQuote);
        } else {
          FieldsSeparatorChar(a, b, inQuote);
        }
      }
    }
  }

  /** The quote count of a text, its first character split off. */
  lemma QuoteCountCons(a: string)
    requires |a| > 0
    ensures QuoteCount(a) == (if a[0] == '"' then 1 else 0) + QuoteCount(a[1..])
  {
    assert a == [a[0]] + a[1..];
    assert multiset(a) == multiset([a[0]]) + multiset(a[1..]);
  }

  /** A leading quote toggles the state, given the law for the rest of `a`. */
  lemma FieldsSeparatorQuote(a: string, b: string, inQuote: bool)
    requires |a| > 0 && a[0] == '"'
    requires Fields(a[1..] + " " + b, !inQuote) == Fields(a[1..], !inQuote) + Fields(b, false)
    ensures Fields(a + " " + b, inQuote) == Fields(a, inQuote) + Fields(b, false)
  {
    SeparatorCons(a, b);
    FieldsConsQuote(a[1..] + " " + b, inQuote);
    FieldsConsQuote(a[1..], inQuote);
  }

  /** A leading unquoted space closes a field, given the law for the rest of `a`. */
  lemma FieldsSeparatorSpace(a: string, b: string, inQuote: bool)
    requires |a| > 0 && a[0] == ' ' && !inQuote
    requires Fields(a[1..] + " " + b, inQuote) == Fields(a[1..], inQuote) + Fields(b, false)
    ensures Fields(a + " " + b, inQuote) == Fields(a, inQuote) + Fields(b, false)
  {
    var rest := a[1..];
    SeparatorCons(a, b);
    FieldsConsSpace(rest + " " + b);
    FieldsConsSpace(rest);
    Regroup([""], Fields(rest, false), Fields(b, false));
  }

  /** A leading character that extends the current field, given the law for the rest of `a`. */
  lemma FieldsSeparatorChar(a: string, b: string, inQuote: bool)
    requires |a| > 0 && a[0] != '"' && !(a[0] == ' ' && !inQuote)
    requires Fields(a[1..] + " " + b, inQuote) == Fields(a[1..], inQuote) + Fields(b, false)
    ensures Fields(a + " " + b, inQuote) == Fields(a, inQuote) + Fields(b, false)
  {
    var c, rest := a[0], a[1..];
    SeparatorCons(a, b);
    FieldsConsChar(c, rest + " " + b, inQuote);
    FieldsConsChar(c, rest, inQuote);
    FieldsCharAppend(c, Fields(rest, inQuote), Fields(b, false));
  }

  /** Fields of a text that starts with an unquoted space. */
  lemma FieldsConsSpace(rest: string)
    ensures Fields([' '] + rest, false) == [""] + Fields(rest, false)
  {
    assert ([' '] + rest)[1..] == rest;
  }

  /** Fields of a text that starts with a character that extends the current field. */
  lemma FieldsConsChar(c: char, rest: string, inQuote: bool)
    requires c != '"' && !(c == ' ' && !inQuote)
    ensures Fields([c] + rest, inQuote) == [[c] + Fields(rest, inQuote)[0]] + Fields(rest, inQuote)[1..]
  {
    assert ([c] + rest)[0] == c;
    assert ([c] + rest)[1..] == rest;
  }

  /** The text with its first character split off, around the separator. */
  lemma SeparatorCons(a: string, b: string)
    requires |a| > 0
    ensures a + " " + b == [a[0]] + (a[1..] + " " + b)
    ensures a == [a[0]] + a[1..]
  {
  }

  /** Fields of a text that starts with a quote character. */
  lemma FieldsConsQuote(rest: string, inQuote: bool)
    ensures Fields(['"'] + rest, inQuote) == Fields(rest, !inQuote)
  {
    assert (['"'] + rest)[1..] == rest;
  }

  /** Extending the first field of `x + y` extends the first field of `x`. */
  lemma FieldsCharAppend(c: char, x: seq<string>, y: seq<string>)
    requires |x| >= 1
    ensures [[c] + (x + y)[0]] + (x + y)[1..] == ([[c] + x[0]] + x[1..]) + y
  {
    assert (x + y)[0] == x[0];
    assert (x + y)[1..] == x[1..] + y;
  }

  /**
    A space outside quotes separates: when the text before it holds an even number of
    quote characters, the arguments are those of the text before, then those after.
   */
  lemma TokensSplit(a: string, b: string)
    requires QuoteCount(a) % 2 == 0
    ensures Tokens(a + " " + b) == Tokens(a) + Tokens(b)
  {
    FieldsSeparator(a, b, false);
    KeepNonBlankAppend(Fields(a, false), Fields(b, false));
  }

  /**
    Text without quotes or spaces that holds a visible character is one argument: only
    the space separates, so tabs and other control characters stay inside it.
   */
  lemma SingleToken(x: string)
    requires '"' !in x && ' ' !in x && HasVisible(x)
    ensures Tokens(x) == [x]
  {
    FieldsRun(x, "", false);
    assert x + "" == x;
    assert Fields(x, false) == [x];
    NonBlankIffVisible(x);
    KeepNonBlankSingle(x);
  }

  /** `a<TAB>b` is a single argument. */
  lemma ExampleTab()
    ensures Tokens("a\tb") == ["a\tb"]
  {
    assert HasVisible("a\tb") by { assert "a\tb"[0] == 'a'; }
    SingleToken("a\tb");
  }

  /** The three arguments of the quoted-group example. */
  function ExampleObjects(): seq<Nullable<string>>
  {
    [NonNull("a"), NonNull("b c"), NonNull("d")]
  }

  lemma ExampleForms()
    ensures StringForms(ExampleObjects()) == ["a", "b c", "d"]
    ensures forall k :: 0 <= k < |ExampleObjects()| ==>
      '"' !in StringForm(ExampleObjects()[k]) && HasVisible(StringForm(ExampleObjects()[k]))
  {
    var objs := ExampleObjects();
    assert StringForms(objs[2..]) == ["d"];
    forall k | 0 <= k < |objs|
      ensures '"' !in StringForm(objs[k]) && HasVisible(StringForm(objs[k]))
    {
      assert StringForm(objs[k])[0] > ' ';
    }
  }

  lemma ExampleQuotedText()
    ensures Text.Join(EnsureQuotedAll(ExampleObjects()), " ") == "a \"b c\" d"
  {
    var quoted := EnsureQuotedAll(ExampleObjects());
    assert quoted == ["a", "\"b c\"", "d"] by {
      assert "b c"[1] == ' ';
      assert quoted[0] == "a" && quoted[1] == "\"b c\"" && quoted[2] == "d";
    }
    assert Text.Join(["d"], " ") == "d";
  }

  lemma ExampleQuotedGroup()
    ensures Tokens("a \"b c\" d") == ["a", "b c", "d"]
  {
    ExampleForms();
    ExampleQuotedText();
    QuotedArgumentsRoundTrip(ExampleObjects());
  }

  lemma ExampleBlank()
    ensures Tokens("   ") == []
  {
  }

  /** The string ensureQuoted starts from: `""` for null, the string itself otherwise. */
  function StringForm(obj: Nullable<string>): string
  {
    if obj.Null? then "" else obj.value
  }

  /** The string forms of a sequence of objects, in order. */
  function StringForms(objs: seq<Nullable<string>>): (r: seq<string>)
    ensures |r| == |objs|
  {
    if |objs| == 0 then [] else [StringForm(objs[0])] + StringForms(objs[1..])
  }

  /** ensureQuoted(obj): the string form, wrapped in `"` when it holds a space or a tab. */
  function EnsureQuoted(obj: Nullable<string>): (r: string)
    ensures obj.Null? ==> r == ""
  {
    var str := StringForm(obj);
    if ' ' in str || '\t' in str then "\"" + str + "\"" else str
  }

  /** ensureQuoted(Object[]): every element quoted as needed, in order. */
  function EnsureQuotedAll(objs: seq<Nullable<string>>): (r: seq<string>)
    ensures |r| == |objs|
    ensures forall k :: 0 <= k < |r| ==> r[k] == EnsureQuoted(objs[k])
  {
    if |objs| == 0 then [] else [EnsureQuoted(objs[0])] + EnsureQuotedAll(objs[1..])
  }

  /**
    trim(str, ch): drops one leading `ch` and then one trailing `ch` from what is left;
    null stays null. The result is the middle of the string: `a` characters are cut in
    front, exactly when the string starts with `ch`, and `b` at the back, exactly when
    what remains ends with `ch`.
   */
  function Trim(obj: Nullable<string>, ch: char): (r: Nullable<string>)
    ensures r.Null? <==> obj.Null?
    ensures obj.NonNull? ==>
      var s := obj.value;
      var a := if |s| > 0 && s[0] == ch then 1 else 0;
      var b := |s| - a - |r.value|;
      && 0 <= b <= 1
      && r.value == s[a..|s| - b]
      && (b == 1 <==> a < |s| && s[|s| - 1] == ch)
  {
    match obj
    case Null => Null
    case NonNull(str) =>
      var a := if |str| > 0 && str[0] == ch then str[1..] else str;
      var b := if |a| > 0 && a[|a| - 1] == ch then a[..|a| - 1] else a;
      NonNull(b)
  }

  /**
    trimQuotes(str): a value wrapped in quotes loses exactly those two quotes, and a
    value with no quote at either end comes back unchanged.
   */
  function TrimQuotes(obj: Nullable<string>): (r: Nullable<string>)
    ensures obj.Null? ==> r.Null?
    ensures obj.NonNull? && |obj.value| >= 2 && obj.value[0] == '"' && obj.value[|obj.value| - 1] == '"'
      ==> r == NonNull(obj.value[1..|obj.value| - 1])
    ensures obj.NonNull? && QuoteFreeEnds(obj.value) ==> r == obj
  {
    Trim(obj, '"')
  }

  /** `x` neither starts nor ends with a quote character. */
  predicate QuoteFreeEnds(x: string)
  {
    |x| == 0 || (x[0] != '"' && x[|x| - 1] != '"')
  }

  /** ensureQuoted adds quotes exactly when the value holds a space or a tab. */
  lemma EnsureQuotedWrapsIffBlank(x: string)
    ensures EnsureQuoted(NonNull(x)) == "\"" + x + "\"" <==> (' ' in x || '\t' in x)
    ensures !(' ' in x || '\t' in x) ==> EnsureQuoted(NonNull(x)) == x
  {
    if !(' ' in x || '\t' in x) {
      assert |"\"" + x + "\""| != |x|;
    }
  }

  /**
    trimQuotes undoes ensureQuoted exactly when the value was quoted or has no quote
    character at either end.
   */
  lemma TrimQuotesUndoesEnsureQuoted(x: string)
    ensures TrimQuotes(NonNull(EnsureQuoted(NonNull(x)))) == NonNull(x)
        <==> (' ' in x || '\t' in x || QuoteFreeEnds(x))
  {
    if ' ' in x || '\t' in x {
      var q := "\"" + x + "\"";
      assert q[1..] == x + "\"";
      assert (x + "\"")[..|x|] == x;
    } else if !QuoteFreeEnds(x) {
      assert |TrimQuotes(NonNull(x)).value| < |x|;
    }
  }

  /** Scanning a quote-free run that is quoted, or holds no space, extends the current field. */
  lemma {:induction false} FieldsRun(x: string, t: string, inQuote: bool)
    requires '"' !in x
    requires inQuote || ' ' !in x
    ensures Fields(x + t, inQuote) == PrependFirst(x, Fields(t, inQuote))
    decreases |x|
  {
    if |x| == 0 {
      assert x + t == t;
      PrependFirstEmpty(Fields(t, inQuote));
    } else {
      assert (x + t)[0] == x[0];
      assert (x + t)[1..] == x[1..] + t;
      assert x == [x[0]] + x[1..];
      FieldsRun(x[1..], t, inQuote);
      var f := Fields(t, inQuote);
      assert [x[0]] + (x[1..] + f[0]) == x + f[0];
    }
  }

  /** An argument rendered by ensureQuoted and followed by more text is read back as one field. */
  lemma QuotedArgumentField(x: string, t: string)
    requires '"' !in x
    ensures Fields(EnsureQuoted(NonNull(x)) + t, false) == PrependFirst(x, Fields(t, false))
  {
    if ' ' in x || '\t' in x {
      var q := "\"" + x + "\"" + t;
      assert q[0] == '"' && q[1..] == x + ("\"" + t);
      FieldsRun(x, "\"" + t, true);
      assert ("\"" + t)[1..] == t;
    } else {
      FieldsRun(x, t, false);
    }
  }

  /** A single argument rendered by ensureQuoted reads back as itself. */
  lemma QuotedArgumentAlone(x: string)
    requires '"' !in x && NonBlank(x)
    ensures Tokens(EnsureQuoted(NonNull(x))) == [x]
  {
    var q := EnsureQuoted(NonNull(x));
    QuotedArgumentField(x, "");
    assert q + "" == q;
    assert x + "" == x;
    assert Fields(q, false) == [x];
    assert KeepNonBlank([x]) == [x];
  }

  /** An argument rendered by ensureQuoted, a space, and more text: the argument comes first. */
  lemma QuotedArgumentThen(x: string, more: string)
    requires '"' !in x && NonBlank(x)
    ensures Tokens(EnsureQuoted(NonNull(x)) + (" " + more)) == [x] + Tokens(more)
  {
    var fs := Fields(more, false);
    QuotedArgumentField(x, " " + more);
    assert (" " + more)[1..] == more;
    assert Fields(" " + more, false) == [""] + fs;
    PrependFirstSeparator(x, fs);
    KeepNonBlankAppend([x], fs);
    assert KeepNonBlank([x]) == [x];
  }

  lemma QuotedArgumentsStep(objs: seq<Nullable<string>>)
    requires |objs| >= 2
    requires '"' !in StringForm(objs[0]) && NonBlank(StringForm(objs[0]))
    requires Tokens(Text.Join(EnsureQuotedAll(objs[1..]), " ")) == StringForms(objs[1..])
    ensures Tokens(Text.Join(EnsureQuotedAll(objs), " ")) == StringForms(objs)
  {
    var quoted := EnsureQuotedAll(objs);
    var joined := Text.Join(EnsureQuotedAll(objs[1..]), " ");
    assert quoted[1..] == EnsureQuotedAll(objs[1..]);
    Text.JoinCons(quoted, " ");
    QuotedArgumentThen(StringForm(objs[0]), joined);
  }

  /**
    Quoting each argument with ensureQuoted and joining with single spaces gives a
    command line that parseCommandLine splits back into exactly those arguments, as
    long as each is non-blank and free of quote characters (so in particular not null).
   */
  lemma {:induction false} QuotedArgumentsRoundTrip(objs: seq<Nullable<string>>)
    requires forall k :: 0 <= k < |objs| ==> '"' !in StringForm(objs[k]) && HasVisible(StringForm(objs[k]))
    ensures Tokens(Text.Join(EnsureQuotedAll(objs), " ")) == StringForms(objs)
    decreases |objs|
  {
    if |objs| > 0 {
      var x := StringForm(objs[0]);
      NonBlankIffVisible(x);
      if |objs| == 1 {
        QuotedArgumentAlone(x);
        assert objs[0] == NonNull(x);
      } else {
        QuotedArgumentsRoundTrip(objs[1..]);
        QuotedArgumentsStep(objs);
      }
    }
  }
}
