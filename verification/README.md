# Util string and byte helpers, modelled in Dafny

This project models the pure core of `com.mobilesorcery.sdk.core.Util`, the grab-bag
utility class of the MoSync SDK core plug-in:

- the `%name%` parameter substitution of `replace` / `innerReplace`, including the
  `%%` escape, reserved `#` names, unknown names that are written back, nested
  expansion of values, and the depth bound that reports cyclic parameters
  (`template.dfy`, `template_properties.dfy`);
- the command-line tokenizer `parseCommandLine` / `addIfNotEmpty`, and the quoting
  helpers `ensureQuoted`, `trim` and `trimQuotes` (`command_line.dfy`);
- the three `join` overloads, `fill` and `isEmpty` (`text.dfy`);
- `getExtension`, `getNameWithoutExtension` and `replaceExtension` on file names
  (`file_names.dfy`);
- the hex codec `toBase16` / `fromBase16`, and the example in `main`
  (`base16.dfy`);
- the byte assembly at the end of `readInt` and `readShort` (`byte_order.dfy`);
- the parts of `java.lang` these rely on: signed bytes, the `(byte)` cast,
  `lastIndexOf`, and `String.trim` (`java_lang.dfy`).

Every operation is a pure function over immutable values, except `parseCommandLine`.
That one is a method whose loop keeps the buffer and quote flag of the Java loop.
Each operation is paired with an independent reference definition or an inverse:

- `Template.Resolve` reads a template as a grammar: literal text, `%`, name, `%`,
  then the rest. `Template.ExpandAgreesWithResolve` shows that the scanning loop
  computes the same thing.
- `CommandLine.Tokens` first cuts the text into fields and then drops blank ones.
  `ParseCommandLine` is proved to return exactly that, and
  `CommandLine.QuotedArgumentsRoundTrip` shows that it reads back what `ensureQuoted`
  and `join` wrote.
- `fromBase16` undoes `toBase16`. In the other direction the round trip yields the
  canonical upper-case, even-length form.
- `readInt` / `readShort` invert a little-endian writer, in both directions.

Java's semantics are written out where they matter:

- `byte` is the range -128..127, and `& 0xff` reads a byte as unsigned.
- `(byte)` and `(short)` keep the low bits.
- `int` arithmetic wraps at 32 bits in `readInt` and `readShort`. The `length * 2` of
  `toBase16` is not wrapped; "## Left out" says so.
- `>> 4` on a negative byte shifts arithmetically.
- `"" + o` renders a null element as `null`.
- `String.trim` drops characters at or below U+0020.

Two things in the source are worth knowing:

- The class declares `MAX_DEPTH = 8` (Util.java line 70), but `innerReplace` compares
  against the literal `12`. The model follows the code: `Template.MaxDepth` is 12.
- `main` prints `toBase16(fromBase16("0123456789abcdefedcba9876543210"))`. Its input
  has 31 digits, so the lone last digit becomes a byte of its own and comes back as
  `00`. `Base16.MainExample` states the printed text.

## Model

All source paths are in `com.mobilesorcery.sdk.core/src/com/mobilesorcery/sdk/core/`; the
table spells them out in full.

| member | source | states |
|---|---|---|
| Template.Expand | com.mobilesorcery.sdk.core/src/com/mobilesorcery/sdk/core/Util.java:617-620 | above depth 12 innerReplace throws the cyclic-parameters exception before reading its input; any resolver exception in the result is one the resolver itself threw, and the RuntimeException wrapper never appears here |
| Template.Placeholder | com.mobilesorcery.sdk.core/src/com/mobilesorcery/sdk/core/Util.java:632-649 | what one closed parameter contributes; a resolver failure it reports comes from a lookup the resolver made |
| Template.Scan | com.mobilesorcery.sdk.core/src/com/mobilesorcery/sdk/core/Util.java:622-658 | the scanning loop aborts only with an outcome that the per-name parameter function gives for some name; which names are read is fixed by `Template.ExpandAgreesWithResolve` |
| Template.ReplaceWithMap | com.mobilesorcery.sdk.core/src/com/mobilesorcery/sdk/core/Util.java:596-603 | replace with a map can fail only with the cyclic-parameters error; it succeeds exactly when replace with the map's resolver succeeds, and then gives the same text |
| Template.Replace | com.mobilesorcery.sdk.core/src/com/mobilesorcery/sdk/core/Util.java:613-615 | replace with a resolver reads its input as the placeholder grammar from depth 0, and any resolver exception it ends in is one the resolver threw |
| Template.ExpandAgreesWithResolve | com.mobilesorcery.sdk.core/src/com/mobilesorcery/sdk/core/Util.java:617-659 | the character-by-character loop with its in-parameter flag equals the grammar reading: literal text, then `%name%`, then the rest, with unclosed trailing text dropped |
| Template.ResolveSplit | com.mobilesorcery.sdk.core/src/com/mobilesorcery/sdk/core/Util.java:627-656 | in the grammar reading, text before the first `%`, one closed parameter and the rest contribute in that order, and the first abort wins |
| Template.ResolveUnclosedSplit | com.mobilesorcery.sdk.core/src/com/mobilesorcery/sdk/core/Util.java:653-655 | a `%` that is never closed contributes nothing, and nothing after it contributes either |
| TemplateProperties.ExpandWithoutPercent | com.mobilesorcery.sdk.core/src/com/mobilesorcery/sdk/core/Util.java:617-659 | text without `%` expands to itself at every accepted depth |
| TemplateProperties.ReplaceWithoutPercent | com.mobilesorcery.sdk.core/src/com/mobilesorcery/sdk/core/Util.java:613-615 | replace returns text without `%` unchanged, whatever the resolver |
| TemplateProperties.ReplaceSplit | com.mobilesorcery.sdk.core/src/com/mobilesorcery/sdk/core/Util.java:627-656 | replace handles literal text, then one parameter, then the rest of the input, in that order |
| TemplateProperties.ReplaceEscape | com.mobilesorcery.sdk.core/src/com/mobilesorcery/sdk/core/Util.java:636-637 | `%%` yields a single `%`, and scanning resumes after it |
| TemplateProperties.ReplaceReservedName | com.mobilesorcery.sdk.core/src/com/mobilesorcery/sdk/core/Util.java:633-634 | a parameter whose name starts with `#` yields nothing, and its name is never looked up |
| TemplateProperties.ReplaceUnterminated | com.mobilesorcery.sdk.core/src/com/mobilesorcery/sdk/core/Util.java:652-655 | an unclosed `%` drops everything after it |
| TemplateProperties.ReplaceUnknownName | com.mobilesorcery.sdk.core/src/com/mobilesorcery/sdk/core/Util.java:643-646 | a name the resolver answers null for is written back as `%name%` |
| TemplateProperties.ReplaceKnownName | com.mobilesorcery.sdk.core/src/com/mobilesorcery/sdk/core/Util.java:639-641 | a known name is replaced by its value, expanded again one level deeper |
| TemplateProperties.ReplaceKnownPlainName | com.mobilesorcery.sdk.core/src/com/mobilesorcery/sdk/core/Util.java:639-641 | a known name whose value has no `%` is replaced by exactly that value |
| TemplateProperties.ReplaceResolverError | com.mobilesorcery.sdk.core/src/com/mobilesorcery/sdk/core/Util.java:639 | an exception the resolver throws propagates out of replace unchanged |
| TemplateProperties.ExpandSingle | com.mobilesorcery.sdk.core/src/com/mobilesorcery/sdk/core/Util.java:628-652 | a lone `%name%` contributes exactly what its parameter contributes |
| TemplateProperties.SelfReferenceAt | com.mobilesorcery.sdk.core/src/com/mobilesorcery/sdk/core/Util.java:617-620 | a parameter whose value refers to itself fails with the cyclic error from every depth |
| TemplateProperties.SelfReferenceIsCyclic | com.mobilesorcery.sdk.core/src/com/mobilesorcery/sdk/core/Util.java:618-619 | replace on a self-referential parameter throws the cyclic-parameters exception |
| TemplateProperties.ChainFrom | com.mobilesorcery.sdk.core/src/com/mobilesorcery/sdk/core/Util.java:639-641 | following a chain of names, each defined as the next, gives the final value as long as the depth bound is not crossed |
| TemplateProperties.ChainDepth | com.mobilesorcery.sdk.core/src/com/mobilesorcery/sdk/core/Util.java:618 | a chain of up to 12 nested names resolves to its final plain value, and a longer one fails as cyclic: the bound is on nesting depth, not on repetition |
| CommandLine.ParseCommandLine | com.mobilesorcery.sdk.core/src/com/mobilesorcery/sdk/core/Util.java:192-215 | the tokenizer returns the non-blank fields of the text cut at unquoted spaces, with quote characters removed; no argument contains a quote, and every argument is non-blank |
| CommandLine.AddIfNotEmpty | com.mobilesorcery.sdk.core/src/com/mobilesorcery/sdk/core/Util.java:217-222 | the buffer is appended exactly when it holds a character above U+0020; otherwise the list is unchanged |
| CommandLine.TokensAreClean | com.mobilesorcery.sdk.core/src/com/mobilesorcery/sdk/core/Util.java:197-221 | every argument is free of quote characters and has a character above U+0020 |
| CommandLine.UnquotedSpacesSeparate | com.mobilesorcery.sdk.core/src/com/mobilesorcery/sdk/core/Util.java:200-203 | in a command without quotes, no argument contains a space |
| CommandLine.TokensSplit | com.mobilesorcery.sdk.core/src/com/mobilesorcery/sdk/core/Util.java:197-212 | a space preceded by an even number of quote characters separates: the arguments of `a + " " + b` are those of `a` followed by those of `b` |
| CommandLine.SingleToken | com.mobilesorcery.sdk.core/src/com/mobilesorcery/sdk/core/Util.java:197-210 | text with no quote and no space that has a visible character is exactly one argument, so tabs do not separate |
| CommandLine.ExampleTab | com.mobilesorcery.sdk.core/src/com/mobilesorcery/sdk/core/Util.java:200-209 | `a<TAB>b` is one argument |
| CommandLine.QuotedArgumentsRoundTrip | com.mobilesorcery.sdk.core/src/com/mobilesorcery/sdk/core/Util.java:104-120 | joining ensureQuoted arguments with spaces and tokenizing the result gives back the arguments, provided each is quote-free and non-blank |
| CommandLine.ExampleQuotedGroup | com.mobilesorcery.sdk.core/src/com/mobilesorcery/sdk/core/Util.java:198-206 | `a "b c" d` tokenizes to `a`, `b c`, `d` |
| CommandLine.ExampleBlank | com.mobilesorcery.sdk.core/src/com/mobilesorcery/sdk/core/Util.java:217-222 | a command of only spaces has no arguments |
| CommandLine.EnsureQuoted | com.mobilesorcery.sdk.core/src/com/mobilesorcery/sdk/core/Util.java:113-120 | null is rendered as the empty string |
| CommandLine.EnsureQuotedAll | com.mobilesorcery.sdk.core/src/com/mobilesorcery/sdk/core/Util.java:104-111 | one result per element, in order, each quoted as ensureQuoted quotes it |
| CommandLine.EnsureQuotedWrapsIffBlank | com.mobilesorcery.sdk.core/src/com/mobilesorcery/sdk/core/Util.java:113-120 | the value is wrapped in quotes exactly when it holds a space or a tab, and is otherwise returned unchanged |
| CommandLine.Trim | com.mobilesorcery.sdk.core/src/com/mobilesorcery/sdk/core/Util.java:126-140 | null stays null; otherwise the result is the string with one leading `ch` removed exactly when it starts with `ch`, and one trailing `ch` removed exactly when what remains ends with `ch`, the middle kept |
| CommandLine.TrimQuotes | com.mobilesorcery.sdk.core/src/com/mobilesorcery/sdk/core/Util.java:122-124 | null stays null; a value wrapped in quotes loses exactly those two quotes; a value with no quote at either end comes back unchanged |
| CommandLine.TrimQuotesUndoesEnsureQuoted | com.mobilesorcery.sdk.core/src/com/mobilesorcery/sdk/core/Util.java:104-124 | trimQuotes undoes ensureQuoted exactly when the value held a space or tab, or has no quote at either end |
| Text.JoinEnds | com.mobilesorcery.sdk.core/src/com/mobilesorcery/sdk/core/Util.java:72-82 | a join starts with the first element, ends with the last, and is at least as long as all elements together |
| Text.Join | com.mobilesorcery.sdk.core/src/com/mobilesorcery/sdk/core/Util.java:72-82 | no elements give the empty string; otherwise the length is the elements' total length plus one delimiter per gap |
| Text.JoinAppend | com.mobilesorcery.sdk.core/src/com/mobilesorcery/sdk/core/Util.java:72-82 | joining two non-empty runs equals joining each and putting one delimiter between them |
| Text.JoinObjects | com.mobilesorcery.sdk.core/src/com/mobilesorcery/sdk/core/Util.java:84-95 | a null array gives the empty string; a single element gives its rendering; the result starts with the first element's rendering and ends with the last's |
| Text.JoinObjectsOfStrings | com.mobilesorcery.sdk.core/src/com/mobilesorcery/sdk/core/Util.java:84-95 | for non-null string elements, the Object[] overload agrees with the String[] one |
| Text.JoinObjectsNullElement | com.mobilesorcery.sdk.core/src/com/mobilesorcery/sdk/core/Util.java:91 | an example: `[null, "x"]` joins to `null`, the delimiter, then `x` |
| Text.JoinObjectsNullAt | com.mobilesorcery.sdk.core/src/com/mobilesorcery/sdk/core/Util.java:89-94 | a null element at any position is rendered as `null`, between the join of the elements before it and the join of those after it, with a delimiter on each side that has neighbours |
| Text.ObjectStrings | com.mobilesorcery.sdk.core/src/com/mobilesorcery/sdk/core/Util.java:89-92 | `"" + o[i]` renders a null element as `null` and a string as itself, one rendering per element in order |
| Text.JoinRange | com.mobilesorcery.sdk.core/src/com/mobilesorcery/sdk/core/Util.java:97-102 | an empty inclusive range gives the empty string; otherwise the result starts with element `start` and ends with element `end` |
| Text.JoinRangeWhole | com.mobilesorcery.sdk.core/src/com/mobilesorcery/sdk/core/Util.java:97-102 | the range from 0 to the last index joins the whole array |
| Text.JoinRangeSplit | com.mobilesorcery.sdk.core/src/com/mobilesorcery/sdk/core/Util.java:97-102 | cutting the array after element `k` splits its join, at one delimiter, into the joins of the two ranges |
| Text.Fill | com.mobilesorcery.sdk.core/src/com/mobilesorcery/sdk/core/Util.java:142-146 | exactly `length` characters, each of them `c` |
| FileNames.GetExtension | com.mobilesorcery.sdk.core/src/com/mobilesorcery/sdk/core/Util.java:371-378 | the extension contains no `.` and is a suffix of the name |
| FileNames.GetNameWithoutExtension | com.mobilesorcery.sdk.core/src/com/mobilesorcery/sdk/core/Util.java:380-388 | the stem is a prefix of the name, and is the whole name when the name has no `.` |
| FileNames.SplitAtExtension | com.mobilesorcery.sdk.core/src/com/mobilesorcery/sdk/core/Util.java:371-388 | stem, `.` and extension put back together give the name; without a `.` the extension is empty |
| FileNames.DotFile | com.mobilesorcery.sdk.core/src/com/mobilesorcery/sdk/core/Util.java:371-388 | a name made of `.` and an extension, such as the `.a` whose extension `main` prints at line 391, has that extension and an empty stem |
| FileNames.ReplaceExtension | com.mobilesorcery.sdk.core/src/com/mobilesorcery/sdk/core/Util.java:446-453 | the result starts with the old name's stem |
| FileNames.ReplaceExtensionSplits | com.mobilesorcery.sdk.core/src/com/mobilesorcery/sdk/core/Util.java:446-453 | a non-empty new extension without `.` becomes the extension of the result, after the old stem; an empty one leaves the stem alone, without a `.` |
| FileNames.ReplaceExtensionIdempotent | com.mobilesorcery.sdk.core/src/com/mobilesorcery/sdk/core/Util.java:446-453 | replacing twice with the same extension gives the same result as replacing once |
| Base16.NibblesOfByte | com.mobilesorcery.sdk.core/src/com/mobilesorcery/sdk/core/Util.java:334-335 | the two nibbles taken from a signed byte are the two hex digits of its unsigned value |
| Base16.ToBase16Range | com.mobilesorcery.sdk.core/src/com/mobilesorcery/sdk/core/Util.java:331-339 | two characters per byte, all from `BASE16_CHARS`; an empty range is accepted wherever it starts, as Java never reads the array then |
| Base16.ToBase16 | com.mobilesorcery.sdk.core/src/com/mobilesorcery/sdk/core/Util.java:327-329 | byte `i` becomes the hex digit of its unsigned value's upper four bits at `2i` and that of its lower four bits at `2i+1` |
| Base16.ToBase16RangeIsSlice | com.mobilesorcery.sdk.core/src/com/mobilesorcery/sdk/core/Util.java:327-339 | the range overload encodes exactly the bytes in the range, as the whole-array overload would encode them; an empty range gives the empty text even when its offset lies outside the array |
| Base16.ToBase16At | com.mobilesorcery.sdk.core/src/com/mobilesorcery/sdk/core/Util.java:333-336 | byte `i` is written at positions `2i` (high nibble) and `2i+1` (low nibble) |
| Base16.FromBase16 | com.mobilesorcery.sdk.core/src/com/mobilesorcery/sdk/core/Util.java:314-325 | one byte per pair of digits, plus one for a lone last digit; each byte's unsigned value is the value of its digits, so no digit is lost |
| Base16.ParseHex | com.mobilesorcery.sdk.core/src/com/mobilesorcery/sdk/core/Util.java:319-320 | `Integer.parseInt` in radix 16 gives one digit its value and two digits sixteen times the first plus the second |
| Base16.FromBase16Pair | com.mobilesorcery.sdk.core/src/com/mobilesorcery/sdk/core/Util.java:318-322 | each full pair of digits decodes to the byte whose value is that two-digit number |
| Base16.LoneLastDigit | com.mobilesorcery.sdk.core/src/com/mobilesorcery/sdk/core/Util.java:315-320 | in odd-length input the last digit becomes a byte of its own, holding that digit's value |
| Base16.DecodeEncode | com.mobilesorcery.sdk.core/src/com/mobilesorcery/sdk/core/Util.java:314-339 | fromBase16 gives back every byte array toBase16 encoded |
| Base16.EncodeDecode | com.mobilesorcery.sdk.core/src/com/mobilesorcery/sdk/core/Util.java:314-339 | encoding decoded hex yields its canonical form: upper case, with a lone last digit padded by a leading `0` |
| Base16.EncodeDecodeEven | com.mobilesorcery.sdk.core/src/com/mobilesorcery/sdk/core/Util.java:314-339 | hex of even length comes back as its upper-case form |
| Base16.MainExample | com.mobilesorcery.sdk.core/src/com/mobilesorcery/sdk/core/Util.java:394-395 | the text `main` prints for `0123456789abcdefedcba9876543210` ends in `00` |
| ByteOrder.ReadIntBytes | com.mobilesorcery.sdk.core/src/com/mobilesorcery/sdk/core/Util.java:531-534 | the assembled value is a Java `int` |
| ByteOrder.ReadShortBytes | com.mobilesorcery.sdk.core/src/com/mobilesorcery/sdk/core/Util.java:552-553 | the assembled value is a Java `short` |
| ByteOrder.ReadIntIsLittleEndian | com.mobilesorcery.sdk.core/src/com/mobilesorcery/sdk/core/Util.java:531-534 | readInt returns the little-endian unsigned value of its four bytes, wrapped to 32 bits |
| ByteOrder.ReadShortIsLittleEndian | com.mobilesorcery.sdk.core/src/com/mobilesorcery/sdk/core/Util.java:552-553 | readShort returns the little-endian unsigned value of its two bytes, wrapped to 16 bits |
| ByteOrder.ReadIntOfWrite | com.mobilesorcery.sdk.core/src/com/mobilesorcery/sdk/core/Util.java:531-534 | readInt reads back every `int` a little-endian writer wrote |
| ByteOrder.WriteOfReadInt | com.mobilesorcery.sdk.core/src/com/mobilesorcery/sdk/core/Util.java:531-534 | every four-byte buffer is what that writer emits for the `int` readInt makes of it |
| ByteOrder.ReadShortOfWrite | com.mobilesorcery.sdk.core/src/com/mobilesorcery/sdk/core/Util.java:552-553 | readShort reads back every `short` a little-endian writer wrote |
| ByteOrder.WriteOfReadShort | com.mobilesorcery.sdk.core/src/com/mobilesorcery/sdk/core/Util.java:552-553 | every two-byte buffer is what that writer emits for the `short` readShort makes of it |
| JavaLang.LastIndexOf | com.mobilesorcery.sdk.core/src/com/mobilesorcery/sdk/core/Util.java:372-373 | -1 exactly when the character is absent; otherwise the position of its last occurrence |
| JavaLang.NonBlankIffVisible | com.mobilesorcery.sdk.core/src/com/mobilesorcery/sdk/core/Util.java:219 | a buffer is non-empty after `trim()` exactly when it has a character above U+0020 |

## Left out

- Stream and file I/O are not modelled. This covers the read loops of `readInt` and
  `readShort`, with their `EOFException`, and the other file, URL, size-formatting and
  comparator helpers of the class. Only the byte assembly after the read loops is
  modelled, on a buffer given as a parameter.
- `AddDeviceFilterChangeRequest.java` is not part of this model.
- `ParameterResolver` is any total function from a name to a value, null, or a
  thrown exception. `DefaultParameterResolver` is modelled as a plain map lookup that
  never throws. Its source is not part of this model.
- Template.Expand: the resolver is a pure function, so a resolver with side effects,
  or one whose answer changes between calls, is not modelled.
- Template.ReplaceWithMap: the wrapping into `RuntimeException` is modelled, but it
  never happens, because the map lookup never fails.
- Template.Expand: an `IllegalArgumentException` for cyclic parameters aborts the
  whole call, and a resolver exception does the same. The model has no partial output.
- CommandLine.EnsureQuoted: `Object.toString` is modelled only for strings. Objects
  are strings or null. The same holds for `CommandLine.Trim` (`str.toString()`) and
  for `Text.JoinObjects` (`"" + o[i]`).
- CommandLine.EnsureQuotedAll: a null array, which throws in Java, is not modelled.
- Text.Join: null elements of the `String[]` overload are not modelled. `StringBuffer`
  would append them as `null`, and `Text.JoinObjects` shows that rendering.
- Text.JoinRange: indices that `System.arraycopy` would reject are excluded by its
  requires instead of being modelled as exceptions.
- Text.Fill: a negative length throws `NegativeArraySizeException`, and the model
  excludes it through the `nat` type.
- Text.IsEmpty: a predicate. Its only role is inside `FileNames.ReplaceExtension`, so
  it has no row of its own.
- FileNames.ReplaceExtension: `newExtension` is a non-null string. A null extension
  would be appended as the text `null`, and that is not modelled.
- FileNames.GetExtension: modelled on the file's name string. `File.getName` is not
  modelled.
- Base16.FromBase16: `Integer.parseInt` also accepts a sign and non-ASCII digits, and
  throws on anything else. The requires limits the input to ASCII hex digits.
- Base16.ToBase16Range: a non-empty range that would throw
  `ArrayIndexOutOfBoundsException` is excluded by its requires. A negative length, which
  throws `NegativeArraySizeException`, is excluded by the `nat` type.
- Base16.ToBase16Range: `new char[length * 2]` is computed in 32-bit `int`. For
  `length >= 2^30` the product wraps to a negative number and Java throws
  `NegativeArraySizeException`. The model returns `2 * length` digits instead.
- Base16.ToBase16: for a byte array of `2^30` or more elements Java throws through the
  same overflow, while the contract promises `2 * |data|` digits. `Base16.DecodeEncode`
  inherits this.
- Java strings are sequences of UTF-16 code units, and Dafny strings are sequences of
  Unicode scalar values. A character outside the Basic Multilingual Plane is one
  Dafny `char` but two Java `char`s, and an unpaired surrogate, for example one passed
  to `fill`, cannot be written in the model. The lengths stated by `Text.Join` and
  `Text.Fill` count scalar values. Every delimiter the core looks for is ASCII, so the
  modelled behaviour does not otherwise depend on this.
- ByteOrder.ReadIntBytes: `|` of bit fields that do not overlap is modelled as `+`.
