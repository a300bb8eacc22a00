# Command-line binding engine, modelled in Dafny

This project models the argument-binding engine of a declarative .NET
command-line library. The engine takes three inputs: a configuration class,
whose properties and fields may carry an `[Argument]` tag, the raw token
array, and a start index. It produces either the populated configuration
object and the positional tokens, or every error it collected along the way.

The engine runs in four stages, and each has its own module:

- `Builder` (`Processor.BuildDescriptors` / `AddDescriptor`) makes one
  descriptor per bindable member. It also has the sorted export
  `GetArgumentDescriptors`.
- `Tokenizer` (`Parser`) runs the cursor loop. The loop classifies each
  token as a switch, a value or an end-of-switches marker. It splits
  `key:value`, strips the negation prefix, reads the following tokens for
  list members and fills a key → values dictionary plus the positional list.
  Any exception is caught, recorded, and the loop carries on.
- `Binder` (`Processor.Parse` / `Set`) walks the dictionary. It writes each
  value through every matching descriptor's setter, clears `Required` on
  the first match and turns failures into errors. Then it reports every
  descriptor still required. The static `Parse` is `Binder.Parse`.
- `Descriptors`, `Setter` and `Coercion` model `ArgumentDescriptor.Match` /
  `Context.GetDescriptor`, `SetterFactory` and `ObjectCreator`. `Errors`
  models `CommandLineException`. `Settings` models the settings object and
  its `StringComparison`. `Text` models the string operations the code
  relies on: `Trim`, `StartsWith`, `IndexOf`, `Replace`, `ToLower` and
  ordinal order.

Behaviours of the code worth knowing, all of them modelled:

- A negated boolean switch with an inline value (`-no-beta:true`) throws
  before the cursor moves. The parser loop therefore retries it forever.
  The same happens with an empty negation prefix, because `Replace("", …)`
  throws, and with a negative start index. The model reports these inputs
  as `Tokenizer.Diverges` and the whole parse as `Binder.NeverReturns`.
  `Tokenizer.DivergesMeansLoopNeverEnds` proves that the source loop
  reaches a cursor it never gets past.
- A boolean switch stores `bool.ToString()`, which is "True", or "False"
  when negated. It does not store "true"/"false". `Processor.Set`
  substitutes "true" only for an empty value.
- When tags are required, an untagged member still gets a descriptor. Its
  name is null. In a case-insensitive mode, lower-casing that null name
  throws `NullReferenceException`, which is recorded as a build error.
- An unknown switch without an inline value fails on `keyValue[1]`. It
  records `IndexOutOfRangeException`, not the "Unknow command line switch"
  error.
- A failed `Enum.Parse` is not wrapped in a `CommandLineException`. The
  exception is not raised through reflection, so it reaches the error
  list as the raw `ArgumentException`.
- The export is sorted with `StringComparison.CurrentCulture`, whatever the
  configured case rule.

Reflection is replaced by explicit data. The class is a list of `Member`s
(name, optional tag, `TypeTag`, slot). The object is a sequence of `Value`s
indexed by slot. Library constructors and `Parse` methods are a function
parameter `lib`. Culture-sensitive comparison and lower-casing are modelled
as ordinal comparison and ASCII folding.

## Model

| member | source | states |
|---|---|---|
| Text.Trim | CommandLine/Implementation/Parser.cs:200-202 | the trimmed token is the original with exactly its leading and trailing whitespace removed, and it neither starts nor ends with whitespace |
| Text.TrimIdentity | CommandLine/Implementation/Parser.cs:202 | a token without surrounding whitespace is unchanged by trimming |
| Text.IndexOf | CommandLine/Implementation/Parser.cs:254 | the result is -1 or a position where the separator occurs, and there is no earlier occurrence |
| Text.RemoveAllLength | CommandLine/Implementation/Parser.cs:104 | `Replace(noPrefix, "")` shortens the key by the prefix length once per non-overlapping occurrence |
| Text.RemoveAllLeading | CommandLine/Implementation/Parser.cs:102-104 | on a key that starts with the negation prefix, the replacement gives what it gives on the rest of the key: the leading prefix goes, and later occurrences are treated as if it had never been there |
| Text.RemoveAllChanges | CommandLine/Implementation/Parser.cs:104 | the replacement changes the key exactly when the prefix occurs in it |
| Text.LexLeTotal | CommandLine/Implementation/Processor.cs:87 | the comparison used for sorting relates every pair of names |
| Text.LexLeTrans | CommandLine/Implementation/Processor.cs:87 | the comparison used for sorting is transitive |
| Text.LowerIdempotent | CommandLine/Implementation/Processor.cs:328-338 | a lower-cased name lower-cases to itself, so it still matches under a case-insensitive rule |
| Settings.DefaultsShape | CommandLine/Implementation/Settings.cs:18-39 | the defaults are case-insensitive with optional tags, "--" is tried before "-", the separators are one character long, and the negation prefix is "no-" |
| Settings.SameProperties | CommandLine/Implementation/ArgumentDescriptor.cs:63-69 | `string.Equals` under a comparison mode is symmetric, accepts equal strings, and is plain equality in the case-sensitive modes |
| Errors.ParameterType | CommandLine/CommandLineException.cs:61-105 | only the typed constructor sets `ParameterType` |
| Errors.MessageShape | CommandLine/CommandLineException.cs:128-154 | both message formats start with the shared name/value head; the reason format ends with the reason; a typed error without an inner exception ends with an empty exception text |
| Coercion.FindName | CommandLine/Implementation/ObjectCreator.cs:37-40 | finds the first enum name, in the value order `Enum.Parse` scans, equal to the text ignoring case, or -1 when no name is equal |
| Coercion.ParseEnum | CommandLine/Implementation/ObjectCreator.cs:37-41 | `Enum.Parse` trims the value; a blank value fails, and otherwise the result is the first member, in value order, whose name equals the trimmed text ignoring case, or a failure carrying the original text when there is none |
| Coercion.Create | CommandLine/Implementation/ObjectCreator.cs:35-61 | an enum value is trimmed and parses by name ignoring case to its first matching member in value order, and a blank or unknown one fails with the original text; else a string constructor is preferred to a static `Parse`, and their failures propagate; a string passes through and any other type yields null |
| Coercion.StringIsIdentity | CommandLine/Implementation/ObjectCreator.cs:55-58 | coercing to `string` returns the text itself, whatever the library does |
| Coercion.EnumNameRoundTrip | CommandLine/Implementation/ObjectCreator.cs:37-41 | when no two enum names differ only in case, any case variant of the k-th (non-empty) name, with or without surrounding whitespace, yields the k-th member |
| Coercion.EnumIgnoresPadding | CommandLine/Implementation/ObjectCreator.cs:39 | an enum value parses exactly when its trimmed text does, and to the same member |
| Coercion.FailuresPropagate | CommandLine/Implementation/ObjectCreator.cs:35-61 | coercion fails exactly when an enum value is blank or names no member (after trimming), or the invoked constructor or `Parse` throws; a failure never becomes a default value |
| Coercion.Assign | CommandLine/Implementation/ObjectCreator.cs:69-86 | a property or field receives the coerced value and no other slot changes; a coercion failure propagates; any other member kind is left alone |
| Setter.Set | CommandLine/Implementation/SetterFactory.cs:97-136 | a scalar slot is overwritten with the coerced value; a list gets the coerced element appended, is created first when null and constructible, or drops the value; coercion happens first, so a failure changes nothing; other slots are untouched |
| Setter.SetEach | CommandLine/Implementation/Processor.cs:170-183 | writing a member's value list changes only that member's slot, which keeps holding null or a list when the member is list-shaped, and a failure can only come from a non-empty list |
| Setter.SetAppendsOne | CommandLine/Implementation/SetterFactory.cs:127-131 | writing to an existing list appends exactly one coerced element |
| Setter.AppendsInOrder | CommandLine/Implementation/SetterFactory.cs:113-131 | repeated writes to an existing list keep its elements and append every coerced value in order |
| Setter.CreatesThenAppends | CommandLine/Implementation/SetterFactory.cs:116-124 | a null list whose type has a parameterless constructor ends up holding exactly the coerced values, with no failure |
| Setter.NullListDropsAll | CommandLine/Implementation/SetterFactory.cs:116-124 | a null list whose type has no parameterless constructor drops every value and nothing changes |
| Setter.SetEachWritten | CommandLine/Implementation/Processor.cs:170-183 | when every value converts, the setter loop succeeds and the member's slot ends up as `Setter.Written` says (unchanged for no values, the last value for a scalar, the old elements followed by every value for a list, created when null and constructible), all other slots unchanged |
| Setter.LastWriteWins | CommandLine/Implementation/SetterFactory.cs:102-106 | repeated writes to a scalar member leave only the last value |
| Setter.StopsAtFirstFailure | CommandLine/Implementation/Processor.cs:170-183 | a value that fails to coerce after successful ones stops the run and reports its own failure |
| Descriptors.Fresh | CommandLine/Implementation/ArgumentDescriptor.cs:18-53 | a new descriptor has a null name and member name, empty short name and help, and is neither required nor a list |
| Descriptors.MatchByEitherName | CommandLine/Implementation/ArgumentDescriptor.cs:61-73 | naming a descriptor by its long or short name selects it, and under a case-insensitive rule so does any case variant of the long name |
| Descriptors.MemberNameIgnoredWhenNamed | CommandLine/Implementation/ArgumentDescriptor.cs:67-70 | with a non-empty long name, the member name plays no part in matching |
| Descriptors.EmptyKeyMatchesDefaultShortName | CommandLine/Implementation/ArgumentDescriptor.cs:23-65 | the default short name is "", so an empty key matches every descriptor that has no short name of its own |
| Descriptors.FindFrom | CommandLine/Implementation/Processor.cs:194-197 | returns the first matching descriptor at or after k, or none exactly when no descriptor there matches |
| Descriptors.GetDescriptor | CommandLine/Implementation/Context.cs:50-53 | returns the first matching descriptor in list order, or none exactly when no descriptor matches |
| Descriptors.LookupIgnoresRequired | CommandLine/Implementation/Processor.cs:131-135 | clearing a `Required` flag never changes which descriptor a key resolves to |
| Descriptors.FindFromAgree | CommandLine/Implementation/Context.cs:50-53 | two descriptor lists that differ only in `Required` flags resolve every key alike |
| Tokenizer.FirstPrefix | CommandLine/Implementation/Parser.cs:204-211 | finds the first prefix in configured order that the token starts with, or none exactly when it starts with no prefix |
| Tokenizer.Classify | CommandLine/Implementation/Parser.cs:200-214 | a token is a value exactly when it starts with no prefix, and then keeps its text; otherwise the first matching prefix is stripped, and an empty rest makes an end marker |
| Tokenizer.DefaultPrefixOrder | CommandLine/Implementation/Parser.cs:204-211 | under the default prefixes "--" is an end marker and "-x" and "/x" are the switch "x" |
| Tokenizer.ScanFindsLeftmost | CommandLine/Implementation/Parser.cs:250-260 | the separator loop ends at the leftmost occurrence of any separator; the earliest-declared separator wins a tie, and no separator found means no split |
| Tokenizer.SplitLeftmost | CommandLine/Implementation/Parser.cs:248-268 | with non-empty separators a switch has a value exactly when some separator occurs; the key is the text before the leftmost one and the value everything after it |
| Tokenizer.Put | CommandLine/Implementation/Parser.cs:161 | `dictionary[key] = values` replaces an existing key in place, appends a new key at the end, changes no other entry and keeps keys distinct |
| Tokenizer.TakeList | CommandLine/Implementation/Parser.cs:149-159 | a list reads on up to, and not including, the next switch-looking token or the end of input; a scalar reads nothing more |
| Tokenizer.FirstValue | CommandLine/Implementation/Parser.cs:115-147 | an inline value always wins; without one, the next token is taken exactly when the member is not a `bool` and that token exists and does not look like a switch; otherwise the value is "False" when negated, "True" for a `bool`, and "" for anything else, and the cursor stays |
| Tokenizer.StoreValues | CommandLine/Implementation/Parser.cs:149-159 | a stored switch always gets at least one value, and exactly one unless its member is a list |
| Tokenizer.Store | CommandLine/Implementation/Parser.cs:149-168 | a known switch moves the cursor past the last token it reads, records no error, and stores its values under the key |
| Tokenizer.SwitchEffect | CommandLine/Implementation/Parser.cs:98-162 | a switch either moves the cursor forward or leaves it in place with exactly one error and no group changed; positional tokens are never added |
| Tokenizer.StepEffect | CommandLine/Implementation/Parser.cs:82-173 | one iteration moves the cursor forward within the input, or leaves the whole state in place except for exactly one new error |
| Tokenizer.Step | CommandLine/Implementation/Parser.cs:80-174 | an iteration that does not move the cursor changes nothing but the error list, which grows by one |
| Tokenizer.StepExtends | CommandLine/Implementation/Parser.cs:80-174 | an iteration only appends to the positional and error lists |
| Tokenizer.TokenizeExtends | CommandLine/Implementation/Parser.cs:76-175 | the whole loop only appends to the positional and error lists it starts with |
| Tokenizer.StuckForever | CommandLine/Implementation/Parser.cs:80-173 | once an iteration leaves the cursor in place, every later iteration does too |
| Tokenizer.DivergesMeansLoopNeverEnds | CommandLine/Implementation/Parser.cs:80-174 | whenever the model reports divergence, the source loop reaches, after finitely many iterations, a cursor it never gets past |
| Tokenizer.NegativeStartDiverges | CommandLine/Implementation/Parser.cs:51-84 | a negative start index never terminates |
| Tokenizer.SuspendedTail | CommandLine/Implementation/Parser.cs:88-166 | once switch parsing is off, every later token goes to the positional list, a switch with its prefix stripped and an end marker as nothing, and no group or error changes |
| Tokenizer.EndMarkerSuspends | CommandLine/Implementation/Parser.cs:88-93 | an end marker met while parsing is dropped and suspends switch parsing for the rest of the input |
| Tokenizer.PlainInput | CommandLine/Implementation/Parser.cs:163-168 | a command line with no switch-looking token yields exactly its trimmed tokens as positional arguments |
| Tokenizer.PlainRun | CommandLine/Implementation/Parser.cs:76-175 | the run over a switch-free command line has no groups and no errors |
| Tokenizer.TokenizeKeepsGroupsOk | CommandLine/Implementation/Parser.cs:108-161 | every stored group has distinct keys, names a descriptor and holds at least one value, exactly one for a non-list descriptor |
| Tokenizer.RunGroupsOk | CommandLine/Implementation/Parser.cs:76-175 | the groups of a complete run satisfy the same guarantee |
| Tokenizer.SwitchStallsIff | CommandLine/Implementation/Parser.cs:102-130 | a switch leaves the cursor in place exactly when the negation prefix is empty, or a negated boolean switch carries an inline value |
| Tokenizer.StepStallsIff | CommandLine/Implementation/Parser.cs:80-173 | an iteration stalls exactly for a negative index or a stalling switch met while parsing, and the run then diverges |
| Tokenizer.UnknownSwitchSkipped | CommandLine/Implementation/Parser.cs:108-113 | a switch naming no descriptor is skipped with one error naming the key and its inline value, or `IndexOutOfRange` when there is no inline value |
| Tokenizer.KnownSwitchStores | CommandLine/Implementation/Parser.cs:108-161 | a switch that names a descriptor and does not stall stores through that first matching descriptor |
| Tokenizer.BoolStore | CommandLine/Implementation/Parser.cs:119-131 | a boolean switch stores its inline value, else "True", or "False" when negated, and never reads the next token |
| Tokenizer.ScalarStore | CommandLine/Implementation/Parser.cs:132-147 | a single-valued switch takes its inline value, else the next token unless it looks like a switch, else "" ("False" when negated) |
| Tokenizer.ListStoreStops | CommandLine/Implementation/Parser.cs:149-159 | a list switch stops at the next switch-looking token or the end of input, and every token it took looks like no switch |
| Tokenizer.ListStore | CommandLine/Implementation/Parser.cs:149-161 | a list switch stores its first value followed by every token it took |
| Tokenizer.EmptyNoPrefixDiverges | CommandLine/Implementation/Parser.cs:102-104 | with an empty negation prefix the first switch met while parsing is retried forever |
| Builder.AddDescriptor | CommandLine/Implementation/Processor.cs:269-345 | the member name is recorded unless tags are required; the tag gives name, short name, required and help; an empty name falls back to the member name; names are lower-cased under a case-insensitive rule; it fails with a null reference exactly when that rule, required tags and a missing tag name meet |
| Builder.AddDescriptorShortName | CommandLine/Implementation/Processor.cs:302-337 | the short name is the tag's, lower-cased under a case-insensitive rule, and "" by default |
| Builder.AddAll | CommandLine/Implementation/Processor.cs:206-259 | the member loop never loses a member: descriptors and errors together grow by exactly the number of members |
| Builder.FilterMembers | CommandLine/Implementation/Processor.cs:230-236 | the fields loop skips exactly the backing fields |
| Builder.Bindable | CommandLine/Implementation/Processor.cs:206-236 | all properties come first, in order; what follows contains a member exactly when it is a field that is not a backing field (its order is that of `Builder.Filter`, pinned by `Builder.FilterSplit` and `Builder.FilterOne`) |
| Builder.FilterSplit | CommandLine/Implementation/Processor.cs:230-236 | the fields loop keeps declaration order: filtering two runs of fields is filtering each and concatenating |
| Builder.FilterOne | CommandLine/Implementation/Processor.cs:232-235 | a single field is kept exactly when it is not a backing field |
| Builder.FilterDistinct | CommandLine/Implementation/Processor.cs:230-236 | dropping backing fields keeps members on distinct slots |
| Builder.BuildDescriptors | CommandLine/Implementation/Processor.cs:202-260 | the descriptors and errors together number the bindable members |
| Builder.AddAllSplits | CommandLine/Implementation/Processor.cs:206-259 | a failing member never hides the others: the descriptors are exactly those of the succeeding members, in order, and the errors those of the failing ones |
| Builder.NoFailuresWhenNamed | CommandLine/Implementation/Processor.cs:277-338 | without required tags, or under a case-sensitive rule, nothing fails and the i-th member gives the i-th descriptor |
| Builder.Insert | CommandLine/Implementation/Processor.cs:87 | an insertion step adds the descriptor and loses nothing |
| Builder.InsertSorted | CommandLine/Implementation/Processor.cs:87 | inserting into a sorted list keeps it sorted |
| Builder.Sort | CommandLine/Implementation/Processor.cs:87 | sorting permutes the descriptors |
| Builder.SortSorted | CommandLine/Implementation/Processor.cs:87 | the sorted list is ordered by sort name |
| Builder.Export | CommandLine/Implementation/Processor.cs:75-89 | the export is a permutation of the built descriptors, ordered by sort name |
| Builder.RequiredFirst | CommandLine/Implementation/Processor.cs:91-107 | in an export ordered by sort name, every required descriptor precedes every optional one, and names are in order within each group |
| Binder.SetMatching | CommandLine/Implementation/Processor.cs:164-187 | only the slots of matching descriptors change; `Set` reports success exactly when there are values and some descriptor matches; a conversion failure aborts only when both hold |
| Binder.SetMatchingSkip | CommandLine/Implementation/Processor.cs:168 | descriptors that do not match are passed over |
| Binder.SetMatchingNone | CommandLine/Implementation/Processor.cs:164-187 | with no matching descriptor nothing is written and the success flag is unchanged |
| Binder.ConversionError | CommandLine/Implementation/Processor.cs:137-147 | a reflective failure becomes a typed error with the key, the first value, the type and the inner message; an `Enum.Parse` failure is recorded as the raw argument error |
| Binder.SetMatchingWrites | CommandLine/Implementation/Processor.cs:164-187 | when descriptors are on distinct slots and every value converts for every matching descriptor, `Set` completes and each matching descriptor's slot holds `Setter.Written` of its old value and the values (with the `bool` empty-value rule applied) |
| Binder.BindGroupWrites | CommandLine/Implementation/Processor.cs:124-147 | one loop iteration over a group whose values all convert leaves each matching member holding what the setter loop writes, and records no error when there is a value and a match |
| Binder.BuiltDistinct | CommandLine/Implementation/Processor.cs:202-259 | the builder gives each member at most one descriptor, so a class whose members are on distinct slots gets descriptors on distinct slots |
| Binder.BindGroup | CommandLine/Implementation/Processor.cs:124-147 | a group adds at most one error and keeps earlier ones; only the first matching descriptor can change, and only by losing `Required` when no error was added; it does lose it when there is a match and no error; only matching slots change |
| Binder.BindAll | CommandLine/Implementation/Processor.cs:122-148 | the loop keeps the descriptors' shape, only appends errors and never sets `Required` |
| Binder.BindAllSplit | CommandLine/Implementation/Processor.cs:122-148 | binding two runs of groups equals binding them one after the other |
| Binder.BindScalar | CommandLine/Implementation/Processor.cs:124-135 | a key naming exactly one scalar descriptor, with one value that converts, overwrites that member (empty booleans read "true"), clears its `Required` flag and records no error |
| Binder.BindGroupApplied | CommandLine/Implementation/Processor.cs:126-135 | a `Set` that applied something clears `Required` on the first match and records nothing |
| Binder.BindFailure | CommandLine/Implementation/Processor.cs:137-143 | a conversion failure on a scalar member is recorded with key, first value and type; the object and the flags stay as they were |
| Binder.BindGroupAborted | CommandLine/Implementation/Processor.cs:137-147 | any aborted `Set`, including one that fails after earlier values or descriptors were written, keeps those writes, records the conversion error with the key, the first value and the first matching descriptor's type, and changes no `Required` flag |
| Binder.BindGroupResolved | CommandLine/Implementation/Processor.cs:126-129 | for a group the tokenizer could store, "No matching parameter" is never recorded; binding only adds conversion errors |
| Binder.BindAllResolved | CommandLine/Implementation/Processor.cs:122-148 | under the tokenizer's guarantee every error the loop adds is a conversion error |
| Binder.RequiredUntilResolved | CommandLine/Implementation/Processor.cs:131-135 | a descriptor that no key resolves to keeps its `Required` flag through the loop |
| Binder.Missing | CommandLine/Implementation/Processor.cs:150-155 | every still-required descriptor is reported by name with an empty value and the "Required argument not set" reason, and every report comes from such a descriptor; order and multiplicity are pinned by `Binder.MissingSplit`, `Binder.MissingOne` and `Binder.MissingCount` |
| Binder.MissingSplit | CommandLine/Implementation/Processor.cs:150-155 | the reports keep descriptor order: the report for two runs of descriptors is their two reports in sequence |
| Binder.MissingOne | CommandLine/Implementation/Processor.cs:154-155 | a single descriptor adds one error when still required and none otherwise |
| Binder.MissingCount | CommandLine/Implementation/Processor.cs:150-155 | exactly one error per descriptor still required |
| Binder.MissingNone | CommandLine/Implementation/Processor.cs:150-155 | with no required descriptor nothing is reported |
| Binder.BuiltFits | CommandLine/Implementation/Processor.cs:202-260 | built descriptors only point at slots of real members, and descriptors sharing a slot agree on its type |
| Binder.Parse | CommandLine/Implementation/Processor.cs:56-68 | the parse never returns exactly when the tokenizer diverges; a failure carries at least one error; a success keeps the object's shape |
| Binder.ParseErrors | CommandLine/Implementation/Processor.cs:115-156 | the errors come in order: builder, then tokenizer, then binding conversion errors, then missing required; the parse fails exactly when that list is non-empty, and otherwise returns the bound object and the positional tokens |
| Binder.UnsetRequiredReported | CommandLine/Implementation/Processor.cs:150-155 | a required descriptor that no stored key resolves to is reported, and the parse fails |
| Binder.PlainParse | CommandLine/Implementation/Processor.cs:115-156 | a switch-free command line, for a class that builds cleanly with nothing required, parses to the untouched object and the trimmed tokens |

## Left out

- Reflection: properties, fields, attributes and types are explicit `Member` and `TypeTag` data. `GetSetter` failures, get-only properties and setter exceptions are therefore not modelled.
- Library and application constructors and `Parse` methods (`int.Parse`, `DateTime`, user types) are the parameter `lib`. The model does not know what they accept.
- `Enum.Parse` numeric and comma-separated flag forms: the model parses names only.
- Coercion.Create: enum members are identified by their position among the names, listed in value order; names that share one underlying value (aliases) are distinct members here but one value in .NET.
- Coercion.Create: enum names are compared by ASCII case folding, where `Enum.Parse` uses ordinal ignore-case over all of Unicode; values differing only in non-ASCII letter case bind in .NET and fail here.
- Culture: culture-aware comparison, `ToLower(CurrentCulture)` and `CurrentCulture` sorting are ordinal comparison and ASCII lower-casing.
- `Builder.Sort`: `List.Sort` is an unstable introsort, so the order of descriptors with equal sort names is not modelled. The model uses a stable insertion sort and proves only sortedness and permutation.
- The `AggregateException` wrapping of the error list: the model returns the list itself (`Binder.Failed`).
- `CommandLineParser.cs` and the other public entry points delegate to the engine. They are not part of this model, and neither are their null-argument checks (`ArgumentNullException`).
- Null inputs: the argument array, its tokens and the settings' prefix, separator and negation strings are never null in the model.
- The parameterless, message-only and serialization constructors of `CommandLineException` are left out, and so is `GetObjectData`. The engine never uses them, and the two message-only constructors always throw `NotImplementedException`.
- `IsHidden` and `Debug.Assert` are left out; neither affects parsing. `IsHidden` is assigned in `AddDescriptor` but never read. The help text is copied from the tag and never read either.
- At most one `[Argument]` tag per member: `AttributeUsage` does not allow several, so the model has an optional tag.
- The dictionary is modelled as an association list in insertion order. This is how .NET's `Dictionary` enumerates when nothing is removed, but .NET does not guarantee that order.
- Binder.Writes: its contract states only that the slots of matching descriptors are included; the converse is the separate lemma `Binder.NotWritten`, and `Binder.SetMatching` uses it as a frame bound.
- `IsEndOfSwitchesMarker` and `StripSwitchIndicator` are left out because nothing calls them. `Parser.Parse()` without arguments only hands a fresh dictionary to the two-argument loop, which `Tokenizer.Run` models.
- `ObjectCreator.Create<T>` is a cast around `Create(Type, string)`, which is modelled.
- Tokenizer.SplitLeftmost: stated only for non-empty separators. An empty separator is found at position 0 with length 0, which turns splitting off. `Tokenizer.Split` models that case, but no lemma states it.
- Tokenizer.Scan: its contract states only that the chosen split lies inside the switch; the leftmost-occurrence property is `Tokenizer.SplitLeftmost`.
