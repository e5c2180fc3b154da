# Text-file feature configuration: a Dafny model

This project models the text-file feature provider factory of the Toggle.Net
feature-toggle library, `FileProviderFactory`. The factory reads a document
of lines of the forms `flag = specification` and
`flag.specification.parameter = value`, with `#` remarks and blank lines.
It builds a case-insensitive dictionary from flag name to `Feature`, which is
the list of specification instances declared for that flag. Every error is
collected into one message buffer, and no reported error stops the scan. Every feature is
then validated into the same buffer. A provider is returned only when the
buffer stayed empty; otherwise one aggregate exception carries all messages.
The model also covers the evaluation rule a parsed feature is used for. A
feature is the AND of its specifications, a feature without specifications
is disabled, and an unknown flag is disabled.

Layout, one module per file:

- `wrappers.dfy` (`Wrappers`): the `Option` datatype.
- `strings.dfy` (`Strings`): the .NET string operations the parser uses.
  These are `String.Split(char)`, `String.Trim()`, the `OrdinalIgnoreCase`
  key comparison (as a normalising `Fold`) and the decimal text of a line
  number.
- `features.dfy` (`Features`): specification identities, specification
  instances, `Feature`, `AddSpecification`, `AddParameter` and the AND rule.
- `feature_table.dfy` (`FeatureTables`): the `OrdinalIgnoreCase` dictionary.
  `Table` is its value; the class `FeatureDictionary` is the object the
  parser mutates.
- `text_file.dfy` (`TextFile`): the message templates and the pure
  functions that say what the factory computes:
  - `LineStep` and `RowStep` say what one line does;
  - `Scan` folds a step over the first k lines, and `LineSteps(reg)` is the
    factory's own step;
  - `ParseAll` and `CreateSpec` give the whole result.

  The file also holds the `MessageBuffer` class (the `StringBuilder`) and the
  methods `ParseRow`, `ParseLine`, `ScanLine`, `ParseFile`, `ValidateAll` and
  `Create`, each proved against those functions. Properties of the whole scan
  are proved for any step with the property, and separately for the
  factory's step.
- `text_file_lemmas.dfy` (`TextFileProperties`): line classification,
  error accumulation, append-only features and all-or-nothing success.
- `toggle_checker.dfy` (`Toggling`): `IsEnabled` over a provider, and whole
  one-line documents.

Source quirks that are modelled as written:

- The remark/blank check (line 77) runs before the `=` count (line 79). So
  `=x`, or `#a=b=c`, is skipped silently.
- On a parameter line for a flag that exists, the registry indexer at line
  134 throws `KeyNotFoundException` when the specification name is not
  registered. The catch at line 141 only catches `ArgumentException`, so this
  exception escapes `Create`. The model has a separate outcome for it,
  `KeyNotFound`.
- Validation catches one exception per feature (lines 53-60). So each feature
  adds at most one validation message, not one per failing specification.
- A parameter line checks only that the flag was declared (line 132). Whether
  the named specification was declared for that flag is left to
  `Feature.AddParameter`.

## Model

| member | source | states |
|---|---|---|
| `TextFile.Render` | code/Toggle.Net/Providers/TextFile/FileProviderFactory.cs:30-36 | The text of each message: the six line-message templates filled with the name and the decimal line number, and a validation message's own text |
| `TextFile.RowStep` | code/Toggle.Net/Providers/TextFile/FileProviderFactory.cs:96-150 | parseRow as a function of the state: declaration, parameter setting, the four messages and the escaping lookup failure (None); a row changes either the messages or the dictionary, never both |
| `TextFile.LineStep` | code/Toggle.Net/Providers/TextFile/FileProviderFactory.cs:73-91 | One loop iteration as a function of the state: skip, "Missing equal sign", "More than one equal sign", or `RowStep` on the trimmed sides; a line changes either the messages or the dictionary, never both |
| `TextFile.Scan` | code/Toggle.Net/Providers/TextFile/FileProviderFactory.cs:69-92 | The state after the first k lines, starting from the empty dictionary and buffer, line i numbered i; None once a line has aborted |
| `TextFile.ParseAll` | code/Toggle.Net/Providers/TextFile/FileProviderFactory.cs:67-94 | parseFile: the scan of every line of the document with the factory's `LineStep` |
| `TextFile.ValidationMessages` | code/Toggle.Net/Providers/TextFile/FileProviderFactory.cs:51-61 | The messages the foreach appends for the first k stored keys, in dictionary order: the failure text of each feature whose validation fails, nothing for one that validates |
| `TextFile.CreateSpec` | code/Toggle.Net/Providers/TextFile/FileProviderFactory.cs:47-65 | Create's outcome: the lookup failure if the scan aborted; otherwise the aggregate of scan and validation messages if it has any text, else the provider over the scanned dictionary |
| `Features.NewFeature` | code/Toggle.Net/Providers/TextFile/FileProviderFactory.cs:116 | `new Feature(spec)`: one instance of the specification, with no parameters |
| `Features.AddSpecification` | code/Toggle.Net/Providers/TextFile/FileProviderFactory.cs:112 | A further declaration appends a fresh instance, with no parameters, after the existing ones |
| `Features.IsFeatureEnabled` | code/nToggleTests/Toggle/DisableTest.cs:11-60 | A feature is enabled when it has at least one specification and they all evaluate to true, taken left to right |
| `Toggling.IsEnabled` | code/nToggleTests/Toggle/DisableTest.cs:40-46 | The toggle checker's answer for a flag: disabled when the flag is unknown, otherwise the feature's own verdict |
| `Strings.Fold` | code/Toggle.Net/Providers/TextFile/FileProviderFactory.cs:69 | The case-insensitive key comparer as a normal form: each ASCII letter upper-cased, same length as the key |
| `TextFile.Create` | code/Toggle.Net/Providers/TextFile/FileProviderFactory.cs:47-65 | Builds a fresh buffer, scans, validates every feature into the same buffer, and returns the provider only if the buffer is empty. The result equals `CreateSpec` |
| `TextFile.ValidateAll` | code/Toggle.Net/Providers/TextFile/FileProviderFactory.cs:51-61 | The foreach over the dictionary appends exactly the validation messages of all features, in dictionary order, after the scan messages; the loop invariant ties the buffer to the first i features |
| `TextFile.ParseFile` | code/Toggle.Net/Providers/TextFile/FileProviderFactory.cs:67-94 | The indexed loop over all lines leaves the fresh dictionary and the buffer equal to the scan of every line, or reports the abort exactly when the scan aborts |
| `TextFile.ParseLine` | code/Toggle.Net/Providers/TextFile/FileProviderFactory.cs:73-91 | One loop iteration: the dictionary and the buffer change exactly as `LineStep` says (skip, missing `=`, too many `=`, or parseRow) |
| `TextFile.ScanLine` | code/Toggle.Net/Providers/TextFile/FileProviderFactory.cs:71-91 | Iteration `index` of the loop, given the state after `index` lines, leaves the state after `index + 1` lines, or aborts exactly when that scan aborts |
| `TextFile.ParseRow` | code/Toggle.Net/Providers/TextFile/FileProviderFactory.cs:96-150 | The in-place update of dictionary and buffer equals `RowStep`, including the escaping lookup failure |
| `TextFile.AbortPersists` | code/Toggle.Net/Providers/TextFile/FileProviderFactory.cs:129-141 | An exception that escapes the loop ends the scan: whatever the step, no later line undoes an abort |
| `TextFile.RowStepWellFormed` | code/Toggle.Net/Providers/TextFile/FileProviderFactory.cs:106-145 | A declaration or parameter line keeps the dictionary invariant: one stored spelling per key up to letter case, and one feature per stored key |
| `TextFile.LineStepsWellFormed` | code/Toggle.Net/Providers/TextFile/FileProviderFactory.cs:73-91 | Every line of the factory keeps the dictionary invariant |
| `TextFile.ScanWellFormed` | code/Toggle.Net/Providers/TextFile/FileProviderFactory.cs:69-92 | For any step that keeps the dictionary invariant, every scan that completes ends with a well-formed dictionary |
| `TextFile.ParseAllWellFormed` | code/Toggle.Net/Providers/TextFile/FileProviderFactory.cs:67-94 | The dictionary that parseFile returns satisfies the dictionary invariant |
| `TextFile.RenderNamesLine` | code/Toggle.Net/Providers/TextFile/FileProviderFactory.cs:30-36 | Every scan message's text contains "at line {n}" with its decimal line number; a validation message is passed on verbatim (line 59) |
| `TextFile.TextLengthPositive` | code/Toggle.Net/Providers/TextFile/FileProviderFactory.cs:62 | The buffer's text is non-empty exactly when some message was appended, even one with empty text |
| `TextFile.TextLength` | code/Toggle.Net/Providers/TextFile/FileProviderFactory.cs:62 | `exOutput.Length`: the length of the rendered messages, each followed by a newline |
| `TextFile.MessageBuffer.Length` | code/Toggle.Net/Providers/TextFile/FileProviderFactory.cs:62 | The buffer's `Length`, read from its messages through `TextLength` |
| `TextFile.LeftOfEqualSign` | code/Toggle.Net/Providers/TextFile/FileProviderFactory.cs:75-76 | The first piece of the line split at `=`, trimmed |
| `TextFile.IsSkipped` | code/Toggle.Net/Providers/TextFile/FileProviderFactory.cs:75-78 | The skip test, made before the `=` count: the trimmed left side is empty or starts with `#` |
| `TextFile.MessageBuffer.AppendLine` | code/Toggle.Net/Providers/TextFile/FileProviderFactory.cs:82 | Appends one message after those already collected |
| `TextFileProperties.SkippedLineChangesNothing` | code/Toggle.Net/Providers/TextFile/FileProviderFactory.cs:75-78 | A line whose text before the first `=`, trimmed, is empty or starts with `#` changes neither the features nor the messages, however many `=` it has |
| `TextFileProperties.LeadingEqualSignSkipped` | code/Toggle.Net/Providers/TextFile/FileProviderFactory.cs:75-78 | Any line starting with `=` is skipped without a message |
| `TextFileProperties.RemarkSkipped` | code/Toggle.Net/Providers/TextFile/FileProviderFactory.cs:75-78 | Any line whose first non-blank character is `#` is skipped, whatever follows |
| `TextFileProperties.MissingEqualSignLine` | code/Toggle.Net/Providers/TextFile/FileProviderFactory.cs:79-83 | A line that is not skipped and has no `=` adds exactly one "Missing equal sign" message for its line and changes no feature |
| `TextFileProperties.MoreThanOneEqualSignLine` | code/Toggle.Net/Providers/TextFile/FileProviderFactory.cs:79-90 | A line that is not skipped and has two or more `=` adds exactly one "More than one equal sign" message and changes no feature |
| `TextFileProperties.SplitAtEqualSign` | code/Toggle.Net/Providers/TextFile/FileProviderFactory.cs:75 | `l=r` with no `=` in either side splits into exactly `[l, r]` |
| `TextFileProperties.DeclarationLine` | code/Toggle.Net/Providers/TextFile/FileProviderFactory.cs:106-122 | A declaration with a registered specification creates the feature, or appends a fresh instance to the feature stored under the same key in any letter case. A new key is stored with its own spelling after all earlier keys; an existing key keeps its spelling and position. No other feature changes and no message is added. An unregistered specification adds one "Unknown specification" message naming the trimmed right side |
| `TextFileProperties.ParameterLine` | code/Toggle.Net/Providers/TextFile/FileProviderFactory.cs:124-145 | A parameter line for an undeclared flag adds one "Declare specification" message naming the flag. For a declared flag: an unregistered specification aborts; a duplicate parameter adds one "declared twice" message naming the trimmed parameter; otherwise the feature is updated in place, the stored keys stay the same and every feature under another key is unchanged |
| `TextFileProperties.WrongParameterUsageLine` | code/Toggle.Net/Providers/TextFile/FileProviderFactory.cs:146-148 | A left side with one, three or more dots adds exactly one "Wrong parameter usage" message and changes no feature |
| `TextFileProperties.AbortOnlyOnParameterLine` | code/Toggle.Net/Providers/TextFile/FileProviderFactory.cs:129-141 | Only a line with exactly one `=`, exactly two dots and a declared flag can abort the scan |
| `TextFileProperties.LineStepLog` | code/Toggle.Net/Providers/TextFile/FileProviderFactory.cs:79-91 | A line keeps the messages so far and adds at most one, a scan message carrying the line's own number |
| `TextFileProperties.RowStepLog` | code/Toggle.Net/Providers/TextFile/FileProviderFactory.cs:96-150 | parseRow keeps the messages so far and adds at most one, a scan message carrying the row number |
| `TextFileProperties.LineStepsLogLineByLine` | code/Toggle.Net/Providers/TextFile/FileProviderFactory.cs:71-92 | The factory's step, on every state and line, logs line by line in that sense |
| `TextFileProperties.ScanMessagesInLineOrder` | code/Toggle.Net/Providers/TextFile/FileProviderFactory.cs:71-92 | For a step that logs line by line, after k lines the messages are scan messages with line numbers 1..k (index+1, skipped lines counted), strictly increasing, at most one per line |
| `TextFileProperties.ScanLogExtends` | code/Toggle.Net/Providers/TextFile/FileProviderFactory.cs:71-92 | Errors never stop the scan and are never taken back: each shorter prefix's scan completed, and its messages begin the longer scan's messages |
| `TextFileProperties.LineStepExtends` | code/Toggle.Net/Providers/TextFile/FileProviderFactory.cs:106-145 | No line removes or replaces anything: stored keys are kept, instances are only appended, and set parameters keep their values |
| `TextFileProperties.LineStepsOnlyExtend` | code/Toggle.Net/Providers/TextFile/FileProviderFactory.cs:71-92 | The factory's step only ever extends the dictionary, on every state and line |
| `TextFileProperties.ScanOnlyExtends` | code/Toggle.Net/Providers/TextFile/FileProviderFactory.cs:69-92 | For a step that only extends, every feature present after j lines is still present after k lines, with its earlier instances first; set parameters keep their values |
| `TextFileProperties.ValidationMessagesEmptyIff` | code/Toggle.Net/Providers/TextFile/FileProviderFactory.cs:51-61 | Validation reports nothing exactly when every feature validates |
| `TextFileProperties.ValidationMessagesShape` | code/Toggle.Net/Providers/TextFile/FileProviderFactory.cs:51-61 | Validation of k features adds at most k messages, and none of them is a scan message |
| `TextFileProperties.ValidationMessagesComplete` | code/Toggle.Net/Providers/TextFile/FileProviderFactory.cs:51-61 | Every feature whose validation throws has its exception message among the validation messages |
| `TextFileProperties.ValidationMessagesSound` | code/Toggle.Net/Providers/TextFile/FileProviderFactory.cs:51-61 | Every validation message is the exception text of some feature whose validation throws; a feature that validates contributes nothing |
| `TextFileProperties.CreateSucceedsIff` | code/Toggle.Net/Providers/TextFile/FileProviderFactory.cs:49-64 | Create returns a provider if and only if the scan completed with no message and every feature validated; the provider holds exactly the scanned features |
| `TextFileProperties.CreateFailureMessages` | code/Toggle.Net/Providers/TextFile/FileProviderFactory.cs:49-63 | On failure the aggregate is exactly all scan messages, in line order, followed by all validation messages of the scanned dictionary; it is non-empty, and nothing after the scan messages is a scan message |
| `TextFileProperties.CreateAbortsIff` | code/Toggle.Net/Providers/TextFile/FileProviderFactory.cs:129-144 | Create ends with the escaping KeyNotFoundException exactly when the scan aborted |
| `Strings.Trim` | code/Toggle.Net/Providers/TextFile/FileProviderFactory.cs:76 | The result has no white space at either end and is no longer than the input |
| `Strings.TrimOfPadded` | code/Toggle.Net/Providers/TextFile/FileProviderFactory.cs:76 | Trim removes exactly the white-space padding around trimmed text |
| `Strings.TrimTrimmed` | code/Toggle.Net/Providers/TextFile/FileProviderFactory.cs:85 | Trim leaves text without surrounding white space unchanged |
| `Strings.Split` | code/Toggle.Net/Providers/TextFile/FileProviderFactory.cs:75 | There is one more piece than there are separators, and no piece holds the separator |
| `Strings.SplitFirst` | code/Toggle.Net/Providers/TextFile/FileProviderFactory.cs:75-76 | The first piece is the text before the first separator |
| `Strings.JoinSplit` | code/Toggle.Net/Providers/TextFile/FileProviderFactory.cs:75 | Joining the pieces with the separator gives back the line |
| `Strings.SplitJoin` | code/Toggle.Net/Providers/TextFile/FileProviderFactory.cs:103 | Splitting a join of separator-free pieces gives back the pieces |
| `Strings.CountZero` | code/Toggle.Net/Providers/TextFile/FileProviderFactory.cs:79-81 | A line has zero `=` exactly when `=` does not occur in it |
| `Strings.NatToString` | code/Toggle.Net/Providers/TextFile/FileProviderFactory.cs:82 | A line number is formatted as a non-empty string of decimal digits, with no leading zero unless it is the single digit 0 |
| `Strings.DecimalRoundTrip` | code/Toggle.Net/Providers/TextFile/FileProviderFactory.cs:82 | Reading the formatted digits back gives the line number |
| `FeatureTables.Insert` | code/Toggle.Net/Providers/TextFile/FileProviderFactory.cs:116 | Add stores the key after all earlier ones with its feature, and leaves every feature under a different key as it was |
| `FeatureTables.InsertWellFormed` | code/Toggle.Net/Providers/TextFile/FileProviderFactory.cs:116 | Adding a key absent in every letter case keeps the dictionary invariant |
| `FeatureTables.Replace` | code/Toggle.Net/Providers/TextFile/FileProviderFactory.cs:112 | Storing a changed feature under a key moves and removes no key, sets that key's feature, and leaves every other feature as it was |
| `FeatureTables.ReplaceWellFormed` | code/Toggle.Net/Providers/TextFile/FileProviderFactory.cs:112 | Storing under a present key keeps the dictionary invariant: no key is added |
| `FeatureTables.Lookup` | code/Toggle.Net/Providers/TextFile/FileProviderFactory.cs:132 | TryGetValue finds a feature exactly when the key is present under some letter case |
| `FeatureTables.LookupIgnoresCase` | code/Toggle.Net/Providers/TextFile/FileProviderFactory.cs:69 | Keys that differ only in letter case find the same feature |
| `FeatureTables.FeatureDictionary.constructor` | code/Toggle.Net/Providers/TextFile/FileProviderFactory.cs:69 | The new dictionary is empty and well formed |
| `FeatureTables.FeatureDictionary.ContainsKey` | code/Toggle.Net/Providers/TextFile/FileProviderFactory.cs:110 | Tests key presence case-insensitively |
| `FeatureTables.FeatureDictionary.Item` | code/Toggle.Net/Providers/TextFile/FileProviderFactory.cs:112 | Returns the feature stored under the key |
| `FeatureTables.FeatureDictionary.Add` | code/Toggle.Net/Providers/TextFile/FileProviderFactory.cs:116 | The new value of the dictionary is `Insert` of the old one |
| `FeatureTables.FeatureDictionary.SetItem` | code/Toggle.Net/Providers/TextFile/FileProviderFactory.cs:112 | The new value of the dictionary is `Replace` of the old one |
| `Features.AddParameter` | code/Toggle.Net/Providers/TextFile/FileProviderFactory.cs:134 | Fails with "not attached" exactly when the feature has no instance of the specification. On success the feature's specification identities are unchanged |
| `Features.AddParameterAppends` | code/Toggle.Net/Providers/TextFile/FileProviderFactory.cs:134 | A successful AddParameter keeps the number of instances and every earlier parameter, sets the new name, previously unset, on the last instance of its specification, and leaves every other instance unchanged |
| `Features.AddParameterDuplicate` | code/Toggle.Net/Providers/TextFile/FileProviderFactory.cs:141-144 | AddParameter refuses exactly when the name is already set on the last instance of that specification |
| `Features.EnabledIff` | code/nToggleTests/Toggle/DisableTest.cs:11-60 | A feature is enabled if and only if it has a specification and all of its specifications evaluate to true |
| `Features.Evaluate` | code/nToggleTests/Toggle/DisableTest.cs:11-37 | One instance's verdict: the built-in true specification holds, the built-in false one does not, a registered one is decided by the application |
| `Features.AllEnabledIff` | code/nToggleTests/Toggle/DisableTest.cs:26-37 | The left-to-right AND of the instances holds exactly when every instance holds |
| `Features.NoSpecificationDisabled` | code/nToggleTests/Toggle/DisableTest.cs:49-60 | A feature with no specification is disabled |
| `Features.AnyFalseDisables` | code/nToggleTests/Toggle/DisableTest.cs:26-37 | One specification evaluating to false disables the feature, whatever the others say |
| `Features.OrderIrrelevant` | code/nToggleTests/Toggle/DisableTest.cs:26-37 | Swapping the order of two groups of specifications does not change the verdict |
| `Toggling.IsEnabledIff` | code/nToggleTests/Toggle/DisableTest.cs:11-60 | A flag is enabled if and only if it is known, has a specification, and all its specifications hold |
| `Toggling.UnknownFlagDisabled` | code/nToggleTests/Toggle/DisableTest.cs:40-46 | A flag not in the provider is disabled |
| `Toggling.IsEnabledIgnoresCase` | code/Toggle.Net/Providers/TextFile/FileProviderFactory.cs:69 | Flags that differ only in letter case get the same answer |
| `Toggling.OneLineDocument` | code/Toggle.Net/Providers/TextFile/FileProviderFactory.cs:71-74 | A one-line document is one step from the empty state, numbered line 1 |
| `Toggling.CreateFromScan` | code/Toggle.Net/Providers/TextFile/FileProviderFactory.cs:49-64 | Over a completed scan, Create gives the provider exactly when scan and validation messages are both empty, and the aggregate of them otherwise |
| `Toggling.FirstDeclaration` | code/Toggle.Net/Providers/TextFile/FileProviderFactory.cs:114-117 | The first declaration of a flag in a fresh scan creates a one-instance feature under that spelling and adds no message |
| `Toggling.ShortcutDocument` | code/Toggle.Net/Providers/TextFile/FileProviderFactory.cs:106-117 | A one-line document declaring a registered specification that validates yields a provider holding just that feature |
| `Toggling.FalseShortcutDocument` | code/nToggleTests/TextFile/FalseShortcutTest.cs:12-15 | `someflag=false` parses cleanly and the flag is disabled |
| `Toggling.TrueShortcutDocument` | code/Toggle.Net/Providers/TextFile/FileProviderFactory.cs:21-22 | `Flag=true` parses cleanly and `flag` is enabled |
| `Toggling.UnknownSpecificationScan` | code/Toggle.Net/Providers/TextFile/FileProviderFactory.cs:119-122 | Scanning `a=b` with `b` unregistered yields exactly one message, for line 1, and no feature |
| `Toggling.UnknownSpecificationDocument` | code/Toggle.Net/Providers/TextFile/FileProviderFactory.cs:119-122 | `a=b` with `b` unregistered fails with exactly one message, "Unknown specification 'b'" at line 1 |

## Left out

- Reading the file (`IFileReader.Content()`) is I/O. The document is an input `seq<string>`.
- The comparer of the specification mappings is not shown. So registry lookups (lines 108 and 134) compare names exactly as strings.
- `Feature`, the concrete specifications and `StaticFeatureProvider` are not part of this model.
  - `Feature` is modelled as a value: an ordered list of specification instances, each with its own parameters.
  - `AddSpecification` appends a fresh instance.
  - `AddParameter` sets the parameter on the last instance of the named specification and throws `ArgumentException` for a name already set there.
  - A parameter for a registered specification that the feature has no instance of is modelled as a lookup failure that escapes `Create`, like the one at line 134. This is an assumption about a class that is not shown.
  - The provider is the parsed `Table` itself.
- `Feature.Validate` is a parameter of `Create` that returns the exception message or nothing. Exceptions of other types thrown from it are not modelled.
- Evaluating an application-defined specification is a parameter, `custom`. The built-in `true`/`false` specifications evaluate to their constant.
- The exception classes are the constructors of `Outcome`.
- `string.Format` culture and the `Environment.NewLine` width are not modelled. A message is a structured value, `Render` gives its text, a line number is printed as its decimal digits, and a newline is one character.
- Strings.Fold: upper-cases only the ASCII letters a-z. .NET's `StringComparer.OrdinalIgnoreCase` also folds non-ASCII letters (so `ä` and `Ä` are one key there), which the model does not.
- `StartsWith("#")` is culture-sensitive in .NET. It is modelled as "the first character is `#`".
- `Feature` objects are changed in place through the dictionary. The model stores the changed value back under the same key (`FeatureDictionary.SetItem`), so aliasing of `Feature` objects is not modelled.
- Dictionary enumeration order is modelled as insertion order (`Table.keys`), which fixes the order of validation messages.
- The body of `parseFile`'s loop is its own method, `ParseLine`, with the same statements. The same holds for the validation loop of `Create` and `ValidateAll`. `ScanLine` has no counterpart in the source: it only restates one `ParseLine` call as one more step of `Scan`, so that `ParseFile`'s loop proof stays small.
- `Int32` line numbers are unbounded naturals, so overflow beyond 2^31-1 lines is not modelled.
- The test helper `InMemoryProviderFactory` is a thin wrapper with no logic of its own.
- Thread safety of reads after construction is not modelled, because there is no concurrency to model.
- Documents whose parse is only stated by the general lemmas, not as concrete examples:
  - a parameter line before its declaration (`ParameterLine`);
  - a duplicate parameter (`ParameterLine`);
  - a flag declared twice (`DeclarationLine`, `ScanOnlyExtends`).
- `TextFile.RenderNamesLine`: states only that each message names its line number and that validation text passes through unchanged. The exact wording of each template is in `Render`'s definition, not in a contract.
