# cppcheck Settings, modelled in Dafny

This project models the core of cppcheck's `Settings` class (`lib/settings.cpp`).
The model covers:

- the `--enable` argument: comma-separated check groups are added to the enabled set, and the first problem is reported as a message;
- choosing a target platform, by built-in profile or by a platform XML file;
- importing a project: a `compile_commands.json` compilation database, or a Visual Studio `.vcxproj` file.

`Settings` is a Dafny `class` (module `CppcheckSettings`). Its fields are:

- the enabled set;
- the platform type;
- the `sizeof` table, default sign and `char_bit`;
- the derived bit widths;
- the list of `FileSettings` records.

Each method that changes those fields is proved against a specification function on values:

- `Enable.ParseEnable` / `Enable.ApplyOne` for `addEnabled`;
- `Platform.Profile` for `platform`, and `Platform.PatchNodesAsWritten` for `platformFile` as the source reads it;
- `CompileCommands.Records` for `importCompileCommands`;
- `Vcxproj.FileRecords` for `importVcxproj`.

The lemmas beside those functions state what the source promises.

Modules:

- `Wrappers`: `Option`.
- `Text`:
  - `std::string::find` for a character and for a substring;
  - splitting and joining at a separator;
  - replacement of every occurrence of a placeholder.
- `Xml`: an already-parsed tinyxml2 element tree (name, attributes, optional text, children).
- `Enable`: the check-group vocabulary and the meaning of an `--enable` argument.
- `Platform`:
  - the built-in profiles;
  - the platform-file patches;
  - the bit widths;
  - the source's `sizeof` loop as written (see Findings).
- `Compilation`: the `FileSettings` record and the path helpers.
- `CompileCommands`:
  - the token walk over a compilation database;
  - the scan of a command line for `-D`, `-U` and `-I` flags.
- `Vcxproj`:
  - `ProjectConfiguration` and `ItemDefinitionGroup`;
  - condition substitution;
  - `toStringList`;
  - the project inventory;
  - the records a project produces.
- `CppcheckSettings`: importer selection and the `Settings` class.

Calls into code outside `lib/settings.cpp` become parameters:

- `std::atoi` is `atoi: string -> int`.
- `Path::fromNativeSeparators`, `Path::simplifyPath` and `Path::getPathFromFilename` are the `PathHelpers` record of functions.
- The host's `sizeof` values and char signedness are a `Host` value.
- The tokenizer-and-AST search for an `==` whose operands are equal is `hasEqualComparison: string -> bool` (called `scan` in most places).
- The compilation database tokenizer's output is a `seq<string>` of tokens.
- Loading an XML file is a `LoadResult`.
- Whether `std::ifstream` opened the file is a `bool`.

## Model

| member | source | states |
|---|---|---|
| CppcheckSettings.Settings.constructor | lib/settings.cpp:29-64 | The host platform is one of the three the preprocessor branches pick. Nothing is enabled and there are no file settings. The platform type and ABI are that platform's profile. |
| CppcheckSettings.Settings.AddEnabled | lib/settings.cpp:80-121 | The returned message and the new enabled set are exactly `ParseEnable` of the old set. Without a comma, that is the single-name outcome. The platform and the file settings are unchanged. |
| CppcheckSettings.Settings.AddEnabledList | lib/settings.cpp:83-98 | The comma loop and its tail call give the same message and set as `ParseEnable` on the whole argument. |
| CppcheckSettings.Settings.AddEnabledElement | lib/settings.cpp:86-94 | One loop iteration. On an error, that error and the set so far are the outcome of the whole argument. Otherwise every element read so far is accepted, and the set is the start set plus their effects. |
| CppcheckSettings.Settings.AddEnabledLast | lib/settings.cpp:95-97 | The part after the last comma. An empty tail reports the empty-parameter message. Otherwise its outcome is the outcome of the whole argument. |
| CppcheckSettings.Settings.EnableName | lib/settings.cpp:100-120 | A single name. The message and set equal `ApplyOne`: "all", a known id (information also adds missingInclude), empty, or unknown. |
| Enable.UnknownMessage | lib/settings.cpp:116-117 | The unknown-name message quotes the name. It is neither empty nor the empty-parameter message. |
| Enable.ParseEnableSucceeds | lib/settings.cpp:80-121 | The message is empty if and only if every comma-separated element is an accepted name. In that case the set is the old set plus each element's effect. |
| Enable.FirstRejection | lib/settings.cpp:86-91 | The first rejected element decides the message. The effects of the accepted elements before it are kept. |
| Enable.ApplyAllStops | lib/settings.cpp:89-91 | Once an element fails, later elements change nothing. |
| Enable.ApplyAllAccepted | lib/settings.cpp:86-97 | A list of accepted names succeeds and adds exactly their effects. |
| Enable.ApplyAllSuccess | lib/settings.cpp:86-97 | A successful list consists only of accepted names. |
| Enable.ApplyAllInVocabulary | lib/settings.cpp:66-79 | Starting inside the id vocabulary, the enabled set stays inside it. |
| Enable.ApplyAllGrows | lib/settings.cpp:100-112 | `--enable` never removes a group. |
| Enable.EnableAll | lib/settings.cpp:100-107 | "all" adds every id except "internal" and succeeds. |
| Enable.EnableInformation | lib/settings.cpp:108-112 | "information" adds information and missingInclude. |
| Enable.EnableStylePerformance | lib/settings.cpp:83-97 | "style,performance" adds both and succeeds. |
| Enable.EnableEmpty | lib/settings.cpp:114-115 | The empty argument reports the empty-parameter message and changes nothing. |
| Enable.EnableLoneComma | lib/settings.cpp:87-88 | "," reports the empty-parameter message. |
| Enable.EnableUnknownBeforeTrailingComma | lib/settings.cpp:89-91 | In "x," the unknown "x" is reported before the empty tail is reached. |
| Enable.EnableUnknown | lib/settings.cpp:116-117 | An unknown name reports the unknown-name message and changes nothing. |
| Enable.ReadElement | lib/settings.cpp:86-94 | One element of the comma loop. An empty element gives the empty-parameter message. An error is the outcome of the whole argument. An accepted element extends the accepted prefix and its effects. |
| Enable.ReadLastElement | lib/settings.cpp:95-97 | The element after the last comma decides the outcome of the whole argument. |
| Enable.ParseEnableSingle | lib/settings.cpp:83-98 | Without a comma, the argument is one name. |
| Enable.ParseEnableEmpty | lib/settings.cpp:114-115 | The empty argument is one empty name. |
| CppcheckSettings.Settings.Platform | lib/settings.cpp:143-274 | It returns true. The type and ABI become the type's profile. The bit widths are char_bit times the sizes. Enabled set and file settings are unchanged. |
| Platform.FixedProfileIgnoresHost | lib/settings.cpp:189-269 | The Windows and Unix profiles do not depend on the host. |
| Platform.FixedProfileWidths | lib/settings.cpp:189-269 | Fixed profiles have 16/32/64-bit short/int/long long. long is 64-bit only on Unix64. Pointer size equals size_t and is 8 exactly on Win64 and Unix64. |
| CppcheckSettings.Settings.UpdateBitWidths | lib/settings.cpp:319-322 | The bit widths become char_bit times the short, int, long and long long sizes. Nothing else changes. The object is then valid whenever its enabled set is within the vocabulary. |
| CppcheckSettings.Settings.PlatformFile | lib/settings.cpp:276-325 | It returns true if and only if the document loaded with a root named "platform". On false nothing changes. On true the ABI is the old one patched by the root's children in order, as the loop is written: `default-sign` and `char_bit` children take effect, and `sizeof` children change nothing, so every size is kept. The widths are recomputed and the object stays valid. The platform type is kept. Only the `default-sign` and `char_bit` texts must be present. |
| CppcheckSettings.Settings.ReadSizes | lib/settings.cpp:293-316 | The inner `sizeof` loop as written: each turn tests the name of the `sizeof` element itself, never the child's. The size table becomes `PatchSizesAsWritten` of the children, which for a `sizeof` element is the old table. Sign, char_bit and type are unchanged. |
| Platform.CharBitOnly | lib/settings.cpp:291-292 | In the loop as written, char_bit children set char_bit to the last one's number. Sizes and sign are untouched. |
| Platform.SetSizeNamed | lib/settings.cpp:295-314 | A size child sets exactly the size it names. sizeof_bool is never set. |
| Platform.PatchSizesLastWins | lib/settings.cpp:294-315 | After the corrected `sizeof` loop, each named size holds the number of the last child with that name. |
| Platform.PatchSizesUnnamed | lib/settings.cpp:294-315 | A size that no child names keeps its value. |
| Platform.SizeofLoopAsWrittenInert | lib/settings.cpp:293-316 | As written, the inner loop changes no size. |
| Platform.PlatformFileAsWrittenKeepsSizes | lib/settings.cpp:288-317 | As written, no platform file changes any size. |
| Platform.SizeofIntCounterexample | lib/settings.cpp:293-298 | `<sizeof><int>2</int></sizeof>` leaves sizeof_int at 4 as written. The corrected loop gives 2. |
| CppcheckSettings.SelectImporter | lib/settings.cpp:331-335 | Exactly the name "compile_commands.json" selects the database reader. Otherwise a name containing ".vcxproj" selects the project reader. Any other name selects none. |
| CppcheckSettings.DatabaseInSubdirectoryIgnored | lib/settings.cpp:331 | A database path with a directory is not imported. |
| CppcheckSettings.FiltersFileIsProject | lib/settings.cpp:333 | "app.vcxproj.filters" goes to the project reader, since only containment is tested. |
| CppcheckSettings.Settings.ImportProject | lib/settings.cpp:327-336 | An unopened file appends nothing. Otherwise the selected importer's records are appended. Enabled set and platform are unchanged. |
| CppcheckSettings.Settings.ImportCompileCommands | lib/settings.cpp:338-381 | The records the token walk emits are appended in order. Enabled set and platform are unchanged. |
| CompileCommands.ScanCommand | lib/settings.cpp:354-375 | The defines, undefs and include paths read from the command are `OptionsOf` the command's flags, word by word. |
| CompileCommands.ReadValue | lib/settings.cpp:366-368 | The flag value is the text up to the next space or the end. |
| CompileCommands.FlagsFromIsWordFlags | lib/settings.cpp:356-375 | The character-position scan equals the word-by-word reading of the command, from any word start. |
| CompileCommands.FlagsAfterIsWordFlags | lib/settings.cpp:356-375 | The scan after a position reads the words after the current word. |
| CompileCommands.FlagWord | lib/settings.cpp:360-374 | A word `-Xvalue` or `/Xvalue` yields flag X with that value. |
| CompileCommands.LoneFlagWord | lib/settings.cpp:362-368 | A lone `-` or `/` word makes the space the flag letter and takes the next word as its value. |
| CompileCommands.PlainWord | lib/settings.cpp:360-361 | A word not starting with `-` or `/` yields no flag. |
| CompileCommands.TrailingFlagStart | lib/settings.cpp:362-364 | A final lone `-` or `/` yields no flag. |
| CompileCommands.AppendFlag | lib/settings.cpp:369-374 | Flags are applied in order: D appends "value;", U inserts, I appends, others are ignored. |
| CompileCommands.UndefsAreUFlags | lib/settings.cpp:371-372 | A name is undefined if and only if some flag is `-U` with that name. |
| CompileCommands.IncludesOfAppend | lib/settings.cpp:373-374 | An `-I` flag appends its path and leaves the defines alone. |
| CompileCommands.SingleWordHasNoFlags | lib/settings.cpp:356 | A command without a space has no flags. |
| CompileCommands.FirstWordIgnored | lib/settings.cpp:356-361 | The first word, the compiler, is never read as a flag. |
| CompileCommands.ExampleCommandFlags | lib/settings.cpp:354-375 | "gcc -DFOO -Iinc a.c" gives defines "FOO;" and include path "inc". |
| CompileCommands.SeparatedValueNotRead | lib/settings.cpp:362-370 | In "gcc -D FOO" the value of `-D` is empty, so the defines become ";". |
| CompileCommands.StepToken | lib/settings.cpp:344-378 | One token of the loop is exactly one `Step` of the walk: a key/value pair is stored, and a closing brace emits at most one record, only for an object with a non-empty file and command, and clears the pairs. |
| CompileCommands.RecordsPerClose | lib/settings.cpp:343-380 | There is at most one record per closing brace. Records once emitted are never changed. |
| CompileCommands.SingleObject | lib/settings.cpp:343-379 | One object with a non-empty file and command yields one record built from them. |
| CompileCommands.ExampleObject | lib/settings.cpp:343-379 | A concrete object yields one record with the expected filename, defines and include path. |
| CompileCommands.ObjectWithoutCommand | lib/settings.cpp:351 | An object without a command yields no record. |
| CompileCommands.QuoteUnquote | lib/settings.cpp:347 | Stripping the quotes of a quoted literal gives back its text. |
| Vcxproj.ReadProjectConfiguration | lib/settings.cpp:385-392 | Configuration and Platform are the texts of the last children with those names, or empty. |
| Vcxproj.LastTextOfSnoc | lib/settings.cpp:386-391 | A later child of the same name overrides an earlier one. |
| Xml.LastTextIsLast | lib/settings.cpp:386-391 | The value read is the text of the last element with that name. |
| Xml.LastTextAbsent | lib/settings.cpp:386-391 | With no such element the value stays empty. |
| Vcxproj.ReadItemDefinitionGroup | lib/settings.cpp:398-412 | The condition is the attribute, or empty. The definitions and include directories are the last such texts across all ClCompile children. |
| Vcxproj.ReadClCompile | lib/settings.cpp:405-410 | Reading one ClCompile element continues the last-text reading across all settings seen. |
| Vcxproj.ClCompileSettingsSnoc | lib/settings.cpp:402-404 | Only ClCompile children contribute settings. |
| Vcxproj.ConditionIsTrue | lib/settings.cpp:413-435 | The result is the equality scan applied to the condition after both placeholders are replaced. |
| Text.Substitute | lib/settings.cpp:416-423 | After the replacement loop, the placeholder no longer occurs. |
| Text.SubstituteStep | lib/settings.cpp:416-419 | One erase-and-insert at the first occurrence leaves the loop's result unchanged. |
| Text.SpliceCount | lib/settings.cpp:416-419 | Each replacement lowers the number of '$' characters, so the loop ends. |
| Vcxproj.PlaceholderReappears | lib/settings.cpp:416-423 | The two loops run one after the other: with platform "uration)", the condition "$(Config$(Platform)" becomes "$(Configuration)" after both, a placeholder the first loop has already passed. |
| Vcxproj.EvenToOdd | lib/settings.cpp:420-423 | One erase-and-insert turn of the $(Platform) loop, with a value made of two tails and two heads of the placeholder, closes a new placeholder right where the old one was. |
| Vcxproj.OddToEven | lib/settings.cpp:420-423 | The next turn pushes two tails in front and leaves a head followed by a placeholder again. |
| Vcxproj.PlatformLoopNeverEnds | lib/settings.cpp:416-423 | With platform "form)form)$(Plat$(Plat", which does not contain "$(Platform)", on the condition "$(Plat$(Platform)": the first loop finds nothing, and after any number of turns of the second loop a "$(Platform)" is still there, so that loop never stops. |
| Text.Find | lib/settings.cpp:416 | `find` returns the first occurrence, or reports that there is none. |
| Text.IndexOfFrom | lib/settings.cpp:86 | `find(',', pos)` returns the first comma at or after `pos`, or the length. |
| Vcxproj.EmptyConditionHolds | lib/settings.cpp:413-435 | An absent Condition holds only if the scan of the empty text finds an equality. |
| Vcxproj.StandardConditionText | lib/settings.cpp:416-423 | The usual condition, comparing the configuration placeholder, a bar and the platform placeholder with a wanted text, becomes the configuration and platform names joined by the bar, compared with that text. |
| Vcxproj.StandardConditionFirstPass | lib/settings.cpp:416-419 | The first loop replaces the configuration placeholder only. |
| Vcxproj.StandardConditionSecondPass | lib/settings.cpp:420-423 | The second loop replaces the platform placeholder. |
| Vcxproj.SubstituteOnce | lib/settings.cpp:416-423 | A text with one occurrence has it replaced and nothing else changed. |
| Vcxproj.ToStringList | lib/settings.cpp:442-455 | The items are `StringList(s)`: the ';'-separated parts, without one empty part after a final ';'. |
| Vcxproj.StringListStep | lib/settings.cpp:446-451 | One loop step takes the text up to the next ';' as an item. |
| Vcxproj.StringListAdvance | lib/settings.cpp:446-451 | After a loop step, the items read so far followed by the items of the rest of the text are still the whole list. |
| Vcxproj.StringListDone | lib/settings.cpp:449-452 | When the position after the last ';' is the end of the text, nothing more is read. |
| Vcxproj.StringListLast | lib/settings.cpp:452-453 | The text after the last ';' is the final item. |
| Vcxproj.StringListItems | lib/settings.cpp:442-455 | No item contains ';'. |
| Vcxproj.JoinStringList | lib/settings.cpp:442-455 | Joining the items with ';' gives back the text, less one final ';'. |
| Vcxproj.ReadConfigurationList | lib/settings.cpp:472-476 | The ProjectConfigurations item group yields one configuration per ProjectConfiguration child, in order. |
| Vcxproj.ReadCompileList | lib/settings.cpp:477-481 | Any other item group yields the Include of each ClCompile child, in order. |
| Vcxproj.ReadProject | lib/settings.cpp:470-486 | The walk over the root's children collects configurations, compiled files and definition groups in document order. |
| CppcheckSettings.Settings.ImportVcxproj | lib/settings.cpp:457-505 | A document that fails to load, or has no root, adds nothing. Otherwise the records for every (file, configuration, group) triple whose condition holds are appended, in loop order. |
| CppcheckSettings.Settings.AddFileRecords | lib/settings.cpp:488-504 | The outer loop appends `FileRecords`. |
| CppcheckSettings.Settings.AddConfigRecords | lib/settings.cpp:489-503 | The middle loop appends `ConfigRecords` for one file. |
| CppcheckSettings.Settings.AddGroupRecords | lib/settings.cpp:490-502 | The inner loop appends `GroupRecords` for one file and configuration. |
| CppcheckSettings.BuildRecord | lib/settings.cpp:493-501 | The record is `MakeRecord`. Its platform is set exactly for "Win32" and "x64". |
| Vcxproj.RecordShape | lib/settings.cpp:493-500 | Each record has no undefs, the group's defines, and include items without ';'. Its platform is Win32W exactly for "Win32", Win64 exactly for "x64", and none otherwise. |
| Vcxproj.GroupRecordsMembers | lib/settings.cpp:490-502 | A record is produced for a configuration if and only if it is built from a group whose condition holds. |
| Vcxproj.GroupRecordsCount | lib/settings.cpp:490-502 | One record per matching group. |
| Vcxproj.ConfigRecordsCount | lib/settings.cpp:489-503 | One record per matching (configuration, group) pair. |
| Vcxproj.FileRecordsCount | lib/settings.cpp:488-504 | The number of records is the number of files times the number of matching pairs. |
| Vcxproj.NothingToPair | lib/settings.cpp:488-490 | With no files, configurations or groups, no records are made. |
| CppcheckSettings.ProjectRecordsCount | lib/settings.cpp:457-505 | For a project file, the number of records is the number of compiled files times the number of matching (configuration, group) pairs. |

## Left out

- `Settings::append` (lines 124-141) reads a file and calls the preprocessor. It is file I/O plus a call outside this file.
- The other fields set by the constructor (debug flags, jobs, maxConfigs and the like) are not modelled. No modelled operation reads them.
- `CppcheckSettings.Settings.constructor`: the compiler's `#if` on `_WIN64`/`_WIN32` is a `hostPlatform` parameter. The host's `sizeof` values and whether `char` is signed are a `Host` value, because they belong to the machine that compiled cppcheck.
- `CppcheckSettings.Settings.Platform`: the final `return false` for an unsupported platform cannot be reached with the seven-valued enumeration, so the method always returns true.
- Integer widths: `std::size_t` positions and `int` sizes are unbounded integers. Positions cannot overflow at any realistic text length.
- File loading, XML parsing, `std::ifstream` and the compilation-database tokenizer are left out. Their results are inputs: a `LoadResult`, an opened flag, a token sequence.
- `Token::Match(tok, "%str% : %str% [,}]")` is modelled on token strings. A string token is one that starts and ends with a double quote.
- The cppcheck tokenizer and AST used by `conditionIsTrue` are not part of this model. The search for `==` with equal operands is the `hasEqualComparison` parameter.
- `std::atoi` and the Path helpers are function parameters. Their own behaviour is not part of this model.
- `CppcheckSettings.Settings.PlatformFile`, `CppcheckSettings.Settings.ImportVcxproj`, `Vcxproj.ReadProjectConfiguration` and `Vcxproj.ReadItemDefinitionGroup` require the texts and attributes the source dereferences to be present. For a platform file these are only the `default-sign` and `char_bit` texts, because the `sizeof` loop as written never calls `GetText()`. The source dereferences a null pointer when they are missing, which is undefined behaviour.
- `Vcxproj.ConditionIsTrue` requires that the configuration and platform names contain no '$'. That is a sufficient condition for both loops to end, since each turn removes a '$'. Without it the source's own loop can run forever, even on a name that does not contain its own placeholder: `Vcxproj.PlatformLoopNeverEnds` shows this for platform "form)form)$(Plat$(Plat" on the condition "$(Plat$(Platform)". Names containing '$' are not modelled.
- An absent or empty `Condition` counts as true only if the equality scan of "" says so; with the real tokenizer it does not.
- `CppcheckSettings.Settings.UpdateBitWidths`: char_bit and the sizes can come from `std::atoi` of platform-file text (lines 292 and 296-314), so `char_bit * sizeof_*` at lines 319-322 is an `int` product that can overflow, which is undefined behaviour. The model computes exact, unbounded products and does not model that overflow.
- The iteration order of the `std::set` of ids in "all" does not matter: only the resulting set is modelled.
- The default value of `FileSettings::platformType` is defined outside this file. It is modelled as `None`.

## Findings

| source | as written | input that shows it | evidently intended | confidence | as-written member | corrected member |
|---|---|---|---|---|---|---|
| lib/settings.cpp:294-315 | The `sizeof` loop tests `node->Name()`, which is always "sizeof", so no branch is ever taken and no size is ever set from a platform file. | A platform file with `<sizeof><int>2</int></sizeof>` on Win64 leaves sizeof_int at 4. | Test and read the child `sz`, so that `<int>2</int>` sets sizeof_int to 2, with the last child of each name winning. | not executed | Platform.PlatformFileAsWrittenKeepsSizes | Platform.PatchSizesLastWins |
