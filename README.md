# php-request-validator, modelled in Dafny

This project models the validation core of the PHP library php-request-validator: the
per-attribute validators, the rule classes and their message resolver, and the three request
classes that gather errors.

- **Validators** (`validators.dfy`). A validator holds two ordered rule lists, the major rules
  and the normal rules. `addRule` sorts each rule into one of them with `isMajor`. `validate()`
  does three things in order:
  - it stops at the first major rule that fails, with that rule's message;
  - it accepts a null value;
  - it reports the message of every normal rule that fails.

  ArrayValidator runs every normal rule against every element and reports element messages.
  Field, array and file validators are one class `Validator` with a `kind`. The array and file
  constructors seed an IsArrayRule or an IsFileRule. Each method is proved against the
  specification function `Evaluate`, and the properties of `Evaluate` are proved as lemmas.
- **Rules** (`rules.dfy`, `rule_properties.dfy`, `default_messages.dfy`). The core rule
  classes form one datatype. Each rule has a predicate (`Passes`), a major flag and a default
  template. ValidateOrRule runs its loop in `ValidateAnyOf`, which is proved to mean "at least
  one sub-rule accepts", or "exactly one" when exclusive.
- **Message resolver** (`messages.dfy`, `text.dfy`). `resolveMessage` does the following:
  - it stringifies the params by runtime type;
  - it adds `:fieldName` and `:fieldValue`;
  - it runs one `str_replace` per placeholder, in order.

  `str_replace` and `(string)$int` are modelled with their meaning proved: a round trip for
  ints, and replacement of the first occurrence.
- **Requests** (`requests.dfy`, `abstract_requests.dfy`, `request.dfy`, `request_data.dfy`).
  - The concrete RequestValidator holds the request data by reference. It registers the
    validators its builders create and appends their errors on every `getErrors` call. It
    returns the list deduplicated (`dedup.dfy`).
  - The abstract RequestValidator and Request take the validators that `rules()` returns.
  - `checkEmpty` writes null back into the shared data.
  - `requireOr` is a flag loop proved equal to "some listed input is set", or "exactly one"
    when exclusive.
- **Values** (`php.dfy`, `file.dfy`, `file_types.dfy`, `field.dfy`, `array_of.dfy`).
  - PHP values, `isset`, `empty` and array lookup.
  - File (built from a `$_FILES` entry, with per-key defaults and TypeErrors under strict
    types), proved to invert the entry PHP builds.
  - The FileType MIME table with `tryFrom`.
  - Field.
  - The `ArrayOf` element-type descriptor.

`file_exists` is the parameter `fs: Paths`, the set of paths that exist. A user-defined rule
is a predicate on values.

## Model

| member | source | states |
|---|---|---|
| Messages.Template | src/Abstract/ValidationRule.php:17-22 | a non-null custom message replaces the class's default template, otherwise the default stays |
| Messages.Stringify | src/Abstract/ValidationRule.php:117-129 | stringifyParam by runtime type; what each form gives is proved in Messages.StringifyForms and Text.IntToStringRoundTrip |
| Messages.Resolved | src/Abstract/ValidationRule.php:92-105 | the resolved message: custom params first, then `:fieldName` and `:fieldValue`, one `str_replace` each in order; its behaviour is proved in the Messages.Resolved* lemmas and it is what Messages.ResolveMessage returns |
| Messages.ResolvedForElement | src/ArrayValidator.php:144 | the element message of an array validator; Validators.ElementMessage proves it binds `:fieldValue` to the rejected element, and the ElementErrors/ArrayErrors lemmas say when it is reported |
| Messages.StringifyForms | src/Abstract/ValidationRule.php:117-129 | a string is wrapped in single quotes with its text intact, an int reads back as itself, bools, arrays, objects and null give their fixed words |
| Messages.PutFind | src/Abstract/ValidationRule.php:98-102 | adding a key to the replacement list sets it to the new value, keeps every other key's value, and keeps the length when the key was already there |
| Messages.StringifyParams | src/Abstract/ValidationRule.php:94-96 | the custom params keep their keys and order, each value stringified |
| Messages.ResolvedWithoutParams | src/Abstract/ValidationRule.php:92-140 | without custom params the message is `:fieldName` replaced by the quoted name, then `:fieldValue` by the stringified value |
| Messages.ResolvedWithOneParam | src/Abstract/ValidationRule.php:92-140 | a custom param is replaced before `:fieldName` and `:fieldValue` |
| Messages.ResolvedNameOnly | src/Abstract/ValidationRule.php:92-140 | a template whose only placeholder is `:fieldName` resolves to the template with the quoted name in its place |
| Messages.ResolvedWordOnly | src/Abstract/ValidationRule.php:92-140 | a `:`-word that is not a placeholder (`:name`, `:attributeName`) is left in the message unchanged |
| Messages.ResolvedNameThenParam | src/Abstract/ValidationRule.php:92-140 | `... :fieldName ... :max` resolves to the quoted name and the stringified bound |
| Messages.ResolvedWordThenParam | src/Abstract/ValidationRule.php:92-140 | `... :name ... :min` keeps the word and replaces the param with its stringified value |
| Messages.ReplaceAllAbsent | src/Abstract/ValidationRule.php:131-140 | replacing placeholders that do not occur leaves the message unchanged |
| Messages.ResolvedWithoutPlaceholders | src/Abstract/ValidationRule.php:92-140 | a template containing none of the placeholder keys resolves to itself |
| Messages.ReplaceParams | src/Abstract/ValidationRule.php:131-140 | the loop that reassigns the message once per placeholder computes the sequential replacement `ReplaceAll` |
| Messages.ResolveMessage | src/Abstract/ValidationRule.php:92-105 | builds the replacement list and returns the resolved message `Resolved` |
| Text.StrReplaceAbsent | src/Abstract/ValidationRule.php:136 | `str_replace` returns a subject without the search string unchanged |
| Text.StrReplace | src/Abstract/ValidationRule.php:136 | `str_replace` with one search string: left-to-right, non-overlapping, empty search a no-op; its meaning is proved in the Text.StrReplace* lemmas |
| Text.IntToString | src/Abstract/ValidationRule.php:122 | `(string)$int`: a minus sign for negatives and the decimal digits; Text.IntToStringRoundTrip and Text.IntToStringNoColon state what it gives |
| Text.StrReplaceFirst | src/Abstract/ValidationRule.php:136 | `str_replace` on `p + search + q`, with no earlier occurrence, gives `p + replace + (q replaced)` |
| Text.StrReplaceAt | src/Abstract/ValidationRule.php:136 | the first occurrence, at index n, is replaced and everything before it copied |
| Text.StrReplaceWithoutFirstChar | src/Abstract/ValidationRule.php:136 | a subject without the search string's first character is unchanged |
| Text.StrReplaceOnce | src/Abstract/ValidationRule.php:136 | a single occurrence, with the first character nowhere else, is replaced |
| Text.StrReplaceSkipsWord | src/Abstract/ValidationRule.php:136 | a word such as `:name` is not matched by the search string `:fieldName` |
| Text.StrReplaceAfterWord | src/Abstract/ValidationRule.php:136 | after such a word, a trailing occurrence is the only one replaced |
| Text.NatToStringRoundTrip | src/Abstract/ValidationRule.php:122 | the decimal form of a natural number is non-empty, unsigned and reads back as the number |
| Text.NatToStringDigits | src/Abstract/ValidationRule.php:122 | the decimal form of a natural number holds only digits |
| Text.IntToStringNoColon | src/Abstract/ValidationRule.php:122 | `(string)$int` never contains a `:`, so a stringified bound cannot create a placeholder |
| Text.IntToStringRoundTrip | src/Abstract/ValidationRule.php:122 | `(string)$int` read back gives the int |
| Dedup.UniqueSameElements | src/RequestValidator.php:76 | `array_unique` loses no message and invents none |
| Dedup.Unique | src/RequestValidator.php:76 | `array_unique` on the values: first occurrences kept in order; Dedup.UniqueSameElements, Dedup.UniqueNoDuplicates and Dedup.UniqueOfDistinct state it |
| Dedup.UniqueNoDuplicates | src/RequestValidator.php:76 | the deduplicated list has no repeated message |
| Dedup.UniqueEmpty | src/RequestValidator.php:76 | the deduplicated list is empty exactly when the input is |
| Dedup.UniqueOfDistinct | src/RequestValidator.php:76 | a list without repetitions is returned as it is |
| Dedup.UniqueIdempotent | src/RequestValidator.php:76 | deduplicating twice equals deduplicating once |
| Dedup.UniqueAppendKnown | src/RequestValidator.php:73-76 | appending messages that are already present does not change the deduplicated list |
| FileTypes.TryFrom | src/File.php:34 | `tryFrom` gives a case exactly for a backing MIME string of the enum, and that case carries the string |
| FileTypes.TryFromCase | src/Enums/FileType.php:10-83 | `tryFrom` of a case's own backing value gives back that case |
| FileTypes.ListedIn | src/Enums/FileType.php:10-83 | the table lookup succeeds exactly for the strings in the table |
| FileTypes.EmptyIsNoType | src/File.php:34 | a missing type (`?? ""`) gives no FileType |
| Php.LookupFound | src/File.php:29-34 | an array lookup finds a value exactly when some entry has the key, and then it is that entry's value |
| Php.LookupOwnKey | src/ArrayValidator.php:142-144 | in an array without repeated keys, looking up an entry's key gives that entry's value |
| Php.IsSet | src/Rules/IsRequiredRule.php:34 | `isset($value)` on a value that exists: anything but null; RuleProperties.RequiredSemantics and RuleProperties.ProhibitedSemantics state the rules built on it |
| Php.IsEmpty | src/ArrayValidator.php:133 | `empty($value)`: null, false, 0, "", "0" and the empty array; RuleProperties.NotEmptySemantics lists exactly those values, and Validators.Evaluate uses it for the array validator's empty-value exit |
| Rules.Check | src/Abstract/ValidationRule.php:42 | `$rule->validate($value)` returns the rule's predicate `Passes` |
| Rules.ValidateAnyOf | src/Rules/ValidateOrRule.php:28-48 | the flag loop returns true exactly when at least one sub-rule passes, or exactly one when exclusive |
| RuleProperties.NoneCounted | src/Rules/ValidateOrRule.php:28-48 | no sub-rule is counted exactly when none accepts the value |
| Rules.Passes | src/Abstract/ValidationRule.php:42 | `$rule->validate($value)` for each rule kind; the RuleProperties.*Semantics lemmas state each kind's verdict over all values |
| Rules.IsMajor | src/Abstract/ValidationRule.php:54-57 | false by default; the RuleProperties.*Semantics lemmas state which kinds override it |
| Rules.NewRequired | src/Rules/IsRequiredRule.php:22-26 | the rule with its condition and message; RuleProperties.RequiredSemantics and RuleProperties.RequiredEvaluatesOnce state it |
| Rules.NewProhibited | src/Rules/IsProhibitedRule.php:22-26 | the rule with its condition and message; RuleProperties.ProhibitedSemantics and RuleProperties.ProhibitedEvaluatesOnce state it |
| Rules.NewNotEmpty | src/Rules/NotEmptyRule.php:12 | the rule with the default or custom message; RuleProperties.NotEmptySemantics states it |
| Rules.NewIsArray | src/Rules/IsArrayRule.php:12 | the rule with the default or custom message; RuleProperties.IsArraySemantics states it |
| Rules.NewMin | src/Rules/MinRule.php:21-28 | the rule with its bound as the `:min` param; RuleProperties.MinSemantics and DefaultMessages.MinMessage state it |
| Rules.NewMax | src/Rules/MaxRule.php:21-28 | the rule with its bound as the `:max` param; RuleProperties.MaxSemantics and DefaultMessages.MaxMessage state it |
| Rules.NewMinLength | src/Rules/MinLengthRule.php:21-28 | the rule with its bound as the `:min` param; RuleProperties.MinLengthSemantics and DefaultMessages.MinLengthMessage state it |
| Rules.NewMaxLength | src/Rules/MaxLengthRule.php:21-28 | the rule with its bound as the `:max` param; RuleProperties.MaxLengthSemantics and DefaultMessages.MaxLengthMessage state it |
| Rules.NewFileType | src/Rules/FileTypeRule.php:18-27 | a single FileType becomes a one-element list; RuleProperties.FileTypeSemantics states it |
| Rules.NewMaxFileSize | src/Rules/MaxFileSizeRule.php:15-19 | the rule with its size bound; RuleProperties.MaxFileSizeSemantics states it |
| Rules.NewIsFile | src/Rules/IsFileRule.php:12 | the rule with the default or custom message; RuleProperties.IsFileSemantics states it |
| Rules.NewValidateOr | src/Rules/ValidateOrRule.php:21-26 | the rule over its sub-rules and exclusive flag; RuleProperties.ValidateOrAtLeastOne, ValidateOrExactlyOne and ValidateOrAccessors state it |
| Rules.NewCustom | src/Rules/CustomRule.php:27-31 | the rule over the user's predicate; RuleProperties.CustomRuleDefaults states it |
| RuleProperties.OneCounted | src/Rules/ValidateOrRule.php:28-48 | the count is one exactly when one sub-rule, and no other, accepts |
| RuleProperties.ValidateOrAtLeastOne | src/Rules/ValidateOrRule.php:28-48 | a non-exclusive ValidateOrRule passes if and only if some sub-rule accepts |
| RuleProperties.ValidateOrExactlyOne | src/Rules/ValidateOrRule.php:28-48 | an exclusive ValidateOrRule passes if and only if exactly one sub-rule accepts |
| RuleProperties.ValidateOrEmptyFails | src/Rules/ValidateOrRule.php:28-48 | with no sub-rules it fails in both modes |
| RuleProperties.ValidateOrAccessors | src/Rules/ValidateOrRule.php:21-66 | getRules and isExclusive return the constructor arguments, exclusive defaults to false, and the rule is not major |
| RuleProperties.RequiredSemantics | src/Rules/IsRequiredRule.php:22-40 | passes exactly when the condition is false or the value is not null, and is major |
| RuleProperties.RequiredEvaluatesOnce | src/Rules/IsRequiredRule.php:24-26 | a closure condition is called once by the constructor, which stores its result |
| RuleProperties.ProhibitedSemantics | src/Rules/IsProhibitedRule.php:22-44 | a false condition accepts anything, a true one accepts only null, and the rule is major |
| RuleProperties.ProhibitedEvaluatesOnce | src/Rules/IsProhibitedRule.php:24-26 | a closure condition is called once by the constructor |
| RuleProperties.NotEmptySemantics | src/Rules/NotEmptyRule.php:12-22 | for every value: rejects it exactly when it is null, false, 0, "", "0" or [] (PHP `empty`), accepts everything else, and is major |
| RuleProperties.IsArraySemantics | src/Rules/IsArrayRule.php:12-22 | accepts exactly arrays, the empty one included, and is major |
| RuleProperties.MinSemantics | src/Rules/MinRule.php:30-41 | an int must be at least min, a string at least min characters long; any other value fails |
| RuleProperties.MaxSemantics | src/Rules/MaxRule.php:30-37 | only strings of at most max characters pass; ints fail |
| RuleProperties.MinLengthSemantics | src/Rules/MinLengthRule.php:30-48 | an array with at least min elements passes, a non-array fails; major; getMin returns min |
| RuleProperties.MaxLengthSemantics | src/Rules/MaxLengthRule.php:30-47 | an array with at most max elements passes, a non-array fails; major; getMax returns max |
| RuleProperties.FileTypeSemantics | src/Rules/FileTypeRule.php:18-40 | a file with a type among the allowed ones passes; a single type acts as a one-element list |
| RuleProperties.MaxFileSizeSemantics | src/Rules/MaxFileSizeRule.php:15-28 | a file of at most size bytes passes, the bound included; not major |
| RuleProperties.IsFileSemantics | src/Rules/IsFileRule.php:14-46 | a file passes exactly when it has a name, a full path, a type, an existing temp file and no upload error; major |
| RuleProperties.CustomRuleDefaults | src/Abstract/ValidationRule.php:11-57 | a rule class without overrides is not major and uses the base default template |
| DefaultMessages.DefaultMessage | src/Abstract/ValidationRule.php:11 | the base template resolves to `field 'name' is invalid` |
| DefaultMessages.CustomMessageVerbatim | src/Abstract/ValidationRule.php:17-22 | a custom message without placeholders is reported as given |
| DefaultMessages.RequiredMessage | src/Rules/IsRequiredRule.php:14 | resolves to `field 'name' is required` |
| DefaultMessages.ProhibitedMessage | src/Rules/IsProhibitedRule.php:14 | resolves to `field 'name' is prohibited` |
| DefaultMessages.NotEmptyMessage | src/Rules/NotEmptyRule.php:12 | resolves to its template, `:name` included |
| DefaultMessages.IsArrayMessage | src/Rules/IsArrayRule.php:12 | resolves to its template, `:name` included |
| DefaultMessages.MinMessage | src/Rules/MinRule.php:13-27 | `:min` becomes the decimal bound, `:attributeName` stays |
| DefaultMessages.MaxMessage | src/Rules/MaxRule.php:13-27 | resolves to the quoted name and the decimal bound |
| DefaultMessages.MaxMessageTen | src/Rules/MaxRule.php:13-27 | with max 10: `field 'name' length is bigger than 10` |
| DefaultMessages.MinLengthMessage | src/Rules/MinLengthRule.php:13-27 | `:min` becomes the bound, `:name` stays |
| DefaultMessages.MaxLengthMessage | src/Rules/MaxLengthRule.php:13-27 | `:max` becomes the bound, `:name` stays |
| DefaultMessages.FileTypeMessage | src/Rules/FileTypeRule.php:15 | resolves to its template |
| DefaultMessages.MaxFileSizeMessage | src/Rules/MaxFileSizeRule.php:13 | resolves to its template |
| DefaultMessages.IsFileMessage | src/Rules/IsFileRule.php:12 | resolves to its template |
| Fields.FieldOf | src/Field.php:12-19 | the field keeps the given name |
| Fields.FieldBlank | src/Field.php:16-18 | a missing key, null and "" give a null value |
| Fields.FieldKeeps | src/Field.php:16-18 | any other value is kept, false, 0 and "0" included |
| Fields.FieldIdempotent | src/Field.php:12-29 | the value is null exactly for blank input, and writing the field's value back into the request data leaves the field unchanged |
| Files.NonArrayDefaults | src/File.php:16-27 | a non-array gives the defaults: empty strings, no type, error 4, size 0 |
| Files.FromUpload | src/File.php:23-35 | the File constructor: defaults for a non-array, per-key defaults, a TypeError for a key of the wrong type; Files.UploadRoundTrip, Files.NonArrayDefaults, Files.EmptyArrayDefaults, Files.NameOnly, Files.TypeLookup and Files.WrongTypeRaises state it |
| Files.UploadRoundTrip | src/File.php:23-65 | building a File from the entry PHP creates for a record gives back that record |
| Files.EmptyArrayDefaults | src/File.php:29-34 | an empty array gives the defaults |
| Files.NameOnly | src/File.php:29-34 | keys are independent: only the name present sets only the name; a null name counts as missing |
| Files.TypeLookup | src/File.php:34 | the type is set exactly when the MIME string is one of the enum's |
| Files.WrongTypeRaises | src/File.php:29-33 | a present key of the wrong PHP type raises a TypeError |
| Validators.FirstFailing | src/Validator.php:130-136 | the reported index is the first major rule that rejects the value; none means all pass |
| Validators.RulesPermutation | src/Validator.php:97-100 | getRules lists every added rule exactly once (as a multiset) |
| Validators.RulesPartition | src/Validator.php:82-91 | the major list holds exactly the added major rules, the normal list the others |
| Validators.FirstFailingAt | src/Validator.php:130-136 | the first rejecting rule is the one FirstFailing reports |
| Validators.Evaluate | src/Validator.php:125-150 | validate() of each validator class; Validators.MajorShortCircuit, NullIsValid, FieldOutcome, ArrayOutcome, ArrayNullOrEmptyValid and ArrayRejectsNonArray state its policy, and Validators.Validator.Validate computes it |
| Validators.MajorShortCircuit | src/Validator.php:130-136 | a failing major rule gives false, isValid false, only its own message, and later rules do not matter |
| Validators.NullIsValid | src/Validator.php:138-140 | once the major rules pass, null is valid whatever the normal rules |
| Validators.NormalErrorsLength | src/Validator.php:142-146 | at most one message per normal rule |
| Validators.NormalErrorsEmpty | src/Validator.php:142-149 | no message exactly when every normal rule accepts |
| Validators.NormalErrorsMembers | src/Validator.php:142-146 | a message is reported exactly when it belongs to a rejecting normal rule |
| Validators.NormalErrorsCount | src/Validator.php:142-146 | the number of errors equals the number of normal rules that reject the value: one message per rejecting rule |
| Validators.FieldOutcome | src/Validator.php:125-150 | after the major rules pass, the result is valid exactly when the value is null or every normal rule accepts, and return value, isValid and errors agree |
| Validators.ReturnedIffNoErrors | src/Validator.php:125-150 | for field and file validators the return value says whether errors were recorded |
| Validators.NoRulesValid | src/Validator.php:125-150 | a validator without rules is valid |
| Validators.ElementErrorsEmpty | src/ArrayValidator.php:142-146 | a rule reports nothing exactly when it accepts every element |
| Validators.ElementErrorsMembers | src/ArrayValidator.php:142-146 | a rule reports the element message of exactly the elements it rejects |
| Validators.ElementErrorsCount | src/ArrayValidator.php:142-146 | a rule reports as many element messages as there are elements it rejects |
| Validators.ElementErrorsSound | src/ArrayValidator.php:142-146 | every element message belongs to a rejected element |
| Validators.ElementErrorsComplete | src/ArrayValidator.php:142-146 | every rejected element is reported |
| Validators.ArrayErrorsEmpty | src/ArrayValidator.php:141-150 | no message exactly when every normal rule accepts every element |
| Validators.ArrayErrorsMembers | src/ArrayValidator.php:141-147 | a message is reported exactly when some normal rule rejects some element |
| Validators.ArrayErrorsCount | src/ArrayValidator.php:141-147 | the number of array errors is the sum over the normal rules of the number of elements each rejects |
| Validators.ArrayErrorsSound | src/ArrayValidator.php:141-147 | every message comes from a rule rejecting an element |
| Validators.ArrayErrorsComplete | src/ArrayValidator.php:141-147 | every rejection of an element by a normal rule is reported |
| Validators.ElementMessage | src/ArrayValidator.php:144 | in an array without repeated keys the element message is the rule's message with `:fieldValue` bound to the element |
| Validators.ArrayNullOrEmptyValid | src/ArrayValidator.php:131-135 | a null or empty array that passes the major rules is valid |
| Validators.ArrayOutcome | src/ArrayValidator.php:118-151 | a non-empty array that passes the major rules is valid exactly when no element fails a normal rule |
| Validators.ArrayRejectsNonArray | src/ArrayValidator.php:123-139 | with the seeded IsArrayRule a non-array gets one error, and the odd non-array path is never reached |
| Validators.RequiredOnNull | src/Validator.php:125-136 | isRequired on a null value reports exactly the rule's message |
| Validators.Validator.Field | src/Validator.php:32-35 | a new validator has no rules, no errors and isValid null |
| Validators.Validator.Array | src/ArrayValidator.php:51-58 | an IsArrayRule with the custom message is added exactly when the value is not null |
| Validators.Validator.File | src/FileValidator.php:35-42 | an IsFileRule with the custom message is added exactly when the value is not null |
| Validators.Validator.AddRule | src/Validator.php:82-91 | a major rule joins majorRules, any other joins rules, in call order; nothing else changes |
| Validators.Validator.GetRules | src/Validator.php:97-100 | the normal rules then the major ones, a permutation of the added rules |
| Validators.Validator.GetName | src/Attribute.php:24-27 | the attribute's name, as the constructors store it |
| Validators.Validator.GetValue | src/Attribute.php:29-32 | the attribute's value, as the constructors store it; AbstractRequests.ValuesAtLeastOne and ValuesExactlyOne use it for requireOr |
| Validators.Validator.IsRequired | src/Validator.php:42-47 | appends a major IsRequiredRule with condition true |
| Validators.Validator.IsRequiredIf | src/Validator.php:55-60 | appends a major IsRequiredRule with the condition |
| Validators.Validator.ProhibitedIf | src/Validator.php:69-74 | appends a major IsProhibitedRule with the condition |
| Validators.Validator.MaxLength | src/ArrayValidator.php:98-103 | appends a major MaxLengthRule |
| Validators.Validator.MinLength | src/ArrayValidator.php:111-116 | appends a major MinLengthRule |
| Validators.Validator.Type | src/FileValidator.php:64-69 | appends a normal FileTypeRule |
| Validators.Validator.MaxSize | src/FileValidator.php:82-87 | appends a normal MaxFileSizeRule |
| Validators.Validator.Validate | src/Validator.php:125-150 | return value, errors and isValid are those of `Evaluate` on the current rules; the rules are unchanged |
| Validators.Validator.ValidateElements | src/ArrayValidator.php:131-151 | the array tail of validate gives the `Evaluate` outcome |
| Validators.Validator.CheckElements | src/ArrayValidator.php:142-146 | one rule's pass over the elements appends exactly its element errors |
| Validators.Validator.GetErrors | src/Validator.php:112-119 | validates only while isValid is null, otherwise returns the stored errors unchanged |
| RequestData.DataRef.constructor | src/RequestValidator.php:30-33 | the request holds the caller's data |
| RequestData.Normalised | src/RequestValidator.php:135-139 | a blank input becomes null; any other input is passed on unchanged and is not null |
| RequestData.AfterCheck | src/RequestValidator.php:197-205 | checkEmpty writes the normalised value under the name and leaves every other key alone |
| RequestData.UploadedValue | src/RequestValidator.php:171-175 | null for a blank input, otherwise the File built from the data or its TypeError |
| RequestData.BlankValues | src/RequestValidator.php:197-205 | blank means missing, null, "null", "" or "undefined" |
| RequestData.Blank | src/RequestValidator.php:199 | the `checkEmpty` test: not set, or strictly equal to one of the nullables; RequestData.BlankValues states which values it covers |
| RequestData.AfterCheckIdempotent | src/RequestValidator.php:197-205 | checking twice changes nothing and keeps the normalised value |
| RequestData.CountTrueZero | src/RequestValidator.php:85-107 | no flag counted exactly when none is set |
| RequestData.CountTrueOne | src/RequestValidator.php:85-107 | count one exactly when one flag, and no other, is set |
| RequestData.SatisfiedAtLeastOne | src/RequestValidator.php:85-107 | non-exclusive requireOr holds exactly when some flag is set |
| RequestData.SatisfiedExactlyOne | src/RequestValidator.php:85-107 | exclusive requireOr holds exactly when one flag is set |
| RequestData.FlagLoop | src/RequestValidator.php:87-102 | the loop with its two breaks computes that verdict |
| RequestData.KeyFlags | src/RequestValidator.php:89-90 | one flag per listed key, set when `isset($data[$key])` |
| RequestData.ValueFlags | src/Abstract/RequestValidator.php:74-75 | one flag per validator, set when its value is not null |
| RequestData.KeysAtLeastOne | src/RequestValidator.php:85-107 | requireOr over keys holds exactly when some listed key is set |
| RequestData.KeysExactlyOne | src/RequestValidator.php:85-107 | exclusive requireOr over keys holds exactly when one listed position is set |
| RequestData.RepeatedKeyFailsExclusive | src/RequestValidator.php:85-107 | a key listed twice makes exclusive requireOr fail even when only that key is set |
| RequestData.ErrorLists | src/RequestValidator.php:72-74 | one list per validator, its getErrors result |
| RequestData.CollectErrors | src/RequestValidator.php:72-74 | the loop gathers each validator's errors in order, and asking again gives the same lists |
| RequestData.CollectedMembers | src/RequestValidator.php:72-76 | a message is gathered exactly when some validator reports it |
| RequestData.CollectedEmpty | src/RequestValidator.php:58-76 | nothing is gathered exactly when no validator reports anything |
| Requests.RequestValidator.constructor | src/RequestValidator.php:30-33 | no errors, no validators, the caller's data shared |
| Requests.RequestValidator.GetValidators | src/RequestValidator.php:48-51 | the registered validators; the ensures of the ValidateField, ValidateFile and ValidateArray methods state what is registered |
| Requests.RequestValidator.GetErrors | src/RequestValidator.php:68-77 | appends every validator's errors to the stored list and returns it deduplicated |
| Requests.RequestValidator.Validate | src/RequestValidator.php:58-61 | true exactly when nothing was recorded before and no validator reports an error |
| Requests.RequestValidator.RequireOr | src/RequestValidator.php:85-107 | records the message unless the flag verdict holds |
| Requests.RequestValidator.CheckEmpty | src/RequestValidator.php:197-205 | reports a blank input and writes null over it in the shared data |
| Requests.RequestValidator.ValidateField | src/RequestValidator.php:133-146 | a fresh field validator over the normalised value, registered last |
| Requests.RequestValidator.ValidateFile | src/RequestValidator.php:169-181 | a fresh file validator over the File, registered last, or the TypeError with nothing registered |
| Requests.RequestValidator.ValidateArray | src/RequestValidator.php:183-195 | a fresh array validator over the normalised value, registered last |
| Requests.GetErrorsTwice | src/RequestValidator.php:68-77 | a second getErrors returns the same list as the first |
| AbstractRequests.RequestValidator.constructor | src/Abstract/RequestValidator.php:25-28 | no errors, the caller's data shared |
| AbstractRequests.RequestValidator.GetErrors | src/Abstract/RequestValidator.php:53-62 | appends the returned validators' errors and returns the list deduplicated |
| AbstractRequests.RequestValidator.Validate | src/Abstract/RequestValidator.php:43-46 | true exactly when nothing was recorded and no validator reports an error |
| AbstractRequests.RequestValidator.RequireOr | src/Abstract/RequestValidator.php:70-92 | records the message unless the flags over the validators' values hold |
| AbstractRequests.RequestValidator.CheckEmpty | src/Abstract/RequestValidator.php:163-171 | reports a blank input and writes null over it |
| AbstractRequests.RequestValidator.ValidateField | src/Abstract/RequestValidator.php:118-128 | a fresh field validator over the normalised value |
| AbstractRequests.RequestValidator.ValidateFile | src/Abstract/RequestValidator.php:151-161 | a fresh file validator over the File, or the TypeError |
| AbstractRequests.ValuesAtLeastOne | src/Abstract/RequestValidator.php:70-92 | requireOr holds exactly when some validator's value is not null |
| AbstractRequests.ValuesExactlyOne | src/Abstract/RequestValidator.php:70-92 | exclusive requireOr holds exactly when one validator's value, and no other, is not null |
| Request.GetErrors | src/Abstract/Request.php:57-67 | the returned validators' errors in order, deduplicated, with nothing kept between calls |
| Request.Validate | src/Abstract/Request.php:45-48 | true exactly when no validator reports an error |
| Request.ReportedErrors | src/Abstract/Request.php:57-67 | the result has no repetitions and holds exactly the reported messages |
| ArrayOfTypes.NewArrayOf | src/Types/ArrayOf.php:23-42 | an empty list throws NoTypeSent; anything else is stored, falsy exactly for null |
| ArrayOfTypes.ValidateElement | src/Types/ArrayOf.php:44-52 | validate and strictValidate compute `Accepts` |
| ArrayOfTypes.ValidateArray | src/Types/ArrayOf.php:75-108 | the element loop with early exits computes `ArrayAccepts` |
| ArrayOfTypes.ValidateAgainstTypes | src/Types/ArrayOf.php:110-129 | throws unless the types are a list, otherwise reports whether some listed type accepts |
| ArrayOfTypes.NameExamples | src/Types/ArrayOf.php:54-67 | "array", "int[]", "int[][]", "(int\|string)[]" |
| ArrayOfTypes.TypesName | src/Types/ArrayOf.php:54-67 | ArrayOf::getName; ArrayOfTypes.NameExamples, ArrayOfTypes.NameArrayIffFalsy and ArrayOfTypes.NameNests state what it gives |
| ArrayOfTypes.NameArrayIffFalsy | src/Types/ArrayOf.php:54-67 | the name is the bare "array" exactly when the ArrayOf holds no type (null or an empty list) |
| ArrayOfTypes.NameNests | src/Types/ArrayOf.php:54-67 | nesting an ArrayOf that holds something adds exactly one "[]" to its name |
| ArrayOfTypes.NonArrayRejected | src/Types/ArrayOf.php:77-79 | a non-array fails in both modes |
| ArrayOfTypes.Accepts | src/Types/ArrayOf.php:44-52 | `validate`/`strictValidate` of an element type; ArrayOfTypes.ValidateElement computes it and ArrayOfTypes.StrictImpliesLoose relates the two modes |
| ArrayOfTypes.ArrayAccepts | src/Types/ArrayOf.php:75-108 | validateArray: an array whose every element passes the type or one of the list; ArrayOfTypes.ValidateArray computes it, ArrayOfTypes.NonArrayRejected, NoTypeAcceptsArrays, SingleAsList and MoreTypesAcceptMore state it |
| ArrayOfTypes.NoTypeAcceptsArrays | src/Types/ArrayOf.php:81-94 | with no type every array passes; the empty array passes any types |
| ArrayOfTypes.GetTypeKeeps | src/Types/ArrayOf.php:70-73 | getType returns what the constructor received |
| ArrayOfTypes.SingleAsList | src/Types/ArrayOf.php:85-107 | a single type acts as a one-element list |
| ArrayOfTypes.MoreTypesAcceptMore | src/Types/ArrayOf.php:110-129 | listing one more type never rejects an array the shorter list accepted |
| ArrayOfTypes.StrictImpliesLoose | src/Types/ArrayOf.php:44-52 | when basic types' strict checks imply their loose ones, so does every nested type's |
| ArrayOfTypes.ArrayStrictImpliesLoose | src/Types/ArrayOf.php:97-105 | the same for the element loop |

## Left out

- Floats. `MinRule` accepts floats and `stringifyParam` has a "double" case, but floats are
  not part of the value domain. The "resource" / "unknown type" cases of `gettype` are left
  out too.
- The regex, e-mail, URL and date rules, `ValidEnumRule`, `CustomRule`'s closure wrapper and
  `TypeRule`. They are outside the core. A user-defined rule is the `UserDefined` kind.
- `ArrayValidator::type`: it wraps an `ArrayOf` in a `TypeRule`, which is not part of this
  model.
- `TypeRule::getDataTypeFromString`: the string arguments of `ArrayOf` are not modelled. The
  constructor takes a type, a list of types or null.
- The basic data types (`DataType` enum) are given as a name with a loose and a strict
  predicate.
- `FieldValidator`, the rule-factory traits and `getAttribute` are builder glue outside the
  core. `FieldValidator` is the field kind of `Validator`.
- `rules()` of the concrete RequestValidator is the base no-op. Validators registered before
  `getErrors` stand for those a subclass would add. In the abstract classes, what `rules()`
  returns is a parameter.
- `file_exists` is the set of existing paths `fs`, an input of every evaluation.
- `FileValidator::type` with extension strings, which its doc comment advertises, is not
  modelled. A bare string reaches `FileTypeRule::__construct(array|FileType $types)` and raises a
  TypeError under strict types. An array of strings is accepted and builds a rule whose loose
  `in_array` compares a FileType case with strings, which never matches, so that rule rejects
  every file. The model's allowed types hold FileType cases only, and it expresses neither case.
- File.php imports `FileType` from `Types` while the enum lives in `Enums`. The model uses the
  enum's table.
- Request's `array_unique` keeps the original keys; the model returns the values in order.
- `Field` keys are strings only.
- The FileType enum is a datatype holding the MIME string, with `IsCase` for "is one of the
  enum's cases", not a subset type.
- The placeholders `:name` and `:attributeName`, used by several default templates, are
  never bound by `resolveMessage` and stay in the message as written. The model follows the
  code. The source's own tests expect the attribute name there (for example
  tests/Unit/Rules/MinRuleTest.php:44).
- DefaultMessages.RequiredMessage, DefaultMessages.ProhibitedMessage, DefaultMessages.MaxMessage,
  DefaultMessages.MaxMessageTen and DefaultMessages.DefaultMessage: these require `':' !in name`.
  They say nothing about attribute names that contain a `:`.
- Messages.ResolvedForElement: `resolveArrayMessage` is called by ArrayValidator but defined
  nowhere in the source. It is inferred as `resolveMessage` with `:fieldValue` bound to the
  element at the index.
- Validators.Validator.GetName and Validators.Validator.GetValue: `ValidatorInterface`
  declares them but `Validator` does not define them. They are inferred as the attribute's
  name and value.
- The source and its tests disagree in places, and the model follows the source:
  - getRules order: normal rules first;
  - IsArrayRule is major;
  - MaxRule rejects non-strings.
- Integers are unbounded. PHP int overflow to float is not modelled.
