# kingdee-base-components utilities in Dafny

This project models the logic core of the kingdee-base-components library: the small, sequential utilities that turn component configuration into CSS class strings and DOM attributes, and a few string validators. It proves what each of them promises. It covers:

- **The class-token set** of `utils/classSet.js`.
  - `classNamesHash`, `add`, `invert` and `toString` are a `ClassSet` class whose `hash` field is an insertion-ordered object.
  - The stand-alone serialiser of `utilsPrivate/classSet.js` is a method specified by the same `Serialize` function.
  - `layout/styleUtils.js` builds a grid's class set one `add` at a time on top of it.
- **The class-list mutator** of `utilsPrivate/classListMutation.js`, applied to a live `DOMTokenList`. It includes the loop bound as written: the first key's length.
- **Attribute synchronisation and reflection** (`synchronizeAttrs`, `reflectAttribute`) on an `Element` class. The element has a tag name, an attribute map and a property map.
- **`valueSetter`** and the small helpers of `utilsPrivate/utilsPrivate.js`: `getRealDOMId`, `escapeHTML`, `buttonGroupOrderClass`, `isUndefinedOrNull`, `hasOwnProperties` and `privateContext`.
- **The URL helpers of `utilsPrivate/url.js`**: the prefix check, `formatUrl`, numeric character reference decoding and `sanitizeURL`.
- **Two other validators**: the hex colour check of `textUtils.js` and the page reference check of `pageReference.js`.
- **Two state machines**: the `Observable` observer list and the `raf` throttle. `requestAnimationFrame` is an explicit queue of pending frame callbacks.
- **Presentation getters and mappings**: the `kd-button` and `kd-icon` getters, the option mapping of `utilsPrivate/formatUtils.js`, and the guards around its injected formatters.

JavaScript values are the datatype `JsValues.JsValue`. It has explicit `Truthy`, `TypeOf` and `ToStr`, which is the `String()` conversion for the values the model has. Its numbers are integers, so `ToStr` prints them as decimal digits (see "## Left out").

Plain objects used as dictionaries are `JsObjects.Object`: a map of properties together with the key sequence that `Object.keys` reports. That order is modelled as the language defines it: canonical array-index keys first in ascending numeric order, then the other keys in insertion order. Strings are sequences of Unicode scalar values; where the source reads a string's `.length`, its UTF-16 length is computed.

## Model

| member | source | states |
|---|---|---|
| JsValues.TypeOfTests | src/modules/kd/utilsPrivate/pageReference.js:16-18 | `typeof` is "string" exactly for strings, "object" exactly for objects and `null`, "function" exactly for functions |
| JsValues.NullishIsFalsy | src/modules/kd/utilsPrivate/utilsPrivate.js:285-287 | `null` and `undefined` are falsy; the only other falsy values are `""`, `false`, `0` and `NaN` |
| JsValues.OrNull | src/modules/kd/utilsPrivate/utilsPrivate.js:102 | `value \|\| null` is the value itself when truthy and `null` otherwise |
| JsValues.Trim | src/modules/kd/utils/classSet.js:8 | `trim()` leaves no white space at either end, and is empty exactly when the string is all white space |
| JsValues.TrimTrimmed | src/modules/kd/utils/classSet.js:8 | trimming a string that has no white space at its ends returns it unchanged |
| JsValues.DecimalRoundTrip | src/modules/kd/utilsPrivate/url.js:31 | reading back the decimal text of a natural number gives that number |
| JsValues.Utf16LengthBounds | src/modules/kd/utilsPrivate/classListMutation.js:8 | a string's `.length` lies between its number of characters and twice that, and is 0 only for the empty string |
| JsObjects.PutProperties | src/modules/kd/utils/classSet.js:10 | `hash[k] = v` keeps the key order well formed; an existing key keeps its position; a new key is added once, and a non-index key goes at the end |
| JsObjects.InsertIndexKeepsOrder | src/modules/kd/utils/classSet.js:10 | a new array-index key goes into its ascending numeric place before the other keys |
| JsObjects.InsertKeyProperties | src/modules/kd/utils/classSet.js:10 | inserting a new key keeps the keys distinct and in order, and removing it again gives back the old key list |
| JsObjects.AssignProperties | src/modules/kd/utils/classSet.js:14 | `Object.assign(target, src)` takes every value from `src`, keeps the target's other values, and appends the new non-index keys in `src` order after the existing keys |
| ClassSet.SplitWords | src/modules/kd/utils/classSet.js:8 | splitting on white-space runs gives at least one piece, and no piece holds white space |
| ClassSet.SplitJoin | src/modules/kd/utils/classSet.js:8 | splitting single-space-joined words gives back exactly those words |
| ClassSet.ClassTokensMeaning | src/modules/kd/utils/classSet.js:7-8 | a blank or white-space-only string yields the single token `""`; any other string yields only non-empty white-space-free tokens |
| ClassSet.AddTokensContents | src/modules/kd/utils/classSet.js:9-11 | after the string loop, every token is present with flag `true`, and every other key keeps its value |
| ClassSet.AddTokensExisting | src/modules/kd/utils/classSet.js:10 | re-adding tokens that are already present leaves the key order unchanged |
| ClassSet.AddTokensInOrder | src/modules/kd/utils/classSet.js:9-11 | adding distinct ordered tokens to an empty set gives exactly those keys, all `true` |
| ClassSet.SerializeIsJoin | src/modules/kd/utils/classSet.js:35-43 | when no truthy key is empty, the serialisation is the truthy keys, in key order, joined by single spaces |
| ClassSet.TruthyKeysMeaning | src/modules/kd/utils/classSet.js:39 | a key is emitted exactly when it is present and its flag is truthy |
| ClassSet.SerializeEmptyIff | src/modules/kd/utils/classSet.js:35-43 | the result is `""` exactly when every truthy key is the empty string, so in particular when no key is truthy |
| ClassSet.TrailingSpace | src/modules/kd/utils/classSet.js:8-10 | adding `"a"` then `""` serialises as `"a "`, with a trailing space |
| ClassSet.Inverted | src/modules/kd/utils/classSet.js:23-31 | inverting keeps the keys and their order and flips the truthiness of every flag |
| ClassSet.InvertKeysAll | src/modules/kd/utils/classSet.js:25-29 | the in-place loop over `Object.keys` produces exactly the inverted set |
| ClassSet.InvertTwice | src/modules/kd/utils/classSet.js:23-31 | inverting twice restores every key's truthiness; a third inversion equals the first |
| ClassSet.InvertedTruthyKeys | src/modules/kd/utils/classSet.js:28-39 | after inversion, the emitted keys are exactly the keys that were falsy |
| ClassSet.RoundTripTokens | src/modules/kd/utils/classSet.js:8-43 | building a set from words, serialising it and building again gives the same set, with no new token |
| ClassSet.RoundTripBlank | src/modules/kd/utils/classSet.js:8-43 | a white-space-only string serialises as `""` and builds the same set as `""` |
| ClassSet.ToStringRoundTrip | src/modules/kd/utils/classSet.js:33-50 | `classSet(s).toString()` fed back to `classSet` gives the same set |
| ClassSet.AddNamesWellformed | src/modules/kd/utils/classSet.js:6-15 | adding any admissible string or object keeps the hash well formed |
| ClassSet.ClassSet.constructor | src/modules/kd/utils/classSet.js:49 | a new set is empty |
| ClassSet.ClassSet.Add | src/modules/kd/utils/classSet.js:18-21 | `add` updates the hash as `classNamesHash` does and returns the same set |
| ClassSet.ClassSet.Invert | src/modules/kd/utils/classSet.js:23-32 | `invert` turns the hash into its inversion in place and returns the same set |
| ClassSet.ClassSet.ToString | src/modules/kd/utils/classSet.js:33-45 | the loop's string is the serialisation of the hash |
| ClassSet.RecordTokens | src/modules/kd/utils/classSet.js:9-11 | the loop `hash[token] = true` leaves the hash as the tokens written one by one, in order |
| ClassSet.ClassNamesHash | src/modules/kd/utils/classSet.js:6-15 | a string is split and each token set to `true`; anything else is merged with `Object.assign` |
| ClassSet.NewClassSet | src/modules/kd/utils/classSet.js:48-50 | `classSet(config)` is a fresh empty set followed by adding `config` |
| ClassSet.ClassesOfJoin | src/modules/kd/button/button.js:17 | the classes of a single-space-joined string are its non-empty parts, in order |
| PrivateClassSet.ClassSetToString | src/modules/kd/utilsPrivate/classSet.js:6-16 | the stand-alone serialiser returns the same string as the class set's `toString` and changes nothing |
| ClassLists.Validate | src/modules/kd/utilsPrivate/classListMutation.js:12-14 | a DOMTokenList rejects a token exactly when it is empty or holds ASCII white space |
| ClassLists.TokenAdd | src/modules/kd/utilsPrivate/classListMutation.js:12 | a valid `add` leaves the token present and keeps the others; an invalid one throws and changes nothing |
| ClassLists.TokenRemove | src/modules/kd/utilsPrivate/classListMutation.js:14 | a valid `remove` leaves the token absent and keeps the others; an invalid one throws and changes nothing |
| ClassLists.VisitedCount | src/modules/kd/utilsPrivate/classListMutation.js:8-10 | the loop applies min(first key's length, number of keys) keys |
| ClassLists.DomTokenList.Add | src/modules/kd/utilsPrivate/classListMutation.js:12 | the live list changes as `TokenAdd` says and stays duplicate-free |
| ClassLists.DomTokenList.Remove | src/modules/kd/utilsPrivate/classListMutation.js:14 | the live list changes as `TokenRemove` says and stays duplicate-free |
| ClassLists.ClassListMutation | src/modules/kd/utilsPrivate/classListMutation.js:6-18 | the loop leaves the list, and any exception, exactly as the as-written mutation `Mutation` says |
| ClassLists.EmptyConfigThrows | src/modules/kd/utilsPrivate/classListMutation.js:7-8 | an empty config throws a TypeError and changes nothing |
| ClassLists.EmptyFirstKeyAppliesNothing | src/modules/kd/utilsPrivate/classListMutation.js:8-10 | when the first key is `""`, nothing at all is applied |
| ClassLists.StopsOnThrow | src/modules/kd/utilsPrivate/classListMutation.js:8-17 | once a key throws, later keys are not applied |
| ClassLists.ApplyKeysThrows | src/modules/kd/utilsPrivate/classListMutation.js:10-15 | the loop throws exactly when a non-empty applied key holds white space, and then it is an InvalidCharacterError |
| ClassLists.MutationEffect | src/modules/kd/utilsPrivate/classListMutation.js:8-17 | a token among the visited non-empty keys is present iff its flag is truthy; every other token is unchanged |
| ClassLists.IntendedMutationEffect | src/modules/kd/utilsPrivate/classListMutation.js:8-17 | with the bound `keys.length`, every non-empty key of the config is present iff its flag is truthy, and other tokens are unchanged |
| ClassLists.FirstKeyLengthBound | src/modules/kd/utilsPrivate/classListMutation.js:8 | for `{a: true, b: true}` the loop as written adds only `a`; the intended loop adds both |
| Dom.Element.GetAttribute | src/modules/kd/utilsPrivate/utilsPrivate.js:244 | an attribute is read back exactly when it is present |
| Dom.Element.SetAttribute | src/modules/kd/utilsPrivate/utilsPrivate.js:86 | `setAttribute` stores the value's string form under the name and touches nothing else |
| Dom.Element.RemoveAttribute | src/modules/kd/utilsPrivate/utilsPrivate.js:88 | `removeAttribute` removes that one attribute and touches nothing else |
| Dom.Element.SetProperty | src/modules/kd/utilsPrivate/utilsPrivate.js:102 | a property assignment changes that one property and no attribute |
| SyncAttrs.CamelCase | src/modules/kd/utilsPrivate/utilsPrivate.js:72-76 | replacing `-x` by upper-case `x` never lengthens a name and leaves a dash-free name unchanged |
| SyncAttrs.CamelCasePrefix | src/modules/kd/utilsPrivate/utilsPrivate.js:72-76 | text before the first dash is kept as it is |
| SyncAttrs.CamelCaseDash | src/modules/kd/utilsPrivate/utilsPrivate.js:72-76 | the first dash followed by a word character `x` is replaced, with `x`, by `x` upper-cased, and scanning resumes after `x` |
| SyncAttrs.CamelCaseKeepsDash | src/modules/kd/utilsPrivate/utilsPrivate.js:72-76 | the first dash that no word character follows is kept, and scanning resumes right after it |
| SyncAttrs.CamelCaseExamples | src/modules/kd/utilsPrivate/utilsPrivate.js:72-76 | `a-b` becomes `aB`, `a--b` becomes `a-B`, and a trailing dash stays |
| SyncAttrs.HtmlSyncedMeaning | src/modules/kd/utilsPrivate/utilsPrivate.js:80-91 | after the plain-element loop, a named attribute is present iff its value is truthy and then holds that value's string; unnamed attributes are untouched |
| SyncAttrs.LightningSyncedDomain | src/modules/kd/utilsPrivate/utilsPrivate.js:93-104 | the LIGHTNING loop assigns exactly the camel-cased names and leaves every other property unchanged |
| SyncAttrs.LightningSyncedLastWins | src/modules/kd/utilsPrivate/utilsPrivate.js:98-102 | each camel-cased property gets `value \|\| null` of the last key that camel-cases to it; an earlier key with the same name is overwritten |
| SyncAttrs.LightningSyncedValues | src/modules/kd/utilsPrivate/utilsPrivate.js:98-102 | when no two keys camel-case to the same name, each key's camel-cased property gets its `value \|\| null` |
| SyncAttrs.LightningSyncedCollision | src/modules/kd/utilsPrivate/utilsPrivate.js:98-102 | keys `a-b` then `aB` both name `aB`, and `aB` ends up with the value of the later key |
| SyncAttrs.SynchronizeHtmlElementAttrs | src/modules/kd/utilsPrivate/utilsPrivate.js:80-91 | the loop leaves the attributes as `HtmlSynced` says and no property changes |
| SyncAttrs.SynchronizeLightningElementAttrs | src/modules/kd/utilsPrivate/utilsPrivate.js:93-104 | the loop leaves the properties as `LightningSynced` says and no attribute changes |
| SyncAttrs.SynchronizeAttrs | src/modules/kd/utilsPrivate/utilsPrivate.js:111-119 | a null element is left alone; a `LIGHTNING*` tag gets properties, any other tag gets attributes |
| SyncAttrs.Reflected | src/modules/kd/utilsPrivate/utilsPrivate.js:129-143 | reflection touches only the named attribute, and a warned value changes nothing |
| SyncAttrs.ReflectStringReadBack | src/modules/kd/utilsPrivate/utilsPrivate.js:134-135 | any string, including `""`, is read back as the attribute's value |
| SyncAttrs.ReflectBoolean | src/modules/kd/utilsPrivate/utilsPrivate.js:136-139 | `true` sets the attribute to `""`; `false` removes it |
| SyncAttrs.ReflectFalsy | src/modules/kd/utilsPrivate/utilsPrivate.js:138-139 | a falsy non-string value removes the attribute |
| SyncAttrs.ReflectIdempotent | src/modules/kd/utilsPrivate/utilsPrivate.js:129-143 | reflecting the same value twice is the same as once |
| SyncAttrs.ReflectAttribute | src/modules/kd/utilsPrivate/utilsPrivate.js:129-143 | the element ends as `Reflected` says, with properties unchanged, and a warning is issued exactly for a truthy non-string other than `true` |
| ValueSetters.FirstEligible | src/modules/kd/utilsPrivate/utilsPrivate.js:210-219 | the loop's choice is the first constructor for which `instanceof`, the prototype match and the non-overwritten setter all hold, or none if there is none |
| ValueSetters.FirstEligibleIs | src/modules/kd/utilsPrivate/utilsPrivate.js:210-219 | an eligible constructor with no eligible one before it is the one chosen |
| ValueSetters.DecideMeaning | src/modules/kd/utilsPrivate/utilsPrivate.js:161-220 | `value` is assigned exactly when the element is valid and is a custom element or has an eligible constructor; the custom branch wins, and otherwise the first eligible constructor is used |
| ValueSetters.OverwrittenSetterNeverMatches | src/modules/kd/utilsPrivate/utilsPrivate.js:214 | an overwritten `value` setter rules out every constructor |
| ValueSetters.ValueSetter | src/modules/kd/utilsPrivate/utilsPrivate.js:161-220 | the element's `value` property is set once to `value` when `Decide` assigns, and nothing else changes |
| UtilsPrivate.GetRealDomId | src/modules/kd/utilsPrivate/utilsPrivate.js:240-245 | a non-empty string is returned as is, `""` gives `null`, an object gives its `id` attribute, anything else `null` |
| UtilsPrivate.GetRealDomIdStable | src/modules/kd/utilsPrivate/utilsPrivate.js:240-245 | applying `getRealDOMId` to a non-empty result returns that result again |
| UtilsPrivate.ButtonGroupOrderClass | src/modules/kd/utilsPrivate/utilsPrivate.js:380-399 | a class is returned exactly for the four group orders |
| UtilsPrivate.ButtonGroupOrderClassInjective | src/modules/kd/utilsPrivate/utilsPrivate.js:392-399 | distinct group orders give distinct classes |
| UtilsPrivate.IsUndefinedOrNull | src/modules/kd/utilsPrivate/utilsPrivate.js:285-287 | holds exactly for `undefined` and `null`, and only for falsy values |
| UtilsPrivate.HasOwnProperties | src/modules/kd/utilsPrivate/utilsPrivate.js:458-465 | the `for…in` loop over own and inherited names returns true exactly when the object has an own enumerable key |
| UtilsPrivate.PrivateContext.SetContext | src/modules/kd/utilsPrivate/utilsPrivate.js:469-471 | `getContext(that)` afterwards reads the stored context (a fresh `{}` when none is given), and every other component reads what it read before |
| UtilsPrivate.PrivateContext.GetContext | src/modules/kd/utilsPrivate/utilsPrivate.js:472-474 | a component with no stored context reads `undefined` |
| UtilsPrivate.PrivateContext.AssertContext | src/modules/kd/utilsPrivate/utilsPrivate.js:475-483 | throws exactly when the stored context is falsy and the feature flag is on |
| UtilsPrivate.StoredContext | src/modules/kd/utilsPrivate/utilsPrivate.js:469-478 | the stored value is the given context, or a fresh object when none is given; it is truthy, so `assertContext` passes, exactly when the context is omitted or truthy |
| EscapeHtml.EscapeHTMLIsPerChar | src/modules/kd/utilsPrivate/utilsPrivate.js:371-378 | the five chained replacements, `&` first, equal escaping each character on its own: no produced entity is re-escaped |
| EscapeHtml.ReplacementsDoNotInterfere | src/modules/kd/utilsPrivate/utilsPrivate.js:372-377 | no later replacement's character occurs in an earlier replacement's entity |
| EscapeHtml.EscapeRoundTrip | src/modules/kd/utilsPrivate/utilsPrivate.js:371-378 | decoding the five entities reverses `escapeHTML` on every string |
| EscapeHtml.EscapedHasNoMarkup | src/modules/kd/utilsPrivate/utilsPrivate.js:371-378 | the output holds no `<`, `>`, `"` or `'` |
| StyleUtils.HalinClass | src/modules/kd/layout/styleUtils.js:9-14 | there is a horizontal class exactly for the four table keys |
| StyleUtils.ValinClass | src/modules/kd/layout/styleUtils.js:16-21 | there is a vertical class exactly for the four table keys |
| StyleUtils.BoundaryClass | src/modules/kd/layout/styleUtils.js:23-27 | there is a boundary class exactly for the three table keys |
| StyleUtils.KeyListsInDefinitionOrder | src/modules/kd/layout/styleUtils.js:29-31 | the exported key lists are the tables' keys, distinct and in declaration order |
| StyleUtils.NormalizeParam | src/modules/kd/layout/styleUtils.js:36-42 | a truthy string is lower-cased and a falsy value becomes `" "`; the fallback defaults to `" "` and the valid list to `[]`; a truthy non-string throws |
| StyleUtils.NormalizeParamIdempotent | src/modules/kd/layout/styleUtils.js:37 | normalising the prepared value again gives the same request |
| StyleUtils.PickMeaning | src/modules/kd/layout/styleUtils.js:47-57 | `" "` is no table key, so each class is added exactly for a key of its table |
| StyleUtils.LayoutTokensShape | src/modules/kd/layout/styleUtils.js:44-64 | `kdds-grid` comes first; `kdds-wrap` is present iff `multiRows` is truthy, and then last; each table class is present iff its argument is a key of its table |
| StyleUtils.LayoutTokensWords | src/modules/kd/layout/styleUtils.js:44-64 | the layout tokens are distinct white-space-free words that are neither array indices nor reserved names |
| StyleUtils.LayoutClassString | src/modules/kd/layout/styleUtils.js:44-64 | the set serialises as its tokens joined by single spaces, in order grid, horizontal, vertical, boundary, wrap, and splitting that string gives the tokens back |
| StyleUtils.BuildLayout | src/modules/kd/layout/styleUtils.js:45-63 | the successive `add` calls leave the set holding exactly the layout tokens, in order, all `true` |
| StyleUtils.ComputeLayoutClass | src/modules/kd/layout/styleUtils.js:44-64 | `computeLayoutClass` returns a fresh set whose keys are the layout tokens, all `true` |
| Urls.FormatUrl | src/modules/kd/utilsPrivate/url.js:15-18 | a valid URL is returned unchanged; any other is prefixed by the protocol (`https:` when there is no window) and `//` |
| Urls.HttpPrefixValid | src/modules/kd/utilsPrivate/url.js:8 | `http://` and `https://` prefixes pass the URL check |
| Urls.FormatUrlValid | src/modules/kd/utilsPrivate/url.js:8-18 | with an http(s) protocol the result always passes the URL check, and formatting twice equals formatting once |
| Urls.SpacingOfBinade | src/modules/kd/utilsPrivate/url.js:31 | the doubles in [2^(53+k), 2^(54+k)) are 2^(k+1) apart |
| Urls.SpacingSignificand | src/modules/kd/utilsPrivate/url.js:31 | from 2^53 up, a number divided by the spacing at it lies in [2^52, 2^53): 53 significant bits |
| Urls.NearestDoubleIsNearest | src/modules/kd/utilsPrivate/url.js:31 | the value `String.fromCharCode` converts is a multiple of the spacing, at most half a spacing away, an even multiple on a tie, and the number itself below 2^53 |
| Urls.LargeCodeUnit | src/modules/kd/utilsPrivate/url.js:31 | from 2^69 up, a number converted to a double (or to Infinity) has code unit 0 |
| Urls.FromCharCodeDigits | src/modules/kd/utilsPrivate/url.js:31 | the decimal text of a number converts to the Number nearest to it |
| Urls.FromCharCodeDecimal | src/modules/kd/utilsPrivate/url.js:31 | below 2^53, `String.fromCharCode` of a decimal text gives the character of that number modulo 2^16 |
| Urls.FromCharCodeLarge | src/modules/kd/utilsPrivate/url.js:31 | from 2^69 up, `String.fromCharCode` of a decimal text gives U+0000 |
| Urls.FromCharCodeRounded | src/modules/kd/utilsPrivate/url.js:31 | 2^59 + 33 rounds to the double 2^59 and gives U+0000, not `!` |
| Urls.FromCharCodeNaN | src/modules/kd/utilsPrivate/url.js:31 | a reference that does not start with a digit is `NaN` (or infinite for `Infinity`) and decodes to U+0000 |
| Urls.FromCharCodeBarePrefix | src/modules/kd/utilsPrivate/url.js:31 | a radix prefix with no digits (`0x`, `0o`, `0b`) is `NaN` and decodes to U+0000 |
| Urls.DecodeReference | src/modules/kd/utilsPrivate/url.js:23-33 | `&#` followed by a word run and an optional `;` decodes to one character |
| Urls.DecodeEncodedReferences | src/modules/kd/utilsPrivate/url.js:29-33 | decoding the decimal references of every character of a BMP string gives back the string |
| Urls.StripControlEntitiesPlain | src/modules/kd/utilsPrivate/url.js:24 | without `&` there is no control entity to strip |
| Urls.StripControlsMeaning | src/modules/kd/utilsPrivate/url.js:25-27 | stripping keeps exactly the characters outside the four control ranges |
| Urls.CleanedShape | src/modules/kd/utilsPrivate/url.js:41-44 | the cleaned URL holds no control character and no white space at its ends |
| Urls.IsScriptOrDataMeaning | src/modules/kd/utilsPrivate/url.js:22 | the scheme test holds iff the text starts, ignoring ASCII case, with `data:` or with word characters followed by `script:` |
| Urls.ScriptRun | src/modules/kd/utilsPrivate/url.js:22 | in `<word>script:` the word run ends right before the colon, so backtracking finds `script` there |
| Urls.SanitizeURL | src/modules/kd/utilsPrivate/url.js:38-48 | the result is missing (a TypeError) exactly for a truthy non-string |
| Urls.SanitizeURLOutcome | src/modules/kd/utilsPrivate/url.js:38-48 | the result is the input or the fallback, never the cleaned text; it is the fallback iff the input is falsy or its cleaned form has a script or data scheme |
| Urls.SanitizeIdempotent | src/modules/kd/utilsPrivate/url.js:38-48 | sanitising a sanitised URL changes nothing |
| Urls.FallbackRefused | src/modules/kd/utilsPrivate/url.js:21-22 | the fallback URL is itself a refused scheme |
| Urls.ControlInSchemeRefused | src/modules/kd/utilsPrivate/url.js:27-45 | a control character hidden inside a script or data scheme does not get the URL through |
| Urls.ReferenceInSchemeRefused | src/modules/kd/utilsPrivate/url.js:23-45 | a numeric reference hiding a scheme character does not get the URL through |
| Urls.TabInJavascriptRefused | src/modules/kd/utilsPrivate/url.js:41-45 | `java<TAB>script:` is refused |
| Urls.ReferenceInJavascriptRefused | src/modules/kd/utilsPrivate/url.js:41-45 | `&#106;avascript:` is refused |
| Urls.NulReferenceInSchemeRefused | src/modules/kd/utilsPrivate/url.js:29-45 | a decimal reference that reads as U+0000 inside a script or data scheme does not get the URL through |
| Urls.RoundedReferenceInJavascriptRefused | src/modules/kd/utilsPrivate/url.js:29-45 | `java&#576460752303423521;script:` is refused |
| Urls.HttpsKept | src/modules/kd/utilsPrivate/url.js:45 | an `https://` URL is returned unchanged |
| Observables.Without | src/modules/kd/utilsPrivate/observable.js:24-26 | filtering never lengthens the observer list |
| Observables.WithoutMeaning | src/modules/kd/utilsPrivate/observable.js:24-26 | exactly the observers not strictly equal to the function remain, so every duplicate is removed |
| Observables.WithoutConcat | src/modules/kd/utilsPrivate/observable.js:24-26 | filtering preserves the relative order of the remaining observers |
| Observables.WithoutIdempotent | src/modules/kd/utilsPrivate/observable.js:23-29 | calling an unsubscribe twice is the same as once |
| Observables.SubscribeUnsubscribe | src/modules/kd/utilsPrivate/observable.js:23-29 | subscribing then unsubscribing a function is the same as unsubscribing it alone |
| Observables.WithoutNaN | src/modules/kd/utilsPrivate/observable.js:25 | a `NaN` observer is never removed, since `NaN !== NaN` |
| Observables.DeliveredMeaning | src/modules/kd/utilsPrivate/observable.js:32-34 | observers are called in list order with the same data; the calls reach the end iff every entry is callable |
| Observables.Observable.constructor | src/modules/kd/utilsPrivate/observable.js:18-20 | a new observable has no observers |
| Observables.Observable.Subscribe | src/modules/kd/utilsPrivate/observable.js:22-30 | the function is appended at the end, and the unsubscribe handle names it |
| Observables.Observable.Unsubscribe | src/modules/kd/utilsPrivate/observable.js:23-29 | the list becomes the old list without that function |
| Observables.Observable.Notify | src/modules/kd/utilsPrivate/observable.js:32-34 | the calls are exactly those delivered, a TypeError is raised iff some entry is not callable, and the list is not changed |
| Scroll.OnEvent | src/modules/kd/utilsPrivate/scroll.js:8-17 | every call leaves `ticking` true and delivers nothing |
| Scroll.OnEventSchedules | src/modules/kd/utilsPrivate/scroll.js:9-16 | a call while idle schedules exactly one frame, with its event; a call while ticking schedules nothing |
| Scroll.OnFrameDelivers | src/modules/kd/utilsPrivate/scroll.js:11-14 | the frame delivers the event of the call that scheduled it, leaves no frame pending, and clears `ticking` unless `fn` threw |
| Scroll.TickingDrops | src/modules/kd/utilsPrivate/scroll.js:9-16 | any number of calls while ticking changes nothing |
| Scroll.BurstDeliversFirst | src/modules/kd/utilsPrivate/scroll.js:9-16 | a burst of calls before one frame delivers only the first event, and the throttle is idle again |
| Scroll.ThrowStops | src/modules/kd/utilsPrivate/scroll.js:12-13 | after `fn` throws, `ticking` stays true, so later calls are dropped for good |
| Scroll.RafThrottle.constructor | src/modules/kd/utilsPrivate/scroll.js:7 | a new throttle is idle with nothing scheduled |
| Scroll.RafThrottle.Call | src/modules/kd/utilsPrivate/scroll.js:8-17 | the state changes as `OnEvent` says |
| Scroll.RafThrottle.RunFrame | src/modules/kd/utilsPrivate/scroll.js:11-14 | the state changes as `OnFrame` says |
| TextUtils.HexDigitsValue | src/modules/kd/utilsPrivate/textUtils.js:6 | the hex digits of a number read back as that number |
| TextUtils.HexValueDigits | src/modules/kd/utilsPrivate/textUtils.js:6 | a hex string is the lower-cased digits of its own value |
| TextUtils.HexColorAccepted | src/modules/kd/utilsPrivate/textUtils.js:14-21 | every `#` plus six hex digits of a colour value is accepted |
| TextUtils.AcceptedIsHexColor | src/modules/kd/utilsPrivate/textUtils.js:14-21 | every accepted value is such a colour string, up to ASCII case |
| TextUtils.Rejected | src/modules/kd/utilsPrivate/textUtils.js:6-19 | non-strings, `""`, lengths other than 7, and colours with a leading or trailing character are rejected |
| PageReferences.PageReferenceMeaning | src/modules/kd/utilsPrivate/pageReference.js:12-23 | the result is truthy iff the object, its string `type` and its object `attributes` are truthy and every own key is allowed; then it is `true`, otherwise the first falsy operand or `false` |
| PageReferences.FalsyIsResult | src/modules/kd/utilsPrivate/pageReference.js:14 | a falsy argument is itself the result |
| PageReferences.StateUnchecked | src/modules/kd/utilsPrivate/pageReference.js:6-10 | the value of `state` does not affect the result |
| PageReferences.BuiltPageReference | src/modules/kd/utilsPrivate/pageReference.js:6-23 | a reference with a non-empty type and object attributes is valid, and adding any other key makes it invalid |
| FormatUtils.OptionsCopied | src/modules/kd/utilsPrivate/formatUtils.js:22-35 | the ten date fields are copied unchanged |
| FormatUtils.HourSettings | src/modules/kd/utilsPrivate/formatUtils.js:29-49 | without `_hour12Set` both hour fields are unset; `hour12 === false` gives `hourCycle` `h23`; any other `hour12` is copied; never both |
| FormatUtils.FormattedDateOutcome | src/modules/kd/utilsPrivate/formatUtils.js:63-83 | the result is `""` iff the date is invalid or the formatter gives `""`, and a warning is issued exactly then for a truthy value |
| FormatUtils.FormattedNumberOutcome | src/modules/kd/utilsPrivate/formatUtils.js:117-167 | null, undefined, `""` or non-finite gives `""`; `percent-fixed` is formatted as `percent` of the scaled value; any other style formats `String(value)` |
| FormatUtils.FormatterNeverSeesPercentFixed | src/modules/kd/utilsPrivate/formatUtils.js:126-145 | the number formatter is never handed the string style `percent-fixed`: that style is replaced by `percent` before the call |
| FormatUtils.FormattedNumberReadsOnly | src/modules/kd/utilsPrivate/formatUtils.js:118-135 | two instances that agree on `value`, `formatStyle` and the seven option properties format to the same string |
| FormatUtils.FormattedLocationOutcome | src/modules/kd/utilsPrivate/formatUtils.js:95-105 | valid coordinates give `latitude, longitude` with no warning; otherwise `""` and a warning |
| Buttons.ComputedClassNames | src/modules/kd/button/button.js:13-18 | the classes of `computedClass` are `kdds-button`, then `kdds-button kdds-button_<variant>` unless the variant is `base`, then the disabled and stretch classes when set |
| Buttons.DisabledClass | src/modules/kd/button/button.js:14-16 | `kdds-button_disabled` is present iff `disabled` is truthy or the variant is named `disabled`; likewise for stretch |
| Buttons.VariantNamedDisabled | src/modules/kd/button/button.js:14 | the variant `disabled` alone produces the disabled class |
| Buttons.TrailingSeparators | src/modules/kd/button/button.js:17 | without stretch the string ends in a space; the `base` variant with no flags is `kdds-button` and three spaces |
| Buttons.IconPlacement | src/modules/kd/button/button.js:20-31 | the left and right icons are never both shown, and neither without an icon name; the icon class is the left class only for `left` and the right class otherwise |
| Buttons.HandlerEffects | src/modules/kd/button/button.js:33-59 | click always stops the native event and dispatches `click` iff not disabled; focus and blur do both iff not disabled |
| Buttons.KdButton.constructor | src/modules/kd/button/button.js:4-11 | a new button has variant `neutral`, icon position `left` and no events |
| Buttons.KdButton.HandleButtonFocus | src/modules/kd/button/button.js:33-40 | the log grows by the focus effects, and the properties are unchanged |
| Buttons.KdButton.HandleButtonBlur | src/modules/kd/button/button.js:42-49 | the log grows by the blur effects, and the properties are unchanged |
| Buttons.KdButton.HandleButtonClick | src/modules/kd/button/button.js:51-59 | the log grows by the click effects, and the properties are unchanged |
| Icons.IconPathRoundTrip | src/modules/kd/icon/icon.js:10-12 | the sprite path names the icon, and any sprite path is the path of the name it carries |
| Icons.IconPathInjective | src/modules/kd/icon/icon.js:10-12 | distinct icon names give distinct paths |
| Icons.ContainerStyleColor | src/modules/kd/icon/icon.js:14-18 | there is no style iff the fill colour is falsy; otherwise the style sets exactly that colour |
| Icons.IconClasses | src/modules/kd/icon/icon.js:20-22 | the classes are `kdds-icon`, `kdds-icon--<size>` and the SVG class's text when that is non-empty |
| Icons.DefaultIconClass | src/modules/kd/icon/icon.js:5-22 | a new icon carries the medium size class and a class named `undefined` |

## Left out

- `normalizeString` of `utilsPrivate/normalize.js` is not part of this model. `StyleUtils.NormalizeParam` returns the request it would receive: the prepared value, the fallback and the valid list.
- String case mapping: `toLowerCase` in `normalizeParam` is modelled as ASCII case mapping; other Unicode letters keep their case. The `/i` regular expressions without the `u` flag ignore ASCII case only, as modelled.
- In `formatUtils.js`, numbers are integers plus `NaN`. Floating point, `parseFloat`, `toFixed` and the division of `percent-fixed` are left out: the scaled value is the parameter `percentFixed`.
- The Intl formatters, `isValidDate`, `isValidLatitude`, `isValidLongitude` and the global `isFinite` are parameters. So are the browser's `window.location.protocol`, `customElements.get`, the custom-element name pattern, `instanceof` and the setter-descriptor comparison, because they are host facilities.
- `console.warn` text: only the fact that a warning is issued is recorded.
- `dispatchEvent` and `stopPropagation` are entries appended to an event log. Component rendering, the `@api` decorators, `KingdeeElement` and the empty lifecycle callbacks (icon.js:24-26) are left out.
- Dom.Element.SetAttribute and Dom.Element.RemoveAttribute: the attribute name is stored and removed as given. On an HTML element the DOM lower-cases it (`Foo` is stored as `foo`), and `setAttribute` with an invalid name such as `""` throws an InvalidCharacterError, which would stop `synchronizeHTMLElementAttrs` mid-loop. Neither is modelled.
- Observables.Observable.Notify: an observer that subscribes or unsubscribes during `notify` is not modelled; observers are opaque values whose call is recorded.
- Scroll.RafThrottle: the `this` binding passed to `fn.call` is not modelled.
- UtilsPrivate.ButtonGroupOrderClass: a name inherited from `Object.prototype` (such as `toString`) returns that inherited function in the source; the model returns no class.
- PageReferences.PageReferenceMeaning: `type` and `attributes` are read from own properties only; values inherited through the prototype chain are not modelled.
- UtilsPrivate.HasOwnProperties: inherited enumerable names are a parameter list disjoint from the own keys.
- JsValues.ToStr: numbers are integers throughout the model, so `Num(n)` always prints as plain decimal digits. `String()` gives the exponent form from 10^21 up (`String(1e21)` is `"1e+21"`), and fractions, `Infinity`, `-Infinity` and `-0` (which prints as `"0"`) have no `Num` value here. Everything built on `ToStr` (`SyncAttrs.HtmlSynced`, the button class names, the string that `toFormattedNumber` hands to its formatter) inherits this.
- Urls.FromCharCode: a code unit in the surrogate range D800-DFFF becomes U+FFFD, because strings here are sequences of Unicode scalar values. The source produces a lone surrogate, and two adjacent references can form one character (`&#55357;&#56832;` is one emoji there, two U+FFFD here). No `sanitizeURL` verdict depends on it: neither is a word, white-space or control character.
- Urls.StringToNumber: a decimal literal is rounded exactly to the nearest double. The language lets an implementation approximate a literal of more than 20 significant digits, which can change the code unit only for such literals below 2^69.
- Urls.SanitizeURL: a truthy non-string input throws a TypeError in the source (it has no `replace`); the model returns no result for it.
- Buttons.ComputedClassNames and Buttons.DisabledClass: the class list is stated for variants whose text holds no white space; a variant with spaces splits into further classes.
- Icons.IconClasses: stated for a size and SVG class whose text holds no white space.
- ClassSet.ClassSet.Add: tokens named `add`, `invert` or `toString` are excluded by precondition. They name the set's inherited non-writable methods, so in the source, an ES module and hence strict code, `hash[token] = true` and `Object.assign` throw a TypeError for them.
- The re-exported modules of `utilsPrivate.js` and its browser helpers (`getShadowActiveElement(s)`, `isRTL`, `isDesktopBrowser`, `getZIndexBaseline`, `timeout`, `animationFrame`, the Dragon input decoration) are outside this model.

## Findings

| source | as written | input that shows it | evidently intended | confidence | as-written member | corrected member |
|---|---|---|---|---|---|---|
| src/modules/kd/utilsPrivate/classListMutation.js:8 | the loop bound is `keys[0].length`, the character length of the first key | `classListMutation(list, {a: true, b: true})` adds only `a`; an empty config throws a TypeError | the bound `keys.length`, so every key is applied | not executed | ClassLists.FirstKeyLengthBound | ClassLists.IntendedMutationEffect |
