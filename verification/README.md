# CustomProperties, modelled in Dafny

`CustomProperties` keeps an ordered, comment-preserving picture of a Java `key=value`
properties file and edits it. It works with two files:

- **The file to write.** Its lines are read into a `LinkedHashMap` of properties. A key that
  appears on several lines is counted in `duplicatedKeys`, and its values are stacked in the
  `duplicatedValues` deques. Every line is also kept verbatim in `oldContent`.
- **The structure reference.** Its lines are replayed into `contentList`, each property line
  taking the value the file to write gives its key. Duplicated keys are matched up by position,
  polling their deque from the tail.

The editor (`insertOrUpdate` and the methods it calls) rewrites the last line of a key, or
inserts a new line after the last line of an anchor key. `iAmChinesePropertiesFile` runs the
editor over the whole content. The read-only queries report empty, missing and bad keys and
search by name. `writeContentAsString` writes the content back with non-ASCII characters,
CR and LF escaped as `\uXXXX`, the Unicode escape of section 3.3 of the Java Language
Specification.

Modules, one per part of the class:

| file | module | what it holds |
|---|---|---|
| `wrappers.dfy` | `Wrappers` | `Option` (Java `null`) and `Result` (a thrown exception) |
| `java_strings.dfy` | `JavaStrings` | `String.split` with one separator char (trailing empty pieces dropped), `indexOf`, `lastIndexOf`, `trim`, `startsWith` |
| `selection.dfy` | `Selection` | `Select`/`Collect`: the indices of a range that pass a filter, and one record per such index, used to state what an accumulating loop returns |
| `linked_map.dfy` | `LinkedMaps` | `LinkedHashMap<String,String>` as a key order plus a map; `put` keeps the place of a key already there |
| `line_classifier.dfy` | `LineClassifier` | `isProperties`, `getKeyFromString`, `getValueFromString`, `formContent`, `getContentListKey`, `lastIndexOf` on keys |
| `target_parse.dfy` | `TargetParse` | `loadProperties` as a function on the fields it fills; what reading a whole file leaves |
| `reconciliation.dfy` | `Reconciliation` | `loadContent` as a function; what replaying the reference leaves |
| `editor.dfy` | `Editor` | the content edit of `insertOrUpdate`; the picture after `iAmChinesePropertiesFile` has visited `i` lines |
| `queries.dfy` | `Queries` | the read-only queries and `PropertiesDifferent` |
| `codec.dfy` | `Codec` | `escapeUnicode` and a local decoder for its `\uXXXX` output |
| `writer.dfy` | `Writer` | `writeContentAsString` |
| `paths.dfy` | `Paths` | `getLocaleName`, `getTempParentFolder`, `generateTempAbsolutePath` |
| `custom_properties.dfy` | `PropertiesFile` | the class `CustomProperties`: its fields, and the methods that change them in place |

`PropertiesDifferent.java` is the datatype `Queries.PropertiesDifferent`, with four fields.
The original value is an `Option`, because `findBadKeys` stores a reference value that can be
`null` there.

Java strings are Dafny strings. `escapeUnicode` walks UTF-16 units, so a character outside the
Basic Multilingual Plane is escaped as its two surrogates (`Codec.EscapeChar`). A line made
only of `=` makes `split("=")` return an empty array (the trailing empty pieces are dropped);
`getKeyFromString` then indexes it out of bounds. A line such as `=x` is fine: its key is the
empty string. Every member that reads a key therefore requires `HasKey`, which says the line is
not made only of `=`, the condition under which the split is non-empty (`JavaStrings.SplitEmpty`).

## Model

| member | source | states |
|---|---|---|
| LineClassifier.IsPropertySpec | CustomProperties.java:223-229 | a line is a property line exactly when its trimmed text starts with none of `#`, `/-`, `=` and contains `=`; containing `=` in the trimmed text and in the line are the same |
| LineClassifier.SkipBlanks | CustomProperties.java:223-229 | the same test read at the first non-blank character: not `#`, not `=`, not `/-`, and a `=` from there on |
| LineClassifier.PropertyKey | CustomProperties.java:223-229 | every property line has a non-empty key that is not blank after trimming, holds no `=`, and is followed by the line's first `=` |
| LineClassifier.KeyOfSplit | CustomProperties.java:279-282 | on a line with `HasKey`, the split on `=` has a first piece and the key is that piece; the key holds no `=` |
| LineClassifier.ValueOfSplit | CustomProperties.java:268-277 | the value is the pieces of the split after the first, glued together (so `a=b=c` gives `bc` and a line without `=` gives the empty string), and it holds no `=` |
| PropertiesFile.CustomProperties.GetValueFromString | CustomProperties.java:268-277 | the loop over the split pieces returns exactly that value |
| LineClassifier.KeyThenSeparator | CustomProperties.java:279-282 | on a line holding `=`, the key is followed by the first `=` |
| LineClassifier.FormContentRoundTrip | CustomProperties.java:576-582 | a line formed from a key without `=` reads back to that key, and to the value with its `=` removed |
| Editor.FormContentIsProperty | CustomProperties.java:576-582 | a property line's key with a non-empty value forms a property line again |
| PropertiesFile.CustomProperties.GetContentListKey | CustomProperties.java:388-395 | the loop returns the keys of `contentList` in order |
| PropertiesFile.CustomProperties.GetReferenceContentListKey | CustomProperties.java:397-404 | the loop returns the keys of `referenceContentList` in order |
| LineClassifier.LastKeyedSpec | CustomProperties.java:541-547 | `lastIndexOf` on the keys is -1 exactly when no line has the key; otherwise its line has the key and no later line does |
| LinkedMaps.LinkedMap.Put | CustomProperties.java:261 | after `put` the key is bound to the value and every other binding stays; a key already there keeps its place, and a new key goes at the end |
| LinkedMaps.PutPresent | CustomProperties.java:563-569 | putting the value a key already has changes nothing |
| LinkedMaps.PutIdempotent | CustomProperties.java:563-569 | putting the same binding twice is putting it once |
| TargetParse.RecordSameKey | CustomProperties.java:245-261 | one more value for a key: the map holds it, the count is the number of values once there are two, and the deque holds them all with the newest at the head |
| TargetParse.RecordOtherKey | CustomProperties.java:245-261 | recording a value for one key leaves the bookkeeping of every other key alone |
| TargetParse.LoadLineSameKey | CustomProperties.java:235-266 | loading a property line adds its value to its key's occurrences |
| TargetParse.LoadLineOtherKey | CustomProperties.java:235-266 | loading any other line leaves a key's bookkeeping alone |
| TargetParse.LoadAllSpec | CustomProperties.java:235-266 | after reading a file, for every key with property-line values `occ`: it is in the map exactly when `occ` is not empty, bound to the last value; it is in both duplicate maps exactly when `occ` has two or more values, its count the number of those values, with all of `occ` on its deque, newest first |
| TargetParse.LoadAllOldContent | CustomProperties.java:237 | `oldContent` is every line read, whatever its kind, each followed by a line feed |
| TargetParse.PutMembers | CustomProperties.java:261 | putting a property line's key gives exactly the keys whose first property line is among the lines read |
| TargetParse.PutKeys | CustomProperties.java:261 | putting a property line's key keeps the map's keys in the order of their first property lines |
| TargetParse.LoadLineOrder | CustomProperties.java:235-266 | loading a line keeps the map in first-occurrence order |
| TargetParse.LoadAllOrder | CustomProperties.java:261 | after reading a file the map's order is the order of the keys' first property lines |
| PropertiesFile.CustomProperties.LoadProperties | CustomProperties.java:235-266 | the fields change exactly as `LoadLine` says, and both content lists stay as they were |
| Reconciliation.PolledStep | CustomProperties.java:208 | polling the tail of a deque polled `c` times gives its `c`-th value from the tail, or `null` once it is empty |
| Reconciliation.ReplayLineSpec | CustomProperties.java:202-216 | replaying one more reference line keeps the replay invariant: one content line per reference line, each the expected one, and each deque polled once per earlier reference line of its key |
| Reconciliation.ReplayAllSpec | CustomProperties.java:202-216 | replaying a whole reference establishes that invariant |
| Reconciliation.ExpectedTracked | CustomProperties.java:202-216 | the line expected for a reference property line: copied when the key is unknown, `key=value` for a key seen once, and for a duplicated key its `c`-th value from the file to write, or `null` once they run out |
| Reconciliation.LoadedKeys | CustomProperties.java:245-259 | after reading a file, duplicated keys are keys of the map, and the two duplicate maps have the same keys |
| Reconciliation.ExpectedReconciled | CustomProperties.java:202-216 | the expected line, computed from the loaded fields, is the one `Reconciled` describes from the two files' lines alone |
| Reconciliation.LoadThenReplay | CustomProperties.java:155-156 | reading the file to write and then replaying the reference gives the reference verbatim as `referenceContentList`, and one `Reconciled` line per reference line as `contentList` |
| Reconciliation.ReconcileSelf | CustomProperties.java:202-216 | a file reconciled against itself gives every property line back as its key, `=` and its own value, even for a key on several lines |
| Reconciliation.OccurrencesAppend | CustomProperties.java:245-261 | the values of a key over two runs of lines are those of the first run followed by those of the second |
| PropertiesFile.CustomProperties.LoadContent | CustomProperties.java:202-216 | the content lists and deques change exactly as `ReplayLine` says, and the map, counts and `oldContent` stay as they were |
| PropertiesFile.CustomProperties.Initialize | CustomProperties.java:137-196 | after loading, the map and counts are those of reading the file to write, `oldContent` is its lines, `referenceContentList` is the reference, and `contentList` has the reconciled line for each reference line; the map is in first-occurrence order |
| PropertiesFile.CustomProperties.constructor | CustomProperties.java:112-114 | a new object is initialised from the two files |
| Editor.InsertAt | CustomProperties.java:557-561 | `add(index, line)`: one more line, the new one at the index, the lines before it in place and the lines after it shifted by one |
| Editor.UpdateExisting | CustomProperties.java:541-545 | when a line has the key, the last such line becomes `key=value` and nothing else changes |
| Editor.InsertNew | CustomProperties.java:546-549 | when no line has the key, `key=value` goes right after the last line of the anchor key, or first when no line has it, and the other lines keep their order |
| Editor.InsertNewOnce | CustomProperties.java:546-549 | for a non-empty key without `=`, an inserted key occurs on exactly one line, the inserted one |
| Editor.EditKeys | CustomProperties.java:538-555 | for a non-empty key without `=`, after the edit the last line with the key is `key=value` |
| Editor.EditKeysUpdate | CustomProperties.java:541-545 | rewriting a line keeps the key's last line where it was |
| Editor.EditKeysInsert | CustomProperties.java:546-549 | an inserted key's last line is just after the anchor key's last line |
| Editor.InsertOrUpdateIdempotent | CustomProperties.java:538-555 | for a non-empty key without `=`, applying the same content edit twice gives the content of applying it once |
| Editor.InsertOrUpdateSeparatorKey | CustomProperties.java:538-555 | for a key holding `=` that no line has, the written line has another key, so a second call inserts one more line |
| PropertiesFile.CustomProperties.InsertOrUpdate | CustomProperties.java:538-555 | returns true exactly when the value is non-null and non-empty; then the content is edited as `InsertOrUpdateContent` says and the map gets the binding; otherwise nothing changes, whatever the content holds |
| PropertiesFile.CustomProperties.InsertContentByLineNumber | CustomProperties.java:557-561 | the formed line is inserted at the index, and the map gets the binding |
| PropertiesFile.CustomProperties.InsertOrUpdatePropertiesMap | CustomProperties.java:563-569 | replacing a present key and putting a new one are both the `LinkedHashMap` put |
| PropertiesFile.CustomProperties.ModifyByKey | CustomProperties.java:590-595 | the line at the index becomes the formed line, and the map gets the binding |
| Editor.ChinesePropsSpec | CustomProperties.java:715-726 | after the visit, each key with a property line is bound to itself, other keys keep their values, and the keys already there keep their order at the front |
| Editor.ChineseKeys | CustomProperties.java:715-726 | the visit rewrites lines without changing any line's key, so each key's last line stays where it was |
| Editor.ChineseStepProperty | CustomProperties.java:719-722 | visiting an original property line writes `key=key` on the last line with its key, giving the next picture |
| Editor.ChineseStepOther | CustomProperties.java:719-722 | visiting any other line changes nothing, even a line an earlier visit turned into a property line |
| Editor.ChineseStep | CustomProperties.java:718-724 | what the walk reads at line `i`: a property line whose key is non-empty, whose edit leads to the next content and map, or a line that leaves both alone |
| PropertiesFile.CustomProperties.IAmChinesePropertiesFile | CustomProperties.java:715-726 | the walk over the content it is rewriting ends on the picture after every line is visited, and on the map where every property line's key is bound to itself |
| Queries.EmptyKeysFromSpec | CustomProperties.java:328-340 | the accumulating walk over the map yields one record per key with an empty value |
| Queries.EmptyKeyListSpec | CustomProperties.java:328-340 | in map order, one record `(k, k, "", previous map key)` per key whose value is empty |
| Queries.ToTranslateFromSpec | CustomProperties.java:480-494 | the accumulating walk over the content yields one record per property line whose key the map lacks |
| Queries.KeysToTranslateSpec | CustomProperties.java:480-494 | in content order, one record `(key, value of the line, "", key of the previous line)` per property line whose key the map lacks |
| Queries.ReferenceValueByKeySpec | CustomProperties.java:433-442 | `null` exactly when no reference line has the key; otherwise the value of the last line that has it |
| Queries.BadKeysFromSpec | CustomProperties.java:502-514 | the accumulating walk over the map yields one record per bad key |
| Queries.BadKeysSpec | CustomProperties.java:502-527 | in map order, one record per key whose value is empty, with the reference value, the empty value and the previous map key |
| Queries.KeysByValueFromSpec | CustomProperties.java:465-473 | the accumulating walk over the map yields the keys bound to the value |
| Queries.KeysByValueSpec | CustomProperties.java:465-473 | in map order, exactly the keys bound to the value, each once |
| Queries.KeyBoundToValue | CustomProperties.java:465-473 | every key bound to the value is found |
| Queries.KeysByReferenceValueAsWrittenOnlyValues | CustomProperties.java:449-458 | as written, the query returns nothing but copies of the value searched for |
| Queries.KeysByReferenceValueCounterexample | CustomProperties.java:449-458 | on the reference `a=1`, searching for `1` yields `1` rather than the key `a` |
| Queries.KeysByReferenceValueFromSpec | CustomProperties.java:449-458 | the corrected walk yields one key per reference line whose value matches |
| Queries.KeysByReferenceValueSpec | CustomProperties.java:449-458 | corrected: in reference order, the key of each line whose value is the value searched for |
| Queries.FilterDiffsFromSpec | CustomProperties.java:838-850 | filtering the records to translate keeps, in order, those that match the name and the searched value |
| Queries.NameLikeFromSpec | CustomProperties.java:852-870 | the walk over the content yields one record per property line whose key contains the name and whose reference value matches |
| Queries.AllByNameLikeAndReferenceValueLikeSpec | CustomProperties.java:836-873 | with `keysToTranslateOnly`, the records to translate that match, in order; otherwise one record `(key, reference value, value or "", previous line key)` per matching property line of the content |
| Queries.AllByNameLikeSpec | CustomProperties.java:825-827 | every record found has a key containing the name; among the records to translate, exactly those whose key contains it are found |
| Queries.KeysByNameLikeFromSpec | CustomProperties.java:880-890 | the walk over the content yields the keys of the matching property lines |
| Queries.KeysByNameLikeSpec | CustomProperties.java:880-890 | in content order, the key of each property line whose key contains the name, ignoring case |
| Codec.EscapeCharSpec | CustomProperties.java:763-774 | ASCII other than CR and LF is copied; LF is `\u000a`, CR is `\u000d`; a character from 128 to U+FFFF is `\u` and four upper-case hex digits of its code (a character above U+FFFF is two such escapes, one per surrogate) |
| Codec.Hex4RoundTrip | CustomProperties.java:765 | the four upper-case hex digits read back to the code they were formed from |
| Codec.SurrogatesCombine | CustomProperties.java:763 | a supplementary character's two UTF-16 units combine back into its code |
| Codec.EscapedIsPlain | CustomProperties.java:760-779 | the escaped text is plain: every character below 128, and no CR or LF |
| Codec.EscapeUnicode | CustomProperties.java:760-779 | the loop, one character at a time, builds exactly the escaped text (which `Codec.EscapedIsPlain` shows is plain) |
| Codec.EscapedAppend | CustomProperties.java:760-779 | escaping distributes over concatenation |
| Codec.EscapedPlain | CustomProperties.java:760-779 | plain text escapes to itself |
| Codec.EscapedIdempotent | CustomProperties.java:760-779 | escaping twice is escaping once |
| Codec.EscapeCharDecodes | CustomProperties.java:763-774 | each character other than a backslash decodes back from its escape |
| Codec.UnescapeEscape | CustomProperties.java:760-779 | text without backslashes decodes back from its escape |
| Writer.WriteFromTerminated | CustomProperties.java:690-709 | the output is the written lines, escaped, each followed by a line feed |
| Writer.WriteContentSpec | CustomProperties.java:690-709 | the output is ASCII without CR; cut at line feeds it gives, in order, the escaped text of every non-property line and every property line whose key is in the map, with nothing after the last line feed; such a line free of backslashes decodes back |
| Writer.WriteLine | CustomProperties.java:693-706 | one line gives its escaped text and a line feed when it is a comment line or a property line whose key is in the map, nothing otherwise |
| Writer.WriteLines | CustomProperties.java:690-709 | the loop over the content, appending each line's piece in turn, returns exactly the output above |
| Writer.WritePrefixFrom | CustomProperties.java:690-709 | what the loop has built after `i` lines, followed by the output of the remaining lines, is the whole output |
| PropertiesFile.CustomProperties.WriteContentAsString | CustomProperties.java:690-709 | returns the output above for the object's current content and map, changing nothing |
| Paths.LocaleName | CustomProperties.java:803-817 | the call fails exactly when the name is made only of dots; otherwise the locale holds no `_` |
| Paths.LocaleNameOf | CustomProperties.java:803-817 | `base_locale.ext` gives `locale` |
| Paths.LocaleNameDefault | CustomProperties.java:808-812 | a name without `_` before its first dot gives the empty locale |
| Paths.TempParentFolderParts | CustomProperties.java:625-631 | read back as a path, the temp folder's last `\` separates the parent (as `null` renders) from the folder name `temp` |
| Paths.GenerateTempAbsolutePath | CustomProperties.java:614-623 | fails exactly when the name is made only of dots; otherwise the temp folder, `\`, the name up to its first dot, `_`, the timestamp in decimal and `.properties` |
| Paths.DecimalRoundTrip | CustomProperties.java:621 | the decimal form of the timestamp reads back to it |
| Paths.TempPathParts | CustomProperties.java:614-623 | the file name sits directly in the temp folder, and its stem is the original stem, `_` and a timestamp that reads back |

## Left out

- File I/O and charsets are not modelled: the ISO-8859-1 reads, the UTF-8 writes, `saveToFile` and `saveToFileWithVersioning`. Loading takes the two files as sequences of lines.
- `StringEscapeUtils.unescapeJava` is a library call applied to every line read. The lines given to `Initialize` are taken to be already unescaped.
- `Codec.UnescapeUnicode` decodes only the `\uXXXX` subset, on backslash-free text. `escapeUnicode` leaves backslashes alone, so text that contains them has no round trip to claim.
- The write queue and its threads are not modelled: `fileWritingQueueFifo`, `isFileWriting`, `waitForQueue` and the sleeping loop in `initialize`.
- The clock and the file system are parameters. `generateTempAbsolutePath` takes the timestamp, the file name and the parent (as an `Option`, `null` rendering as `null`).
- Plain accessors are not modelled: the getters and setters, `getContentList`, `getContentListValue`, `containsKey`, `containsValue`, `getValueByKey`, `writeOldContentAsString`, `size`, `getName`, `refresh` (which is `initialize` again) and the instance `getLocaleName`.
- `generateChinesePropertiesFile` is not modelled. It is a constructor call, `iAmChinesePropertiesFile` and a save to disk.
- `Queries.KeysByNameLikeSpec`: `StringUtils.containsIgnoreCase` is modelled with ASCII case folding only, not Unicode case mapping.
- `Queries.AllByNameLikeAndReferenceValueLikeSpec`: the reference-value match uses the same ASCII-only case folding.
- A Java `String` may hold a lone surrogate; a Dafny string cannot, so `escapeUnicode` is modelled on well-formed text only.
- `null` arguments are modelled only for the value of `insertOrUpdate` and the searched value of `findAllByNameLikeAndReferenceValueLike`. The null check of `formContent` is reached through `modifyByKey` only (see the next line).
- `PropertiesFile.CustomProperties.ModifyByKey`: takes a non-null value and requires an index inside `contentList`. A null value, which writes the bare key as the line and binds the key to null in the map, is not modelled, because the map holds strings. An index out of range, which throws `IndexOutOfBoundsException`, is excluded by the precondition.
- `PropertiesDifferent.toString` is library reflection and is not modelled.
- `Editor.InsertNewOnce`, `Editor.EditKeys` and `Editor.InsertOrUpdateIdempotent` require a non-empty key without `=`. The source accepts any key, and for a key holding `=` it is not idempotent (see Findings).
- `Queries.KeysByReferenceValueSpec` states the corrected query (see Findings). It requires that the matching reference lines have a key, which is what `getKeyFromString` needs on them.

## Findings

| source | as written | input that shows it | evidently intended | confidence | as-written member | corrected member |
|---|---|---|---|---|---|---|
| CustomProperties.java:449-458 | `getKeysByReferenceValue` adds the value it was given to the result, once for each reference line whose value matches | reference `a=1`, value `1`: the result is `[1]`, not `[a]` | return the key of each matching reference line | not executed | Queries.KeysByReferenceValueCounterexample | Queries.KeysByReferenceValueSpec |
| CustomProperties.java:538-555 | `insertOrUpdate` looks the key up among the lines' keys, but writes `key=value`, whose key is the text before the first `=` | content empty, key `a=b`, value `v`: the first call writes `a=b=v` (key `a`); the second finds no line keyed `a=b` and inserts `a=b=v` again | a second call with the same arguments changes nothing | not executed | Editor.InsertOrUpdateSeparatorKey | Editor.InsertOrUpdateIdempotent |
