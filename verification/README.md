# atlas-checks flag pipeline, modelled in Dafny

This project models the flag-handling core of atlas-checks and proves properties of that model. The core covers:

- how a rule's flag becomes a GeoJSON FeatureCollection (`CheckFlagEvent`);
- how that text is archived and read back (`GeoJsonCheckFlag`, `FlagReader`);
- how two sets of flag logs are compared (`AtlasChecksLogDiffSubCommand`);
- how flags are batched and uploaded per check to MapRoulette (`MapRouletteClientProcessor`);
- the decision logic of two rules: `InvalidTurnRestrictionCheck` and `ColumbiaAbbreviateStreetNamesCheck`.

Each module follows one source component:

| module | models |
|---|---|
| `Common` | `Option` and `Result`. Java exceptions become `Err` with the failure kind: null pointer, illegal state, class cast, unsupported operation or illegal argument. It also holds the ASCII string helpers the sources use: `contains`, `toLowerCase`, `toUpperCase`, `replace` and `String.join`. |
| `Json` | Gson's element tree as an abstract value: null, boolean, number literal, string, array and object. It also models `getAsString`, `getAsJsonObject`, `getAsJsonArray` and member lookup, with the exception each one throws on an element of the wrong shape. |
| `FlagEvent` | `CheckFlagEvent`: the geometry chosen per flagged object, `flagToFeature`, `flagToJson`, `toGeoJsonFeature`, `toGeoJsonFeatureCollection` (which is what `toString` prints), and the highway `featureDecorator`. |
| `ArchivedFlag` | `GeoJsonCheckFlag`: its five fields, the setters, and its `toString` tree. |
| `FlagReader` | `GeoJsonCheckFlagDeserializer.deserialize` and `readFlagFromString`, the round trips with both serialisers, and the reader's unit tests as lemmas. |
| `LogDiff` | `mapFeatures` grouping, `getMissingAndChanged`, `identicalFeatureIds` and `getSourceSize`. |
| `MapRoulette` | the client registry as a state machine: the constructor, the flag and metric handlers, the shutdown flush, and the timeout `maxDurationForBatch`. |
| `TurnRestriction` | the invalid-reason-to-instruction lookup and the flag decision of `InvalidTurnRestrictionCheck`. |
| `StreetNames` | the abbreviation transform, the flag decision and the one-flag-per-OSM-id bookkeeping of `ColumbiaAbbreviateStreetNamesCheck`. |

Text is modelled as the JSON tree it prints. Gson prints an object's members in insertion order, and both `toString` methods fill hash maps, so two serialisations with the same tree may order members differently. Equal trees therefore print texts of equal length, not necessarily equal texts.

Two places where the model follows the code as written:

- **A malformed log line.** `mapFeatures` throws on a bad line and catches only `IOException` (`AtlasChecksLogDiffSubCommand.java:42-45, 56`), so `LogDiff.MapFeatures` fails for the whole file.
- **`uploadAllRemainingTasks`.** As written it does not compile (`MapRouletteClientProcessor.java:115-119`). It uses an undefined `metricEvent` and `client`, and calls `maxDurationForBatch` with no argument. `MapRoulette.UploadAllRemainingTasks` models what its documentation states at line 109: each check that still has a client gets one upload attempt of its own batch, and each attempt fails in isolation.

## Model

Source paths are relative to the repository root.

| member | source | states |
|---|---|---|
| Json.AsString | src/main/java/org/openstreetmap/atlas/checks/utility/FlagReader.java:42-45 | Reading succeeds iff the element, once any one-element arrays around it are unwrapped, is a boolean, number or string. A string then reads as its own text and a number as its literal. A null or an object fails with an unsupported-operation error, and an array of another size with an illegal-state error. |
| Json.AllObjects | src/main/java/org/openstreetmap/atlas/checks/utility/FlagReader.java:46-48 | Converting the features array succeeds exactly when every element is an object. The result has the same length as the array and holds each element's members in order. |
| Json.StripNulls | src/main/java/org/openstreetmap/atlas/checks/utility/GeoJsonCheckFlag.java:108 | Writing a tree through a Gson that does not serialise nulls drops exactly the null-valued object members, at every depth, and keeps array elements. The result has no null member, and a tree without one is unchanged. |
| Json.StringFields | src/main/java/org/openstreetmap/atlas/checks/utility/GeoJsonCheckFlag.java:109-112 | The JSON object has the map's keys. Reading any key back as a string gives the map's value, and a key the map lacks is a missing-member error. |
| FlagEvent.Features | src/main/java/org/openstreetmap/atlas/checks/event/CheckFlagEvent.java:55-99 | A flag gives at most one feature per flagged object. It gives exactly one per object iff every object has a known ItemType or none. Every feature is an object that encodes one of the flag's classifiable objects. |
| FlagEvent.FeaturesAppend | src/main/java/org/openstreetmap/atlas/checks/event/CheckFlagEvent.java:56-98 | Encoding distributes over concatenation, so the features follow the objects' order. |
| FlagEvent.SingleObjectFeature | src/main/java/org/openstreetmap/atlas/checks/event/CheckFlagEvent.java:60-97 | ItemType Node or Point gives a Point feature, and no ItemType also gives a Point. Edge or Line gives a LineString and Area gives a Polygon, each of these iff. Any other ItemType gives no feature. A feature's properties are exactly the object's own properties. |
| FlagEvent.UnclassifiableOmitted | src/main/java/org/openstreetmap/atlas/checks/event/CheckFlagEvent.java:84-86 | Inserting an object with an unknown ItemType anywhere in the list leaves the features unchanged. |
| FlagEvent.FeaturesHaveNoNullMembers | src/main/java/org/openstreetmap/atlas/checks/event/CheckFlagEvent.java:55-99 | When the coordinates are the builder's (not null and without null members), no feature has a null member. |
| FlagEvent.FlagToFeature | src/main/java/org/openstreetmap/atlas/checks/event/CheckFlagEvent.java:45-108 | The top-level keys are exactly type, features, id and properties, and the flag id is at the top level. The properties are the instructions plus every additional entry, and an additional entry overrides on a clash. "id" is in the properties only when an additional entry supplies it. |
| FlagEvent.FlagToJson | src/main/java/org/openstreetmap/atlas/checks/event/CheckFlagEvent.java:120-135 | The top-level keys are exactly type, features and properties, with no top-level id. The features are the given location features, in order. The properties are id and instructions plus every additional entry, and an additional entry overrides on a clash. |
| FlagEvent.ToGeoJsonFeature | src/main/java/org/openstreetmap/atlas/checks/event/CheckFlagEvent.java:192-202 | The features are the flag's per-object features and the identifier is at the top level. The properties are exactly instructions, name, generator and timestamp. name is the challenge name when there is one, otherwise the check name. generator is "AtlasChecks", timestamp is the event time, and instructions are the flag's. |
| FlagEvent.ToGeoJsonFeatureCollection | src/main/java/org/openstreetmap/atlas/checks/event/CheckFlagEvent.java:207-224 | The property keys are exactly id, instructions, generator and timestamp. generator is the check name, timestamp is the event's, and id and instructions are the flag's. |
| FlagEvent.HighestHighway | src/main/java/org/openstreetmap/atlas/checks/event/CheckFlagEvent.java:144-154 | The fold succeeds iff every feature's highway value is readable: the feature must be an object, the value a primitive, and the name a known tag. Any kept tag is a known tag. |
| FlagEvent.HighestHighwayIsMaximum | src/main/java/org/openstreetmap/atlas/checks/event/CheckFlagEvent.java:145-153 | The kept tag beats NO and is at least as important as every tag a feature offers. It is the starting tag or one a feature offers. The fold never loses a kept tag. |
| FlagEvent.DecoratorIsMostImportant | src/main/java/org/openstreetmap/atlas/checks/event/CheckFlagEvent.java:142-157 | The decorator succeeds iff every feature is readable. It is empty iff no offered tag beats NO. Otherwise it is "highway=" followed by the most important offered tag. |
| ArchivedFlag.SetCheckName | src/main/java/org/openstreetmap/atlas/checks/utility/GeoJsonCheckFlag.java:73-76 | Sets the check name and keeps the other four fields. |
| ArchivedFlag.SetFeatures | src/main/java/org/openstreetmap/atlas/checks/utility/GeoJsonCheckFlag.java:78-81 | Sets the features and keeps the other four fields. |
| ArchivedFlag.SetIdentifier | src/main/java/org/openstreetmap/atlas/checks/utility/GeoJsonCheckFlag.java:83-86 | Sets the identifier and keeps the other four fields. |
| ArchivedFlag.SetInstructions | src/main/java/org/openstreetmap/atlas/checks/utility/GeoJsonCheckFlag.java:88-91 | Sets the instructions and keeps the other four fields. |
| ArchivedFlag.SetTimestamp | src/main/java/org/openstreetmap/atlas/checks/utility/GeoJsonCheckFlag.java:93-96 | Sets the timestamp and keeps the other four fields. |
| ArchivedFlag.Serialize | src/main/java/org/openstreetmap/atlas/checks/utility/GeoJsonCheckFlag.java:104-115 | The output is a FeatureCollection with one written feature per stored feature, in order. Each is the stored feature with its null-valued members dropped. The property keys are exactly the four, and generator is the check name. |
| ArchivedFlag.WrittenFeatures | src/main/java/org/openstreetmap/atlas/checks/utility/GeoJsonCheckFlag.java:108 | `new Gson()` does not serialise nulls, so each written feature is the stored one without null members. No written feature has a null member, and features without any are written unchanged. |
| FlagReader.Deserialize | src/main/java/org/openstreetmap/atlas/checks/utility/FlagReader.java:38-51 | Reading succeeds iff the record has a properties object and a features array of objects, and all four keys read as strings. The fields are then those strings and the features are the array's objects, in order. |
| FlagReader.ReadFlagFromString | src/main/java/org/openstreetmap/atlas/checks/utility/FlagReader.java:67-70 | The JSON literal null reads as null without the deserializer being called. Any other tree is an error iff the deserializer fails, and otherwise gives what it gives. |
| FlagReader.DecodeSerialized | src/main/java/org/openstreetmap/atlas/checks/utility/FlagReader.java:38-51 | Reading back an archived record's own serialisation gives the record with its features as written. That is the record itself when no feature has a null member. |
| FlagReader.SerializeDecoded | src/main/java/org/openstreetmap/atlas/checks/utility/GeoJsonCheckFlag.java:98-115 | Re-serialising a decoded record of the canonical shape keeps its type and properties, and writes each feature with its null members dropped. It reproduces the input tree when no feature has a null member. |
| FlagReader.EventRoundTrip | src/main/java/org/openstreetmap/atlas/checks/utility/GeoJsonCheckFlag.java:98-103 | Reading an event's toString tree keeps identifier, instructions, check name, timestamp and every feature. With the builder's coordinates, re-serialising the result gives back the event's tree, so both texts have the same length. |
| FlagReader.NullMemberDropped | src/main/java/org/openstreetmap/atlas/checks/utility/GeoJsonCheckFlag.java:108 | A record whose feature has a null ItemId reads back with that member gone, so it does not read back as itself. |
| FlagReader.DecodedEventFields | src/main/java/org/openstreetmap/atlas/checks/utility/FlagReader.java:67-70 | Reading an event's text gives the flag's identifier and instructions, the check name as generator, the event timestamp, and one feature per encoded object. |
| FlagReader.OneFeature | src/test/java/org/openstreetmap/atlas/checks/utility/FlagReaderTest.java:24-33 | The one-node flag reads back with identifier 1000000 and check name Check1. Its instructions contain the test text, and it has one feature. |
| FlagReader.TwoFeatures | src/test/java/org/openstreetmap/atlas/checks/utility/FlagReaderTest.java:43-53 | The two-node flag reads back with the concatenated identifier and check name Check2. Its instructions contain the test text, and it has two features. |
| FlagReader.Reserialize | src/test/java/org/openstreetmap/atlas/checks/utility/FlagReaderTest.java:35-41 | The two-node flag reads back. With the builder's coordinates, its re-serialisation is exactly the event's tree, hence the same text length. |
| FlagReader.MissingKeysFail | src/main/java/org/openstreetmap/atlas/checks/utility/FlagReader.java:41-45 | A record without properties, or missing any one of the four keys, is an error. |
| LogDiff.Insert | src/main/java/org/openstreetmap/atlas/checks/commands/AtlasChecksLogDiffSubCommand.java:47-53 | Inserting adds the check to the index's keys. The record is stored under (check, id), and every other entry is kept. |
| LogDiff.MapFeatures | src/main/java/org/openstreetmap/atlas/checks/commands/AtlasChecksLogDiffSubCommand.java:39-54 | Grouping succeeds iff every line has a string generator and a string id under properties. |
| LogDiff.MapFeaturesKeys | src/main/java/org/openstreetmap/atlas/checks/commands/AtlasChecksLogDiffSubCommand.java:47-53 | After grouping, the index holds (check, id) exactly when it held it before or some line carries that key. |
| LogDiff.MapFeaturesKeepsOthers | src/main/java/org/openstreetmap/atlas/checks/commands/AtlasChecksLogDiffSubCommand.java:52-53 | An entry whose key no line carries is left as it was. |
| LogDiff.MapFeaturesWellKeyed | src/main/java/org/openstreetmap/atlas/checks/commands/AtlasChecksLogDiffSubCommand.java:44-53 | Every stored record sits under its own (generator, id) key. |
| LogDiff.MapFeaturesLastWins | src/main/java/org/openstreetmap/atlas/checks/commands/AtlasChecksLogDiffSubCommand.java:52-53 | Of several lines with one key, the last line's record is stored. |
| LogDiff.ItemIds | src/main/java/org/openstreetmap/atlas/checks/commands/AtlasChecksLogDiffSubCommand.java:105-123 | Collecting ids succeeds iff every feature has a properties object and readable ItemIds. An id is collected iff some feature cites it, and features without an ItemId are skipped. |
| LogDiff.IdenticalFeatureIds | src/main/java/org/openstreetmap/atlas/checks/commands/AtlasChecksLogDiffSubCommand.java:95-126 | Arrays of different sizes are not identical, and no feature is read. Otherwise the test succeeds iff both arrays are readable. It then says true iff both arrays cite the same set of ItemIds. |
| LogDiff.IdenticalSymmetric | src/main/java/org/openstreetmap/atlas/checks/commands/AtlasChecksLogDiffSubCommand.java:125 | The identity test is symmetric whenever it succeeds. |
| LogDiff.IdenticalReflexive | src/main/java/org/openstreetmap/atlas/checks/commands/AtlasChecksLogDiffSubCommand.java:95-126 | A readable array is identical to itself. |
| LogDiff.IdenticalIgnoresOrder | src/main/java/org/openstreetmap/atlas/checks/commands/AtlasChecksLogDiffSubCommand.java:95-126 | Reordering the features does not change whether the test succeeds or what it answers. |
| LogDiff.GetMissingAndChanged | src/main/java/org/openstreetmap/atlas/checks/commands/AtlasChecksLogDiffSubCommand.java:63-92 | The comparison succeeds iff every compared pair has readable features. Missing is then the source records whose key the target lacks. Changed is the source records whose key both sides have and whose ItemIds differ, and it is empty when only missing records are asked for. |
| LogDiff.MissingChangedDisjoint | src/main/java/org/openstreetmap/atlas/checks/commands/AtlasChecksLogDiffSubCommand.java:73-85 | No record is reported as both missing and changed. |
| LogDiff.TargetOnlyNeverReported | src/main/java/org/openstreetmap/atlas/checks/commands/AtlasChecksLogDiffSubCommand.java:68-87 | A record that only the target has is never reported. |
| LogDiff.PairsOfAdd | src/main/java/org/openstreetmap/atlas/checks/commands/AtlasChecksLogDiffSubCommand.java:132-135 | Adding one check's records adds that check's record count to the pair count. |
| LogDiff.GetSourceSize | src/main/java/org/openstreetmap/atlas/checks/commands/AtlasChecksLogDiffSubCommand.java:129-137 | The summed per-check sizes equal the number of distinct (check, id) records. |
| LogDiff.SameItemsExamples | src/main/java/org/openstreetmap/atlas/checks/commands/AtlasChecksLogDiffSubCommand.java:95-126 | [A,B] is identical to [B,A] and [A,A,B] is identical to [A,B,B], since duplicates are tolerated. [A,B] is not identical to [A]. |
| LogDiff.EndToEndExample | src/main/java/org/openstreetmap/atlas/checks/commands/AtlasChecksLogDiffSubCommand.java:63-92 | A two-record source compared with a target that lacks one record reports that record as missing and nothing as changed. The source size is 2. |
| MapRoulette.MaxDurationForBatch | src/main/java/org/openstreetmap/atlas/checks/event/MapRouletteClientProcessor.java:37-41 | The timeout is never below 5 seconds. It is exactly 5 below 60 tasks, and otherwise the batch size divided by 10, rounded down. |
| MapRoulette.MaxDurationMonotone | src/main/java/org/openstreetmap/atlas/checks/event/MapRouletteClientProcessor.java:37-41 | A larger batch never gets a shorter timeout. |
| MapRoulette.New | src/main/java/org/openstreetmap/atlas/checks/event/MapRouletteClientProcessor.java:51-58 | Each check name gets its challenge and either an empty client or, when `MapRouletteClient.instance` gave null, a null entry. Nothing else is registered. |
| MapRoulette.NewLastWins | src/main/java/org/openstreetmap/atlas/checks/event/MapRouletteClientProcessor.java:53-57 | A repeated check name keeps the challenge of its last occurrence. It has a client iff that occurrence's call gave one. |
| MapRoulette.ProcessFlag | src/main/java/org/openstreetmap/atlas/checks/event/MapRouletteClientProcessor.java:62-73 | A flag for a check without a client or with a null one, or one whose submission fails, changes nothing. Otherwise only that check's batch grows, by the task under the check's challenge. |
| MapRoulette.ProcessMetric | src/main/java/org/openstreetmap/atlas/checks/event/MapRouletteClientProcessor.java:76-99 | The check's entry is removed whatever happens. If it held a client, exactly one attempt is logged with that client's batch and the batch-size timeout. A null entry is removed with no attempt, an unknown name changes nothing, and the challenges never change. |
| MapRoulette.ProcessMetricAsWritten | src/main/java/org/openstreetmap/atlas/checks/event/MapRouletteClientProcessor.java:78-90 | As written, the client is removed and no upload attempt is made. |
| MapRoulette.AsWrittenMetricLosesBatch | src/main/java/org/openstreetmap/atlas/checks/event/MapRouletteClientProcessor.java:82 | For a registered check holding one task, the as-written handler leaves neither a client nor an attempt holding the task. The corrected handler uploads it with a 5-second timeout. |
| MapRoulette.NullClientNeverUploads | src/main/java/org/openstreetmap/atlas/checks/event/MapRouletteClientProcessor.java:92-96 | A check whose client call gave null ignores its flags, and its metric event clears the entry without any upload attempt. |
| MapRoulette.StepOneShot | src/main/java/org/openstreetmap/atlas/checks/event/MapRouletteClientProcessor.java:62-99 | One flag or metric event keeps the discipline: a check with a client has never been uploaded, and no check is uploaded twice. |
| MapRoulette.RunOneShot | src/main/java/org/openstreetmap/atlas/checks/event/MapRouletteClientProcessor.java:43-99 | Over any event run, clients are only removed and never re-added, the challenges never change, and no check is uploaded more than once. |
| MapRoulette.NewOneShot | src/main/java/org/openstreetmap/atlas/checks/event/MapRouletteClientProcessor.java:51-58 | A fresh processor satisfies the one-upload discipline. |
| MapRoulette.MetricIsOneShot | src/main/java/org/openstreetmap/atlas/checks/event/MapRouletteClientProcessor.java:78-79 | After a check's metric event, later flags and metric events for it change nothing. |
| MapRoulette.UploadAllRemainingTasks | src/main/java/org/openstreetmap/atlas/checks/event/MapRouletteClientProcessor.java:108-113 | Every check still holding a client is removed and gets exactly one more attempt, with its own batch and timeout. All new attempts are of this kind. Null entries are kept. With no clients left, shutdown changes nothing. |
| TurnRestriction.MatchIndex | src/main/java/org/openstreetmap/atlas/checks/validation/relations/InvalidTurnRestrictionCheck.java:154-161 | The loop stops at the first entry whose key occurs in the reason, or at the end if none does. |
| TurnRestriction.InstructionFromInvalidReason | src/main/java/org/openstreetmap/atlas/checks/validation/relations/InvalidTurnRestrictionCheck.java:150-164 | The result is "Unable to specify issue" when no key occurs in the reason. Otherwise it is the instruction of a key that occurs. It is always a table instruction or the unknown-issue text. |
| TurnRestriction.UniformMatchesAnyOrder | src/main/java/org/openstreetmap/atlas/checks/validation/relations/InvalidTurnRestrictionCheck.java:154-161 | In any iteration order of the hash map, a reason whose matching keys share one instruction gets that instruction. |
| TurnRestriction.RouteEntries | src/main/java/org/openstreetmap/atlas/checks/validation/relations/InvalidTurnRestrictionCheck.java:43-57 | Every key except the two via-member keys maps to the route instruction. |
| TurnRestriction.RouteReasonsAgree | src/main/java/org/openstreetmap/atlas/checks/validation/relations/InvalidTurnRestrictionCheck.java:43-57 | In any iteration order, a reason containing neither via-member key maps to the route instruction when it contains some key. It maps to the unknown-issue text when it contains none. |
| TurnRestriction.LookupOutcomes | src/main/java/org/openstreetmap/atlas/checks/validation/relations/InvalidTurnRestrictionCheck.java:150-164 | In any iteration order of the real table, the result is the unknown-issue text iff no key occurs in the reason. Otherwise it is one of the table's instructions. |
| TurnRestriction.FlagRestriction | src/main/java/org/openstreetmap/atlas/checks/validation/relations/InvalidTurnRestrictionCheck.java:82-135 | A missing from or to member is flagged "Missing a from and/or to member". Otherwise an invalid restriction is flagged with its mapped instruction. Otherwise a via route without an initial heading throws NoSuchElementException. Otherwise a bad straight-on turn is flagged with the threshold text. There is no flag iff from and to are present, the restriction is valid, the via heading can be read and the turn is not too sharp. Every flag carries the relation's id and member entities. |
| TurnRestriction.InvalidRouteFlagged | src/main/java/org/openstreetmap/atlas/checks/validation/relations/InvalidTurnRestrictionCheck.java:101-106 | A restriction with from and to members, rejected for a reason that contains a route key and neither via-member key, is flagged with the route instruction in any iteration order. |
| TurnRestriction.NoFromMemberFlagged | src/main/java/org/openstreetmap/atlas/checks/validation/relations/InvalidTurnRestrictionCheck.java:89-96 | A relation with only a to member is flagged as missing from/to, whatever its validity or headings. |
| StreetNames.PatternListsEveryType | src/main/java/org/openstreetmap/atlas/checks/validation/tag/ColumbiaAbbreviateStreetNamesCheck.java:45-47 | Every configured street type occurs in the compiled pattern text. |
| StreetNames.DefaultPatternListsTypes | src/main/java/org/openstreetmap/atlas/checks/validation/tag/ColumbiaAbbreviateStreetNamesCheck.java:31-32 | Each default street type (Calle, Carrera, Transversal, Diagonal) occurs in the default pattern. |
| StreetNames.SplitUnique | src/main/java/org/openstreetmap/atlas/checks/validation/tag/ColumbiaAbbreviateStreetNamesCheck.java:45-47 | A name has at most one split into a name group ending in a digit and a suffix of letters and spaces, so the model's split is the regular expression's. |
| StreetNames.AbbreviateSuffix | src/main/java/org/openstreetmap/atlas/checks/validation/tag/ColumbiaAbbreviateStreetNamesCheck.java:80-81 | The transformed suffix contains no space and is never longer than the suffix. |
| StreetNames.AbbreviatedName | src/main/java/org/openstreetmap/atlas/checks/validation/tag/ColumbiaAbbreviateStreetNamesCheck.java:79-81 | The abbreviation starts with the name group unchanged and is never longer than the name. |
| StreetNames.FlagName | src/main/java/org/openstreetmap/atlas/checks/validation/tag/ColumbiaAbbreviateStreetNamesCheck.java:76-91 | Only a matching name is flagged. A matching name is flagged iff it differs from its abbreviation. |
| StreetNames.FlaggedIffSuffixChanges | src/main/java/org/openstreetmap/atlas/checks/validation/tag/ColumbiaAbbreviateStreetNamesCheck.java:79-88 | A matching name is flagged iff the transform changes its suffix. |
| StreetNames.SurExample | src/main/java/org/openstreetmap/atlas/checks/validation/tag/ColumbiaAbbreviateStreetNamesCheck.java:79-88 | "Calle 10 Sur" abbreviates to "Calle 10S" and is flagged. "Calle 10S" is its own abbreviation and is not flagged. |
| StreetNames.CheckWay | src/main/java/org/openstreetmap/atlas/checks/validation/tag/ColumbiaAbbreviateStreetNamesCheck.java:58-91 | A way is flagged iff it passes the validity test and its name is flagged. The flag carries its OSM id, which was not flagged before. |
| StreetNames.RunCheck | src/main/java/org/openstreetmap/atlas/checks/validation/tag/ColumbiaAbbreviateStreetNamesCheck.java:63-85 | Over a run of ways the flagged ids are pairwise distinct and none was marked before. The marked set grows by exactly the flagged ids. |
| StreetNames.UnmatchedNeverFlagged | src/main/java/org/openstreetmap/atlas/checks/validation/tag/ColumbiaAbbreviateStreetNamesCheck.java:76-91 | A way whose name does not match is not flagged. |
| StreetNames.NeedsNameAndAltName | src/main/java/org/openstreetmap/atlas/checks/validation/tag/ColumbiaAbbreviateStreetNamesCheck.java:58-64 | Only car-navigable edges with both a name and an alt name are considered. |
| StreetNames.FlaggedOnce | src/main/java/org/openstreetmap/atlas/checks/validation/tag/ColumbiaAbbreviateStreetNamesCheck.java:63 | The same way seen twice is flagged at most once. |

## Left out

- **Text parsing and printing.** Gson's character-level parsing and printing are not modelled. `FlagReader.ReadFlagFromString` takes the tree Gson parses the text into, including the `null` literal, which reads as null. Empty text, which Gson also reads as null, and malformed text are out of scope.
- **Geometry.** `GeoJsonBuilder` coordinate construction is library code. Coordinates are an opaque JSON value under a geometry type tag. The builder writes them as arrays of numbers, and the round trips that go through `GeoJsonCheckFlag.toString` assume this (`FlagEvent.BuiltCoordinates`), because that method drops null members.
- **Features of `flagToJson`.** `flagToJson` takes its features from `CheckFlag.getLocationIterableProperties`, which is not part of this model. `FlagEvent.FlagToJson` takes them as a parameter. `FlagEvent.ToGeoJsonFeatureCollection` passes the same per-object encoding that `flagToFeature` uses.
- **Instruction text.** `CheckFlag`'s instruction formatting and each rule's `getLocalizedInstruction` are not part of this model. Instructions are kept as already-formatted text, and a rule's flag carries the detail text and the OSM id that are localised.
- **Case mapping.** `toUpperCase`, `toLowerCase` and `StringUtils.capitalize` cover ASCII only. The Columbia suffix group admits only ASCII letters and spaces, so that case is exact under a default locale other than Turkish or Azeri. Under those locales `toLowerCase()` without a `Locale` maps 'I' to a dotless 'ı', and `toUpperCase()` maps 'i' to a dotted 'İ', which would also make `featureDecorator`'s `valueOf` fail. The model does not follow either.
- **Highway tags.** The `HighwayTag` enum is external. It is modelled as a map from constant name to importance, with `valueOf` of an unknown name as an error and `getTagValue` as the lower-cased name.
- **Java nulls and JSON numbers.** Null arguments from callers are left out. The one library null the core handles, a `MapRouletteClient.instance` that gives no client, is modelled as an uninitialized entry. JSON numbers and booleans are literals read as text by `getAsString`. Numbers are compared by their literal text, whereas Gson's `JsonPrimitive.equals` compares them by value. This matters only for the `HashSet<JsonObject>` results of `getMissingAndChanged`. There, two records that differ only in how a number is written, for example `1` and `1.0`, are one element in Java but two in `LogDiff.GetMissingAndChanged`'s sets. ItemIds are compared as `getAsString` text, as in the model.
- **Threads and pools.** Concurrency, the event bus, the one-worker pool and its wall-clock timeout are left out. An upload attempt is a log entry holding the batch and the timeout in seconds, and its success is an input.
- **MapRoulette client.** The `MapRouletteClient` network calls are left out. `addTask` may upload a full batch on its own, and this is not modelled: a client's batch only grows until its upload.
- **Log diff I/O.** File reading in `mapFeatures`, the `IOException` catch and the output files of the diff command are I/O. Records arrive as already-parsed trees.
- **Turn restriction geometry.** `TurnRestriction` route building, headings and angles are the atlas library's. The invalid reason, whether each heading exists and the outcomes of the heading comparisons are inputs. `validCheckForObject`'s `TurnRestrictionTag.isRestriction` test is external and is left out.
- **The Columbia regex engine.** The model takes the regex match as a given split into name group and suffix group, constrained to be a split of the name. `HighwayTag.isCarNavigableHighway` and the edge test are inputs.
- TurnRestriction.StraightOnDetail: the threshold is substituted as text. The formatting of a `double` by `%s` is not modelled.
- TurnRestriction.InstructionFromInvalidReason: the `HashMap`'s iteration order is a parameter. When several keys occur in one reason, the model only says that the instruction of one of them is returned.
- **Other components.** OrphanedBuildingPartsCheck, PointlessPointCheck, DynamicPolicies and the pyspark tools are outside the modelled core.

## Findings

| source | as written | input that shows it | evidently intended | confidence | as-written member | corrected member |
|---|---|---|---|---|---|---|
| src/main/java/org/openstreetmap/atlas/checks/event/MapRouletteClientProcessor.java:82 | The pool name is built with `String.format("MR upload pool for %s (%s)", name)`: two placeholders, one argument. The format throws inside the `try`, before the pool exists, and the catch only logs. The client was already removed at line 78, so its batch is never uploaded. | A metric event for any registered check, for example check "C" holding one task. | The client is removed and its batch gets one upload attempt, with the batch-size timeout. | high, not executed | MapRoulette.ProcessMetricAsWritten, MapRoulette.AsWrittenMetricLosesBatch | MapRoulette.ProcessMetric |
