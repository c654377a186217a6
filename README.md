# TabularObjectHelper, modelled in Dafny

This project models `TabularObjectHelper` from Tabular Editor's object-model
wrapper (`TOMWrapper/TOMWrapper/TabularObjectHelper.cs`). It is a set of
extension methods that name and locate the objects of a tabular model:

- **SplitCamelCase** turns an identifier such as `CalculatedTableColumn` into
  words. It runs two regular-expression substitutions one after the other:
  `(\P{Ll})(\P{Ll}\p{Ll})` and then `(\p{Ll})(\P{Ll})`, each replaced by
  `$1 $2`. Each pass is modelled as a left-to-right scan with
  non-overlapping matches (`CamelCase.Replace`). An independent reference
  definition says where each pass puts its spaces (`CamelCase.InsertBreaks`).
- **GetTypeName** has two overloads.
  - The tag overload gives the readable name of an `ObjectType`, and can
    make it plural: `chy` becomes `chies`, `data` stays as it is, and
    anything else gains an `s`.
  - The object overload gives fixed names to three column classes and
    falls back on the tag rule for every other class.
- **GetLinqPath** builds the navigation expression of an object by walking
  up its owners. The object graph is a datatype in which each object
  carries its owner: level, hierarchy, table, model. A path looks like
  `Model.Tables["Sales"].Measures["X"]`. Unsupported objects give
  `NotSupportedException`.
- **GetObjectPath** joins with dots the names of a metadata object and its
  ancestors, root first. An object without a name contributes the text of
  its object type.
- **GetName / SetName** read and write an object's name, either as its base
  name or as its translation in a culture. `SetName` is a method that changes
  an object of the class `Naming.NamedObject` in place. That class has a
  `name` field and a `translatedNames` map.

Modules:

- `Wrappers`: `Option` and `Result`.
- `Strings`: prefixes, suffixes, and "only spaces were inserted".
- `CamelCase`, `Tabular` (the object graph and the exceptions), `TypeNames`,
  `LinqPath`, `MetadataPath`, `Naming`.

Two behaviours of the code that are easy to misread, and that the model
keeps as written:

- Splitting `FooBar` twice gives `Foo   Bar`, with three spaces, not
  `Foo Bar`. `\P{Ll}` matches a space too, so a second run breaks on both
  sides of the existing space (`CamelCase.SplitCamelCaseNotIdempotent`).
- A data column's path uses the plural type name: `.Columns["Amount"]`,
  not `.Column["Amount"]` (`LinqPath.DataColumnPath`).

## Model

| member | source | states |
|---|---|---|
| CamelCase.SplitCamelCase | TOMWrapper/TOMWrapper/TabularObjectHelper.cs:55-66 | SplitCamelCase only inserts spaces: removing the inserted spaces from the result gives back the input |
| CamelCase.Replace | TOMWrapper/TOMWrapper/TabularObjectHelper.cs:57-65 | one `Regex.Replace(..., "$1 $2")` pass as a left-to-right scan; it has no contract of its own, and ReplaceIsInsertBreaks and ReplaceInsertsSpaces (next rows) state what it computes |
| CamelCase.ReplaceIsInsertBreaks | TOMWrapper/TOMWrapper/TabularObjectHelper.cs:57-65 | a left-to-right scan with non-overlapping matches puts a space before a character exactly when a match of the pattern starts one position earlier; no match is lost to an earlier overlapping one |
| CamelCase.ReplaceInsertsSpaces | TOMWrapper/TOMWrapper/TabularObjectHelper.cs:57-65 | each `Regex.Replace(..., "$1 $2")` pass only inserts spaces |
| CamelCase.InsertBreaksInsertsSpaces | TOMWrapper/TOMWrapper/TabularObjectHelper.cs:57-65 | the reference definition of where a pass breaks only inserts spaces into the rest of the string |
| CamelCase.SplitCamelCaseBreaks | TOMWrapper/TOMWrapper/TabularObjectHelper.cs:55-66 | SplitCamelCase equals pass 2's breaks applied to pass 1's breaks of the input, by the reference definition |
| CamelCase.SplitCamelCaseWithoutMatch | TOMWrapper/TOMWrapper/TabularObjectHelper.cs:55-66 | an input where neither pattern matches anywhere comes back unchanged |
| CamelCase.NoLowercaseUnchanged | TOMWrapper/TOMWrapper/TabularObjectHelper.cs:55-66 | an input with no lowercase letter (including the empty string) comes back unchanged |
| CamelCase.OneWordUnchanged | TOMWrapper/TOMWrapper/TabularObjectHelper.cs:55-66 | an input lowercase after its first character (one word, or all lowercase) comes back unchanged |
| CamelCase.SplitCamelCaseWords | TOMWrapper/TOMWrapper/TabularObjectHelper.cs:55-66 | an identifier made of any number of capitalised words splits into those words separated by single spaces |
| CamelCase.TwoWords | TOMWrapper/TOMWrapper/TabularObjectHelper.cs:55-66 | two capitalised words written together split into the two words with one space |
| CamelCase.ThreeWords | TOMWrapper/TOMWrapper/TabularObjectHelper.cs:55-66 | three capitalised words written together split into the three words with single spaces |
| CamelCase.SplitFooBar | TOMWrapper/TOMWrapper/TabularObjectHelper.cs:55-66 | `FooBar` becomes `Foo Bar` |
| CamelCase.SplitCalculatedColumn | TOMWrapper/TOMWrapper/TabularObjectHelper.cs:55-66 | `CalculatedColumn` becomes `Calculated Column` |
| CamelCase.SplitLinguisticMetadata | TOMWrapper/TOMWrapper/TabularObjectHelper.cs:55-66 | `LinguisticMetadata` becomes `Linguistic Metadata` |
| CamelCase.SplitCalculatedTableColumn | TOMWrapper/TOMWrapper/TabularObjectHelper.cs:55-66 | `CalculatedTableColumn` becomes `Calculated Table Column` |
| CamelCase.SplitSpacedWords | TOMWrapper/TOMWrapper/TabularObjectHelper.cs:55-66 | two capitalised words separated by one space come out separated by three: pass 1 breaks after the space and pass 2 before it |
| CamelCase.SplitCamelCaseTwice | TOMWrapper/TOMWrapper/TabularObjectHelper.cs:55-66 | two capitalised words written together get one space from one split and three from a second split, so the second split changes the result |
| CamelCase.SplitCamelCaseNotIdempotent | TOMWrapper/TOMWrapper/TabularObjectHelper.cs:55-66 | SplitCamelCase is not idempotent: `FooBar` gives `Foo Bar` once and `Foo   Bar` twice |
| TypeNames.GetTypeName | TOMWrapper/TOMWrapper/TabularObjectHelper.cs:68-74 | the singular type name is the tag's identifier with only spaces inserted; the plural ends in `s`, or in `data` for a mass noun (PluralOfSingular, next row, ties the plural to the singular) |
| TypeNames.PluralOfSingular | TOMWrapper/TOMWrapper/TabularObjectHelper.cs:70-72 | for every tag, the plural type name is Pluralize applied to the singular type name |
| TypeNames.Pluralize | TOMWrapper/TOMWrapper/TabularObjectHelper.cs:71-72 | the plural equals the name exactly when the name ends in `data`; otherwise it ends in `s`; a name ending in `chy` loses its last character and gains `ies` (it keeps all but its last character, ends in `chies` and is two longer); any other name not ending in `data` keeps all its characters and gains exactly one, an `s` |
| TypeNames.RegularPlural | TOMWrapper/TOMWrapper/TabularObjectHelper.cs:71-72 | a non-empty name ending in neither `y` nor `a` gains exactly an `s` |
| TypeNames.OneWordTypeName | TOMWrapper/TOMWrapper/TabularObjectHelper.cs:68-74 | a tag whose identifier is one word is named by that identifier, and in the plural by that identifier plus `s` unless it ends in `chy` or `data` |
| TypeNames.RegularOneWordNames | TOMWrapper/TOMWrapper/TabularObjectHelper.cs:68-74 | a tag whose identifier is one word ending in neither `y` nor `a` is named by that identifier, and in the plural by that identifier and `s` |
| TypeNames.ColumnTypeNames | TOMWrapper/TOMWrapper/TabularObjectHelper.cs:68-74 | the Column tag is named `Column`, plural `Columns` |
| TypeNames.MeasureTypeNames | TOMWrapper/TOMWrapper/TabularObjectHelper.cs:68-74 | the Measure tag is named `Measure`, plural `Measures` |
| TypeNames.PartitionTypeNames | TOMWrapper/TOMWrapper/TabularObjectHelper.cs:68-74 | the Partition tag is named `Partition`, plural `Partitions` |
| TypeNames.HierarchyTypeNames | TOMWrapper/TOMWrapper/TabularObjectHelper.cs:68-74 | the Hierarchy tag is named `Hierarchy`, plural `Hierarchies` (the `chy` rule) |
| TypeNames.HierarchyPlural | TOMWrapper/TOMWrapper/TabularObjectHelper.cs:71 | the plural of `Hierarchy` is `Hierarchies` |
| TypeNames.MetadataTypeName | TOMWrapper/TOMWrapper/TabularObjectHelper.cs:68-74 | the LinguisticMetadata tag is named `Linguistic Metadata` in both singular and plural (the `data` guard) |
| TypeNames.MassNounPlural | TOMWrapper/TOMWrapper/TabularObjectHelper.cs:72 | a name ending in `data` is its own plural |
| TypeNames.GetObjectTypeName | TOMWrapper/TOMWrapper/TabularObjectHelper.cs:76-82 | any object other than a data, calculated or calculated-table column is named by the tag rule applied to its tag |
| TypeNames.DataColumnTypeName | TOMWrapper/TOMWrapper/TabularObjectHelper.cs:78 | a data column's fixed name agrees with the tag rule for Column, singular and plural |
| TypeNames.CalculatedColumnTypeName | TOMWrapper/TOMWrapper/TabularObjectHelper.cs:79 | a calculated column is named `Calculated Column` (plus `s` in the plural) whatever its tag, which differs from the tag rule's name for Column |
| TypeNames.CalculatedTableColumnTypeName | TOMWrapper/TOMWrapper/TabularObjectHelper.cs:80 | a calculated table column is named `Calculated Table Column` (plus `s` in the plural) whatever its tag, which differs from the tag rule's name for Column |
| LinqPath.Indexer | TOMWrapper/TOMWrapper/TabularObjectHelper.cs:19 | the name is inserted verbatim between `["` and `"]`: it is exactly the text between the four added characters |
| LinqPath.Member | TOMWrapper/TOMWrapper/TabularObjectHelper.cs:19 | a member path fails exactly when its owner's path fails, with the owner's exception; otherwise it is the owner's path, a dot, the collection and the bracketed name, with nothing else in between (it starts with the owner's path and a dot, ends with the collection and the bracketed name, and is exactly as long as those pieces together) and keeps the `Model` root |
| LinqPath.GetLinqPath | TOMWrapper/TOMWrapper/TabularObjectHelper.cs:13-37 | every path starts with `Model`; every path of a non-model object ends with the object's name in brackets; the only failure is NotSupportedException |
| LinqPath.LinqPathDefinedIffSupported | TOMWrapper/TOMWrapper/TabularObjectHelper.cs:15-36 | on the object graph the C# types allow, the path exists exactly for models, tables, levels, perspectives, cultures and the table members |
| LinqPath.UnsupportedHasNoPath | TOMWrapper/TOMWrapper/TabularObjectHelper.cs:34-35 | a folder, or an object of any other class without a path rule, throws NotSupportedException |
| LinqPath.TablePath | TOMWrapper/TOMWrapper/TabularObjectHelper.cs:26-27 | a table's path is `Model.Tables["name"]` |
| LinqPath.MeasurePath | TOMWrapper/TOMWrapper/TabularObjectHelper.cs:15-20 | a measure's path is its table's path followed by `.Measures["name"]` |
| LinqPath.DataColumnPath | TOMWrapper/TOMWrapper/TabularObjectHelper.cs:15-20 | a data column's path is its table's path followed by `.Columns["name"]` |
| LinqPath.CalculatedColumnPath | TOMWrapper/TOMWrapper/TabularObjectHelper.cs:15-20 | a calculated column's path is its table's path followed by `.Calculated Columns["name"]` |
| LinqPath.CalculatedTableColumnPath | TOMWrapper/TOMWrapper/TabularObjectHelper.cs:15-20 | a calculated table column's path is its table's path followed by `.Calculated Table Columns["name"]` |
| LinqPath.PartitionPath | TOMWrapper/TOMWrapper/TabularObjectHelper.cs:15-20 | a partition's path is its table's path followed by `.Partitions["name"]` |
| LinqPath.HierarchyPath | TOMWrapper/TOMWrapper/TabularObjectHelper.cs:15-20 | a hierarchy's path is its table's path followed by `.Hierarchies["name"]` |
| LinqPath.LevelPath | TOMWrapper/TOMWrapper/TabularObjectHelper.cs:28-29 | a level's path is its hierarchy's path followed by `.Levels["name"]` |
| LinqPath.ModelMemberPaths | TOMWrapper/TOMWrapper/TabularObjectHelper.cs:30-33 | a perspective's path is `Model.Perspectives["name"]` and a culture's is `Model.Cultures["name"]` |
| MetadataPath.Segment | TOMWrapper/TOMWrapper/TabularObjectHelper.cs:42 | an object's segment is its name when it has one, and otherwise the text of its object type |
| MetadataPath.GetObjectPath | TOMWrapper/TOMWrapper/TabularObjectHelper.cs:39-48 | a metadata object's path ends with its own segment (its name, or its object-type text) and starts with the root's segment |
| MetadataPath.GetTabularObjectPath | TOMWrapper/TOMWrapper/TabularObjectHelper.cs:50-53 | a wrapper object's path is the segments of its metadata object's parent chain, root first, joined by dots, and ends with that object's own segment |
| MetadataPath.PathSegments | TOMWrapper/TOMWrapper/TabularObjectHelper.cs:42-47 | the segment list is non-empty, starts with the root's segment and ends with the object's own |
| MetadataPath.JoinDotAppend | TOMWrapper/TOMWrapper/TabularObjectHelper.cs:45 | appending a segment to a joined list adds a dot and that segment |
| MetadataPath.PathIsJoinedSegments | TOMWrapper/TOMWrapper/TabularObjectHelper.cs:44-47 | the recursive path equals the segments of the parent chain joined by dots |
| MetadataPath.SplitJoinDot | TOMWrapper/TOMWrapper/TabularObjectHelper.cs:45 | splitting a dot-join of dot-free strings at the dots gives the strings back |
| MetadataPath.PathRoundTrip | TOMWrapper/TOMWrapper/TabularObjectHelper.cs:39-48 | when no segment contains a dot, splitting the path at the dots gives back the segments of the parent chain |
| MetadataPath.DottedNameAmbiguous | TOMWrapper/TOMWrapper/TabularObjectHelper.cs:42-45 | a root named `x.y` and an object `y` under a root `x` are different objects with the same path |
| MetadataPath.UnnamedSegment | TOMWrapper/TOMWrapper/TabularObjectHelper.cs:42-45 | an object without a name contributes its object-type text after its parent's path and a dot |
| Naming.GetName | TOMWrapper/TOMWrapper/TabularObjectHelper.cs:84-99 | no culture, or a folder, gives the base name; it fails exactly for a non-translatable object with a culture, with the ArgumentException text; a translatable object gives its non-empty translation, else the base name |
| Naming.SetName | TOMWrapper/TOMWrapper/TabularObjectHelper.cs:101-116 | without a culture, or on a folder, it renames unless the new name is empty and returns whether it did; on a translatable object it sets only that culture's translation and returns true; otherwise it throws and changes nothing; afterwards GetName the same way gives the new name, or the base name when the new name is empty, and other cultures are untouched |
| Naming.FolderNameIgnoresCulture | TOMWrapper/TOMWrapper/TabularObjectHelper.cs:86-87 | a folder's name is its base name in every culture |
| Naming.TranslationFallback | TOMWrapper/TOMWrapper/TabularObjectHelper.cs:92-96 | a translatable object's name in a culture is found, and equals its base name exactly when the translation is missing, empty or equal to the base name |
| Naming.NamedObject.constructor | TOMWrapper/TOMWrapper/TabularObjectHelper.cs:101-116 | a named object starts with the given capability, base name and translations |

## Left out

- `\p{Ll}` is modelled as the ASCII letters `a` to `z` (`CamelCase.IsLower`). Other Unicode lowercase letters are not, and neither is the regex engine in general. Only the two fixed patterns of SplitCamelCase are modelled, each as an explicit scan.
- .NET strings are sequences of UTF-16 code units, and the regex matches each half of a surrogate pair as a non-lowercase unit. The model's strings are sequences of whole Unicode characters. So for a character outside the Basic Multilingual Plane the model differs: the code splits `😀b` between the two surrogate halves, and the model leaves it unchanged.
- CamelCase.Replace: carries no `ensures` of its own. Any clause on it is unfolded on every literal string the worked examples split, which puts those proofs beyond the verifier's resource limit. Its behaviour is stated by `CamelCase.ReplaceIsInsertBreaks` and `CamelCase.ReplaceInsertsSpaces`.
- `EndsWith` in GetTypeName is culture-sensitive in .NET. The model compares characters ordinally, which agrees for the ASCII tag names.
- The Microsoft.AnalysisServices.Tabular library is not part of this model. A metadata object is a value with an optional name, its object-type text and an optional parent. The datatype rules out parent cycles, which the C# code does not guard against.
- The wrapper classes (Table, Column and its subclasses, Hierarchy, Level, Folder, Culture, Model) are not part of this model. Only the fields this file reads are modelled: runtime class and column variant, `ObjectType`, `Name`, and the owning `Table`, `Hierarchy` or `Model`.
- The full `ObjectType` enum is not part of this model. Its datatype spells out the tags this file switches on (Model, Table, Level, Perspective, Culture), the tags of the classes it tests for (Column, Measure, Hierarchy, Partition), Folder and LinguisticMetadata. Every other tag is `Other(text)`.
- LinqPath.GetLinqPath dispatches on the runtime class (the datatype constructor) for the model, table, level, perspective and culture cases too, where the C# switches on `ObjectType`. `LinqPath.LinqPathDefinedIffSupported` shows the two agree on every object graph the C# types allow (`Tabular.WellFormed`).
- A null `newName` is modelled as the empty string, since the code treats null and empty alike (`string.IsNullOrEmpty`). A null culture is `None`, and a culture is identified by its name.
- The `TranslatedNames` indexer is modelled as a map in which a missing culture reads as the empty string. A stored null translation is not distinguished from an empty one.
- The `Name` setter's side effects (undo history, synchronisation with the underlying model, name validation) are not part of this model. `Name` is a plain field.
- A wrapper object appears in three shapes, one per part of the helper, each holding only what that part reads. `Tabular.TabularNamedObject` is an immutable value carrying its owner chain, for GetLinqPath and GetTypeName. `MetadataPath.TabularObject` holds only the underlying metadata object, for GetObjectPath. `Naming.NamedObject` is a class because SetName changes its name and translations in place. The model does not link the three, so it does not capture that a renamed object's paths change.
- A detached object, whose `Table`, `Model` or `Hierarchy` is null, makes GetLinqPath throw NullReferenceException (lines 19, 27, 29, 31 and 33). The datatype always carries an owner, so this case cannot be represented.
- `string.Format` is modelled as plain concatenation.
