/**
 * GetTypeName: a readable, optionally plural, name for a category tag, and
 * the overload that first looks at an object's runtime column variant.
 */
module TypeNames {
  import opened Strings
  import opened CamelCase
  import opened Tabular

  /**
   * `objType.GetTypeName(plural)`: the tag's identifier split into words,
   * made plural on request. The singular is the identifier with only spaces
   * inserted; the plural ends in "s", or in "data" for a mass noun.
   */
  function GetTypeName(objType: ObjectType, plural: bool): (r: string)
    ensures !plural ==> SpacesInserted(ObjectTypeText(objType), r)
    ensures plural ==> EndsWith(r, "s") || EndsWith(r, "data")
  {
    var result := SplitCamelCase(ObjectTypeText(objType));
    if plural then Pluralize(result) else result
  }

  /** For every tag, the plural type name is the plural of the singular one. */
  lemma PluralOfSingular(objType: ObjectType)
    ensures GetTypeName(objType, true) == Pluralize(GetTypeName(objType, false))
  {
  }

  /**
   * The plural rule of GetTypeName, tried in this order: a final "chy"
   * becomes "chies"; a final "data" (a mass noun) stays; anything else
   * gains an "s". So the plural equals the name exactly when the name ends
   * in "data", otherwise it ends in "s"; only the name's last letter may be
   * replaced, and the plural is never shorter.
   */
  function Pluralize(name: string): (r: string)
    ensures r == name <==> EndsWith(name, "data")
    ensures r != name ==> EndsWith(r, "s") && |r| > |name|
    ensures EndsWith(name, "chy") ==> EndsWith(r, "chies")
    ensures name != [] ==> StartsWith(r, name[..|name| - 1])
    ensures StartsWith(r, name) || EndsWith(name, "chy")
    ensures !EndsWith(name, "chy") && r != name ==> |r| == |name| + 1
    ensures EndsWith(name, "chy") ==> |r| == |name| + 2
  {
    if EndsWith(name, "chy") then
      assert name[|name| - 1] == 'y';
      name[..|name| - 3] + "chies"
    else if !EndsWith(name, "data") then name + "s"
    else name
  }

  /**
   * A tag whose identifier is a single word is named by that identifier,
   * and in the plural by that identifier with "s" when it ends in neither
   * "chy" nor "data".
   */
  lemma OneWordTypeName(objType: ObjectType)
    requires var text := ObjectTypeText(objType); forall i :: 1 <= i < |text| ==> IsLower(text[i])
    ensures GetTypeName(objType, false) == ObjectTypeText(objType)
    ensures var text := ObjectTypeText(objType);
      !EndsWith(text, "chy") && !EndsWith(text, "data") ==> GetTypeName(objType, true) == text + "s"
  {
    OneWordUnchanged(ObjectTypeText(objType));
  }

  /** The regular plural: a name that ends in neither "y" nor "a" gains an "s". */
  lemma RegularPlural(name: string)
    requires name != [] && name[|name| - 1] != 'y' && name[|name| - 1] != 'a'
    ensures Pluralize(name) == name + "s"
  {
    LastOfSuffix(name, "chy");
    LastOfSuffix(name, "data");
  }

  /**
   * A tag whose identifier is one word ending in neither "y" nor "a" is
   * named by that identifier, and in the plural by that identifier and "s".
   */
  lemma RegularOneWordNames(objType: ObjectType, text: string)
    requires text == ObjectTypeText(objType) && text != []
    requires forall i :: 1 <= i < |text| ==> IsLower(text[i])
    requires text[|text| - 1] != 'y' && text[|text| - 1] != 'a'
    ensures GetTypeName(objType, false) == text && GetTypeName(objType, true) == text + "s"
  {
    OneWordUnchanged(text);
    RegularPlural(text);
  }

  /** The names of the column tag, which every column class falls back on. */
  lemma ColumnTypeNames()
    ensures GetTypeName(Column, false) == "Column" && GetTypeName(Column, true) == "Columns"
  {
    RegularOneWordNames(Column, "Column");
  }

  /** The names of the measure tag. */
  lemma MeasureTypeNames()
    ensures GetTypeName(Measure, false) == "Measure" && GetTypeName(Measure, true) == "Measures"
  {
    RegularOneWordNames(Measure, "Measure");
  }

  /** The names of the partition tag. */
  lemma PartitionTypeNames()
    ensures GetTypeName(Partition, false) == "Partition" && GetTypeName(Partition, true) == "Partitions"
  {
    RegularOneWordNames(Partition, "Partition");
  }

  /** The names of the hierarchy tag: its final "chy" becomes "chies" in the plural. */
  lemma HierarchyTypeNames()
    ensures GetTypeName(Hierarchy, false) == "Hierarchy" && GetTypeName(Hierarchy, true) == "Hierarchies"
  {
    OneWordUnchanged("Hierarchy");
    assert GetTypeName(Hierarchy, false) == "Hierarchy";
    HierarchyPlural();
  }

  /** "Hierarchy" ends in "chy". */
  lemma HierarchyPlural()
    ensures Pluralize("Hierarchy") == "Hierarchies"
  {
    assert EndsWith("Hierarchy", "chy");
    assert "Hierarchy"[..6] + "chies" == "Hierarchies";
  }

  /** A tag that ends in "data", a mass noun, has the same name in the plural. */
  lemma MetadataTypeName()
    ensures GetTypeName(LinguisticMetadata, false) == "Linguistic Metadata"
    ensures GetTypeName(LinguisticMetadata, true) == "Linguistic Metadata"
  {
    SplitLinguisticMetadata();
    assert GetTypeName(LinguisticMetadata, false) == "Linguistic Metadata";
    MassNounPlural();
  }

  /** "Linguistic Metadata" ends in "data". */
  lemma MassNounPlural()
    ensures Pluralize("Linguistic Metadata") == "Linguistic Metadata"
  {
    assert EndsWith("Linguistic Metadata", "data");
  }

  /** The plural suffix the object overload appends to its fixed names. */
  function PluralSuffix(plural: bool): string
  {
    if plural then "s" else ""
  }

  /**
   * `obj.GetTypeName(plural)`: fixed names for the data, calculated and
   * calculated-table column classes; the tag rule for every other class.
   */
  function GetObjectTypeName(obj: TabularNamedObject, plural: bool): (r: string)
    ensures !obj.ColumnObject? ==> r == GetTypeName(TagOf(obj), plural)
    ensures obj.ColumnObject? && obj.variant == OtherColumn ==> r == GetTypeName(Column, plural)
  {
    if obj.ColumnObject? && obj.variant == DataColumn then "Column" + PluralSuffix(plural)
    else if obj.ColumnObject? && obj.variant == CalculatedColumn then "Calculated Column" + PluralSuffix(plural)
    else if obj.ColumnObject? && obj.variant == CalculatedTableColumn then "Calculated Table Column" + PluralSuffix(plural)
    else GetTypeName(TagOf(obj), plural)
  }

  /** The data column's fixed name agrees with the tag rule for columns. */
  lemma DataColumnTypeName(name: string, table: TabularNamedObject, plural: bool)
    ensures GetObjectTypeName(ColumnObject(DataColumn, name, table), plural) == GetTypeName(Column, plural)
  {
    ColumnTypeNames();
  }

  /**
   * A calculated column is named "Calculated Column" whatever its tag, where
   * the tag rule would say only "Column". The fixed name is the class name
   * split into words (SplitCalculatedColumn).
   */
  lemma CalculatedColumnTypeName(name: string, table: TabularNamedObject, plural: bool)
    ensures GetObjectTypeName(ColumnObject(CalculatedColumn, name, table), plural)
         == "Calculated Column" + PluralSuffix(plural)
         != GetTypeName(Column, plural)
  {
    ColumnTypeNames();
  }

  /**
   * Likewise, a calculated table column is named "Calculated Table Column"
   * (SplitCalculatedTableColumn).
   */
  lemma CalculatedTableColumnTypeName(name: string, table: TabularNamedObject, plural: bool)
    ensures GetObjectTypeName(ColumnObject(CalculatedTableColumn, name, table), plural)
         == "Calculated Table Column" + PluralSuffix(plural)
         != GetTypeName(Column, plural)
  {
    ColumnTypeNames();
  }
}
