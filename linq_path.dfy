/**
 * GetLinqPath: the expression that navigates from the model to an object,
 * built by walking up the owner chain (Level -> Hierarchy -> Table -> Model).
 */
module LinqPath {
  import opened Wrappers
  import opened Strings
  import opened Tabular
  import opened TypeNames

  /** `["name"]`: the name inserted verbatim between quotes and brackets. */
  function Indexer(name: string): (r: string)
    ensures |r| == |name| + 4
    ensures r[..2] == "[\"" && r[2..|r| - 2] == name && r[|r| - 2..] == "\"]"
  {
    "[\"" + name + "\"]"
  }

  /**
   * `string.Format("{0}.{1}[\"{2}\"]", ownerPath, collection, name)` when the
   * owner's path exists; the owner's exception otherwise. The result
   * extends the owner's path (so it keeps the owner's root) by a dot and
   * ends with the collection and the bracketed name.
   */
  function Member(owner: Result<string, Error>, collection: string, name: string): (r: Result<string, Error>)
    ensures r.Failure? <==> owner.Failure?
    ensures owner.Failure? ==> r == owner
    ensures owner.Success? ==> StartsWith(r.value, owner.value + ".")
    ensures owner.Success? ==> EndsWith(r.value, collection + Indexer(name)) && EndsWith(r.value, Indexer(name))
    ensures owner.Success? && StartsWith(owner.value, "Model") ==> StartsWith(r.value, "Model")
    ensures owner.Success? ==> |r.value| == |owner.value| + 1 + |collection| + |Indexer(name)|
  {
    match owner
    case Failure(e) => Failure(e)
    case Success(path) =>
      MemberPath(path, collection, name);
      Success(path + "." + collection + Indexer(name))
  }

  /** How a member path extends its owner's path. */
  lemma MemberPath(path: string, collection: string, name: string)
    ensures var r := path + "." + collection + Indexer(name);
      && StartsWith(r, path + ".")
      && EndsWith(r, collection + Indexer(name)) && EndsWith(r, Indexer(name))
      && (StartsWith(path, "Model") ==> StartsWith(r, "Model"))
  {
    var head, tail := path + ".", collection + Indexer(name);
    var r := path + "." + collection + Indexer(name);
    assert r == head + tail;
    ConcatStartsEnds(head, tail);
    ConcatStartsEnds(collection, Indexer(name));
    EndsWithTransitive(r, tail, Indexer(name));
    ConcatStartsEnds(path, ".");
    StartsWithTransitive(r, head, path);
    if StartsWith(path, "Model") {
      StartsWithTransitive(r, path, "Model");
    }
  }

  /**
   * `obj.GetLinqPath()`. Columns, hierarchies, measures and partitions hang
   * off their table under their plural type name; a model is the root
   * "Model"; tables, perspectives and cultures hang off the model and
   * levels off their hierarchy under a fixed collection name; every other
   * object throws NotSupportedException. Every path starts at "Model" and
   * ends with the object's own name in brackets.
   */
  function GetLinqPath(obj: TabularNamedObject): (r: Result<string, Error>)
    ensures r.Success? ==> StartsWith(r.value, "Model")
    ensures r.Success? && !obj.ModelObject? ==> EndsWith(r.value, Indexer(obj.name))
    ensures r.Failure? ==> r.error == NotSupportedException
    decreases obj
  {
    match obj
    case ColumnObject(_, name, table) => Member(GetLinqPath(table), GetObjectTypeName(obj, true), name)
    case HierarchyObject(name, table) => Member(GetLinqPath(table), GetObjectTypeName(obj, true), name)
    case MeasureObject(name, table) => Member(GetLinqPath(table), GetObjectTypeName(obj, true), name)
    case PartitionObject(name, table) => Member(GetLinqPath(table), GetObjectTypeName(obj, true), name)
    case ModelObject(_) => Success("Model")
    case TableObject(name, model) => Member(GetLinqPath(model), "Tables", name)
    case LevelObject(name, hierarchy) => Member(GetLinqPath(hierarchy), "Levels", name)
    case PerspectiveObject(name, model) => Member(GetLinqPath(model), "Perspectives", name)
    case CultureObject(name, model) => Member(GetLinqPath(model), "Cultures", name)
    case OtherObject(_, _) => Failure(NotSupportedException)
  }

  /**
   * On the object graph the C# types allow, GetLinqPath succeeds exactly for
   * the model, tables, levels, perspectives, cultures and the table members
   * (columns, hierarchies, measures, partitions): the owners it recurses to
   * are of those kinds themselves.
   */
  lemma {:induction false} LinqPathDefinedIffSupported(obj: TabularNamedObject)
    requires WellFormed(obj)
    ensures GetLinqPath(obj).Success? <==> IsClassTag(TagOf(obj))
    decreases obj
  {
    match obj
    case ModelObject(_) =>
    case TableObject(_, model) => LinqPathDefinedIffSupported(model);
    case ColumnObject(_, _, table) => LinqPathDefinedIffSupported(table);
    case MeasureObject(_, table) => LinqPathDefinedIffSupported(table);
    case HierarchyObject(_, table) => LinqPathDefinedIffSupported(table);
    case PartitionObject(_, table) => LinqPathDefinedIffSupported(table);
    case LevelObject(_, hierarchy) => LinqPathDefinedIffSupported(hierarchy);
    case PerspectiveObject(_, model) => LinqPathDefinedIffSupported(model);
    case CultureObject(_, model) => LinqPathDefinedIffSupported(model);
    case OtherObject(_, _) =>
  }

  /** A folder, or any object of a class with no path rule, has no path. */
  lemma UnsupportedHasNoPath(objectType: ObjectType, name: string)
    ensures GetLinqPath(OtherObject(objectType, name)) == Failure(NotSupportedException)
  {
  }

  /** A table hangs off the model root under "Tables". */
  lemma TablePath(modelName: string, table: string)
    ensures GetLinqPath(TableObject(table, ModelObject(modelName))) == Success("Model.Tables" + Indexer(table))
  {
    assert "Model" + "." + "Tables" == "Model.Tables";
  }

  /** A measure hangs off its table under its plural type name "Measures". */
  lemma MeasurePath(modelName: string, table: string, measure: string)
    ensures var t := TableObject(table, ModelObject(modelName));
      GetLinqPath(MeasureObject(measure, t)) == Success("Model.Tables" + Indexer(table) + "." + "Measures" + Indexer(measure))
  {
    TablePath(modelName, table);
    MeasureTypeNames();
  }

  /** A data column hangs off its table under "Columns". */
  lemma DataColumnPath(modelName: string, table: string, column: string)
    ensures var t := TableObject(table, ModelObject(modelName));
      GetLinqPath(ColumnObject(DataColumn, column, t)) == Success("Model.Tables" + Indexer(table) + "." + "Columns" + Indexer(column))
  {
    TablePath(modelName, table);
    assert "Column" + PluralSuffix(true) == "Columns";
  }

  /**
   * A calculated column hangs off its table under its own plural type name,
   * "Calculated Columns", not under "Columns".
   */
  lemma CalculatedColumnPath(modelName: string, table: string, column: string)
    ensures var t := TableObject(table, ModelObject(modelName));
      GetLinqPath(ColumnObject(CalculatedColumn, column, t)) == Success("Model.Tables" + Indexer(table) + "." + "Calculated Columns" + Indexer(column))
  {
    TablePath(modelName, table);
    assert "Calculated Column" + PluralSuffix(true) == "Calculated Columns";
  }

  /** A calculated table column hangs off its table under "Calculated Table Columns". */
  lemma CalculatedTableColumnPath(modelName: string, table: string, column: string)
    ensures var t := TableObject(table, ModelObject(modelName));
      GetLinqPath(ColumnObject(CalculatedTableColumn, column, t))
      == Success("Model.Tables" + Indexer(table) + "." + "Calculated Table Columns" + Indexer(column))
  {
    TablePath(modelName, table);
    assert "Calculated Table Column" + PluralSuffix(true) == "Calculated Table Columns";
  }

  /** A partition hangs off its table under "Partitions". */
  lemma PartitionPath(modelName: string, table: string, partition: string)
    ensures var t := TableObject(table, ModelObject(modelName));
      GetLinqPath(PartitionObject(partition, t)) == Success("Model.Tables" + Indexer(table) + "." + "Partitions" + Indexer(partition))
  {
    TablePath(modelName, table);
    PartitionTypeNames();
  }

  /** A hierarchy hangs off its table under "Hierarchies". */
  lemma HierarchyPath(modelName: string, table: string, hierarchy: string)
    ensures var t := TableObject(table, ModelObject(modelName));
      GetLinqPath(HierarchyObject(hierarchy, t)) == Success("Model.Tables" + Indexer(table) + "." + "Hierarchies" + Indexer(hierarchy))
  {
    TablePath(modelName, table);
    HierarchyTypeNames();
  }

  /** A level hangs off its hierarchy under "Levels". */
  lemma LevelPath(modelName: string, table: string, hierarchy: string, level: string)
    ensures var h := HierarchyObject(hierarchy, TableObject(table, ModelObject(modelName)));
      GetLinqPath(LevelObject(level, h))
      == Success("Model.Tables" + Indexer(table) + "." + "Hierarchies" + Indexer(hierarchy) + "." + "Levels" + Indexer(level))
  {
    HierarchyPath(modelName, table, hierarchy);
  }

  /** Perspectives and cultures hang off the model root. */
  lemma ModelMemberPaths(modelName: string, name: string)
    ensures GetLinqPath(PerspectiveObject(name, ModelObject(modelName))) == Success("Model.Perspectives" + Indexer(name))
    ensures GetLinqPath(CultureObject(name, ModelObject(modelName))) == Success("Model.Cultures" + Indexer(name))
  {
    assert "Model" + "." + "Perspectives" == "Model.Perspectives";
    assert "Model" + "." + "Cultures" == "Model.Cultures";
  }
}
