/**
 * The parts of the wrapper object graph that the helper reads: each
 * object's category tag, its runtime variant, its name and the owner it is
 * reached through (its table, its hierarchy or its model).
 */
module Tabular {

  /** The category tag of a wrapper object (`ObjectType`); tags not named here are `Other`. */
  datatype ObjectType =
    | Model | Table | Column | Measure | Hierarchy | Level | Partition
    | Perspective | Culture | Folder | LinguisticMetadata
    | Other(text: string)

  /** `objType.ToString()`: the tag's identifier. */
  function ObjectTypeText(t: ObjectType): string
  {
    match t
    case Model => "Model"
    case Table => "Table"
    case Column => "Column"
    case Measure => "Measure"
    case Hierarchy => "Hierarchy"
    case Level => "Level"
    case Partition => "Partition"
    case Perspective => "Perspective"
    case Culture => "Culture"
    case Folder => "Folder"
    case LinguisticMetadata => "LinguisticMetadata"
    case Other(text) => text
  }

  /** The runtime classes that derive from the wrapper's `Column`. */
  datatype ColumnVariant = DataColumn | CalculatedColumn | CalculatedTableColumn | OtherColumn

  /**
   * A named wrapper object (`TabularNamedObject`), by runtime class. Each
   * object carries the owner the helper reaches it through, so every chain
   * of owners is finite. `OtherObject` stands for every remaining class
   * (relationships, data sources, roles, ...) with its category tag.
   */
  datatype TabularNamedObject =
    | ModelObject(name: string)
    | TableObject(name: string, model: TabularNamedObject)
    | ColumnObject(variant: ColumnVariant, name: string, table: TabularNamedObject)
    | MeasureObject(name: string, table: TabularNamedObject)
    | HierarchyObject(name: string, table: TabularNamedObject)
    | PartitionObject(name: string, table: TabularNamedObject)
    | LevelObject(name: string, hierarchy: TabularNamedObject)
    | PerspectiveObject(name: string, model: TabularNamedObject)
    | CultureObject(name: string, model: TabularNamedObject)
    | OtherObject(objectType: ObjectType, name: string)

  /** `obj.ObjectType`: the category tag of each runtime class. */
  function TagOf(obj: TabularNamedObject): ObjectType
  {
    match obj
    case ModelObject(_) => Model
    case TableObject(_, _) => Table
    case ColumnObject(_, _, _) => Column
    case MeasureObject(_, _) => Measure
    case HierarchyObject(_, _) => Hierarchy
    case PartitionObject(_, _) => Partition
    case LevelObject(_, _) => Level
    case PerspectiveObject(_, _) => Perspective
    case CultureObject(_, _) => Culture
    case OtherObject(t, _) => t
  }

  /** The tags that belong to one of the runtime classes named above. */
  predicate IsClassTag(t: ObjectType)
  {
    t in {Model, Table, Column, Measure, Hierarchy, Partition, Level, Perspective, Culture}
  }

  /**
   * The object graph the C# types guarantee: a table's `Model` is a model,
   * the `Table` of a column, measure, hierarchy or partition is a table, a
   * level's `Hierarchy` is a hierarchy, and an object of any other class
   * does not carry the tag of one of the classes above.
   */
  predicate WellFormed(obj: TabularNamedObject)
  {
    match obj
    case ModelObject(_) => true
    case TableObject(_, model) => model.ModelObject? && WellFormed(model)
    case ColumnObject(_, _, table) => table.TableObject? && WellFormed(table)
    case MeasureObject(_, table) => table.TableObject? && WellFormed(table)
    case HierarchyObject(_, table) => table.TableObject? && WellFormed(table)
    case PartitionObject(_, table) => table.TableObject? && WellFormed(table)
    case LevelObject(_, hierarchy) => hierarchy.HierarchyObject? && WellFormed(hierarchy)
    case PerspectiveObject(_, model) => model.ModelObject? && WellFormed(model)
    case CultureObject(_, model) => model.ModelObject? && WellFormed(model)
    case OtherObject(t, _) => !IsClassTag(t)
  }

  /** The exceptions the helper throws. */
  datatype Error =
    | NotSupportedException
    | ArgumentException(message: string)
}
