/**
 * Culture-aware names: reading and writing the name of a Tabular object
 * either as its base name or as its translation in a given culture.
 */
module Naming {
  import opened Wrappers
  import opened Tabular

  /** The text of the exception thrown for an object with no name to translate. */
  const NoNameMessage: string := "This object does not have a Name property."

  /**
   * What kind of named object this is, as far as names go: a translatable
   * `TabularNamedObject`, a display folder (never culture aware), or some
   * other named object that has no translations.
   */
  datatype NameCapability = Translatable | FolderObject | NotTranslatable

  /**
   * A named object: its base name, and its translated names keyed by the
   * culture's name. A culture with no entry has no translation.
   */
  class NamedObject {
    const capability: NameCapability
    var name: string
    var translatedNames: map<string, string>

    constructor (capability: NameCapability, name: string, translatedNames: map<string, string>)
      ensures this.capability == capability && this.name == name && this.translatedNames == translatedNames
    {
      this.capability := capability;
      this.name := name;
      this.translatedNames := translatedNames;
    }

    /** `TranslatedNames[culture]`: the empty string when there is none. */
    function TranslatedName(culture: string): string
      reads this
    {
      if culture in translatedNames then translatedNames[culture] else ""
    }
  }

  /**
   * `obj.GetName(culture)`, where `None` stands for a null culture. Without
   * a culture, and for folders, the base name; for a translatable object
   * its translation in that culture, falling back to the base name when the
   * translation is missing or empty; an ArgumentException otherwise.
   */
  function GetName(obj: NamedObject, culture: Option<string>): (r: Result<string, Error>)
    reads obj
    ensures culture.None? || obj.capability == FolderObject ==> r == Success(obj.name)
    ensures r.Failure? <==> culture.Some? && obj.capability == NotTranslatable
    ensures r.Failure? ==> r.error == ArgumentException(NoNameMessage)
    ensures r.Success? ==> r.value == obj.name || (culture.Some? && r.value == obj.TranslatedName(culture.value))
    ensures r.Success? && r.value != obj.name ==> r.value != ""
    ensures culture.Some? && obj.capability == Translatable && obj.TranslatedName(culture.value) != ""
            ==> r == Success(obj.TranslatedName(culture.value))
  {
    match (culture, obj.capability)
    case (None, _) => Success(obj.name)
    case (_, FolderObject) => Success(obj.name)
    case (Some(c), Translatable) =>
      var name := obj.TranslatedName(c);
      Success(if name == "" then obj.name else name)
    case (Some(_), NotTranslatable) => Failure(ArgumentException(NoNameMessage))
  }

  /**
   * `obj.SetName(newName, culture)`, where `None` stands for a null culture
   * and the empty string for a null or empty new name. Without a culture,
   * and for folders, it renames the object unless the new name is empty,
   * and says whether it did; for a translatable object it stores the new
   * name as the translation in that culture and says so; otherwise it
   * throws an ArgumentException and changes nothing. Afterwards, reading
   * the name the same way gives the new name, or the base name when the new
   * name is empty.
   */
  method SetName(obj: NamedObject, newName: string, culture: Option<string>) returns (r: Result<bool, Error>)
    modifies obj
    ensures culture.None? || obj.capability == FolderObject ==>
      && r == Success(newName != "")
      && obj.name == (if newName != "" then newName else old(obj.name))
      && obj.translatedNames == old(obj.translatedNames)
    ensures culture.Some? && obj.capability == Translatable ==>
      && r == Success(true)
      && obj.name == old(obj.name)
      && obj.translatedNames == old(obj.translatedNames)[culture.value := newName]
    ensures culture.Some? && obj.capability == NotTranslatable ==>
      && r == Failure(ArgumentException(NoNameMessage))
      && obj.name == old(obj.name) && obj.translatedNames == old(obj.translatedNames)
    ensures r.Success? ==> GetName(obj, culture) == Success(if newName != "" then newName else obj.name)
    ensures r.Failure? <==> GetName(obj, culture).Failure?
    ensures forall c :: culture != Some(c) ==> obj.TranslatedName(c) == old(obj.TranslatedName(c))
  {
    if culture.None? || obj.capability == FolderObject {
      if newName == "" {
        return Success(false);
      }
      obj.name := newName;
      return Success(true);
    }
    if obj.capability == Translatable {
      obj.translatedNames := obj.translatedNames[culture.value := newName];
      return Success(true);
    }
    return Failure(ArgumentException(NoNameMessage));
  }

  /** A folder's name is the same in every culture. */
  lemma FolderNameIgnoresCulture(obj: NamedObject, culture: string)
    requires obj.capability == FolderObject
    ensures GetName(obj, Some(culture)) == GetName(obj, None) == Success(obj.name)
  {
  }

  /**
   * Reading a translatable object's name in a culture gives the base name
   * exactly when the translation there is missing, empty, or equal to it.
   */
  lemma TranslationFallback(obj: NamedObject, culture: string)
    requires obj.capability == Translatable
    ensures GetName(obj, Some(culture)).Success?
    ensures GetName(obj, Some(culture)) == GetName(obj, None)
        <==> obj.TranslatedName(culture) == "" || obj.TranslatedName(culture) == obj.name
  {
  }
}
