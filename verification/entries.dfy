/** `SortObject`: one glossary candidate as the pipeline carries it. Java's shared mutable
    lists and maps become fields of an immutable value; a filter that changed them in place
    returns an updated value instead. */
module Entries {
  import opened Results

  /** Customary name of the L1 content field; phrase marking and de-duplication read it. */
  const L1FieldName: string := "L1"
  /** Customary name of the L2 content field. */
  const L2FieldName: string := "L2"

  /** The user-data key under which the folder walk records an entry's source file. */
  const OriginFileKey: string := ""

  /** Which language a glossary is sorted and bucketed on (`SortType`). */
  datatype Axis = L1 | L2 {
    function Other(): Axis {
      if L1? then L2 else L1
    }
  }

  datatype Direction = Asc | Desc

  datatype SortObject = SortObject(
    languageCodeL1: Option<string>,
    languageCodeL2: Option<string>,
    sideOneSoundFile: Option<string>,
    sideTwoSoundFile: Option<string>,
    referencedBy: Option<string>,
    partOfSpeech: Option<string>,
    sortFieldsL1: seq<string>,
    sortFieldsL2: seq<string>,
    isPhrase: bool,
    fieldsToInclude: map<string, string>,
    userData: map<string, string>)

  /** A freshly constructed entry. */
  function NewSortObject(): (o: SortObject)
    ensures !o.isPhrase
    ensures o.sortFieldsL1 == [] && o.sortFieldsL2 == []
    ensures o.fieldsToInclude == map[] && o.userData == map[]
    ensures o.languageCodeL1.None? && o.languageCodeL2.None?
    ensures o.sideOneSoundFile.None? && o.sideTwoSoundFile.None?
    ensures o.referencedBy.None? && o.partOfSpeech.None?
  {
    SortObject(None, None, None, None, None, None, [], [], false, map[], map[])
  }

  function LanguageCode(o: SortObject, axis: Axis): Option<string> {
    if axis.L1? then o.languageCodeL1 else o.languageCodeL2
  }

  function SortFields(o: SortObject, axis: Axis): seq<string> {
    if axis.L1? then o.sortFieldsL1 else o.sortFieldsL2
  }

  /** Replaces one axis's sort fields, leaving everything else, the other axis included. */
  function WithSortFields(o: SortObject, axis: Axis, fields: seq<string>): (r: SortObject)
    ensures SortFields(r, axis) == fields
    ensures SortFields(r, axis.Other()) == SortFields(o, axis.Other())
    ensures r.(sortFieldsL1 := o.sortFieldsL1, sortFieldsL2 := o.sortFieldsL2) == o
  {
    if axis.L1? then o.(sortFieldsL1 := fields) else o.(sortFieldsL2 := fields)
  }

  /** The include-map value of a field; Java's `get` answers null for a missing name. */
  function IncludedField(o: SortObject, name: string): Option<string> {
    if name in o.fieldsToInclude then Some(o.fieldsToInclude[name]) else None
  }

  /** Records the source file; only the user-data contents change, under key "". */
  function TagOrigin(o: SortObject, path: string): (r: SortObject)
    ensures r.userData == o.userData[OriginFileKey := path]
    ensures r.(userData := o.userData) == o
  {
    o.(userData := o.userData[OriginFileKey := path])
  }

  function TagAll(entries: seq<SortObject>, path: string): (r: seq<SortObject>)
    ensures |r| == |entries|
    ensures forall i :: 0 <= i < |r| ==> r[i] == TagOrigin(entries[i], path)
  {
    if entries == [] then [] else [TagOrigin(entries[0], path)] + TagAll(entries[1..], path)
  }
}
