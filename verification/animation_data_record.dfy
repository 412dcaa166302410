/** The AnimationData database record: the animations a model can play. */
module AnimationDataRecord {
  import opened RecordSchema

  const Database: DatabaseName := AnimationData

  /** The declared fields, in declaration order, with the version that
      introduced each. */
  const Fields: seq<RecordField> := [
    RecordField("Name", Classic, StringReference),
    RecordField("WeaponFlags", Classic, Enumeration("WeaponAnimationFlags")),
    RecordField("BodyFlags", Classic, UInt32),
    RecordField("Flags", Classic, UInt32),
    RecordField("FallbackAnimation", Classic, ForeignKey(AnimationData, "ID")),
    RecordField("BehaviourAnimation", Classic, ForeignKey(AnimationData, "ID")),
    RecordField("BehaviourTier", Wrath, UInt32)
  ]

  /** The six fields every version reads. */
  const ClassicFields: seq<RecordField> := Fields[..6]

  /** The fields a record of version `v` holds. */
  function Schema(v: WarcraftVersion): (r: seq<RecordField>)
    ensures |r| <= |Fields| && r == Fields[..|r|]
  {
    OrderedSchemaIsPrefix(Fields, v);
    EffectiveSchema(Fields, v)
  }

  /** Every declared field but the last came with Classic; the last with
      Wrath. */
  lemma Introductions()
    ensures forall i :: 0 <= i < 6 ==> Fields[i].introduced == Classic
    ensures Fields[6].introduced == Wrath
  {
  }

  /** Up to but excluding Wrath, a record is exactly the six fields
      introduced at Classic, Name first and BehaviourAnimation last. */
  lemma SchemaBeforeWrath(v: WarcraftVersion)
    requires Rank(v) < Rank(Wrath)
    ensures Schema(v) == ClassicFields
    ensures Schema(v)[0].name == "Name" && Schema(v)[5].name == "BehaviourAnimation"
  {
    Introductions();
    var late := Fields[6..];
    assert late == [Fields[6]];
    NoneIntroduced(late, v);
    assert Fields == ClassicFields + late;
    EffectiveSchemaAppend(ClassicFields, late, v);
    AllIntroduced(ClassicFields, v);
  }

  /** From Wrath on, BehaviourTier is appended as the last field. */
  lemma SchemaFromWrath(v: WarcraftVersion)
    requires Rank(v) >= Rank(Wrath)
    ensures Schema(v) == Fields
    ensures Schema(v) == ClassicFields + [RecordField("BehaviourTier", Wrath, UInt32)]
  {
    Introductions();
    AllIntroduced(Fields, v);
    assert Fields == ClassicFields + [Fields[6]];
  }

  /** FallbackAnimation and BehaviourAnimation are the only foreign keys, and
      both refer to the ID column of the AnimationData table itself. */
  lemma ForeignKeysIntoOwnTable()
    ensures ForeignKeys(Fields) == [
      ForeignKeyInfo("FallbackAnimation", Database, "ID"),
      ForeignKeyInfo("BehaviourAnimation", Database, "ID")]
  {
  }

  /** The string references a record yields: its name alone. */
  function GetStringReferences(): (r: seq<string>)
    ensures |r| == 1
  {
    ["Name"]
  }

  /** At every version, the references yielded are exactly the
      string-reference fields the record holds. */
  lemma StringReferencesMatchSchema(v: WarcraftVersion)
    ensures GetStringReferences() == StringReferenceFields(Schema(v))
  {
    NameIsOnlyStringField();
    if Rank(v) < Rank(Wrath) {
      SchemaBeforeWrath(v);
    } else {
      SchemaFromWrath(v);
    }
  }

  lemma NameIsOnlyStringField()
    ensures StringReferenceFields(ClassicFields) == ["Name"]
    ensures StringReferenceFields(Fields) == ["Name"]
  {
    assert forall i :: 1 <= i < |Fields| ==> Fields[i].fieldType != StringReference;
    NoStringReferenceFields(Fields[1..]);
    NoStringReferenceFields(ClassicFields[1..]);
  }
}
