/** The LiquidObject database record: how an in-world liquid behaves. All of
    its declared fields arrived with Cataclysm. */
module LiquidObjectRecord {
  import opened RecordSchema

  const Database: DatabaseName := LiquidObject

  /** The declared fields, in declaration order. The two flow fields are
      floats, kept here only as their storage type. */
  const Fields: seq<RecordField> := [
    RecordField("FlowDirection", Cataclysm, Float32),
    RecordField("FlowSpeed", Cataclysm, Float32),
    RecordField("LiquidType", Cataclysm, ForeignKey(LiquidType, "ID")),
    RecordField("Fishable", Cataclysm, UInt32),
    RecordField("Reflection", Cataclysm, UInt32)
  ]

  /** The fields a record of version `v` holds. */
  function Schema(v: WarcraftVersion): (r: seq<RecordField>)
    ensures |r| <= |Fields| && r == Fields[..|r|]
  {
    OrderedSchemaIsPrefix(Fields, v);
    EffectiveSchema(Fields, v)
  }

  /** Before Cataclysm none of the declared fields is read. */
  lemma SchemaBeforeCataclysm(v: WarcraftVersion)
    requires Rank(v) < Rank(Cataclysm)
    ensures Schema(v) == []
  {
    NoneIntroducedAfter(Fields, v);
  }

  /** From Cataclysm on, all five fields are read in declaration order. */
  lemma SchemaFromCataclysm(v: WarcraftVersion)
    requires Rank(v) >= Rank(Cataclysm)
    ensures Schema(v) == Fields
    ensures |Schema(v)| == 5
    ensures Schema(v)[0].name == "FlowDirection" && Schema(v)[4].name == "Reflection"
  {
    AllIntroduced(Fields, v);
  }

  /** LiquidType is the record's only foreign key, into the ID column of the
      LiquidType table. */
  lemma ForeignKeyIntoLiquidType()
    ensures ForeignKeys(Fields) == [ForeignKeyInfo("LiquidType", LiquidType, "ID")]
  {
  }

  /** At no version does the record's schema hold a string-reference
      field. */
  lemma NoStringReferenceFieldAtAnyVersion(v: WarcraftVersion)
    ensures StringReferenceFields(Schema(v)) == []
  {
    if Rank(v) < Rank(Cataclysm) {
      SchemaBeforeCataclysm(v);
    } else {
      SchemaFromCataclysm(v);
    }
  }
}
