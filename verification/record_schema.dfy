/** Version-gated database record schemas. Each field of a record
    definition carries the game version that introduced it; the schema a
    given version reads is the fields introduced at or before it, in
    declaration order. */
module RecordSchema {
  import opened Sequences

  /** The game versions a record field can be tagged with, oldest first. */
  datatype WarcraftVersion =
    | Classic
    | BurningCrusade
    | Wrath
    | Cataclysm
    | Mists
    | Warlords
    | Legion

  /** The release order of the versions. */
  function Rank(v: WarcraftVersion): nat
  {
    match v
    case Classic => 0
    case BurningCrusade => 1
    case Wrath => 2
    case Cataclysm => 3
    case Mists => 4
    case Warlords => 5
    case Legion => 6
  }

  /** The database tables the modelled records bind to or refer to. */
  datatype DatabaseName = AnimationData | LiquidObject | LiquidType

  /** How a field is stored; a foreign key names the table and column it
      refers to and is stored as a raw uint. */
  datatype FieldType =
    | StringReference
    | Enumeration(typeName: string)
    | UInt32
    | Float32
    | ForeignKey(table: DatabaseName, column: string)

  datatype RecordField = RecordField(name: string, introduced: WarcraftVersion, fieldType: FieldType)

  predicate IntroducedBy(f: RecordField, v: WarcraftVersion) {
    Rank(f.introduced) <= Rank(v)
  }

  /** The fields a record of version `v` holds: those introduced at or
      before `v`, in declaration order. */
  function EffectiveSchema(fields: seq<RecordField>, v: WarcraftVersion): (r: seq<RecordField>)
    ensures |r| <= |fields|
    decreases |fields|
  {
    if |fields| == 0 then []
    else if IntroducedBy(fields[0], v) then [fields[0]] + EffectiveSchema(fields[1..], v)
    else EffectiveSchema(fields[1..], v)
  }

  /** The schema holds exactly the declared fields `v` has, and keeps their
      declaration order. */
  lemma {:induction false} EffectiveSchemaSelects(fields: seq<RecordField>, v: WarcraftVersion)
    ensures forall f :: f in EffectiveSchema(fields, v) <==> f in fields && IntroducedBy(f, v)
    ensures IsSubsequence(EffectiveSchema(fields, v), fields)
    decreases |fields|
  {
    if |fields| > 0 {
      EffectiveSchemaSelects(fields[1..], v);
      var rest := EffectiveSchema(fields[1..], v);
      assert forall f :: f in fields <==> f == fields[0] || f in fields[1..];
      if IntroducedBy(fields[0], v) {
        assert ([fields[0]] + rest)[1..] == rest;
      } else {
        assert IsSubsequence(rest, fields[1..]);
      }
    }
  }

  /** A later version reads every field an earlier one does, in the same
      relative order. */
  lemma {:induction false} SchemaMonotone(fields: seq<RecordField>, v: WarcraftVersion, w: WarcraftVersion)
    requires Rank(v) <= Rank(w)
    ensures IsSubsequence(EffectiveSchema(fields, v), EffectiveSchema(fields, w))
    decreases |fields|
  {
    if |fields| > 0 {
      SchemaMonotone(fields[1..], v, w);
      var sv := EffectiveSchema(fields[1..], v);
      var sw := EffectiveSchema(fields[1..], w);
      if IntroducedBy(fields[0], v) {
        assert ([fields[0]] + sv)[1..] == sv;
        assert ([fields[0]] + sw)[1..] == sw;
      } else if IntroducedBy(fields[0], w) {
        SubsequenceOfCons(sv, fields[0], sw);
      }
    }
  }

  /** A declaration all of whose fields `v` has reads as the whole
      declaration. */
  lemma {:induction false} AllIntroduced(fields: seq<RecordField>, v: WarcraftVersion)
    requires forall i :: 0 <= i < |fields| ==> IntroducedBy(fields[i], v)
    ensures EffectiveSchema(fields, v) == fields
    decreases |fields|
  {
    if |fields| > 0 {
      assert forall i :: 0 <= i < |fields[1..]| ==> fields[1..][i] == fields[i + 1];
      AllIntroduced(fields[1..], v);
      assert fields == [fields[0]] + fields[1..];
    }
  }

  /** Selecting from two declarations one after the other is selecting from
      each. */
  lemma {:induction false} EffectiveSchemaAppend(a: seq<RecordField>, b: seq<RecordField>, v: WarcraftVersion)
    ensures EffectiveSchema(a + b, v) == EffectiveSchema(a, v) + EffectiveSchema(b, v)
    decreases |a|
  {
    if |a| == 0 {
      assert a + b == b;
    } else {
      assert (a + b)[0] == a[0];
      assert (a + b)[1..] == a[1..] + b;
      EffectiveSchemaAppend(a[1..], b, v);
    }
  }

  /** Fields declared in version order: never an older one after a newer. */
  predicate DeclaredInVersionOrder(fields: seq<RecordField>) {
    forall i, j :: 0 <= i < j < |fields| ==> Rank(fields[i].introduced) <= Rank(fields[j].introduced)
  }

  /** With fields declared in version order, every version reads a prefix of
      the declaration. */
  lemma {:induction false} OrderedSchemaIsPrefix(fields: seq<RecordField>, v: WarcraftVersion)
    requires DeclaredInVersionOrder(fields)
    ensures |EffectiveSchema(fields, v)| <= |fields|
    ensures EffectiveSchema(fields, v) == fields[..|EffectiveSchema(fields, v)|]
    decreases |fields|
  {
    if |fields| > 0 {
      if IntroducedBy(fields[0], v) {
        assert DeclaredInVersionOrder(fields[1..]) by {
          assert forall i :: 0 <= i < |fields[1..]| ==> fields[1..][i] == fields[i + 1];
        }
        OrderedSchemaIsPrefix(fields[1..], v);
        var rest := EffectiveSchema(fields[1..], v);
        assert fields[..|rest| + 1] == [fields[0]] + fields[1..][..|rest|];
      } else {
        NoneIntroducedAfter(fields, v);
      }
    }
  }

  /** A declaration none of whose fields `v` has reads as empty. */
  lemma {:induction false} NoneIntroduced(fields: seq<RecordField>, v: WarcraftVersion)
    requires forall i :: 0 <= i < |fields| ==> !IntroducedBy(fields[i], v)
    ensures EffectiveSchema(fields, v) == []
    decreases |fields|
  {
    if |fields| > 0 {
      assert forall i :: 0 <= i < |fields[1..]| ==> fields[1..][i] == fields[i + 1];
      NoneIntroduced(fields[1..], v);
    }
  }

  /** Once a field of a version-ordered declaration is too new, so are all
      later ones. */
  lemma NoneIntroducedAfter(fields: seq<RecordField>, v: WarcraftVersion)
    requires DeclaredInVersionOrder(fields) && |fields| > 0 && !IntroducedBy(fields[0], v)
    ensures EffectiveSchema(fields, v) == []
  {
    forall i | 0 <= i < |fields|
      ensures !IntroducedBy(fields[i], v)
    {
      if i > 0 {
        assert Rank(fields[0].introduced) <= Rank(fields[i].introduced);
      }
    }
    NoneIntroduced(fields, v);
  }

  /** The names of the string-reference fields, in order. */
  function StringReferenceFields(fields: seq<RecordField>): (r: seq<string>)
    ensures |r| <= |fields|
    decreases |fields|
  {
    if |fields| == 0 then []
    else if fields[0].fieldType == StringReference then [fields[0].name] + StringReferenceFields(fields[1..])
    else StringReferenceFields(fields[1..])
  }

  /** A declaration without string-reference fields lists none. */
  lemma {:induction false} NoStringReferenceFields(fields: seq<RecordField>)
    requires forall i :: 0 <= i < |fields| ==> fields[i].fieldType != StringReference
    ensures StringReferenceFields(fields) == []
    decreases |fields|
  {
    if |fields| > 0 {
      assert forall i :: 0 <= i < |fields[1..]| ==> fields[1..][i] == fields[i + 1];
      NoStringReferenceFields(fields[1..]);
    }
  }

  /** A name is listed exactly when a string-reference field carries it. */
  lemma {:induction false} StringReferenceFieldsSelect(fields: seq<RecordField>)
    ensures forall n :: n in StringReferenceFields(fields) <==>
              exists f :: f in fields && f.fieldType == StringReference && f.name == n
    decreases |fields|
  {
    if |fields| > 0 {
      StringReferenceFieldsSelect(fields[1..]);
      assert forall f :: f in fields <==> f == fields[0] || f in fields[1..];
    }
  }

  /** A foreign key: the referring field and the table and column it names. */
  datatype ForeignKeyInfo = ForeignKeyInfo(field: string, table: DatabaseName, column: string)

  /** The foreign-key fields, in order. */
  function ForeignKeys(fields: seq<RecordField>): (r: seq<ForeignKeyInfo>)
    ensures |r| <= |fields|
    decreases |fields|
  {
    if |fields| == 0 then []
    else
      match fields[0].fieldType
      case ForeignKey(table, column) => [ForeignKeyInfo(fields[0].name, table, column)] + ForeignKeys(fields[1..])
      case _ => ForeignKeys(fields[1..])
  }

  /** A key is listed exactly when a field of that name is a foreign key into
      that table and column. */
  lemma {:induction false} ForeignKeysSelect(fields: seq<RecordField>)
    ensures forall k :: k in ForeignKeys(fields) <==>
              exists f :: f in fields && f.name == k.field && f.fieldType == ForeignKey(k.table, k.column)
    decreases |fields|
  {
    if |fields| > 0 {
      ForeignKeysSelect(fields[1..]);
      assert forall f :: f in fields <==> f == fields[0] || f in fields[1..];
    }
  }
}
