/**
 * The records the merger works on: a parsed model and its fields as the
 * Prisma parser delivers them, extended with the attributes mined from the
 * schema text (lib/dmmf-extension.d.ts), plus the enums, datasources and
 * generators of a parsed schema.
 */
module Dmmf {
  import opened Base

  /** What the parser says about a field; the merger only compares and copies it. */
  datatype FieldInfo = FieldInfo(
    kind: string,
    typeName: string,
    isList: bool,
    isRequired: bool,
    isId: bool,
    isUnique: bool,
    relationName: Option<string>)

  /** A field with its seven mined attributes (`undefined` = `None`). */
  datatype Field = Field(
    name: string,
    info: FieldInfo,
    columnName: Option<string>,
    dbType: Option<string>,
    relationOnUpdate: Option<string>,
    shareable: Option<bool>,
    inaccessible: Option<bool>,
    external: Option<bool>,
    requiresDirective: Option<bool>)

  datatype UniqueIndex = UniqueIndex(indexName: Option<string>, fields: seq<string>)

  datatype PrimaryKey = PrimaryKey(keyName: Option<string>, fields: seq<string>)

  /** A model: the parser's properties plus the mined `@@index` declarations. */
  datatype Model = Model(
    name: string,
    fields: seq<Field>,
    dbName: Option<string>,
    primaryKey: Option<PrimaryKey>,
    uniqueFields: seq<seq<string>>,
    uniqueIndexes: seq<UniqueIndex>,
    doubleAtIndexes: Option<seq<string>>)

  datatype Enum = Enum(name: string, values: seq<string>, dbName: Option<string>)

  /** A datasource URL: `env("X")` or a literal; `value` is `null` unless a literal is given. */
  datatype EnvValue = EnvValue(fromEnvVar: Option<string>, value: Option<string>)

  datatype Datasource = Datasource(name: string, provider: string, url: EnvValue)

  datatype Generator = Generator(name: string, provider: string, output: Option<string>)

  /** `CustomFieldAttributes` as mined for one field line; the federation flags are always booleans. */
  datatype FieldAttributes = FieldAttributes(
    columnName: Option<string>,
    dbType: Option<string>,
    relationOnUpdate: Option<string>,
    shareable: bool,
    inaccessible: bool,
    external: bool,
    requiresDirective: bool)

  /** `CustomAttributes` of one model: mined field attributes by field name, and its `@@index` lines. */
  datatype CustomAttributes = CustomAttributes(
    fields: map<string, FieldAttributes>,
    doubleAtIndexes: seq<string>)

  /** The names of a list of fields, in order. */
  function FieldNames(fields: seq<Field>): (r: seq<string>)
    ensures |r| == |fields| && forall i :: 0 <= i < |fields| ==> r[i] == fields[i].name
  {
    seq(|fields|, i requires 0 <= i < |fields| => fields[i].name)
  }

  /** The names of a list of models, in order. */
  function ModelNames(models: seq<Model>): (r: seq<string>)
    ensures |r| == |models| && forall i :: 0 <= i < |models| ==> r[i] == models[i].name
  {
    seq(|models|, i requires 0 <= i < |models| => models[i].name)
  }

  /** The names of a list with one more model. */
  lemma ModelNamesSnoc(models: seq<Model>)
    requires |models| > 0
    ensures ModelNames(models) == ModelNames(models[..|models| - 1]) + [models[|models| - 1].name]
  {
    var prefix := models[..|models| - 1];
    assert forall i :: 0 <= i < |prefix| ==> ModelNames(models)[i] == ModelNames(prefix)[i];
  }

  /** No name occurs twice. */
  predicate Unique(names: seq<string>) {
    forall i, j :: 0 <= i < j < |names| ==> names[i] != names[j]
  }

  /** The index of the first occurrence of `n` in `names`. */
  function FirstIndex(names: seq<string>, n: string): (r: nat)
    requires n in names
    ensures r < |names| && names[r] == n
    ensures forall j :: 0 <= j < r ==> names[j] != n
  {
    if names[0] == n then 0 else 1 + FirstIndex(names[1..], n)
  }

  /** Appending does not move the first occurrence of a name already present. */
  lemma FirstIndexAppend(names: seq<string>, more: seq<string>, n: string)
    requires n in names
    ensures n in names + more && FirstIndex(names + more, n) == FirstIndex(names, n)
  {
    assert (names + more)[FirstIndex(names, n)] == n;
  }

  /** A name seen for the first time at index `i` has its first occurrence there. */
  lemma FirstIndexNew(names: seq<string>, i: nat, n: string)
    requires i < |names| && names[i] == n && n !in names[..i]
    ensures FirstIndex(names, n) == i
  {
    assert forall j :: 0 <= j < i ==> names[..i][j] == names[j];
  }

  /** The names of `order` come in the order of their first occurrence in `names`. */
  predicate InFirstOrder(order: seq<string>, names: seq<string>) {
    forall i, j :: 0 <= i < j < |order| ==>
      order[i] in names && order[j] in names && FirstIndex(names, order[i]) < FirstIndex(names, order[j])
  }

  /** One more name seen: the order is kept, and a new name may go last. */
  lemma InFirstOrderSnoc(order: seq<string>, names: seq<string>, x: string)
    requires InFirstOrder(order, names) && forall k :: 0 <= k < |order| ==> order[k] in names
    ensures InFirstOrder(order, names + [x])
    ensures x !in names ==> InFirstOrder(order + [x], names + [x])
  {
    var more := names + [x];
    forall k | 0 <= k < |order| ensures order[k] in more && FirstIndex(more, order[k]) == FirstIndex(names, order[k]) < |names| {
      FirstIndexAppend(names, [x], order[k]);
    }
    if x !in names {
      assert more[..|names|] == names;
      FirstIndexNew(more, |names|, x);
      var longer := order + [x];
      forall i, j | 0 <= i < j < |longer|
        ensures longer[i] in more && longer[j] in more && FirstIndex(more, longer[i]) < FirstIndex(more, longer[j])
      {
        assert longer[i] == order[i];
      }
    }
  }
}
