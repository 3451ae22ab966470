/**
 * The injection step of `getSchema` (lib/prismix.ts:40-60): each parsed model
 * gets the `@@index` lines mined for its name, and each of its fields gets
 * the seven attributes mined for its (model, field) pair — or none at all
 * when nothing was mined for it.
 */
module Inject {
  import opened Base
  import opened Dmmf

  /** `customAttributes[model]?.fields[field]`: the bag mined for a field, if any. */
  function Bag(custom: map<string, CustomAttributes>, model: string, field: string): Option<FieldAttributes> {
    if model in custom && field in custom[model].fields then Some(custom[model].fields[field]) else None
  }

  /** `customAttributes[model]?.doubleAtIndexes` */
  function Indexes(custom: map<string, CustomAttributes>, model: string): Option<seq<string>> {
    if model in custom then Some(custom[model].doubleAtIndexes) else None
  }

  /**
   * `{...field, columnName: attributes.columnName, ...}` with
   * `attributes = bag ?? {}`: every one of the seven attributes is replaced,
   * by `undefined` when there is no bag.
   */
  function InjectField(field: Field, bag: Option<FieldAttributes>): Field {
    match bag
    case None =>
      field.(columnName := None, dbType := None, relationOnUpdate := None,
             shareable := None, inaccessible := None, external := None, requiresDirective := None)
    case Some(a) =>
      field.(columnName := a.columnName, dbType := a.dbType, relationOnUpdate := a.relationOnUpdate,
             shareable := Some(a.shareable), inaccessible := Some(a.inaccessible),
             external := Some(a.external), requiresDirective := Some(a.requiresDirective))
  }

  /** The seven attributes a field carries after injection, read back as a bag. */
  function Attributes(field: Field): Option<FieldAttributes> {
    if field.shareable.None? then None
    else
      Some(FieldAttributes(field.columnName, field.dbType, field.relationOnUpdate,
                           field.shareable.value, field.inaccessible.GetOr(false),
                           field.external.GetOr(false), field.requiresDirective.GetOr(false)))
  }

  /** Injection keeps a field's name and what the parser said, and carries exactly the bag given. */
  lemma InjectFieldSpec(field: Field, bag: Option<FieldAttributes>)
    ensures InjectField(field, bag).name == field.name && InjectField(field, bag).info == field.info
    ensures Attributes(InjectField(field, bag)) == bag
    ensures bag.None? ==> InjectField(field, bag).columnName.None? && InjectField(field, bag).dbType.None?
                          && InjectField(field, bag).relationOnUpdate.None?
  {
  }

  /** `model.fields.map(...)`: each field injected with its own bag. */
  function InjectFields(custom: map<string, CustomAttributes>, model: string, fields: seq<Field>): (r: seq<Field>)
    ensures |r| == |fields|
    ensures forall i :: 0 <= i < |fields| ==> r[i] == InjectField(fields[i], Bag(custom, model, fields[i].name))
  {
    seq(|fields|, i requires 0 <= i < |fields| => InjectField(fields[i], Bag(custom, model, fields[i].name)))
  }

  /** `{...model, doubleAtIndexes: ..., fields: model.fields.map(...)}` */
  function InjectModel(custom: map<string, CustomAttributes>, model: Model): Model {
    model.(doubleAtIndexes := Indexes(custom, model.name),
           fields := InjectFields(custom, model.name, model.fields))
  }

  /** `dmmf.datamodel.models.map(...)` */
  function InjectModels(custom: map<string, CustomAttributes>, models: seq<Model>): (r: seq<Model>)
    ensures |r| == |models| && forall i :: 0 <= i < |models| ==> r[i] == InjectModel(custom, models[i])
  {
    seq(|models|, i requires 0 <= i < |models| => InjectModel(custom, models[i]))
  }

  /**
   * Injection changes only the `@@index` lines and the seven field
   * attributes: the model's name, table name, keys and indexes, and each
   * field's name and parser description stay; each field then carries exactly
   * the bag mined for it, and the model the lines mined for its name.
   */
  lemma InjectModelSpec(custom: map<string, CustomAttributes>, model: Model)
    ensures var r := InjectModel(custom, model);
      && r.name == model.name && r.dbName == model.dbName && r.primaryKey == model.primaryKey
      && r.uniqueFields == model.uniqueFields && r.uniqueIndexes == model.uniqueIndexes
      && FieldNames(r.fields) == FieldNames(model.fields)
      && r.doubleAtIndexes == Indexes(custom, model.name)
      && (r.doubleAtIndexes.Some? <==> model.name in custom)
      && forall i :: 0 <= i < |model.fields| ==>
           && r.fields[i].info == model.fields[i].info
           && Attributes(r.fields[i]) == Bag(custom, model.name, model.fields[i].name)
  {
    var r := InjectModel(custom, model);
    forall i | 0 <= i < |model.fields|
      ensures r.fields[i].info == model.fields[i].info
      ensures Attributes(r.fields[i]) == Bag(custom, model.name, model.fields[i].name)
    {
      InjectFieldSpec(model.fields[i], Bag(custom, model.name, model.fields[i].name));
    }
  }

  /** The result does not depend on the attributes a model carried before: injecting twice is injecting once. */
  lemma InjectIdempotent(custom: map<string, CustomAttributes>, model: Model)
    ensures InjectModel(custom, InjectModel(custom, model)) == InjectModel(custom, model)
  {
    var once := InjectModel(custom, model);
    assert FieldNames(once.fields) == FieldNames(model.fields);
    var twice := InjectModel(custom, once);
    assert twice.fields == once.fields by {
      forall i | 0 <= i < |once.fields| ensures twice.fields[i] == once.fields[i] {
        assert once.fields[i].name == model.fields[i].name;
      }
    }
  }
}
