/**
 * What `mixModels` computes (lib/prismix.ts:77-137), stated on values: the
 * merge of one incoming model into the model kept for its name, and the fold
 * of a whole list of models into one model per name. The in-place version
 * that updates the kept objects is proved equal to these in module Mixer.
 */
module Merge {
  import opened Base
  import opened Dmmf
  import opened Console

  /** One turn of the field loop: a field whose name is present is dropped, otherwise appended. */
  function AddField(fields: seq<Field>, f: Field): seq<Field> {
    if f.name in FieldNames(fields) then fields else fields + [f]
  }

  /** The fields after all incoming fields have been looked at, in order. */
  function MergeFields(fields: seq<Field>, incoming: seq<Field>): seq<Field>
    decreases |incoming|
  {
    if |incoming| == 0 then fields
    else AddField(MergeFields(fields, incoming[..|incoming| - 1]), incoming[|incoming| - 1])
  }

  /** The mismatch reports for one incoming field: one per present field of its name that differs. */
  function FieldWarnings(model: string, fields: seq<Field>, f: Field): seq<LogEntry>
    decreases |fields|
  {
    if |fields| == 0 then []
    else
      var last := fields[|fields| - 1];
      FieldWarnings(model, fields[..|fields| - 1], f)
      + (if last.name == f.name && last != f then [FieldMismatch(model, last.name)] else [])
  }

  /** The mismatch reports of the whole field loop; each field is compared with the fields present then. */
  function MergeWarnings(model: string, fields: seq<Field>, incoming: seq<Field>): seq<LogEntry>
    decreases |incoming|
  {
    if |incoming| == 0 then []
    else
      var prefix := incoming[..|incoming| - 1];
      MergeWarnings(model, fields, prefix) + FieldWarnings(model, MergeFields(fields, prefix), incoming[|incoming| - 1])
  }

  /** `list?.length` is truthy. */
  predicate NonEmptyList<T>(list: Option<seq<T>>) {
    list.Some? && |list.value| > 0
  }

  /** The kept model after `incoming` has been merged into it. */
  function Merged(kept: Model, incoming: Model): Model {
    kept.(
      fields := MergeFields(kept.fields, incoming.fields),
      dbName := if !Truthy(kept.dbName) && Truthy(incoming.dbName) then incoming.dbName else kept.dbName,
      doubleAtIndexes :=
        if NonEmptyList(incoming.doubleAtIndexes)
        then Some(kept.doubleAtIndexes.GetOr([]) + incoming.doubleAtIndexes.value)
        else kept.doubleAtIndexes,
      uniqueIndexes :=
        if |incoming.uniqueIndexes| > 0 then kept.uniqueIndexes + incoming.uniqueIndexes else kept.uniqueIndexes,
      uniqueFields :=
        if |incoming.uniqueIndexes| > 0 then kept.uniqueFields + incoming.uniqueFields else kept.uniqueFields)
  }

  /** The record of kept models (`order` is its key order), and the reports printed so far. */
  datatype MixState = MixState(order: seq<string>, table: map<string, Model>, warnings: seq<LogEntry>)

  /** One turn of the loop of `mixModels`: merge into the kept model of the name, or keep `m`. */
  function MixStep(st: MixState, m: Model): MixState {
    if m.name in st.table then
      var kept := st.table[m.name];
      MixState(st.order, st.table[m.name := Merged(kept, m)],
               st.warnings + MergeWarnings(kept.name, kept.fields, m.fields))
    else
      MixState(st.order + [m.name], st.table[m.name := m], st.warnings)
  }

  /** The turn for a name not yet kept: the model is kept and its name goes last in key order. */
  lemma MixStepNew(st: MixState, m: Model)
    requires m.name !in st.table
    ensures MixStep(st, m) == MixState(st.order + [m.name], st.table[m.name := m], st.warnings)
  {
  }

  /** The state after the loop of `mixModels` has run over `inputs`. */
  function MixFold(inputs: seq<Model>): (r: MixState)
    ensures Unique(r.order)
    ensures forall k :: k in r.order <==> k in r.table
    ensures forall k :: k in r.table <==> k in ModelNames(inputs)
    ensures forall k :: k in r.table ==> r.table[k].name == k
    decreases |inputs|
  {
    if |inputs| == 0 then MixState([], map[], [])
    else
      var prefix := inputs[..|inputs| - 1];
      ModelNamesSnoc(inputs);
      MixStep(MixFold(prefix), inputs[|inputs| - 1])
  }

  /** One more turn of the loop. */
  lemma MixFoldNext(inputs: seq<Model>, i: nat)
    requires i < |inputs|
    ensures MixFold(inputs[..i + 1]) == MixStep(MixFold(inputs[..i]), inputs[i])
  {
    assert inputs[..i + 1][..i] == inputs[..i];
  }

  /** `Object.values(models)`: the kept models in key order. */
  function Mix(inputs: seq<Model>): seq<Model> {
    var st := MixFold(inputs);
    seq(|st.order|, i requires 0 <= i < |st.order| => st.table[st.order[i]])
  }

  // ---------------------------------------------------------------------
  // Fields

  /** Earlier fields keep their place and content; nothing is replaced or removed. */
  lemma {:induction false} MergeFieldsKeepsExisting(fields: seq<Field>, incoming: seq<Field>)
    ensures |MergeFields(fields, incoming)| >= |fields|
    ensures MergeFields(fields, incoming)[..|fields|] == fields
    decreases |incoming|
  {
    if |incoming| > 0 {
      MergeFieldsKeepsExisting(fields, incoming[..|incoming| - 1]);
    }
  }

  /** The merged field names are those of both lists. */
  lemma {:induction false} MergeFieldsNames(fields: seq<Field>, incoming: seq<Field>)
    ensures forall n :: n in FieldNames(MergeFields(fields, incoming)) <==> n in FieldNames(fields) || n in FieldNames(incoming)
    decreases |incoming|
  {
    if |incoming| > 0 {
      var prefix, x := incoming[..|incoming| - 1], incoming[|incoming| - 1];
      MergeFieldsNames(fields, prefix);
      assert FieldNames(incoming) == FieldNames(prefix) + [x.name];
      var before := MergeFields(fields, prefix);
      if x.name !in FieldNames(before) {
        assert FieldNames(before + [x]) == FieldNames(before) + [x.name];
      }
    }
  }

  /** Incoming fields whose names are all present leave the fields as they were. */
  lemma {:induction false} MergeFieldsNothingNew(fields: seq<Field>, incoming: seq<Field>)
    requires forall j :: 0 <= j < |incoming| ==> incoming[j].name in FieldNames(fields)
    ensures MergeFields(fields, incoming) == fields
    decreases |incoming|
  {
    if |incoming| > 0 {
      MergeFieldsNothingNew(fields, incoming[..|incoming| - 1]);
    }
  }

  /** Merging never creates two fields of the same name. */
  lemma {:induction false} MergeFieldsUnique(fields: seq<Field>, incoming: seq<Field>)
    requires Unique(FieldNames(fields))
    ensures Unique(FieldNames(MergeFields(fields, incoming)))
    decreases |incoming|
  {
    if |incoming| > 0 {
      var prefix, x := incoming[..|incoming| - 1], incoming[|incoming| - 1];
      MergeFieldsUnique(fields, prefix);
      var before := MergeFields(fields, prefix);
      if x.name !in FieldNames(before) {
        assert FieldNames(before + [x]) == FieldNames(before) + [x.name];
      }
    }
  }

  /**
   * The appended fields are, in incoming order, the first incoming field of
   * each name that was not present before.
   */
  lemma {:induction false} MergeFieldsAppended(fields: seq<Field>, incoming: seq<Field>)
    ensures forall i :: |fields| <= i < |MergeFields(fields, incoming)| ==>
      var f := MergeFields(fields, incoming)[i];
      f.name !in FieldNames(fields) && f.name in FieldNames(incoming)
      && f == incoming[FirstIndex(FieldNames(incoming), f.name)]
    ensures forall i, j :: |fields| <= i < j < |MergeFields(fields, incoming)| ==>
      var fi, fj := MergeFields(fields, incoming)[i], MergeFields(fields, incoming)[j];
      fi.name in FieldNames(incoming) && fj.name in FieldNames(incoming)
      && FirstIndex(FieldNames(incoming), fi.name) < FirstIndex(FieldNames(incoming), fj.name)
    decreases |incoming|
  {
    MergeFieldsKeepsExisting(fields, incoming);
    if |incoming| > 0 {
      var prefix, x := incoming[..|incoming| - 1], incoming[|incoming| - 1];
      MergeFieldsAppended(fields, prefix);
      MergeFieldsKeepsExisting(fields, prefix);
      MergeFieldsNames(fields, prefix);
      var before := MergeFields(fields, prefix);
      var names := FieldNames(incoming);
      assert names == FieldNames(prefix) + [x.name];
      forall i | |fields| <= i < |before|
        ensures before[i].name in names
        ensures FirstIndex(names, before[i].name) == FirstIndex(FieldNames(prefix), before[i].name)
        ensures FirstIndex(names, before[i].name) < |prefix|
      {
        FirstIndexAppend(FieldNames(prefix), [x.name], before[i].name);
      }
      if x.name !in FieldNames(before) {
        assert x.name !in FieldNames(prefix);
        assert FirstIndex(names, x.name) == |prefix|;
      }
    }
  }

  /** One incoming field draws a report exactly when some present field of its name differs from it. */
  lemma {:induction false} FieldWarningsNone(model: string, fields: seq<Field>, f: Field)
    ensures FieldWarnings(model, fields, f) == [] <==> AgreesWith(fields, f)
    decreases |fields|
  {
    if |fields| > 0 {
      FieldWarningsNone(model, fields[..|fields| - 1], f);
    }
  }

  /**
   * With unique field names an incoming field whose name is present draws one
   * report if the present field differs and none if they are equal; a field with
   * a new name draws none.
   */
  lemma {:induction false} FieldWarningsUnique(model: string, fields: seq<Field>, f: Field)
    requires Unique(FieldNames(fields))
    ensures f.name !in FieldNames(fields) ==> FieldWarnings(model, fields, f) == []
    ensures f.name in FieldNames(fields) ==>
      FieldWarnings(model, fields, f)
      == if fields[FirstIndex(FieldNames(fields), f.name)] == f then [] else [FieldMismatch(model, f.name)]
    decreases |fields|
  {
    if |fields| > 0 {
      var prefix, last := fields[..|fields| - 1], fields[|fields| - 1];
      assert FieldNames(fields) == FieldNames(prefix) + [last.name];
      FieldWarningsUnique(model, prefix, f);
      if f.name in FieldNames(prefix) {
        FirstIndexAppend(FieldNames(prefix), [last.name], f.name);
      } else if f.name == last.name {
        assert FieldWarnings(model, prefix, f) == [];
        assert FirstIndex(FieldNames(fields), f.name) == |prefix|;
      }
    }
  }

  /** Every present field agrees with the incoming field of the same name. */
  predicate AgreesWith(fields: seq<Field>, f: Field) {
    forall i :: 0 <= i < |fields| && fields[i].name == f.name ==> fields[i] == f
  }

  /** Every same-named pair from the two lists is deep-equal. */
  predicate Agree(fields: seq<Field>, incoming: seq<Field>) {
    forall j :: 0 <= j < |incoming| ==> AgreesWith(fields, incoming[j])
  }

  /** Fields appended from incoming fields of other names do not change whether `x` agrees. */
  lemma AgreesAfterMerge(fields: seq<Field>, prefix: seq<Field>, x: Field)
    requires x.name !in FieldNames(prefix)
    ensures AgreesWith(MergeFields(fields, prefix), x) <==> AgreesWith(fields, x)
  {
    var before := MergeFields(fields, prefix);
    MergeFieldsKeepsExisting(fields, prefix);
    MergeFieldsAppended(fields, prefix);
    forall i | 0 <= i < |fields| ensures before[i] == fields[i] {
      assert before[..|fields|][i] == fields[i];
    }
    forall i | |fields| <= i < |before| ensures before[i].name != x.name {
      assert before[i].name in FieldNames(prefix);
    }
  }

  /** `Agree` with one more incoming field. */
  lemma AgreeSnoc(fields: seq<Field>, prefix: seq<Field>, x: Field)
    ensures Agree(fields, prefix + [x]) <==> Agree(fields, prefix) && AgreesWith(fields, x)
  {
    var incoming := prefix + [x];
    if Agree(fields, prefix) && AgreesWith(fields, x) {
      forall j | 0 <= j < |incoming| ensures AgreesWith(fields, incoming[j]) {
        if j < |prefix| { assert incoming[j] == prefix[j]; }
      }
    }
    if Agree(fields, incoming) {
      assert AgreesWith(fields, incoming[|prefix|]);
      forall j | 0 <= j < |prefix| ensures AgreesWith(fields, prefix[j]) {
        assert incoming[j] == prefix[j];
      }
    }
  }

  /**
   * For parsed models (unique field names on both sides) the field loop reports
   * nothing exactly when every same-named pair of fields is deep-equal.
   */
  lemma {:induction false} MergeWarningsNone(model: string, fields: seq<Field>, incoming: seq<Field>)
    requires Unique(FieldNames(fields)) && Unique(FieldNames(incoming))
    ensures MergeWarnings(model, fields, incoming) == [] <==> Agree(fields, incoming)
    decreases |incoming|
  {
    if |incoming| > 0 {
      var prefix, x := incoming[..|incoming| - 1], incoming[|incoming| - 1];
      assert FieldNames(incoming) == FieldNames(prefix) + [x.name];
      assert x.name !in FieldNames(prefix);
      MergeWarningsNone(model, fields, prefix);
      FieldWarningsNone(model, MergeFields(fields, prefix), x);
      AgreesAfterMerge(fields, prefix, x);
      assert incoming == prefix + [x];
      AgreeSnoc(fields, prefix, x);
      EmptyConcat(MergeWarnings(model, fields, prefix), FieldWarnings(model, MergeFields(fields, prefix), x));
    }
  }

  /** Two lists of reports together are empty exactly when each is. */
  lemma EmptyConcat(a: seq<LogEntry>, b: seq<LogEntry>)
    ensures a + b == [] <==> a == [] && b == []
  {
    if a + b == [] {
      assert |a + b| == |a| + |b|;
    }
  }

  /** Merging a model with an equal copy of itself adds no field and reports nothing. */
  lemma SelfMergeFields(m: Model)
    requires Unique(FieldNames(m.fields))
    ensures Merged(m, m).fields == m.fields
    ensures MergeWarnings(m.name, m.fields, m.fields) == []
  {
    MergeFieldsNothingNew(m.fields, m.fields);
    MergeWarningsNone(m.name, m.fields, m.fields);
  }

  /** Merging a model with a copy of itself keeps its table name but doubles its `@@index` and unique-index lists. */
  lemma SelfMergeLists(m: Model)
    ensures Merged(m, m).dbName == m.dbName
    ensures Merged(m, m).doubleAtIndexes == if m.doubleAtIndexes.Some? then Some(m.doubleAtIndexes.value + m.doubleAtIndexes.value) else None
    ensures Merged(m, m).uniqueIndexes == m.uniqueIndexes + m.uniqueIndexes
    ensures Merged(m, m).uniqueFields == if |m.uniqueIndexes| > 0 then m.uniqueFields + m.uniqueFields else m.uniqueFields
  {
    match m.doubleAtIndexes
    case None =>
    case Some(v) =>
      if v == [] {
        assert v + v == v;
      }
  }

  // ---------------------------------------------------------------------
  // Models

  /** The models of `inputs` with name `n`, in order. */
  function Named(inputs: seq<Model>, n: string): (r: seq<Model>)
    ensures |r| > 0 <==> n in ModelNames(inputs)
    decreases |inputs|
  {
    if |inputs| == 0 then []
    else
      var prefix := inputs[..|inputs| - 1];
      ModelNamesSnoc(inputs);
      Named(prefix, n) + if inputs[|inputs| - 1].name == n then [inputs[|inputs| - 1]] else []
  }

  /** The first model merged with each later one, in order. */
  function Chain(models: seq<Model>): Model
    requires |models| > 0
    decreases |models|
  {
    if |models| == 1 then models[0]
    else Merged(Chain(models[..|models| - 1]), models[|models| - 1])
  }

  /** The model kept for a name is the chain of all models of that name; other names do not matter. */
  lemma {:induction false} MixFoldPerName(inputs: seq<Model>, n: string)
    requires n in MixFold(inputs).table
    ensures MixFold(inputs).table[n] == Chain(Named(inputs, n))
    decreases |inputs|
  {
    var prefix, m := inputs[..|inputs| - 1], inputs[|inputs| - 1];
    var st := MixFold(prefix);
    var named := Named(inputs, n);
    if n != m.name {
      assert named == Named(prefix, n);
      MixFoldPerName(prefix, n);
    } else if n in st.table {
      assert named[..|named| - 1] == Named(prefix, n);
      MixFoldPerName(prefix, n);
    } else {
      assert n !in ModelNames(prefix);
      assert named == [m];
    }
  }

  /** The kept models come in order of first appearance of their names. */
  lemma {:induction false} MixFoldOrder(inputs: seq<Model>)
    ensures InFirstOrder(MixFold(inputs).order, ModelNames(inputs))
    decreases |inputs|
  {
    if |inputs| > 0 {
      var prefix, m := inputs[..|inputs| - 1], inputs[|inputs| - 1];
      MixFoldOrder(prefix);
      var st := MixFold(prefix);
      ModelNamesSnoc(inputs);
      InFirstOrderSnoc(st.order, ModelNames(prefix), m.name);
      assert MixFold(inputs).order == if m.name in st.table then st.order else st.order + [m.name];
    }
  }

  /**
   * `mixModels` returns exactly one model per distinct input name, in order of
   * first appearance, each the chain of the models of its name.
   */
  lemma MixSpec(inputs: seq<Model>)
    ensures Unique(ModelNames(Mix(inputs)))
    ensures forall n :: n in ModelNames(Mix(inputs)) <==> n in ModelNames(inputs)
    ensures forall i, j :: 0 <= i < j < |Mix(inputs)| ==>
      Mix(inputs)[i].name in ModelNames(inputs) && Mix(inputs)[j].name in ModelNames(inputs)
      && FirstIndex(ModelNames(inputs), Mix(inputs)[i].name) < FirstIndex(ModelNames(inputs), Mix(inputs)[j].name)
    ensures forall i :: 0 <= i < |Mix(inputs)| ==> Mix(inputs)[i] == Chain(Named(inputs, Mix(inputs)[i].name))
  {
    var st := MixFold(inputs);
    var r := Mix(inputs);
    MixFoldOrder(inputs);
    forall i | 0 <= i < |r| ensures r[i] == Chain(Named(inputs, r[i].name)) {
      MixFoldPerName(inputs, st.order[i]);
    }
    assert ModelNames(r) == st.order;
    forall n | n in ModelNames(inputs) ensures n in ModelNames(r) {
      assert n in st.table;
    }
  }

  // ---------------------------------------------------------------------
  // What a chain keeps

  /** All `@@index` declarations of `models`, in order, duplicates kept. */
  function AllDoubleAtIndexes(models: seq<Model>): seq<string>
    decreases |models|
  {
    if |models| == 0 then []
    else AllDoubleAtIndexes(models[..|models| - 1]) + models[|models| - 1].doubleAtIndexes.GetOr([])
  }

  /** All unique indexes of `models`, in order, duplicates kept. */
  function AllUniqueIndexes(models: seq<Model>): seq<UniqueIndex>
    decreases |models|
  {
    if |models| == 0 then []
    else AllUniqueIndexes(models[..|models| - 1]) + models[|models| - 1].uniqueIndexes
  }

  /** The unique-field lists of `models` that come with a non-empty unique-index list, in order. */
  function UniqueFieldsWithIndexes(models: seq<Model>): seq<seq<string>>
    decreases |models|
  {
    if |models| == 0 then []
    else
      var m := models[|models| - 1];
      UniqueFieldsWithIndexes(models[..|models| - 1]) + if |m.uniqueIndexes| > 0 then m.uniqueFields else []
  }

  /**
   * Along a chain the name, the primary key and the first model's fields are
   * kept; `@@index` declarations and unique indexes are concatenated in order;
   * unique fields grow only with models that bring unique indexes.
   */
  lemma {:induction false} ChainLists(models: seq<Model>)
    requires |models| > 0
    ensures Chain(models).name == models[0].name
    ensures Chain(models).primaryKey == models[0].primaryKey
    ensures |Chain(models).fields| >= |models[0].fields| && Chain(models).fields[..|models[0].fields|] == models[0].fields
    ensures Chain(models).doubleAtIndexes.GetOr([]) == AllDoubleAtIndexes(models)
    ensures Chain(models).uniqueIndexes == AllUniqueIndexes(models)
    ensures Chain(models).uniqueFields == models[0].uniqueFields + UniqueFieldsWithIndexes(models[1..])
    decreases |models|
  {
    if |models| == 1 {
      assert AllDoubleAtIndexes(models[..0]) == [];
      assert AllUniqueIndexes(models[..0]) == [];
      assert AllUniqueIndexes(models) == models[0].uniqueIndexes;
    } else {
      var prefix, x := models[..|models| - 1], models[|models| - 1];
      ChainLists(prefix);
      var c := Chain(prefix);
      MergeFieldsKeepsExisting(c.fields, x.fields);
      assert MergeFields(c.fields, x.fields)[..|models[0].fields|] == c.fields[..|models[0].fields|];
      assert models[1..][..|models[1..]| - 1] == prefix[1..];
    }
  }

  /** The table name is the first one set along the chain, or the first model's when none is set. */
  lemma ChainDbName(models: seq<Model>)
    requires |models| > 0
    ensures (forall i :: 0 <= i < |models| ==> !Truthy(models[i].dbName)) ==> Chain(models).dbName == models[0].dbName
    ensures forall k :: 0 <= k < |models| && Truthy(models[k].dbName) && (forall i :: 0 <= i < k ==> !Truthy(models[i].dbName))
                 ==> Chain(models).dbName == models[k].dbName
  {
    if forall i :: 0 <= i < |models| ==> !Truthy(models[i].dbName) {
      ChainDbNameUnset(models);
    }
    forall k | 0 <= k < |models| && Truthy(models[k].dbName) && (forall i :: 0 <= i < k ==> !Truthy(models[i].dbName))
      ensures Chain(models).dbName == models[k].dbName
    {
      ChainDbNameFirst(models, k);
    }
  }

  /** One merge along the chain: the kept table name stays unless it is unset and the next one is set. */
  lemma ChainDbNameStep(models: seq<Model>)
    requires |models| > 1
    ensures var c, x := Chain(models[..|models| - 1]), models[|models| - 1];
      Chain(models).dbName == if !Truthy(c.dbName) && Truthy(x.dbName) then x.dbName else c.dbName
  {
  }

  /** With no table name set anywhere, the chain keeps the first model's. */
  lemma {:induction false} ChainDbNameUnset(models: seq<Model>)
    requires |models| > 0 && forall i :: 0 <= i < |models| ==> !Truthy(models[i].dbName)
    ensures Chain(models).dbName == models[0].dbName
    decreases |models|
  {
    if |models| > 1 {
      var prefix := models[..|models| - 1];
      assert forall i :: 0 <= i < |prefix| ==> prefix[i] == models[i];
      ChainDbNameUnset(prefix);
      ChainDbNameStep(models);
    }
  }

  /** The first model that sets a table name decides the chain's. */
  lemma {:induction false} ChainDbNameFirst(models: seq<Model>, k: nat)
    requires k < |models| && Truthy(models[k].dbName) && forall i :: 0 <= i < k ==> !Truthy(models[i].dbName)
    ensures Chain(models).dbName == models[k].dbName
    decreases |models|
  {
    if |models| > 1 {
      var prefix := models[..|models| - 1];
      assert forall i :: 0 <= i < |prefix| ==> prefix[i] == models[i];
      if k < |prefix| {
        ChainDbNameFirst(prefix, k);
      } else if k > 0 {
        ChainDbNameUnset(prefix);
      }
      ChainDbNameStep(models);
    }
  }
}
