/**
 * `mixModels` as the source runs it (lib/prismix.ts:77-137): the first model
 * object of each name is stored in a record and updated in place by every
 * later model of that name; the record's values are returned.
 */
module Mixer {
  import opened Base
  import opened Dmmf
  import opened Console
  import opened Merge

  /** A model object as `getSchema` creates it; `mixModels` updates the kept ones in place. */
  class ModelObject {
    const name: string
    var fields: seq<Field>
    var dbName: Option<string>
    const primaryKey: Option<PrimaryKey>
    var uniqueFields: seq<seq<string>>
    var uniqueIndexes: seq<UniqueIndex>
    var doubleAtIndexes: Option<seq<string>>

    /** The object's current contents as a value. */
    function Value(): Model
      reads this
    {
      Model(name, fields, dbName, primaryKey, uniqueFields, uniqueIndexes, doubleAtIndexes)
    }

    constructor (m: Model)
      ensures Value() == m
    {
      name := m.name;
      fields := m.fields;
      dbName := m.dbName;
      primaryKey := m.primaryKey;
      uniqueFields := m.uniqueFields;
      uniqueIndexes := m.uniqueIndexes;
      doubleAtIndexes := m.doubleAtIndexes;
    }

    /**
     * The field loop of the `if (existingModel)` branch: each incoming field
     * whose name is not present is appended; the mismatch reports are returned.
     */
    method MergeFieldsFrom(incoming: seq<Field>) returns (warnings: seq<LogEntry>)
      modifies this`fields
      ensures fields == MergeFields(old(fields), incoming)
      ensures warnings == MergeWarnings(name, old(fields), incoming)
    {
      warnings := [];
      var k := 0;
      while k < |incoming|
        invariant 0 <= k <= |incoming|
        invariant fields == MergeFields(old(fields), incoming[..k])
        invariant warnings == MergeWarnings(name, old(fields), incoming[..k])
      {
        var newField := incoming[k];
        assert incoming[..k + 1][..k] == incoming[..k];
        var found, w := CompareField(name, fields, newField);
        warnings := warnings + w;
        if !found {
          fields := fields + [newField];
        }
        k := k + 1;
      }
      assert incoming[..k] == incoming;
    }

    /**
     * The body of the `if (existingModel)` branch: merges `other` into this
     * kept object and returns the mismatch reports it prints.
     */
    method Absorb(other: ModelObject) returns (warnings: seq<LogEntry>)
      requires other != this
      modifies this
      ensures Value() == Merged(old(Value()), other.Value())
      ensures warnings == MergeWarnings(name, old(fields), other.fields)
    {
      warnings := MergeFieldsFrom(other.fields);
      if !Truthy(dbName) && Truthy(other.dbName) {
        dbName := other.dbName;
      }
      if other.doubleAtIndexes.Some? && |other.doubleAtIndexes.value| > 0 {
        doubleAtIndexes := Some(doubleAtIndexes.GetOr([]) + other.doubleAtIndexes.value);
      }
      if |other.uniqueIndexes| > 0 {
        uniqueIndexes := uniqueIndexes + other.uniqueIndexes;
        uniqueFields := uniqueFields + other.uniqueFields;
      }
    }
  }

  /**
   * The inner loop over the kept model's fields: whether a field of the
   * incoming field's name is present, and one report per such field that is
   * not deep-equal to it.
   */
  method CompareField(model: string, fields: seq<Field>, newField: Field) returns (found: bool, warnings: seq<LogEntry>)
    ensures found == (newField.name in FieldNames(fields))
    ensures warnings == FieldWarnings(model, fields, newField)
  {
    found := false;
    warnings := [];
    var j := 0;
    while j < |fields|
      invariant 0 <= j <= |fields|
      invariant found == (newField.name in FieldNames(fields[..j]))
      invariant warnings == FieldWarnings(model, fields[..j], newField)
    {
      assert fields[..j + 1][..j] == fields[..j];
      assert FieldNames(fields[..j + 1]) == FieldNames(fields[..j]) + [fields[j].name];
      if fields[j].name == newField.name {
        found := true;
        if fields[j] != newField {
          warnings := warnings + [FieldMismatch(model, fields[j].name)];
        }
      }
      j := j + 1;
    }
    assert fields[..j] == fields;
  }

  /** The contents of a list of objects. */
  function Values(objects: seq<ModelObject>): (r: seq<Model>)
    reads set o | o in objects
    ensures |r| == |objects| && forall i :: 0 <= i < |objects| ==> r[i] == objects[i].Value()
  {
    seq(|objects|, i requires 0 <= i < |objects| reads set o | o in objects => objects[i].Value())
  }

  /** No object occurs twice in the list (each parsed model is a fresh object). */
  predicate Distinct(objects: seq<ModelObject>) {
    forall i, j :: 0 <= i < j < |objects| ==> objects[i] != objects[j]
  }

  /** `inputs[j]` is the first object of its name, the one `mixModels` keeps. */
  predicate First(inputs: seq<ModelObject>, j: int)
    requires 0 <= j < |inputs|
  {
    forall k :: 0 <= k < j ==> inputs[k].name != inputs[j].name
  }

  /** The objects from `i` on still hold the models they were given. */
  ghost predicate Pending(inputs: seq<ModelObject>, before: seq<Model>, i: int)
    requires |inputs| == |before|
    reads set o | o in inputs
  {
    forall j :: i <= j < |inputs| && 0 <= j ==> inputs[j].Value() == before[j]
  }

  /** The objects before `i` that are not the first of their name still hold the models they were given. */
  ghost predicate Untouched(inputs: seq<ModelObject>, before: seq<Model>, i: int)
    requires |inputs| == |before|
    reads set o | o in inputs
  {
    forall j :: 0 <= j < i && j < |inputs| && !First(inputs, j) ==> inputs[j].Value() == before[j]
  }

  /** The record holds, for each name of `st`, the first object of that name. */
  ghost predicate Record(table: map<string, ModelObject>, inputs: seq<ModelObject>, names: seq<string>, bound: int, st: MixState) {
    && (forall k :: k in table <==> k in st.table)
    && forall k :: k in table ==>
      && k in names && FirstIndex(names, k) < bound && FirstIndex(names, k) < |inputs|
      && table[k] == inputs[FirstIndex(names, k)] && table[k].name == k
  }

  /** The kept objects hold the merged values of `st`. */
  ghost predicate Holds(table: map<string, ModelObject>, st: MixState)
    reads set k | k in table :: table[k]
  {
    forall k :: k in table && k in st.table ==> table[k].Value() == st.table[k]
  }

  /**
   * The `if (existingModel)` branch of the loop of `mixModels` at index `i`:
   * merges `inputs[i]` into the kept object of its name, leaving every other
   * object as it was.
   */
  method AbsorbLater(table: map<string, ModelObject>, inputs: seq<ModelObject>, ghost before: seq<Model>, ghost names: seq<string>, i: nat, ghost st: MixState)
    returns (w: seq<LogEntry>)
    requires Distinct(inputs) && i < |inputs| == |before| && names == ModelNames(before)
    requires forall j :: i <= j < |inputs| ==> inputs[j].Value() == before[j]
    requires Record(table, inputs, names, i, st) && Holds(table, st)
    requires inputs[i].name in table
    modifies table[inputs[i].name]
    ensures forall j :: i < j < |inputs| ==> inputs[j].Value() == before[j]
    ensures Holds(table, MixStep(st, before[i]))
    ensures st.warnings + w == MixStep(st, before[i]).warnings
    ensures Record(table, inputs, names, i + 1, MixStep(st, before[i]))
  {
    var newModel := inputs[i];
    var existing := table[newModel.name];
    assert names[i] == newModel.name;
    ghost var kept := st.table[newModel.name];
    assert existing.Value() == kept && newModel.Value() == before[i];
    w := existing.Absorb(newModel);
    ghost var next := st.table[newModel.name := Merged(kept, before[i])];
    assert MixStep(st, before[i]).table == next;
    forall j | i < j < |inputs| ensures inputs[j].Value() == before[j] {
      assert inputs[j] != existing;
      assert inputs[j].Value() == old(inputs[j].Value());
    }
    forall k | k in table ensures table[k].Value() == next[k] {
      if k != newModel.name {
        assert k in st.table && old(table[k].Value()) == st.table[k];
        assert table[k] != existing;
        assert table[k].Value() == old(table[k].Value());
      }
    }
  }

  /** `AbsorbLater`, with the objects that are not first of their name left as they were. */
  method AbsorbIntoFirst(table: map<string, ModelObject>, inputs: seq<ModelObject>, ghost before: seq<Model>, ghost names: seq<string>, i: nat, ghost st: MixState)
    returns (w: seq<LogEntry>)
    requires Distinct(inputs) && i < |inputs| == |before| && names == ModelNames(before)
    requires Pending(inputs, before, i) && Untouched(inputs, before, i)
    requires forall k :: 0 <= k < |inputs| ==> inputs[k].name == names[k]
    requires Record(table, inputs, names, i, st) && Holds(table, st)
    requires inputs[i].name in table
    modifies table[inputs[i].name]
    ensures Pending(inputs, before, i + 1) && Untouched(inputs, before, i + 1)
    ensures Holds(table, MixStep(st, before[i]))
    ensures st.warnings + w == MixStep(st, before[i]).warnings
    ensures Record(table, inputs, names, i + 1, MixStep(st, before[i]))
  {
    w := AbsorbLater(table, inputs, before, names, i, st);
    forall j | 0 <= j <= i && !First(inputs, j) ensures inputs[j].Value() == before[j] {
      NotKept(table, inputs, names, i, j, st);
    }
  }

  /** The kept object of a name is the first of that name, so it is no object that is not first. */
  lemma NotKept(table: map<string, ModelObject>, inputs: seq<ModelObject>, names: seq<string>, i: nat, j: nat, st: MixState)
    requires Distinct(inputs) && |names| == |inputs| && forall k :: 0 <= k < |inputs| ==> inputs[k].name == names[k]
    requires Record(table, inputs, names, i, st) && j <= i < |inputs| && !First(inputs, j) && inputs[i].name in table
    ensures table[inputs[i].name] != inputs[j]
  {
    var f := FirstIndex(names, inputs[i].name);
    assert First(inputs, f);
  }

  /** An object whose name no earlier object has is the first of its name. */
  lemma NewIsFirst(inputs: seq<ModelObject>, names: seq<string>, i: nat)
    requires i < |inputs| == |names| && forall k :: 0 <= k < |inputs| ==> inputs[k].name == names[k]
    requires names[i] !in names[..i]
    ensures First(inputs, i)
  {
    forall k | 0 <= k < i ensures inputs[k].name != inputs[i].name {
      assert names[..i][k] == names[k];
    }
  }

  /** Keeping `inputs[i]`, the first object of a new name, extends the record. */
  lemma RecordAdd(table: map<string, ModelObject>, inputs: seq<ModelObject>, before: seq<Model>, names: seq<string>, i: nat, st: MixState)
    requires i < |inputs| == |before| && names == ModelNames(before) && inputs[i].name == names[i]
    requires forall k :: k in st.table <==> k in names[..i]
    requires Record(table, inputs, names, i, st) && names[i] !in table
    ensures Record(table[names[i] := inputs[i]], inputs, names, i + 1, MixStep(st, before[i]))
  {
    FirstIndexNew(names, i, names[i]);
  }

  /** One turn of the loop of `mixModels`, on the record `table` built from `inputs[..i]`. */
  method Step(table: map<string, ModelObject>, order: seq<string>, inputs: seq<ModelObject>, ghost before: seq<Model>, ghost names: seq<string>, i: nat, ghost st: MixState)
    returns (table': map<string, ModelObject>, order': seq<string>, w: seq<LogEntry>)
    requires Distinct(inputs) && i < |inputs| == |before| && names == ModelNames(before)
    requires Pending(inputs, before, i) && Untouched(inputs, before, i)
    requires order == st.order && forall k :: k in st.table <==> k in names[..i]
    requires Record(table, inputs, names, i, st) && Holds(table, st)
    requires forall k :: 0 <= k < |inputs| ==> inputs[k].name == names[k]
    modifies inputs[FirstIndex(names, names[i])]
    ensures Pending(inputs, before, i + 1) && Untouched(inputs, before, i + 1)
    ensures Record(table', inputs, names, i + 1, MixStep(st, before[i])) && Holds(table', MixStep(st, before[i]))
    ensures order' == MixStep(st, before[i]).order && st.warnings + w == MixStep(st, before[i]).warnings
  {
    var newModel := inputs[i];
    if newModel.name in table {
      assert names[i] == newModel.name;
      w := AbsorbIntoFirst(table, inputs, before, names, i, st);
      table', order' := table, order;
    } else {
      table', order' := KeepFirst(table, order, inputs, before, names, i, st);
      w := [];
      NewIsFirst(inputs, names, i);
    }
  }

  /** The `else` branch of the loop of `mixModels` at index `i`: keeps `inputs[i]` under its new name. */
  method KeepFirst(table: map<string, ModelObject>, order: seq<string>, inputs: seq<ModelObject>, ghost before: seq<Model>, ghost names: seq<string>, i: nat, ghost st: MixState)
    returns (table': map<string, ModelObject>, order': seq<string>)
    requires i < |inputs| == |before| && names == ModelNames(before)
    requires inputs[i].Value() == before[i]
    requires order == st.order && forall k :: k in st.table <==> k in names[..i]
    requires Record(table, inputs, names, i, st) && Holds(table, st)
    requires inputs[i].name !in table
    ensures Record(table', inputs, names, i + 1, MixStep(st, before[i])) && Holds(table', MixStep(st, before[i]))
    ensures order' == MixStep(st, before[i]).order && MixStep(st, before[i]).warnings == st.warnings
  {
    var newModel := inputs[i];
    RecordAdd(table, inputs, before, names, i, st);
    MixStepNew(st, before[i]);
    table', order' := table[newModel.name := newModel], order + [newModel.name];
  }

  /** The loop invariant of `mixModels` after `i` turns, with `st` the value-level state after them. */
  ghost predicate Loop(table: map<string, ModelObject>, order: seq<string>, warnings: seq<LogEntry>,
                       inputs: seq<ModelObject>, before: seq<Model>, names: seq<string>, i: int, st: MixState)
    reads set o | o in inputs
    reads set k | k in table :: table[k]
  {
    && Distinct(inputs) && 0 <= i <= |inputs| == |before| && names == ModelNames(before)
    && Pending(inputs, before, i) && Untouched(inputs, before, i)
    && st == MixFold(before[..i])
    && order == st.order && warnings == st.warnings
    && Record(table, inputs, names, i, st) && Holds(table, st)
    && forall k :: 0 <= k < |inputs| ==> inputs[k].name == names[k]
  }

  /** One turn of the loop of `mixModels`, with the reports and the value-level state carried along. */
  method Turn(table: map<string, ModelObject>, order: seq<string>, warnings: seq<LogEntry>,
              inputs: seq<ModelObject>, ghost before: seq<Model>, ghost names: seq<string>, i: nat, ghost st: MixState)
    returns (table': map<string, ModelObject>, order': seq<string>, warnings': seq<LogEntry>, ghost st': MixState)
    requires Loop(table, order, warnings, inputs, before, names, i, st) && i < |inputs|
    modifies inputs[FirstIndex(names, names[i])]
    ensures Loop(table', order', warnings', inputs, before, names, i + 1, st')
  {
    var w;
    assert names[..i] == ModelNames(before[..i]);
    table', order', w := Step(table, order, inputs, before, names, i, st);
    warnings' := warnings + w;
    MixFoldNext(before, i);
    st' := MixStep(st, before[i]);
  }

  /**
   * The loop of `mixModels`: fills the record of kept objects, in key order,
   * merging each later object into the kept one of its name.
   */
  method FillRecord(inputs: seq<ModelObject>) returns (table: map<string, ModelObject>, order: seq<string>, warnings: seq<LogEntry>)
    requires Distinct(inputs)
    modifies set o | o in inputs
    ensures order == MixFold(old(Values(inputs))).order
    ensures warnings == MixFold(old(Values(inputs))).warnings
    ensures Record(table, inputs, ModelNames(old(Values(inputs))), |inputs|, MixFold(old(Values(inputs))))
    ensures Holds(table, MixFold(old(Values(inputs))))
    ensures forall j :: 0 <= j < |inputs| && !First(inputs, j) ==> inputs[j].Value() == old(inputs[j].Value())
  {
    ghost var before := Values(inputs);
    assert before[..0] == [];
    table, order, warnings := Turns(inputs, before, ModelNames(before));
    assert before[..|inputs|] == before;
  }

  /** The turns of the loop of `mixModels`, from the empty record to the last input. */
  method Turns(inputs: seq<ModelObject>, ghost before: seq<Model>, ghost names: seq<string>)
    returns (table: map<string, ModelObject>, order: seq<string>, warnings: seq<LogEntry>)
    requires Loop(map[], [], [], inputs, before, names, 0, MixState([], map[], []))
    modifies set o | o in inputs
    ensures Loop(table, order, warnings, inputs, before, names, |inputs|, MixFold(before[..|inputs|]))
  {
    ghost var st := MixState([], map[], []);
    table, order, warnings := map[], [], [];
    var i := 0;
    while i < |inputs|
      invariant Loop(table, order, warnings, inputs, before, names, i, st)
    {
      table, order, warnings, st := Turn(table, order, warnings, inputs, before, names, i, st);
      i := i + 1;
    }
  }

  /**
   * `mixModels`: returns the first object of each name, in order of first
   * appearance, each updated in place with the later models of its name, and
   * the mismatch reports printed on the way.
   */
  method MixModels(inputs: seq<ModelObject>) returns (mixed: seq<ModelObject>, warnings: seq<LogEntry>)
    requires Distinct(inputs)
    modifies set o | o in inputs
    ensures Values(mixed) == Mix(old(Values(inputs)))
    ensures warnings == MixFold(old(Values(inputs))).warnings
    ensures forall t :: 0 <= t < |mixed| ==>
      var names := ModelNames(old(Values(inputs)));
      mixed[t].name in names && mixed[t] == inputs[FirstIndex(names, mixed[t].name)]
    ensures forall j :: 0 <= j < |inputs| && !First(inputs, j) ==> inputs[j].Value() == old(inputs[j].Value())
  {
    ghost var before := Values(inputs);
    ghost var names := ModelNames(before);
    var table, order;
    table, order, warnings := FillRecord(inputs);
    mixed := seq(|order|, t requires 0 <= t < |order| => table[order[t]]);
    ghost var st := MixFold(before);
    forall t | 0 <= t < |mixed|
      ensures mixed[t].Value() == Mix(before)[t]
      ensures mixed[t].name in names && mixed[t] == inputs[FirstIndex(names, mixed[t].name)]
    {
      assert mixed[t] == table[order[t]] && order[t] in st.table;
    }
  }
}
