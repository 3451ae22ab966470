/**
 * `prismix(options)` (lib/prismix.ts:195-246) and the loading half of
 * `getSchema` (lib/prismix.ts:32-75): for each mixer, load every file its
 * input patterns match, mix the models of all loaded schemas, concatenate
 * their enums, choose one datasource list and one generator list, and
 * assemble the text written to the mixer's output path. The mixers run in
 * turn against one file system, so a later mixer globs and reads what the
 * earlier ones wrote.
 */
module Prismix {
  import opened Base
  import opened Dmmf
  import opened Console
  import opened Miner
  import opened Inject
  import opened Merge
  import opened Mixer

  /** What the Prisma parser (`getDMMF`) delivers for a schema text. */
  datatype Parsed = Parsed(models: seq<Model>, enums: seq<Enum>)

  /** What `getConfig` delivers for a schema text. */
  datatype Config = Config(datasources: seq<Datasource>, generators: seq<Generator>)

  /** A loaded schema: the parsed models with the mined attributes injected, and the rest as parsed. */
  datatype Schema = Schema(
    models: seq<Model>,
    enums: seq<Enum>,
    datasources: seq<Datasource>,
    generators: seq<Generator>)

  /**
   * What the run reads from outside: the files on disk, the expansion of a
   * glob pattern over the paths on disk, and the Prisma parser, `None` where
   * it throws.
   */
  datatype Environment = Environment(
    files: map<string, string>,
    glob: (set<string>, string) -> seq<string>,
    parse: string -> Option<Parsed>,
    config: string -> Option<Config>)
  {
    /** `glob.sync(pattern)` against the files on disk now. */
    function Expand(pattern: string): seq<string> {
      glob(files.Keys, pattern)
    }
  }

  /** The four deserializers, one per section of the output. */
  datatype Serializers = Serializers(
    datasources: seq<Datasource> -> string,
    generators: seq<Generator> -> string,
    models: seq<Model> -> string,
    enums: seq<Enum> -> string)

  /** One entry of `options.mixers`. */
  datatype MixerConfig = MixerConfig(input: seq<string>, output: string)

  // ---------------------------------------------------------------------
  // Loading

  /**
   * `getSchema(path)`: read, parse, mine and inject; `undefined` (`None`)
   * when any step throws, which the `catch` reports.
   */
  function GetSchema(env: Environment, path: string): Option<Schema> {
    if path !in env.files then None
    else
      var text := env.files[path];
      match env.parse(text)
      case None => None
      case Some(parsed) =>
        match env.config(text)
        case None => None
        case Some(config) =>
          Some(Schema(InjectModels(GetCustomAttributes(text), parsed.models), parsed.enums,
                      config.datasources, config.generators))
  }

  /** A loaded model carries `@@index` lines exactly when some block of its file declares its name. */
  lemma GetSchemaIndexes(env: Environment, path: string, i: nat)
    requires GetSchema(env, path).Some? && i < |GetSchema(env, path).value.models|
    ensures var text := env.files[path];
      var model := GetSchema(env, path).value.models[i];
      model.doubleAtIndexes.Some? <==>
        exists c :: 0 <= c < |Chunks(text)| && Declares(Chunks(text)[c], model.name)
  {
    var text := env.files[path];
    var custom := GetCustomAttributes(text);
    var parsed := env.parse(text).value;
    assert GetSchema(env, path).value.models[i] == InjectModel(custom, parsed.models[i]);
    InjectModelSpec(custom, parsed.models[i]);
    MinedNames(text, parsed.models[i].name);
  }

  /** The schemas loaded from `files`, in order; a file that fails to load is left out. */
  function Parses(env: Environment, files: seq<string>): seq<Schema>
    decreases |files|
  {
    if |files| == 0 then []
    else
      var parsed := GetSchema(env, files[|files| - 1]);
      Parses(env, files[..|files| - 1]) + if parsed.Some? then [parsed.value] else []
  }

  /** The reports for the files of `files` that fail to load, in order. */
  function Failures(env: Environment, files: seq<string>): seq<LogEntry>
    decreases |files|
  {
    if |files| == 0 then []
    else
      var path := files[|files| - 1];
      Failures(env, files[..|files| - 1]) + if GetSchema(env, path).None? then [ParseFailed(path)] else []
  }

  /** A schema is loaded exactly when some file loads to it; a failure is reported exactly for each file that does not load. */
  lemma {:induction false} LoadSpec(env: Environment, files: seq<string>)
    ensures forall s :: s in Parses(env, files) <==> exists f :: f in files && GetSchema(env, f) == Some(s)
    ensures forall e :: e in Failures(env, files) <==> exists f :: f in files && GetSchema(env, f).None? && e == ParseFailed(f)
    decreases |files|
  {
    if |files| > 0 {
      var prefix, last := files[..|files| - 1], files[|files| - 1];
      LoadSpec(env, prefix);
      assert files == prefix + [last];
    }
  }

  /** What one input pattern reports: its failures, then "No filename" when none of its files loaded. */
  function PatternLog(env: Environment, pattern: string): seq<LogEntry> {
    Failures(env, env.Expand(pattern)) + if |Parses(env, env.Expand(pattern))| == 0 then [NoFile(pattern)] else []
  }

  /** `schemasToMix` after the loading loop over `patterns`. */
  function Loaded(env: Environment, patterns: seq<string>): seq<Schema>
    decreases |patterns|
  {
    if |patterns| == 0 then []
    else Loaded(env, patterns[..|patterns| - 1]) + Parses(env, env.Expand(patterns[|patterns| - 1]))
  }

  /** What the loading loop over `patterns` reports, in order. */
  function LoadLog(env: Environment, patterns: seq<string>): seq<LogEntry>
    decreases |patterns|
  {
    if |patterns| == 0 then []
    else LoadLog(env, patterns[..|patterns| - 1]) + PatternLog(env, patterns[|patterns| - 1])
  }

  /** The inner loop of lib/prismix.ts:201-207: load each file of one pattern, noting whether any loaded. */
  method LoadFiles(env: Environment, files: seq<string>) returns (schemas: seq<Schema>, log: seq<LogEntry>, found: bool)
    ensures schemas == Parses(env, files) && log == Failures(env, files)
    ensures found <==> |schemas| > 0
  {
    schemas, log, found := [], [], false;
    for j := 0 to |files|
      invariant schemas == Parses(env, files[..j]) && log == Failures(env, files[..j])
      invariant found <==> |schemas| > 0
    {
      assert files[..j + 1][..j] == files[..j];
      var parsed := GetSchema(env, files[j]);
      if parsed.Some? {
        schemas := schemas + [parsed.value];
        found := true;
      } else {
        log := log + [ParseFailed(files[j])];
      }
    }
    assert files[..|files|] == files;
  }

  /** The loop of lib/prismix.ts:199-211, with its `found` flag. */
  method LoadSchemas(env: Environment, patterns: seq<string>) returns (schemas: seq<Schema>, log: seq<LogEntry>)
    ensures schemas == Loaded(env, patterns) && log == LoadLog(env, patterns)
  {
    schemas, log := [], [];
    for k := 0 to |patterns|
      invariant schemas == Loaded(env, patterns[..k]) && log == LoadLog(env, patterns[..k])
    {
      assert patterns[..k + 1][..k] == patterns[..k];
      var loaded, failures, found := LoadFiles(env, env.Expand(patterns[k]));
      schemas := schemas + loaded;
      log := log + failures;
      if !found {
        log := log + [NoFile(patterns[k])];
      }
    }
    assert patterns[..|patterns|] == patterns;
  }

  /** No pattern's failure reports mention "No filename". */
  lemma FailuresAreParseFailures(env: Environment, files: seq<string>, pattern: string)
    ensures NoFile(pattern) !in Failures(env, files)
  {
    LoadSpec(env, files);
  }

  /** "No filename" is reported for a pattern exactly when it is one of the patterns and none of its files loads. */
  lemma {:induction false} NoFileIff(env: Environment, patterns: seq<string>, p: string)
    ensures NoFile(p) in LoadLog(env, patterns) <==>
      p in patterns && forall f :: f in env.Expand(p) ==> GetSchema(env, f).None?
    decreases |patterns|
  {
    if |patterns| > 0 {
      var prefix, last := patterns[..|patterns| - 1], patterns[|patterns| - 1];
      NoFileIff(env, prefix, p);
      FailuresAreParseFailures(env, env.Expand(last), p);
      LoadSpec(env, env.Expand(p));
      assert patterns == prefix + [last];
      if |Parses(env, env.Expand(p))| > 0 {
        var f :| f in env.Expand(p) && GetSchema(env, f) == Some(Parses(env, env.Expand(p))[0]);
      }
    }
  }

  // ---------------------------------------------------------------------
  // Concatenation

  /** The lists one after the other. */
  function Flatten<T>(lists: seq<seq<T>>): seq<T>
    decreases |lists|
  {
    if |lists| == 0 then [] else Flatten(lists[..|lists| - 1]) + lists[|lists| - 1]
  }

  /** Flattening keeps every element of every list, and nothing else. */
  lemma {:induction false} FlattenMember<T>(lists: seq<seq<T>>, x: T)
    ensures x in Flatten(lists) <==> exists i :: 0 <= i < |lists| && x in lists[i]
    decreases |lists|
  {
    if |lists| > 0 {
      var prefix := lists[..|lists| - 1];
      FlattenMember(prefix, x);
      assert forall i :: 0 <= i < |prefix| ==> prefix[i] == lists[i];
    }
  }

  /** Flattening two runs of lists concatenates their flattenings: order and duplicates are kept. */
  lemma {:induction false} FlattenAppend<T>(a: seq<seq<T>>, b: seq<seq<T>>)
    ensures Flatten(a + b) == Flatten(a) + Flatten(b)
    decreases |b|
  {
    if |b| == 0 {
      assert a + b == a;
    } else {
      var prefix := b[..|b| - 1];
      FlattenAppend(a, prefix);
      assert (a + b)[..|a + b| - 1] == a + prefix;
      assert (a + b)[|a + b| - 1] == b[|b| - 1];
    }
  }

  /** `models = [...models, ...schema.models]` over the loaded schemas. */
  method Concat<T>(lists: seq<seq<T>>) returns (r: seq<T>)
    ensures r == Flatten(lists)
  {
    r := [];
    for i := 0 to |lists|
      invariant r == Flatten(lists[..i])
    {
      assert lists[..i + 1][..i] == lists[..i];
      r := r + lists[i];
    }
    assert lists[..|lists|] == lists;
  }

  /** Each loaded schema's models, in load order. */
  function ModelLists(schemas: seq<Schema>): (r: seq<seq<Model>>)
    ensures |r| == |schemas| && forall i :: 0 <= i < |schemas| ==> r[i] == schemas[i].models
  {
    seq(|schemas|, i requires 0 <= i < |schemas| => schemas[i].models)
  }

  /** Each loaded schema's enums, in load order. */
  function EnumLists(schemas: seq<Schema>): (r: seq<seq<Enum>>)
    ensures |r| == |schemas| && forall i :: 0 <= i < |schemas| ==> r[i] == schemas[i].enums
  {
    seq(|schemas|, i requires 0 <= i < |schemas| => schemas[i].enums)
  }

  // ---------------------------------------------------------------------
  // Selection

  /** A datasource list that takes part in the choice: non-empty, with some entry whose `url.value` is truthy. */
  predicate HasLiveUrl(s: Schema) {
    |s.datasources| > 0 && LiveUrl(s.datasources)
  }

  /** Some datasource has a truthy `url.value`. */
  predicate LiveUrl(datasources: seq<Datasource>) {
    exists d :: d in datasources && Truthy(d.url.value)
  }

  /** The datasources of the last schema with a live URL, `[]` when there is none. */
  function ChosenDatasources(schemas: seq<Schema>): seq<Datasource>
    decreases |schemas|
  {
    if |schemas| == 0 then []
    else if HasLiveUrl(schemas[|schemas| - 1]) then schemas[|schemas| - 1].datasources
    else ChosenDatasources(schemas[..|schemas| - 1])
  }

  /** The generators of the last schema that has any, `[]` when there is none. */
  function ChosenGenerators(schemas: seq<Schema>): seq<Generator>
    decreases |schemas|
  {
    if |schemas| == 0 then []
    else if |schemas[|schemas| - 1].generators| > 0 then schemas[|schemas| - 1].generators
    else ChosenGenerators(schemas[..|schemas| - 1])
  }

  /** The `forEach` of lib/prismix.ts:221-228. */
  method SelectDatasources(schemas: seq<Schema>) returns (datasources: seq<Datasource>)
    ensures datasources == ChosenDatasources(schemas)
  {
    datasources := [];
    for i := 0 to |schemas|
      invariant datasources == ChosenDatasources(schemas[..i])
    {
      assert schemas[..i + 1][..i] == schemas[..i];
      if |schemas[i].datasources| > 0 && exists d :: d in schemas[i].datasources && Truthy(d.url.value) {
        assert LiveUrl(schemas[i].datasources);
        datasources := schemas[i].datasources;
      }
    }
    assert schemas[..|schemas|] == schemas;
  }

  /** The `forEach` of lib/prismix.ts:230-233. */
  method SelectGenerators(schemas: seq<Schema>) returns (generators: seq<Generator>)
    ensures generators == ChosenGenerators(schemas)
  {
    generators := [];
    for i := 0 to |schemas|
      invariant generators == ChosenGenerators(schemas[..i])
    {
      assert schemas[..i + 1][..i] == schemas[..i];
      if |schemas[i].generators| > 0 {
        generators := schemas[i].generators;
      }
    }
    assert schemas[..|schemas|] == schemas;
  }

  /**
   * The chosen datasources are `[]` when no schema has a live URL, and
   * otherwise those of the last schema that has one.
   */
  lemma {:induction false} ChosenDatasourcesSpec(schemas: seq<Schema>)
    ensures (forall i :: 0 <= i < |schemas| ==> !HasLiveUrl(schemas[i])) ==> ChosenDatasources(schemas) == []
    ensures (exists i :: 0 <= i < |schemas| && HasLiveUrl(schemas[i])) ==>
      exists i :: && 0 <= i < |schemas| && HasLiveUrl(schemas[i])
                  && (forall j :: i < j < |schemas| ==> !HasLiveUrl(schemas[j]))
                  && ChosenDatasources(schemas) == schemas[i].datasources
    decreases |schemas|
  {
    if |schemas| > 0 {
      var prefix, n := schemas[..|schemas| - 1], |schemas| - 1;
      ChosenDatasourcesSpec(prefix);
      if !HasLiveUrl(schemas[n]) {
        assert ChosenDatasources(schemas) == ChosenDatasources(prefix);
        if exists i :: 0 <= i < |schemas| && HasLiveUrl(schemas[i]) {
          var k :| 0 <= k < |schemas| && HasLiveUrl(schemas[k]);
          assert prefix[k] == schemas[k];
          var i :| && 0 <= i < |prefix| && HasLiveUrl(prefix[i])
                   && (forall j :: i < j < |prefix| ==> !HasLiveUrl(prefix[j]))
                   && ChosenDatasources(prefix) == prefix[i].datasources;
          assert prefix[i] == schemas[i];
          forall j | i < j < |schemas| ensures !HasLiveUrl(schemas[j]) {
            if j < n { assert prefix[j] == schemas[j]; }
          }
        } else {
          forall i | 0 <= i < |prefix| ensures !HasLiveUrl(prefix[i]) {
            assert prefix[i] == schemas[i];
          }
        }
      }
    }
  }

  /**
   * The chosen generators are `[]` when no schema has any, and otherwise
   * those of the last schema that has some.
   */
  lemma {:induction false} ChosenGeneratorsSpec(schemas: seq<Schema>)
    ensures (forall i :: 0 <= i < |schemas| ==> schemas[i].generators == []) ==> ChosenGenerators(schemas) == []
    ensures (exists i :: 0 <= i < |schemas| && schemas[i].generators != []) ==>
      exists i :: && 0 <= i < |schemas| && schemas[i].generators != []
                  && (forall j :: i < j < |schemas| ==> schemas[j].generators == [])
                  && ChosenGenerators(schemas) == schemas[i].generators
    decreases |schemas|
  {
    if |schemas| > 0 {
      var prefix, n := schemas[..|schemas| - 1], |schemas| - 1;
      ChosenGeneratorsSpec(prefix);
      if schemas[n].generators == [] {
        assert ChosenGenerators(schemas) == ChosenGenerators(prefix);
        if exists i :: 0 <= i < |schemas| && schemas[i].generators != [] {
          var k :| 0 <= k < |schemas| && schemas[k].generators != [];
          assert prefix[k] == schemas[k];
          var i :| && 0 <= i < |prefix| && prefix[i].generators != []
                   && (forall j :: i < j < |prefix| ==> prefix[j].generators == [])
                   && ChosenGenerators(prefix) == prefix[i].generators;
          assert prefix[i] == schemas[i];
          forall j | i < j < |schemas| ensures schemas[j].generators == [] {
            if j < n { assert prefix[j] == schemas[j]; }
          }
        } else {
          forall i | 0 <= i < |prefix| ensures prefix[i].generators == [] {
            assert prefix[i] == schemas[i];
          }
        }
      }
    }
  }

  /** A schema with a live URL wins over one without, whichever is loaded first. */
  lemma DatasourceOverride(live: Schema, other: Schema)
    requires HasLiveUrl(live) && !HasLiveUrl(other)
    ensures ChosenDatasources([live, other]) == live.datasources
    ensures ChosenDatasources([other, live]) == live.datasources
  {
    assert [live, other][..1] == [live];
  }

  // ---------------------------------------------------------------------
  // Output

  /** The first line of every output. */
  const Banner: string := "// *** GENERATED BY PRISMIX :: DO NOT EDIT ***"

  /** `.filter((e) => e)`: the non-empty sections, in order. */
  function NonEmpty(parts: seq<string>): seq<string>
    decreases |parts|
  {
    if |parts| == 0 then []
    else NonEmpty(parts[..|parts| - 1]) + if parts[|parts| - 1] != "" then [parts[|parts| - 1]] else []
  }

  /** The filter keeps the non-empty sections in their order and drops the empty ones. */
  lemma {:induction false} NonEmptySpec(parts: seq<string>)
    ensures forall x :: x in NonEmpty(parts) <==> x in parts && x != ""
    ensures |parts| > 0 && parts[0] != "" ==> |NonEmpty(parts)| > 0 && NonEmpty(parts)[0] == parts[0]
    decreases |parts|
  {
    if |parts| > 0 {
      var prefix := parts[..|parts| - 1];
      NonEmptySpec(prefix);
      assert parts == prefix + [parts[|parts| - 1]];
      if |prefix| > 0 {
        assert prefix[0] == parts[0];
      }
    }
  }

  /** The assembled output: the non-empty sections joined by line breaks. */
  function Output(sections: seq<string>): string {
    Join(NonEmpty(sections), "\n")
  }

  /** The sections in the order they are written: banner, datasources, generators, models, enums. */
  function Sections(ser: Serializers, datasources: seq<Datasource>, generators: seq<Generator>,
                    models: seq<Model>, enums: seq<Enum>): seq<string> {
    [Banner, ser.datasources(datasources), ser.generators(generators), ser.models(models), ser.enums(enums)]
  }

  /** The output begins with the banner, followed by a line break when any other section is non-empty. */
  lemma OutputStartsWithBanner(sections: seq<string>)
    requires |sections| > 0 && sections[0] == Banner
    ensures |Output(sections)| >= |Banner| && Output(sections)[..|Banner|] == Banner
    ensures (exists i :: 1 <= i < |sections| && sections[i] != "") ==>
      |Output(sections)| > |Banner| && Output(sections)[|Banner|] == '\n'
    ensures (forall i :: 1 <= i < |sections| ==> sections[i] == "") ==> Output(sections) == Banner
  {
    NonEmptySpec(sections);
    var kept := NonEmpty(sections);
    if exists i :: 1 <= i < |sections| && sections[i] != "" {
      var i :| 1 <= i < |sections| && sections[i] != "";
      assert sections[i] in kept;
      if |kept| == 1 {
        assert sections[i] == Banner;
        NonEmptyTail(sections, i);
      }
      assert |kept| > 1;
      assert Output(sections) == Banner + "\n" + Join(kept[1..], "\n");
    } else {
      NonEmptyOnlyFirst(sections);
    }
  }

  /** A non-empty section after the first is kept in addition to the first. */
  lemma {:induction false} NonEmptyTail(parts: seq<string>, i: nat)
    requires 0 < i < |parts| && parts[0] != "" && parts[i] != ""
    ensures |NonEmpty(parts)| > 1
    decreases |parts|
  {
    var prefix := parts[..|parts| - 1];
    if i == |parts| - 1 {
      NonEmptySpec(prefix);
      assert prefix[0] == parts[0];
    } else {
      NonEmptyTail(prefix, i);
    }
  }

  /** When every section after the first is empty, only the first is kept. */
  lemma {:induction false} NonEmptyOnlyFirst(parts: seq<string>)
    requires |parts| > 0 && parts[0] != "" && forall i :: 1 <= i < |parts| ==> parts[i] == ""
    ensures NonEmpty(parts) == [parts[0]]
    decreases |parts|
  {
    if |parts| > 1 {
      var prefix := parts[..|parts| - 1];
      NonEmptyOnlyFirst(prefix);
    } else {
      assert parts[..0] == [];
    }
  }

  // ---------------------------------------------------------------------
  // One mixer, and the whole run

  /** What one mixer writes, and what it reports, from the environment alone. */
  function MixerResult(env: Environment, ser: Serializers, mixer: MixerConfig): (string, seq<LogEntry>) {
    var schemas := Loaded(env, mixer.input);
    var models := Flatten(ModelLists(schemas));
    var text := Output(Sections(ser, ChosenDatasources(schemas), ChosenGenerators(schemas),
                                Mix(models), Flatten(EnumLists(schemas))));
    (text, LoadLog(env, mixer.input) + MixFold(models).warnings)
  }

  /** One fresh object per parsed model, as the parser hands out separate objects. */
  method Allocate(models: seq<Model>) returns (objects: seq<ModelObject>)
    ensures Distinct(objects) && Values(objects) == models
    ensures forall o :: o in objects ==> fresh(o)
  {
    objects := [];
    for i := 0 to |models|
      invariant |objects| == i && Distinct(objects)
      invariant forall k :: 0 <= k < i ==> fresh(objects[k]) && objects[k].Value() == models[k]
    {
      var o := new ModelObject(models[i]);
      objects := objects + [o];
    }
  }

  /** The body of the mixer loop, lib/prismix.ts:196-243, without the final write. */
  method RunMixer(env: Environment, ser: Serializers, mixer: MixerConfig) returns (text: string, log: seq<LogEntry>)
    ensures (text, log) == MixerResult(env, ser, mixer)
  {
    var schemas, loadLog := LoadSchemas(env, mixer.input);
    var models := Concat(ModelLists(schemas));
    var objects := Allocate(models);
    var mixed, warnings := MixModels(objects);
    var enums := Concat(EnumLists(schemas));
    var datasources := SelectDatasources(schemas);
    var generators := SelectGenerators(schemas);
    text := Output(Sections(ser, datasources, generators, Values(mixed), enums));
    log := loadLog + warnings;
  }

  /** The files on disk after `mixers` run in turn, `write` giving the text a mixer writes from the files it starts with. */
  function Replay(files: map<string, string>, write: (map<string, string>, MixerConfig) -> string,
                  mixers: seq<MixerConfig>): map<string, string>
    decreases |mixers|
  {
    if |mixers| == 0 then files
    else
      var before := Replay(files, write, mixers[..|mixers| - 1]);
      before[mixers[|mixers| - 1].output := write(before, mixers[|mixers| - 1])]
  }

  /** After a replay a path is present exactly when it was before or some mixer writes it. */
  lemma {:induction false} ReplayHas(files: map<string, string>, write: (map<string, string>, MixerConfig) -> string,
                                     mixers: seq<MixerConfig>, path: string)
    ensures path in Replay(files, write, mixers) <==>
      path in files || exists i :: 0 <= i < |mixers| && mixers[i].output == path
    decreases |mixers|
  {
    if |mixers| > 0 {
      var prefix := mixers[..|mixers| - 1];
      ReplayHas(files, write, prefix, path);
      assert forall i :: 0 <= i < |prefix| ==> prefix[i] == mixers[i];
    }
  }

  /** A path no mixer writes keeps the text it had. */
  lemma {:induction false} ReplayKeeps(files: map<string, string>, write: (map<string, string>, MixerConfig) -> string,
                                       mixers: seq<MixerConfig>, path: string)
    requires path in files && forall i :: 0 <= i < |mixers| ==> mixers[i].output != path
    ensures path in Replay(files, write, mixers) && Replay(files, write, mixers)[path] == files[path]
    decreases |mixers|
  {
    if |mixers| > 0 {
      var prefix := mixers[..|mixers| - 1];
      assert forall i :: 0 <= i < |prefix| ==> prefix[i] == mixers[i];
      ReplayKeeps(files, write, prefix, path);
    }
  }

  /** A path holds what the last mixer writing it wrote, from the files on disk when that mixer started. */
  lemma {:induction false} ReplayLast(files: map<string, string>, write: (map<string, string>, MixerConfig) -> string,
                                      mixers: seq<MixerConfig>, i: nat)
    requires i < |mixers| && forall j :: i < j < |mixers| ==> mixers[j].output != mixers[i].output
    ensures mixers[i].output in Replay(files, write, mixers)
    ensures Replay(files, write, mixers)[mixers[i].output] == write(Replay(files, write, mixers[..i]), mixers[i])
    decreases |mixers|
  {
    var n := |mixers| - 1;
    if i < n {
      var prefix := mixers[..n];
      assert forall j :: 0 <= j < n ==> prefix[j] == mixers[j];
      ReplayLast(files, write, prefix, i);
      assert prefix[..i] == mixers[..i];
    }
  }

  /** Among the mixers writing a path there is a last one. */
  lemma {:induction false} LastWriter(mixers: seq<MixerConfig>, path: string) returns (i: nat)
    requires exists k :: 0 <= k < |mixers| && mixers[k].output == path
    ensures i < |mixers| && mixers[i].output == path
    ensures forall j :: i < j < |mixers| ==> mixers[j].output != path
    decreases |mixers|
  {
    var n := |mixers| - 1;
    if mixers[n].output == path {
      i := n;
    } else {
      var prefix := mixers[..n];
      var k :| 0 <= k < |mixers| && mixers[k].output == path;
      assert prefix[k].output == path;
      i := LastWriter(prefix, path);
    }
  }

  /** What a mixer writes, as a function of the files on disk when it starts. */
  function Writer(env: Environment, ser: Serializers): (map<string, string>, MixerConfig) -> string {
    (files: map<string, string>, mixer: MixerConfig) => MixerResult(env.(files := files), ser, mixer).0
  }

  /** The files on disk after `mixers` have run, each mixer reading what the earlier ones wrote. */
  function FilesAfter(env: Environment, ser: Serializers, mixers: seq<MixerConfig>): map<string, string> {
    Replay(env.files, Writer(env, ser), mixers)
  }

  /** What all the mixers report, in order, each against the files on disk when it starts. */
  function RunLog(env: Environment, ser: Serializers, mixers: seq<MixerConfig>): seq<LogEntry>
    decreases |mixers|
  {
    if |mixers| == 0 then []
    else
      var before := FilesAfter(env, ser, mixers[..|mixers| - 1]);
      RunLog(env, ser, mixers[..|mixers| - 1]) + MixerResult(env.(files := before), ser, mixers[|mixers| - 1]).1
  }

  /**
   * `prismix(options)`: every mixer in turn against the files on disk, each
   * `writeFile` replacing what is at its path before the next mixer globs and reads.
   */
  method Run(env: Environment, ser: Serializers, mixers: seq<MixerConfig>) returns (files: map<string, string>, log: seq<LogEntry>)
    ensures files == FilesAfter(env, ser, mixers) && log == RunLog(env, ser, mixers)
  {
    files, log := env.files, [];
    for i := 0 to |mixers|
      invariant files == FilesAfter(env, ser, mixers[..i]) && log == RunLog(env, ser, mixers[..i])
    {
      assert mixers[..i + 1][..i] == mixers[..i];
      var text, l := RunMixer(env.(files := files), ser, mixers[i]);
      files := files[mixers[i].output := text];
      log := log + l;
    }
    assert mixers[..|mixers|] == mixers;
  }

  /**
   * A path is on disk after the run exactly when it was before or some mixer
   * writes it. A path no mixer writes keeps its text. A written path holds
   * the text of the last mixer that writes it, computed from the files on
   * disk when that mixer started.
   */
  lemma RunWrites(env: Environment, ser: Serializers, mixers: seq<MixerConfig>, path: string)
    ensures path in FilesAfter(env, ser, mixers) <==>
      path in env.files || exists i :: 0 <= i < |mixers| && mixers[i].output == path
    ensures (forall i :: 0 <= i < |mixers| ==> mixers[i].output != path) && path in env.files ==>
      FilesAfter(env, ser, mixers)[path] == env.files[path]
    ensures (exists i :: 0 <= i < |mixers| && mixers[i].output == path) ==>
      exists i :: && 0 <= i < |mixers| && mixers[i].output == path
                  && (forall j :: i < j < |mixers| ==> mixers[j].output != path)
                  && FilesAfter(env, ser, mixers)[path]
                     == MixerResult(env.(files := FilesAfter(env, ser, mixers[..i])), ser, mixers[i]).0
  {
    ReplayHas(env.files, Writer(env, ser), mixers, path);
    if (forall i :: 0 <= i < |mixers| ==> mixers[i].output != path) && path in env.files {
      ReplayKeeps(env.files, Writer(env, ser), mixers, path);
    }
    if exists i :: 0 <= i < |mixers| && mixers[i].output == path {
      var i := LastWriter(mixers, path);
      ReplayLast(env.files, Writer(env, ser), mixers, i);
    }
  }

  /**
   * A later mixer sees what an earlier one wrote: when no mixer in between
   * writes the same path, mixer `j` starts with mixer `i`'s text on disk, so
   * its patterns can match that path and load it.
   */
  lemma RunFeedsLater(env: Environment, ser: Serializers, mixers: seq<MixerConfig>, i: nat, j: nat)
    requires i < j <= |mixers|
    requires forall k :: i < k < j ==> mixers[k].output != mixers[i].output
    ensures var path := mixers[i].output;
      path in FilesAfter(env, ser, mixers[..j]) &&
      FilesAfter(env, ser, mixers[..j])[path]
        == MixerResult(env.(files := FilesAfter(env, ser, mixers[..i])), ser, mixers[i]).0
  {
    ReplayLast(env.files, Writer(env, ser), mixers[..j], i);
    assert mixers[..j][..i] == mixers[..i];
  }
}
