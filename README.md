# prismix, modelled in Dafny

prismix merges several Prisma schema files into one. A configuration lists
*mixers*. Each mixer has glob patterns for its input files and one output path.
For each mixer, prismix does the following:

1. It loads every file the patterns match. The Prisma parser produces the
   models, enums, datasources and generators.
2. It mines the raw schema text for attributes the parser does not report:
   - `@map` column names;
   - `@db.` native types;
   - relation `onUpdate` actions;
   - the federation directives `//@shareable`, `//@inaccessible`, `//@external`
     and `//@requires`;
   - `@@index` declarations.

   It then injects these into the parsed models.
3. It mixes the models of all loaded files by name:
   - The first model of a name is kept.
   - The kept model gets every field of a later same-named model whose name it
     lacks.
   - A field present in both is kept, and a mismatch is reported when the two
     differ.
   - The table name is taken from the first model that has one.
   - `@@index` lines and unique indexes are concatenated.
4. It concatenates the enums.
5. It takes the datasources of the last file that has a datasource with a
   concrete URL, and the generators of the last file that has generators.
6. It writes a banner and the four serialized sections, joining the non-empty
   ones with line breaks.

The modules follow that structure:

- `Base`: strings as the JavaScript built-ins see them (`split`, `join`,
  `trim`, `toLowerCase`), dictionaries built entry by entry, and `filter`.
- `Dmmf`: the parser's data (fields, models, enums, datasources, generators)
  and the mined attribute bags.
- `Console`: the messages printed, kept as values.
- `Scan`: the five regular expressions of `getCustomAttributes`. Each is
  written as an explicit scanner. Each scanner is proved against a declarative
  statement of what the regular expression reports: the leftmost match, and
  within it the longest `.*`.
- `Miner`: `getCustomAttributes`, the per-model dictionary mined from a
  schema text.
- `Inject`: the injection of the mined attributes in `getSchema`.
- `Merge`: what `mixModels` computes, stated on values. `Merged` merges one
  model into another and `MixFold` is the fold over the input list. Lemmas
  state what the mixed list contains.
- `Mixer`: `mixModels` as written. A class `ModelObject` stands for a model
  object whose fields are updated in place. A method loops over the inputs
  with a record from names to the kept objects. It is proved to compute the
  `Merge` fold and to return the first object of each name.
- `Prismix`: `getSchema` and the `prismix` loop. Its parameters are the file
  system, the glob expansion, the parser and the serializers. Each mixer globs
  and reads the files on disk as the mixers before it left them.

The policy for conflicting fields follows the code in `lib/prismix.ts:88-107`:
- The existing field is kept.
- A mismatch is reported when the two fields are not deep-equal.

## Model

| member | source | states |
|---|---|---|
| `Base.JoinSplit` | lib/prismix.ts:144 | Splitting a schema text at a separator loses nothing: joining the pieces with the separator gives the text back. |
| `Base.SplitPiecesAreFree` | lib/prismix.ts:150 | No piece of a split contains the separator, so a word taken from `split(' ')` has no space. |
| `Base.IndexOf` | lib/prismix.ts:144 | The separator search finds the leftmost occurrence at or after the start, or reports that there is none. |
| `Base.TrimStart` | lib/prismix.ts:148 | `trim` removes exactly the leading white space: the result is a suffix of the input, and it starts with a non-space character when it is not empty. |
| `Base.TrimEnd` | lib/prismix.ts:148 | `trim` removes exactly the trailing white space: the result is a prefix of the input, and it ends with a non-space character when it is not empty. |
| `Base.TrimEmpty` | lib/prismix.ts:148 | A line is blank, and is dropped by the filter, exactly when every character in it is white space. |
| `Base.LowerCase` | lib/prismix.ts:173 | `toLowerCase` keeps the length and lower-cases each character on its own. |
| `Base.LastWinsSpec` | lib/prismix.ts:185-188 | A dictionary built entry by entry has a key exactly when some entry sets it, and holds the value of the last such entry. |
| `Base.FilterSpec` | lib/prismix.ts:148 | A filter keeps exactly the elements that pass the test, and never lengthens the list. |
| `Scan.GreedyClose` | lib/prismix.ts:153 | A `.*` stops at the last occurrence of its closing text before the end of the line. No other stopping place on that line is further right. |
| `Scan.Find` | lib/prismix.ts:153-159 | A pattern search reports the leftmost match. At that start it takes the longest `.*`. No match exists when it reports none. |
| `Scan.ReportedUnique` | lib/prismix.ts:153-159 | The match a regular expression reports (leftmost, then longest) is unique. |
| `Scan.ColumnName` | lib/prismix.ts:153-169 | Defines the `@map` column name of a line from the leftmost-longest match. `Scan.ColumnNameSpec` states what it returns. |
| `Scan.ColumnNameSpec` | lib/prismix.ts:153-169 | A line has a `@map` column name exactly when `[^@]@map\("(.*)"\)` matches it. The name is the group of the reported match. |
| `Scan.IndexShape` | lib/prismix.ts:159 | Every `@@index(...)` match starts with `@@index(` and ends with `)`. |
| `Scan.IndexDeclarationSpec` | lib/prismix.ts:159-162 | A line has an `@@index` declaration exactly when the pattern matches. The declaration is the whole reported match. |
| `Scan.IsModelDeclarationSpec` | lib/prismix.ts:150 | A line declares a model exactly when `model (.*) {` matches somewhere in it. |
| `Scan.FindDb` | lib/prismix.ts:154 | The native-type search finds the leftmost `@db.` followed by a character other than a line break, or reports that there is none. |
| `Scan.RunEnd` | lib/prismix.ts:154 | `[^\s@]*` runs as far as it can: up to the first white-space character or `@`. |
| `Scan.DbType` | lib/prismix.ts:154-170 | Defines the native type of a line. `Scan.DbTypeSpec` states what it returns. |
| `Scan.DbTypeSpec` | lib/prismix.ts:154-170 | A line has a native type exactly when `@db.` and one more character occur. The type starts at the leftmost such place and extends over the longest `[^\s@]*` after that character. |
| `Scan.ActionFrom` | lib/prismix.ts:156-158 | The alternation of actions finds an accepted action at a given place, or reports that none of the remaining alternatives is there. |
| `Scan.ActionsExclusive` | lib/prismix.ts:156-158 | At most one of the five actions can follow `onUpdate: ` at a given place, so the order of the alternatives does not matter. |
| `Scan.FindAction` | lib/prismix.ts:156-158 | The `onUpdate` search finds the leftmost place where an accepted action follows `onUpdate: `, or reports that there is none. |
| `Scan.RelationOnUpdate` | lib/prismix.ts:156-171 | Defines the `onUpdate` action of a line. `Scan.RelationOnUpdateSpec` states what it returns. |
| `Scan.RelationOnUpdateSpec` | lib/prismix.ts:156-171 | A line has an `onUpdate` action exactly when `onUpdate: <action>` occurs. The action is one of the five, taken from the leftmost occurrence. |
| `Scan.DirectiveFirst` | lib/prismix.ts:155 | The directive alternation at a place finds a directive that is there, ignoring ASCII case, or reports that no directive is there. |
| `Scan.DirectiveOnce` | lib/prismix.ts:155 | At most one of the four federation directives starts at a given place. |
| `Scan.DirectiveNoOverlap` | lib/prismix.ts:155-174 | No `//@` starts inside a matched directive, so skipping past a match loses no other match. |
| `Scan.MatchText` | lib/prismix.ts:172-173 | A directive matched in any case, once lower-cased, is exactly `//@` followed by the directive's name. |
| `Scan.MatchAll` | lib/prismix.ts:155-174 | Defines the lower-cased texts of all directive matches in a line. `Scan.MatchAllTags` and `Scan.TagsHas` state what it returns. |
| `Scan.MatchAllTags` | lib/prismix.ts:172-174 | The lower-cased texts of all matches are the tags of the directives the search finds, in order. |
| `Scan.TagsHas` | lib/prismix.ts:178 | The list of match texts includes `//@<name>` exactly when that directive was found. |
| `Scan.OccursIff` | lib/prismix.ts:155 | A directive occurs from some place on exactly when there is a place there where it matches. |
| `Scan.KindsFinds` | lib/prismix.ts:155-174 | The global search finds a directive exactly when it occurs somewhere in the rest of the line. |
| `Scan.Flag` | lib/prismix.ts:155-178 | Defines a federation flag of a line. `Scan.FlagIff` states when it is true. |
| `Scan.FlagIff` | lib/prismix.ts:155-178 | A federation flag is true exactly when `//@<name>` occurs in the line, in any case. |
| `Miner.NonBlankSpec` | lib/prismix.ts:148 | The pieces of a chunk are exactly its lines that are not blank. |
| `Miner.Key` | lib/prismix.ts:178 | The key of a line's entry is the trimmed line up to its first space, or the whole trimmed line when it has no space. It contains no space. |
| `Miner.FieldMapHas` | lib/prismix.ts:166-187 | A field key is in a model's field map exactly when some line of the block has that key and a non-empty attribute. |
| `Miner.FieldMapLast` | lib/prismix.ts:166-187 | A field key maps to the bag of the last line with that key that passes the filter. |
| `Miner.IndexDecls` | lib/prismix.ts:160-165 | The collected `@@index` declarations number no more than the lines, and each one has the `@@index(...)` shape. |
| `Miner.IndexDeclsAppend` | lib/prismix.ts:160-165 | Collection keeps the order and the duplicates: collecting two runs of lines concatenates their declarations. |
| `Miner.IndexDeclsFrom` | lib/prismix.ts:160-165 | Every collected `@@index` declaration is the declaration of some line of the block. |
| `Miner.IndexDeclsOf` | lib/prismix.ts:160-165 | The declaration of every line that has one is collected: nothing a line declares is lost. |
| `Miner.FirstDeclaration` | lib/prismix.ts:150 | `find` returns the first line that declares a model. No earlier line declares one. |
| `Miner.ModelNameFound` | lib/prismix.ts:150-151 | A chunk has a model name exactly when one of its lines matches `model (.*) {`. |
| `Miner.ModelNameWord` | lib/prismix.ts:150 | The model name is the second word of the first declaring line, and has no space. |
| `Miner.DeclarationHasSpace` | lib/prismix.ts:150 | A declaring line always has a second word, so `split(' ')[1]` is defined. |
| `Miner.GetCustomAttributes` | lib/prismix.ts:141-192 | Defines the dictionary mined from a schema text: split into blocks at `\n}`, each named block setting its model, later blocks replacing earlier ones. Its properties are stated by `Miner.MinedNames`, `Miner.MineChunksHas`, `Miner.MineChunksLast` and `Miner.DeclaredName`. |
| `Miner.MineLine` | lib/prismix.ts:166-177 | Defines the bag mined from one line: the `@map` name, the native type, the `onUpdate` action and the four federation flags. Each part is stated by `Scan.ColumnNameSpec`, `Scan.DbTypeSpec`, `Scan.RelationOnUpdateSpec` and `Scan.FlagIff`. |
| `Miner.LineEntry` | lib/prismix.ts:166-183 | Defines the entry of one line: its key and bag, kept only when some attribute is truthy. Its properties are stated by `Miner.Key`, `Miner.FieldMapHas` and `Miner.FieldMapLast`. |
| `Miner.ModelNameOf` | lib/prismix.ts:150 | Defines the model name of a block: the second word of its first declaring line. Its properties are stated by `Miner.ModelNameFound`, `Miner.ModelNameWord` and `Miner.DeclarationHasSpace`. |
| `Miner.MineChunksHas` | lib/prismix.ts:145-191 | A model is in the mined dictionary exactly when some chunk declares it with a non-empty name. Chunks without a declaration add nothing. |
| `Miner.MineChunksLast` | lib/prismix.ts:185-188 | A mined model holds what the last chunk declaring it contributes: a later block of the same name replaces an earlier one. |
| `Miner.MinedNames` | lib/prismix.ts:141-192 | The models `getCustomAttributes` returns are exactly those some block of the schema text declares. |
| `Miner.DeclaredName` | lib/prismix.ts:150-151 | A declared model name is non-empty and is a single word. |
| `Inject.InjectField` | lib/prismix.ts:43-58 | Defines the injection of a mined bag into one field. `Inject.InjectFieldSpec` states what it keeps and what it sets. |
| `Inject.InjectModel` | lib/prismix.ts:40-60 | Defines the injection of the mined attributes into one model. `Inject.InjectModelSpec` and `Inject.InjectIdempotent` state its properties. |
| `Inject.InjectFieldSpec` | lib/prismix.ts:43-58 | Injection keeps a field's name and parser data. The field then carries exactly the mined bag, and no attributes when nothing was mined. |
| `Inject.InjectModelSpec` | lib/prismix.ts:40-60 | Injection changes only the `@@index` lines and the seven field attributes. A model carries `@@index` lines exactly when its name was mined. |
| `Inject.InjectIdempotent` | lib/prismix.ts:40-60 | Injection does not depend on what a model carried before: injecting twice is the same as injecting once. |
| `Merge.MixFold` | lib/prismix.ts:77-137 | After the loop, the record has one entry per input name, stored under that name, and its key order lists each name once. |
| `Merge.Merged` | lib/prismix.ts:83-131 | Defines the merge of a later same-named model into the kept one. Its properties are stated by `Merge.MergeFieldsKeepsExisting`, `Merge.MergeFieldsNames`, `Merge.MergeFieldsAppended`, `Merge.ChainLists` and `Merge.ChainDbName`. |
| `Merge.MixStep` | lib/prismix.ts:79-134 | Defines one turn of the loop: merge into the recorded model of the name, or record a new name. `Merge.MixFold` and `Merge.MixFoldPerName` state what the turns add up to. |
| `Merge.Mix` | lib/prismix.ts:77-137 | Defines the mixed list: the recorded models in key order. `Merge.MixSpec` states what it holds. |
| `Merge.MergeFieldsKeepsExisting` | lib/prismix.ts:88-107 | Merging never replaces, reorders or removes a field of the kept model. It only appends. |
| `Merge.MergeFieldsNames` | lib/prismix.ts:88-107 | After merging, the field names are exactly the union of the names of both models. |
| `Merge.MergeFieldsNothingNew` | lib/prismix.ts:88-107 | When every incoming field name is already present, the fields are unchanged. |
| `Merge.MergeFieldsUnique` | lib/prismix.ts:88-107 | Merging keeps field names unique, even when the incoming model repeats a name. |
| `Merge.MergeFieldsAppended` | lib/prismix.ts:103-106 | Each appended field is the first incoming field of a name the kept model lacked. Appended fields keep the incoming order. |
| `Merge.FieldWarningsNone` | lib/prismix.ts:91-102 | An incoming field causes no report exactly when every present field of its name is deep-equal to it. |
| `Merge.FieldWarningsUnique` | lib/prismix.ts:91-102 | With unique field names, an incoming field causes one mismatch report when the present field of its name differs, and none otherwise. |
| `Merge.AgreesAfterMerge` | lib/prismix.ts:88-107 | Fields appended earlier in the loop, of other names, do not change whether a later field agrees. |
| `Merge.MergeWarningsNone` | lib/prismix.ts:88-107 | Merging two models with unique field names reports nothing exactly when every pair of same-named fields is deep-equal. |
| `Merge.SelfMergeFields` | lib/prismix.ts:88-107 | Merging a model with an equal copy of itself adds no field and reports nothing. |
| `Merge.SelfMergeLists` | lib/prismix.ts:108-131 | Merging a model with a copy of itself keeps its table name but doubles its `@@index` and unique-index lists. They are never deduplicated. |
| `Merge.Named` | lib/prismix.ts:80 | The inputs of a name are non-empty exactly when the name occurs among the inputs. |
| `Merge.MixFoldPerName` | lib/prismix.ts:77-137 | The kept model of each name is the first input of that name with every later input of that name merged into it, in input order. |
| `Merge.MixFoldOrder` | lib/prismix.ts:78-136 | The key order of the record is the order in which each name first occurs among the inputs. |
| `Merge.MixSpec` | lib/prismix.ts:77-137 | The mixed list names each input name exactly once, and only input names. It follows first-occurrence order, and each entry is the merge chain of its name. |
| `Merge.ChainLists` | lib/prismix.ts:88-131 | A merged model keeps the first model's name, key and fields as a prefix. Its `@@index` and unique-index lists are the concatenations over all same-named inputs. |
| `Merge.ChainDbName` | lib/prismix.ts:108-111 | The merged table name is that of the first same-named input that has one, and the first input's otherwise. |
| `Merge.ChainDbNameUnset` | lib/prismix.ts:109-111 | When no same-named input has a table name, the merged model keeps the first input's. |
| `Merge.ChainDbNameFirst` | lib/prismix.ts:109-111 | The first input with a table name fixes the merged model's table name: later ones do not override it. |
| `Mixer.ModelObject.constructor` | lib/prismix.ts:40 | A new model object holds the given model. |
| `Mixer.ModelObject.MergeFieldsFrom` | lib/prismix.ts:88-107 | The in-place field loop leaves the fields and the reports the value-level merge describes. |
| `Mixer.ModelObject.Absorb` | lib/prismix.ts:83-131 | Absorbing a same-named object updates the kept object in place to the value-level merge of the two. The incoming object is left unchanged. |
| `Mixer.CompareField` | lib/prismix.ts:90-102 | The inner loop finds a field of the same name exactly when one is present. It reports one mismatch per present field of that name that differs. |
| `Mixer.AbsorbLater` | lib/prismix.ts:80-131 | A later input of a recorded name updates only the kept object, as one loop turn prescribes. Inputs not yet visited are unchanged. |
| `Mixer.AbsorbIntoFirst` | lib/prismix.ts:80-131 | A later input of a recorded name is merged into the first object of that name. Every input that is not first of its name, this one included, keeps its value. |
| `Mixer.NotKept` | lib/prismix.ts:80-83 | The object recorded for a name is never an input that is not the first of its name. |
| `Mixer.Step` | lib/prismix.ts:79-134 | One turn of the loop keeps the record of first objects and their merged values in step with the value-level loop turn. It may change only the first input object of the current name; inputs not yet visited and inputs that are not first of their name keep their values. |
| `Mixer.KeepFirst` | lib/prismix.ts:132-134 | An input of a new name is recorded as the kept object of its name and goes last in key order. |
| `Mixer.NewIsFirst` | lib/prismix.ts:132-134 | An input whose name is not yet recorded is the first input of its name. |
| `Mixer.RecordAdd` | lib/prismix.ts:133 | Recording a new name with its first input keeps the record pointing at first objects. |
| `Mixer.Turn` | lib/prismix.ts:79-135 | One turn of the loop keeps the loop invariant: the record, key order and reports match the value-level fold over the inputs seen so far, and only first objects of their names have changed. |
| `Mixer.Turns` | lib/prismix.ts:78-135 | The loop from the empty record over all inputs ends with the record, key order and reports of the value-level fold over all inputs. |
| `Mixer.FillRecord` | lib/prismix.ts:78-135 | The whole loop leaves a record of first objects whose values are the value-level fold, and reports what the fold reports. An input object that is not the first of its name keeps its value. |
| `Mixer.MixModels` | lib/prismix.ts:77-137 | `mixModels` returns the mixed list the value-level fold describes. It reports the same mismatches. Each returned object is the first input object of its name. An input object that is not the first of its name keeps its value. |
| `Prismix.GetSchema` | lib/prismix.ts:32-75 | Defines loading one file: read, parse, mine and inject, with no schema when the file is missing or the parser throws. Its properties are stated by `Prismix.GetSchemaIndexes`, `Inject.InjectModelSpec` and `Prismix.LoadSpec`. |
| `Prismix.GetSchemaIndexes` | lib/prismix.ts:39-42 | A loaded model carries `@@index` lines exactly when some block of its file declares its name. |
| `Prismix.LoadSpec` | lib/prismix.ts:199-207 | The loaded schemas are exactly those of matched files that parse. A parse failure is reported for exactly the matched files that do not parse. |
| `Prismix.LoadFiles` | lib/prismix.ts:201-207 | The file loop keeps the parsed schemas in glob order and reports each failure. It counts a pattern as found exactly when some file parsed. |
| `Prismix.LoadSchemas` | lib/prismix.ts:199-211 | The loading loop over all input patterns gives the schemas and the reports that the pattern-by-pattern definition describes. |
| `Prismix.FailuresAreParseFailures` | lib/prismix.ts:69-74 | The file loop reports only parse failures, never a missing pattern. |
| `Prismix.NoFileIff` | lib/prismix.ts:199-211 | A pattern is reported as not found exactly when it is an input pattern and none of the files it matches parses. |
| `Prismix.FlattenMember` | lib/prismix.ts:214-215 | The concatenated list holds exactly the elements of the schemas' lists. |
| `Prismix.FlattenAppend` | lib/prismix.ts:214-215 | Concatenating lists of lists is associative: the order of the schemas is kept. |
| `Prismix.Concat` | lib/prismix.ts:214-219 | The loop that concatenates the model lists, and the one for the enum lists, yield the schemas' lists in order. |
| `Prismix.ChosenDatasources` | lib/prismix.ts:221-228 | Defines the datasource choice. `Prismix.ChosenDatasourcesSpec` and `Prismix.DatasourceOverride` state which list it is. |
| `Prismix.ChosenGenerators` | lib/prismix.ts:230-233 | Defines the generator choice. `Prismix.ChosenGeneratorsSpec` states which list it is. |
| `Prismix.SelectDatasources` | lib/prismix.ts:221-228 | The datasource loop chooses the list the last-live-URL definition describes. |
| `Prismix.SelectGenerators` | lib/prismix.ts:230-233 | The generator loop chooses the list the last-non-empty definition describes. |
| `Prismix.ChosenDatasourcesSpec` | lib/prismix.ts:221-228 | The datasources are those of the last schema with a datasource whose URL has a value. The result is empty when no schema has one. |
| `Prismix.ChosenGeneratorsSpec` | lib/prismix.ts:230-233 | The generators are those of the last schema that has any. The result is empty when none has. |
| `Prismix.DatasourceOverride` | lib/prismix.ts:221-228 | A schema without a live URL never displaces one with a live URL, in either order. |
| `Prismix.Sections` | lib/prismix.ts:235-241 | Defines the five sections in output order: banner, datasources, generators, models, enums. |
| `Prismix.Output` | lib/prismix.ts:235-243 | Defines the output text: the non-empty sections joined by line breaks. `Prismix.NonEmptySpec` and `Prismix.OutputStartsWithBanner` state its shape. |
| `Prismix.NonEmptySpec` | lib/prismix.ts:242 | The section filter keeps exactly the non-empty sections, and the banner stays first. |
| `Prismix.OutputStartsWithBanner` | lib/prismix.ts:235-243 | The output starts with the banner. A line break follows the banner exactly when some other section is non-empty. Otherwise the output is only the banner. |
| `Prismix.NonEmptyTail` | lib/prismix.ts:242 | A non-empty section after the banner is kept in addition to the banner. |
| `Prismix.NonEmptyOnlyFirst` | lib/prismix.ts:242 | When every other section is empty, only the banner is kept. |
| `Prismix.Allocate` | lib/prismix.ts:40 | Each parsed model is a separate fresh object holding that model. |
| `Prismix.RunMixer` | lib/prismix.ts:196-243 | One mixer writes the text and prints the reports the value-level definition describes: load, mix, concatenate, choose and assemble. |
| `Prismix.Run` | lib/prismix.ts:195-246 | Running the mixers in turn leaves the files the replay of their writes describes, each mixer reading the files as the earlier mixers left them. The reports are those of each mixer in order. |
| `Prismix.RunWrites` | lib/prismix.ts:195-246 | A path is on disk after the run exactly when it was before or some mixer writes it. A path no mixer writes keeps its text. A written path holds the text of the last mixer writing it, computed from the files on disk when that mixer started. |
| `Prismix.RunFeedsLater` | lib/prismix.ts:195-246 | A later mixer starts with an earlier mixer's output on disk, unless a mixer in between overwrote it, so its patterns can match and load that file. |
| `Prismix.FilesAfter` | lib/prismix.ts:195-246 | Defines the files on disk after the mixers run, each `writeFile` replacing its path before the next mixer globs and reads. Its properties are stated by `Prismix.RunWrites` and `Prismix.RunFeedsLater`. |
| `Prismix.MixerResult` | lib/prismix.ts:196-243 | Defines what one mixer writes and reports from the files on disk when it starts. `Prismix.RunMixer` is proved to compute it. Its parts are stated by `Prismix.LoadSpec`, `Prismix.NoFileIff`, `Merge.MixSpec`, `Prismix.FlattenMember`, `Prismix.ChosenDatasourcesSpec`, `Prismix.ChosenGeneratorsSpec` and `Prismix.OutputStartsWithBanner`. |

## Left out

- Reading files and `glob.sync` are not modelled as I/O: the file system is a map from path to text, and the glob expansion is a function parameter of `Environment` applied to the set of paths on disk. A path that cannot be read gives no schema, like a parse failure, and is reported the same way.
- `path.join(process.cwd(), …)` is not modelled: a path returned by the glob, the path read and the output path written are compared as the strings given.
- The Prisma parser (`getDMMF`, `getConfig`) and the four deserializers are not part of this model. They are function parameters. A parser that throws is a parser that returns `None`.
- The write at the end of each mixer replaces the text at its output path in the map of files, which the next mixer globs and reads. A failing write is not modelled.
- `async`/`await` is left out: the steps run in program order.
- The debug output of `getCustomAttributes` (`console.log` at lines 168 and 176) is left out, and so is the exception object printed with the parse-failure message.
- `deepEqual` is modelled as structural equality of field values. Its loose mode, which compares with `==`, is not modelled.
- A field carries its name, the seven mined attributes, and a `FieldInfo` with the parser's kind, type name, list, required, id and unique flags, and relation name. Other parser properties of a field (default value, documentation, relation keys, and so on) are not modelled. They would take part in the deep-equality comparison in the same way.
- JavaScript object keys that are integer-like are listed first by `Object.values`, in numeric order. The model lists every key in insertion order. It also does not model keys that clash with `Object.prototype` (such as `__proto__`).
- Strings are sequences of Unicode characters. JavaScript strings are UTF-16 code units, so positions differ for characters outside the Basic Multilingual Plane.
- `uniqueIndexes` and `uniqueFields` are always lists, as the parser produces them. The `?? []` fallbacks for a missing list are therefore not modelled. `doubleAtIndexes` is optional, as it is in the source.
- The `.filter((f) => f)` after collecting `@@index` declarations is not a separate step: it cannot drop anything, since every collected declaration is non-empty.
- The `isKeyField` and `isStub` properties declared in `lib/dmmf-extension.d.ts` are not modelled: nothing in `lib/prismix.ts` computes or reads them.
