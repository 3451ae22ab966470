/**
 * `getCustomAttributes` (lib/prismix.ts:141-192): mines from the schema text,
 * for each model block, the attributes the Prisma parser does not report —
 * `@map` column names, `@db.` native types, `onUpdate` actions, federation
 * directives written as `//@name` comments, and `@@index` declarations.
 */
module Miner {
  import opened Base
  import opened Dmmf
  import opened Scan

  // ---------------------------------------------------------------------
  // Lines

  /** The filter's test: the line has something besides white space. */
  predicate Filled(line: string) {
    Trim(line) != ""
  }

  /** `lines.filter(l => l.trim().length)` */
  function NonBlank(lines: seq<string>): seq<string> {
    Filter(lines, Filled)
  }

  /** The filter keeps exactly the lines that are not blank. */
  lemma NonBlankSpec(lines: seq<string>)
    ensures |NonBlank(lines)| <= |lines|
    ensures forall l :: l in NonBlank(lines) <==> l in lines && Trim(l) != ""
  {
    FilterSpec(lines, Filled);
  }

  /** `modelChunk.split('\n').filter(chunk => chunk.trim().length)` */
  function Pieces(chunk: string): seq<string> {
    NonBlank(Split(chunk, "\n"))
  }

  /**
   * `field.trim().split(' ')[0]`: the key of a line's entry, its first word —
   * the trimmed line up to its first space, or all of it when it has none.
   */
  function Key(line: string): (k: string)
    ensures forall j :: !OccursAt(k, " ", j)
    ensures k == Trim(line) || (|k| < |Trim(line)| && Trim(line)[..|k| + 1] == k + " ")
  {
    SplitPiecesAreFree(Trim(line), " ");
    SplitHead(Trim(line), " ");
    Split(Trim(line), " ")[0]
  }

  // ---------------------------------------------------------------------
  // Fields

  /** The bag mined from one line: the five patterns applied to it. */
  function MineLine(line: string): FieldAttributes {
    FieldAttributes(
      ColumnName(line),
      DbType(line),
      RelationOnUpdate(line),
      Flag(line, Shareable),
      Flag(line, Inaccessible),
      Flag(line, External),
      Flag(line, Requires))
  }

  /** The filter on entries: some attribute of the bag is truthy. */
  predicate Worth(a: FieldAttributes) {
    || Truthy(a.columnName) || Truthy(a.dbType) || Truthy(a.relationOnUpdate)
    || a.external || a.inaccessible || a.requiresDirective || a.shareable
  }

  /** The entry a line contributes, `[key, bag]`, when the bag passes the filter. */
  function LineEntry(line: string): Option<(string, FieldAttributes)> {
    var a := MineLine(line);
    if Worth(a) then Some((Key(line), a)) else None
  }

  /** `line` yields an entry under key `k`. */
  predicate Yields(line: string, k: string) {
    Sets(LineEntry(line), k)
  }

  /**
   * `Object.fromEntries(pieces.map(...).filter(...))`: each kept line sets its
   * key, a later line overwriting an earlier one of the same key.
   */
  function FieldMap(lines: seq<string>): map<string, FieldAttributes> {
    LastWins(Mapped(lines, LineEntry))
  }

  /** A line's entry, when it has one, carries the line's bag. */
  lemma LineEntryValues()
    ensures forall line :: LineEntry(line).Some? ==> LineEntry(line).value.1 == MineLine(line)
  {
  }

  /** A key is in the field map exactly when some line yields it. */
  lemma FieldMapHas(lines: seq<string>, k: string)
    ensures k in FieldMap(lines) <==> exists i :: 0 <= i < |lines| && Yields(lines[i], k)
  {
    LastWinsMapped(lines, LineEntry, k);
  }

  /** A key in the field map maps to the bag of the last line that yields it. */
  lemma FieldMapLast(lines: seq<string>, k: string)
    requires k in FieldMap(lines)
    ensures exists i :: && 0 <= i < |lines| && Yields(lines[i], k)
                        && (forall j :: i < j < |lines| ==> !Yields(lines[j], k))
                        && FieldMap(lines)[k] == MineLine(lines[i])
  {
    LineEntryValues();
    LastWinsMappedValue(lines, LineEntry, MineLine, k);
  }

  // ---------------------------------------------------------------------
  // `@@index` declarations

  /** The `reduce` collecting `@@index(...)` declarations, one per line that has one, in order. */
  function IndexDecls(lines: seq<string>): (r: seq<string>)
    ensures |r| <= |lines|
    ensures forall x :: x in r ==> |x| >= 9 && x[..8] == "@@index(" && x[|x| - 1] == ')'
    decreases |lines|
  {
    if |lines| == 0 then []
    else
      var ac, item := IndexDecls(lines[..|lines| - 1]), IndexDeclaration(lines[|lines| - 1]);
      if Truthy(item) then ac + [item.value] else ac
  }

  /** Collecting over two runs of lines concatenates their declarations: order and duplicates are kept. */
  lemma {:induction false} IndexDeclsAppend(a: seq<string>, b: seq<string>)
    ensures IndexDecls(a + b) == IndexDecls(a) + IndexDecls(b)
    decreases |b|
  {
    if |b| > 0 {
      var prefix := b[..|b| - 1];
      IndexDeclsAppend(a, prefix);
      assert (a + b)[..|a + b| - 1] == a + prefix;
      assert (a + b)[|a + b| - 1] == b[|b| - 1];
      assert b[..|b| - 1] == prefix;
    } else {
      assert a + b == a;
    }
  }

  /** Every collected declaration is the declaration of some line. */
  lemma {:induction false} IndexDeclsFrom(lines: seq<string>, x: string)
    requires x in IndexDecls(lines)
    ensures exists i :: 0 <= i < |lines| && IndexDeclaration(lines[i]) == Some(x)
    decreases |lines|
  {
    var n := |lines| - 1;
    var prefix, item := lines[..n], IndexDeclaration(lines[n]);
    assert IndexDecls(lines) == IndexDecls(prefix) + if item.Some? then [item.value] else [];
    if x in IndexDecls(prefix) {
      IndexDeclsFrom(prefix, x);
      var i :| 0 <= i < |prefix| && IndexDeclaration(prefix[i]) == Some(x);
      assert lines[i] == prefix[i];
    } else {
      assert item == Some(x);
    }
  }

  /** The declaration of every line that has one is collected. */
  lemma IndexDeclsOf(lines: seq<string>, i: nat, x: string)
    requires i < |lines| && IndexDeclaration(lines[i]) == Some(x)
    ensures x in IndexDecls(lines)
  {
    var upto, rest := lines[..i + 1], lines[i + 1..];
    assert lines == upto + rest;
    IndexDeclsAppend(upto, rest);
    IndexDeclsUpTo(lines, i, x);
    InSplice(IndexDecls(lines), IndexDecls(lines[..i]), x, IndexDecls(rest));
  }

  /** A line with a declaration appends it to what the lines before it collect. */
  lemma IndexDeclsUpTo(lines: seq<string>, i: nat, x: string)
    requires i < |lines| && IndexDeclaration(lines[i]) == Some(x)
    ensures IndexDecls(lines[..i + 1]) == IndexDecls(lines[..i]) + [x]
  {
    assert lines[..i + 1][..i] == lines[..i];
  }

  // ---------------------------------------------------------------------
  // Model blocks

  /** The first line from `from` on that matches `model (.*) {`. */
  function FirstDeclaration(pieces: seq<string>, from: nat): (r: Option<nat>)
    ensures r.Some? ==> from <= r.value < |pieces| && IsModelDeclaration(pieces[r.value])
    ensures r.Some? ==> forall j :: from <= j < r.value ==> !IsModelDeclaration(pieces[j])
    ensures r.None? ==> forall j :: from <= j < |pieces| ==> !IsModelDeclaration(pieces[j])
    decreases |pieces| - from
  {
    if from >= |pieces| then None
    else if IsModelDeclaration(pieces[from]) then Some(from)
    else FirstDeclaration(pieces, from + 1)
  }

  /** `pieces.find(l => l.match(/model (.*) {/))?.split(' ')[1]` */
  function ModelNameOf(pieces: seq<string>): Option<string> {
    match FirstDeclaration(pieces, 0)
    case None => None
    case Some(i) =>
      var parts := Split(pieces[i], " ");
      if |parts| > 1 then Some(parts[1]) else None
  }

  /** A chunk has a model name exactly when one of its lines declares a model. */
  lemma ModelNameFound(pieces: seq<string>)
    ensures ModelNameOf(pieces).Some? <==> exists i :: 0 <= i < |pieces| && IsModelDeclaration(pieces[i])
  {
    if FirstDeclaration(pieces, 0).Some? {
      DeclarationHasSpace(pieces[FirstDeclaration(pieces, 0).value]);
    }
  }

  /** The name is the second space-separated word of the first declaring line, and so has no space. */
  lemma ModelNameWord(pieces: seq<string>)
    ensures ModelNameOf(pieces).Some? ==>
      exists i :: && 0 <= i < |pieces| && IsModelDeclaration(pieces[i])
                  && (forall j :: 0 <= j < i ==> !IsModelDeclaration(pieces[j]))
                  && ModelNameOf(pieces).value == Split(pieces[i], " ")[1]
    ensures ModelNameOf(pieces).Some? ==> forall j :: !OccursAt(ModelNameOf(pieces).value, " ", j)
  {
    if FirstDeclaration(pieces, 0).Some? {
      var i := FirstDeclaration(pieces, 0).value;
      SplitPiecesAreFree(pieces[i], " ");
    }
  }

  /** A declaration line contains a space, so splitting it on spaces gives a second word. */
  lemma DeclarationHasSpace(line: string)
    requires IsModelDeclaration(line)
    ensures |Split(line, " ")| > 1
  {
    IsModelDeclarationSpec(line);
    var p, e :| MatchAt(line, ModelDeclaration, p, e);
    assert line[p..p + 6][5] == ' ';
    assert OccursAt(line, " ", p + 5) by {
      assert line[p + 5..p + 6] == [line[p..p + 6][5]];
    }
    assert IndexOf(line, " ", 0).Some?;
  }

  /** The model name a chunk declares, if any. */
  function ChunkName(chunk: string): Option<string> {
    ModelNameOf(Pieces(chunk))
  }

  /** What a chunk contributes: its field map and its `@@index` declarations. */
  function ChunkAttributes(chunk: string): CustomAttributes {
    var pieces := Pieces(chunk);
    CustomAttributes(FieldMap(pieces), IndexDecls(pieces))
  }

  /** What a chunk adds to the definitions: nothing without a (non-empty) model name. */
  function ChunkEntry(chunk: string): Option<(string, CustomAttributes)> {
    var name := ChunkName(chunk);
    if Truthy(name) then Some((name.value, ChunkAttributes(chunk))) else None
  }

  /** The `reduce` over the chunks, from the left, spreading each named chunk into the definitions. */
  function MineChunks(chunks: seq<string>): map<string, CustomAttributes> {
    LastWins(Mapped(chunks, ChunkEntry))
  }

  /** What a model block ends with; the text is cut into chunks at each occurrence. */
  const BlockEnd: string := "\n}"

  /** `datamodel.split('\n}')` */
  function Chunks(datamodel: string): seq<string> {
    Split(datamodel, BlockEnd)
  }

  /** `getCustomAttributes(datamodel)` */
  function GetCustomAttributes(datamodel: string): map<string, CustomAttributes> {
    MineChunks(Chunks(datamodel))
  }

  /** `chunk` declares the model `n`. */
  predicate Declares(chunk: string, n: string) {
    Sets(ChunkEntry(chunk), n)
  }

  /** A model name is mined exactly when some chunk declares it: a chunk with no declaration adds nothing. */
  lemma MineChunksHas(chunks: seq<string>, n: string)
    ensures n in MineChunks(chunks) <==> exists i :: 0 <= i < |chunks| && Declares(chunks[i], n)
  {
    LastWinsMapped(chunks, ChunkEntry, n);
  }

  /** A mined model name maps to what the last chunk declaring it contributes. */
  lemma MineChunksLast(chunks: seq<string>, n: string)
    requires n in MineChunks(chunks)
    ensures exists i :: && 0 <= i < |chunks| && Declares(chunks[i], n)
                        && (forall j :: i < j < |chunks| ==> !Declares(chunks[j], n))
                        && MineChunks(chunks)[n] == ChunkAttributes(chunks[i])
  {
    ChunkEntryValues();
    LastWinsMappedValue(chunks, ChunkEntry, ChunkAttributes, n);
  }

  /** A chunk's entry, when it has one, carries what the chunk contributes. */
  lemma ChunkEntryValues()
    ensures forall chunk :: ChunkEntry(chunk).Some? ==> ChunkEntry(chunk).value.1 == ChunkAttributes(chunk)
  {
  }

  /** The models mined from a schema text are exactly those some block of it declares. */
  lemma {:induction false} MinedNames(datamodel: string, n: string)
    ensures n in GetCustomAttributes(datamodel) <==>
      exists c :: 0 <= c < |Chunks(datamodel)| && Declares(Chunks(datamodel)[c], n)
  {
    MineChunksHas(Chunks(datamodel), n);
  }

  /** A declared name is a non-empty single word. */
  lemma DeclaredName(chunk: string, n: string)
    requires Declares(chunk, n)
    ensures n != "" && forall j :: !OccursAt(n, " ", j)
  {
    ModelNameWord(Pieces(chunk));
  }
}
