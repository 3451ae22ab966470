/**
 * The regular expressions `getCustomAttributes` matches against one schema
 * line (lib/prismix.ts:150-172), written out as scanners. A JavaScript regular
 * expression without the `g` flag reports the match that starts leftmost, and
 * among those the one its greedy `.*` or `[^\s@]*` makes longest; each scanner
 * here is proved to return exactly that match.
 */
module Scan {
  import opened Base

  // ---------------------------------------------------------------------
  // Greedy `.*` followed by a closing literal

  /** The first line terminator at or after `i`, or `|s|`: how far `.*` can reach from `i`. */
  function TerminatorFrom(s: string, i: nat): (r: nat)
    requires i <= |s|
    ensures i <= r <= |s| && NoTerminator(s, i, r)
    ensures r < |s| ==> IsLineTerminator(s[r])
    decreases |s| - i
  {
    if i == |s| || IsLineTerminator(s[i]) then i else TerminatorFrom(s, i + 1)
  }

  /** The last place in `[lo, hi]` where `pat` occurs. */
  function LastOccurrence(s: string, pat: string, lo: nat, hi: nat): (r: Option<nat>)
    ensures r.Some? ==> lo <= r.value <= hi && OccursAt(s, pat, r.value)
    ensures r.Some? ==> forall e :: r.value < e <= hi ==> !OccursAt(s, pat, e)
    ensures r.None? ==> forall e :: lo <= e <= hi ==> !OccursAt(s, pat, e)
    decreases hi
  {
    if hi < lo then None
    else if OccursAt(s, pat, hi) then Some(hi)
    else if hi == lo then None
    else LastOccurrence(s, pat, lo, hi - 1)
  }

  /** A `.*` begun at `from` can stop at `e` and let the literal `pat` match there. */
  predicate CloseAt(s: string, pat: string, from: nat, e: int) {
    from <= e && OccursAt(s, pat, e) && NoTerminator(s, from, e)
  }

  /** Where a greedy `.*` begun at `from` stops before `pat`: the last place it can. */
  function GreedyClose(s: string, pat: string, from: nat): (r: Option<nat>)
    requires from <= |s|
    ensures r.Some? ==> CloseAt(s, pat, from, r.value)
    ensures r.Some? ==> forall e :: CloseAt(s, pat, from, e) ==> e <= r.value
    ensures r.None? ==> forall e :: !CloseAt(s, pat, from, e)
  {
    var t := TerminatorFrom(s, from);
    PastTerminator(s, pat, from, t);
    LastOccurrence(s, pat, from, t)
  }

  /** No `.*` begun at `from` runs past the first line terminator `t`. */
  lemma PastTerminator(s: string, pat: string, from: nat, t: nat)
    requires from <= t <= |s| && (t < |s| ==> IsLineTerminator(s[t]))
    ensures forall e :: CloseAt(s, pat, from, e) ==> e <= t
  {
  }

  /**
   * The shape shared by `[^@]@map\("(.*)"\)`, `@@index\(.*\)` and
   * `model (.*) {`: an optional first character other than `@`, an opening
   * literal, a greedy `.*`, and a closing literal.
   */
  datatype Pattern = Pattern(guarded: bool, open: string, close: string) {
    /** Where the `.*` begins, counted from the start of the match. */
    function Body(): nat {
      (if guarded then 1 else 0) + |open|
    }

    predicate Valid() {
      |open| > 0 && |close| > 0
    }
  }

  /** `[^@]@map\("(.*)"\)`: the column name is the `.*`. */
  const MapAttribute := Pattern(true, "@map(\"", "\")")

  /** `@@index\(.*\)`: the whole match is kept. */
  const IndexAttribute := Pattern(false, "@@index(", ")")

  /** `model (.*) {` */
  const ModelDeclaration := Pattern(false, "model ", " {")

  /** The part of `pat` before the `.*` matches at `p`. */
  predicate OpensAt(s: string, pat: Pattern, p: int) {
    0 <= p && (pat.guarded ==> p < |s| && s[p] != '@') && OccursAt(s, pat.open, p + pat.Body() - |pat.open|)
  }

  /** `pat` matches `s[p..e + |pat.close|]`. */
  predicate MatchAt(s: string, pat: Pattern, p: int, e: int) {
    OpensAt(s, pat, p) && CloseAt(s, pat.close, p + pat.Body(), e)
  }

  /** The match a regular expression reports: the leftmost start, then the longest `.*`. */
  ghost predicate Reported(s: string, pat: Pattern, p: int, e: int) {
    && MatchAt(s, pat, p, e)
    && (forall q, e' :: 0 <= q < p ==> !MatchAt(s, pat, q, e'))
    && (forall e' :: MatchAt(s, pat, p, e') ==> e' <= e)
  }

  /** The leftmost match starting at or after `from`, with its `.*` as long as it can be. */
  function Find(s: string, pat: Pattern, from: nat): (r: Option<(nat, nat)>)
    requires pat.Valid()
    ensures r.Some? ==> from <= r.value.0 && MatchAt(s, pat, r.value.0, r.value.1)
    ensures r.Some? ==> forall q, e :: from <= q < r.value.0 ==> !MatchAt(s, pat, q, e)
    ensures r.Some? ==> forall e :: MatchAt(s, pat, r.value.0, e) ==> e <= r.value.1
    ensures r.None? ==> forall q, e :: from <= q ==> !MatchAt(s, pat, q, e)
    decreases |s| - from
  {
    if from >= |s| then None
    else if OpensAt(s, pat, from) then
      match GreedyClose(s, pat.close, from + pat.Body())
      case Some(e) => Some((from, e))
      case None => Find(s, pat, from + 1)
    else Find(s, pat, from + 1)
  }

  /** At most one match is reported. */
  lemma ReportedUnique(s: string, pat: Pattern, p: int, e: int, p': int, e': int)
    requires Reported(s, pat, p, e) && Reported(s, pat, p', e')
    ensures p == p' && e == e'
  {
  }

  /** `line.match(/[^@]@map\("(?<name>.*)"\)/)?.groups?.name` */
  function ColumnName(line: string): Option<string> {
    match Find(line, MapAttribute, 0)
    case None => None
    case Some((p, e)) => Some(line[p + 7..e])
  }

  /** There is a column name exactly when the pattern matches, and it is the group of the reported match. */
  lemma ColumnNameSpec(line: string)
    ensures ColumnName(line).None? <==> forall p, e :: !MatchAt(line, MapAttribute, p, e)
    ensures ColumnName(line).Some? ==>
      exists p, e :: Reported(line, MapAttribute, p, e) && ColumnName(line).value == line[p + 7..e]
  {
    if Find(line, MapAttribute, 0).Some? {
      var (p, e) := Find(line, MapAttribute, 0).value;
      assert Reported(line, MapAttribute, p, e);
    }
  }

  /** `line.match(/(?<index>@@index\(.*\))/)?.groups?.index` */
  function IndexDeclaration(line: string): (r: Option<string>)
    ensures r.Some? ==> |r.value| >= 9 && r.value[..8] == "@@index(" && r.value[|r.value| - 1] == ')'
  {
    match Find(line, IndexAttribute, 0)
    case None => None
    case Some((p, e)) =>
      IndexShape(line, p, e);
      Some(line[p..e + 1])
  }

  /** A match of `@@index\(.*\)` opens with `@@index(` and closes with `)`. */
  lemma IndexShape(line: string, p: int, e: int)
    requires MatchAt(line, IndexAttribute, p, e)
    ensures 0 <= p && p + 8 <= e < |line|
    ensures var m := line[p..e + 1]; |m| >= 9 && m[..8] == "@@index(" && m[|m| - 1] == ')'
  {
    var m := line[p..e + 1];
    assert line[p..p + 8] == "@@index(";
    assert m[..8] == line[p..p + 8];
    assert line[e..e + 1] == ")";
    assert m[|m| - 1] == line[e..e + 1][0];
  }

  /** There is a declaration exactly when the pattern matches, and it is the reported match. */
  lemma IndexDeclarationSpec(line: string)
    ensures IndexDeclaration(line).None? <==> forall p, e :: !MatchAt(line, IndexAttribute, p, e)
    ensures IndexDeclaration(line).Some? ==>
      exists p, e :: Reported(line, IndexAttribute, p, e) && IndexDeclaration(line).value == line[p..e + 1]
  {
    if Find(line, IndexAttribute, 0).Some? {
      var (p, e) := Find(line, IndexAttribute, 0).value;
      assert Reported(line, IndexAttribute, p, e);
    }
  }

  /** `line.match(/model (.*) {/)` is not `null`. */
  function IsModelDeclaration(line: string): bool {
    Find(line, ModelDeclaration, 0).Some?
  }

  /** A line declares a model exactly when `model .* {` matches somewhere in it. */
  lemma IsModelDeclarationSpec(line: string)
    ensures IsModelDeclaration(line) <==> exists p, e :: MatchAt(line, ModelDeclaration, p, e)
  {
    if Find(line, ModelDeclaration, 0).Some? {
      var (p, e) := Find(line, ModelDeclaration, 0).value;
      assert MatchAt(line, ModelDeclaration, p, e);
    }
  }

  // ---------------------------------------------------------------------
  // `@db\.(.[^\s@]*)`

  /** `@db\.` followed by one character other than a line terminator. */
  predicate DbAt(s: string, p: int) {
    OccursAt(s, "@db.", p) && p + 4 < |s| && !IsLineTerminator(s[p + 4])
  }

  /** The leftmost place at or after `from` where `@db\..` matches. */
  function FindDb(s: string, from: nat): (r: Option<nat>)
    ensures r.Some? ==> from <= r.value && DbAt(s, r.value)
    ensures r.Some? ==> forall q :: from <= q < r.value ==> !DbAt(s, q)
    ensures r.None? ==> forall q :: from <= q ==> !DbAt(s, q)
    decreases |s| - from
  {
    if from >= |s| then None
    else if DbAt(s, from) then Some(from)
    else FindDb(s, from + 1)
  }

  /** `[^\s@]` */
  predicate InTypeRun(c: char) {
    !IsWhiteSpace(c) && c != '@'
  }

  /** The end of the longest run of `[^\s@]` starting at `i`. */
  function RunEnd(s: string, i: nat): (r: nat)
    requires i <= |s|
    ensures i <= r <= |s|
    ensures forall k :: i <= k < r ==> InTypeRun(s[k])
    ensures r < |s| ==> !InTypeRun(s[r])
    decreases |s| - i
  {
    if i == |s| || !InTypeRun(s[i]) then i else RunEnd(s, i + 1)
  }

  /**
   * `line.match(/(?<type>@db\.(.[^\s@]*))/)?.groups?.type`: the native type
   * with its `@db.` prefix, from the leftmost `@db.` to the end of the run.
   */
  function DbType(line: string): Option<string> {
    match FindDb(line, 0)
    case None => None
    case Some(p) => Some(line[p..RunEnd(line, p + 5)])
  }

  /**
   * There is a native type exactly when `@db.` and one more character occur;
   * it starts at the leftmost such place and runs to the end of the longest
   * `[^\s@]*` after that character.
   */
  lemma DbTypeSpec(line: string)
    ensures DbType(line).None? <==> forall p :: !DbAt(line, p)
    ensures DbType(line).Some? ==>
      var r := DbType(line).value;
      exists p :: && DbAt(line, p) && (forall q :: 0 <= q < p ==> !DbAt(line, q))
                  && p + |r| <= |line| && r == line[p..p + |r|]
                  && (p + |r| < |line| ==> !InTypeRun(line[p + |r|]))
    ensures DbType(line).Some? ==>
      var r := DbType(line).value;
      |r| >= 5 && r[..4] == "@db." && forall k :: 5 <= k < |r| ==> InTypeRun(r[k])
  {
    if FindDb(line, 0).Some? {
      var p := FindDb(line, 0).value;
      var e := RunEnd(line, p + 5);
      assert line[p..e][..4] == line[p..p + 4];
      assert DbAt(line, p);
    }
  }

  // ---------------------------------------------------------------------
  // `onUpdate: (Cascade|NoAction|Restrict|SetDefault|SetNull)`

  /** The referential actions the pattern accepts, in its order of alternatives. */
  const Actions: seq<string> := ["Cascade", "NoAction", "Restrict", "SetDefault", "SetNull"]

  /** `onUpdate: <a>` occurs at `p` for an accepted action `a`. */
  predicate ActionAt(s: string, p: int, a: string) {
    a in Actions && OccursAt(s, "onUpdate: " + a, p)
  }

  /** The first alternative from `Actions[k..]` that matches at `p`. */
  function ActionFrom(s: string, p: nat, k: nat): (r: Option<string>)
    requires k <= |Actions|
    ensures r.Some? ==> ActionAt(s, p, r.value)
    ensures r.None? ==> forall j :: k <= j < |Actions| ==> !ActionAt(s, p, Actions[j])
    decreases |Actions| - k
  {
    if k == |Actions| then None
    else if OccursAt(s, "onUpdate: " + Actions[k], p) then Some(Actions[k])
    else ActionFrom(s, p, k + 1)
  }

  /** No accepted action is a prefix of another. */
  lemma ActionsPrefixFree(a: string, b: string)
    requires a in Actions && b in Actions && |a| <= |b| && b[..|a|] == a
    ensures a == b
  {
    assert a[0] == b[0];
    if a[0] == 'S' {
      assert a[3] == b[3];
    }
  }

  /** The characters of an occurrence are those of the pattern. */
  lemma OccursAtIndex(s: string, pat: string, i: int, k: int)
    requires OccursAt(s, pat, i) && 0 <= k < |pat|
    ensures s[i + k] == pat[k]
  {
    assert s[i..i + |pat|][k] == s[i + k];
  }

  /** Two actions following `onUpdate: ` at one place agree on their common length. */
  lemma SharedPrefix(s: string, p: int, a: string, b: string)
    requires ActionAt(s, p, a) && ActionAt(s, p, b) && |a| <= |b|
    ensures b[..|a|] == a
  {
    forall k | 0 <= k < |a| ensures b[k] == a[k] {
      OccursAtIndex(s, "onUpdate: " + a, p, 10 + k);
      OccursAtIndex(s, "onUpdate: " + b, p, 10 + k);
    }
  }

  /** Only one accepted action can follow `onUpdate: ` at a place. */
  lemma ActionsExclusive(s: string, p: int, a: string, b: string)
    requires ActionAt(s, p, a) && ActionAt(s, p, b)
    ensures a == b
  {
    if |a| <= |b| {
      SharedPrefix(s, p, a, b);
      ActionsPrefixFree(a, b);
    } else {
      SharedPrefix(s, p, b, a);
      ActionsPrefixFree(b, a);
    }
  }

  /** The leftmost place at or after `from` where one of the actions follows `onUpdate: `. */
  function FindAction(s: string, from: nat): (r: Option<(nat, string)>)
    ensures r.Some? ==> from <= r.value.0 && ActionAt(s, r.value.0, r.value.1)
    ensures r.Some? ==> forall q, a :: from <= q < r.value.0 ==> !ActionAt(s, q, a)
    ensures r.None? ==> forall q, a :: from <= q ==> !ActionAt(s, q, a)
    decreases |s| - from
  {
    if from >= |s| then None
    else
      match ActionFrom(s, from, 0)
      case Some(a) => Some((from, a))
      case None => FindAction(s, from + 1)
  }

  /** `line.match(/onUpdate: (?<op>Cascade|NoAction|Restrict|SetDefault|SetNull)/)?.groups?.op` */
  function RelationOnUpdate(line: string): Option<string> {
    match FindAction(line, 0)
    case None => None
    case Some((p, a)) => Some(a)
  }

  /**
   * There is an action exactly when `onUpdate: <action>` occurs; it is an
   * accepted action, the leftmost one, and the only one that fits there.
   */
  lemma RelationOnUpdateSpec(line: string)
    ensures RelationOnUpdate(line).None? <==> forall p, a :: !ActionAt(line, p, a)
    ensures RelationOnUpdate(line).Some? ==>
      var r := RelationOnUpdate(line).value;
      && r in Actions
      && exists p :: && ActionAt(line, p, r)
                     && (forall q, a :: 0 <= q < p ==> !ActionAt(line, q, a))
                     && (forall a :: ActionAt(line, p, a) ==> a == r)
  {
    if FindAction(line, 0).Some? {
      var (p, a) := FindAction(line, 0).value;
      forall b | ActionAt(line, p, b) ensures b == a {
        ActionsExclusive(line, p, a, b);
      }
    }
  }

  // ---------------------------------------------------------------------
  // `//@(shareable|inaccessible|external|requires)` with flags `gi`

  /** The federation directives, in the pattern's order of alternatives. */
  datatype Directive = Shareable | Inaccessible | External | Requires {
    function Name(): string {
      match this
      case Shareable => "shareable"
      case Inaccessible => "inaccessible"
      case External => "external"
      case Requires => "requires"
    }
  }

  /** `//@` and the directive's name, letters compared ignoring ASCII case, start at `p`. */
  predicate DirectiveAt(s: string, p: int, d: Directive) {
    && 0 <= p && p + 3 + |d.Name()| <= |s|
    && s[p] == '/' && s[p + 1] == '/' && s[p + 2] == '@'
    && LowerMatch(s, p + 3, d.Name())
  }

  /** `name` follows at `i`, the letters of `s` compared after ASCII lower-casing (the `i` flag). */
  predicate LowerMatch(s: string, i: nat, name: string)
    decreases |name|
  {
    |name| == 0 || (i < |s| && ToLower(s[i]) == name[0] && LowerMatch(s, i + 1, name[1..]))
  }

  /** Each letter of a lower-cased match is the name's letter at that place. */
  lemma {:induction false} LowerMatchIndex(s: string, i: nat, name: string, k: nat)
    requires LowerMatch(s, i, name) && k < |name|
    ensures i + k < |s| && ToLower(s[i + k]) == name[k]
    decreases k
  {
    if k > 0 {
      LowerMatchIndex(s, i + 1, name[1..], k - 1);
    }
  }

  /** The directives in the pattern's order of alternatives. */
  const Directives: seq<Directive> := [Shareable, Inaccessible, External, Requires]

  /** The first alternative from `Directives[k..]` that matches at `p`. */
  function DirectiveFrom(s: string, p: nat, k: nat): (r: Option<Directive>)
    requires k <= |Directives|
    ensures r.Some? ==> DirectiveAt(s, p, r.value)
    ensures r.None? ==> forall j :: k <= j < |Directives| ==> !DirectiveAt(s, p, Directives[j])
    decreases |Directives| - k
  {
    if k == |Directives| then None
    else if DirectiveAt(s, p, Directives[k]) then Some(Directives[k])
    else DirectiveFrom(s, p, k + 1)
  }

  /** The first alternative that matches at `p` (there is at most one). */
  function DirectiveFirst(s: string, p: nat): (r: Option<Directive>)
    ensures r.Some? ==> DirectiveAt(s, p, r.value)
    ensures r.None? ==> forall d :: !DirectiveAt(s, p, d)
  {
    var r := DirectiveFrom(s, p, 0);
    assert forall d :: d == Directives[DirectiveIndex(d)];
    r
  }

  /** Where a directive stands among the alternatives. */
  function DirectiveIndex(d: Directive): (k: nat)
    ensures k < |Directives| && Directives[k] == d
  {
    match d
    case Shareable => 0
    case Inaccessible => 1
    case External => 2
    case Requires => 3
  }

  /**
   * `[...line.matchAll(re)].map(m => m.filter(x => x.includes("//@"))[0].toLowerCase())`
   * from `from` on: the global search tries the alternatives at each place in
   * turn; on a match it records the lower-cased text and resumes where the
   * match ended, otherwise it moves on by one character.
   */
  function MatchAll(s: string, from: nat): seq<string>
    decreases |s| - from
  {
    if from >= |s| then []
    else
      match DirectiveFirst(s, from)
      case Some(d) => [LowerCase(s[from..from + 3 + |d.Name()|])] + MatchAll(s, from + 3 + |d.Name()|)
      case None => MatchAll(s, from + 1)
  }

  /** The text a directive's flag looks for among the matches. */
  function Tag(d: Directive): string {
    "//@" + d.Name()
  }

  /** A directive's flag: `federationAttributes.includes("//@<name>")`. */
  predicate Flag(line: string, d: Directive) {
    Tag(d) in MatchAll(line, 0)
  }

  // The proof that a flag is set exactly when its directive occurs goes
  // through the alternatives the search finds, leaving their texts aside.

  /** Which alternative each match of the search from `from` on is. */
  function Kinds(s: string, from: nat): seq<Directive>
    decreases |s| - from
  {
    if from >= |s| then []
    else
      match DirectiveFirst(s, from)
      case Some(d) => [d] + Kinds(s, from + 3 + |d.Name()|)
      case None => Kinds(s, from + 1)
  }

  /** The tags of some directives, in order. */
  function Tags(ks: seq<Directive>): seq<string>
    decreases |ks|
  {
    if |ks| == 0 then [] else [Tag(ks[0])] + Tags(ks[1..])
  }

  /** The lower-cased text of a match is its directive's tag. */
  lemma MatchText(s: string, p: nat, d: Directive)
    requires DirectiveAt(s, p, d)
    ensures LowerCase(s[p..p + 3 + |d.Name()|]) == Tag(d)
  {
    LowerText(s, p, d.Name());
  }

  /** Folding the text of a match gives `//@` and the name. */
  lemma LowerText(s: string, p: nat, name: string)
    requires p + 3 + |name| <= |s| && s[p] == '/' && s[p + 1] == '/' && s[p + 2] == '@'
    requires LowerMatch(s, p + 3, name)
    ensures LowerCase(s[p..p + 3 + |name|]) == "//@" + name
  {
    var m := s[p..p + 3 + |name|];
    forall k | 0 <= k < |m| ensures LowerCase(m)[k] == ("//@" + name)[k] {
      if k >= 3 {
        LowerMatchIndex(s, p + 3, name, k - 3);
        assert m[k] == s[p + 3 + (k - 3)];
      }
    }
  }

  /** The texts of the matches are the tags of the alternatives matched. */
  lemma {:induction false} MatchAllTags(s: string, from: nat)
    ensures MatchAll(s, from) == Tags(Kinds(s, from))
    decreases |s| - from
  {
    if from < |s| {
      match DirectiveFirst(s, from)
      case None =>
        MatchAllTags(s, from + 1);
        MatchAllNone(s, from);
        StepNone(s, from, Shareable);
      case Some(d) =>
        var end := from + 3 + |d.Name()|;
        MatchAllTags(s, end);
        MatchAllSome(s, from, d);
        StepSome(s, from, d);
        TagsCons(d, Kinds(s, end));
    }
  }

  /** Where no directive starts, the matching moves on by one character. */
  lemma MatchAllNone(s: string, from: nat)
    requires from < |s| && DirectiveFirst(s, from).None?
    ensures MatchAll(s, from) == MatchAll(s, from + 1)
  {
  }

  /** Where a directive starts, the matching records its tag and resumes after it. */
  lemma MatchAllSome(s: string, from: nat, d: Directive)
    requires DirectiveFirst(s, from) == Some(d)
    ensures MatchAll(s, from) == [Tag(d)] + MatchAll(s, from + 3 + |d.Name()|)
  {
    assert from < |s|;
    MatchText(s, from, d);
  }

  /** The tags of a list headed by `d`. */
  lemma TagsCons(d: Directive, ks: seq<Directive>)
    ensures Tags([d] + ks) == [Tag(d)] + Tags(ks)
  {
    assert ([d] + ks)[1..] == ks;
  }

  /** Directives with different names have different tags. */
  lemma TagsDiffer(d: Directive, d': Directive)
    requires d != d'
    ensures Tag(d) != Tag(d')
  {
    assert Tag(d)[3..] == d.Name();
    assert Tag(d')[3..] == d'.Name();
  }

  /** A tag is among the tags of some directives exactly when its directive is among them. */
  lemma {:induction false} TagsHas(ks: seq<Directive>, d: Directive)
    ensures Tag(d) in Tags(ks) <==> d in ks
    decreases |ks|
  {
    if |ks| > 0 {
      TagsHas(ks[1..], d);
      if ks[0] != d {
        TagsDiffer(ks[0], d);
      }
      assert ks == [ks[0]] + ks[1..];
    }
  }

  /** Each letter of a directive's name is a lower-case ASCII letter. */
  lemma NameLetters(d: Directive, k: int)
    requires 0 <= k < |d.Name()|
    ensures 'a' <= d.Name()[k] <= 'z'
  {
  }

  /** Two directives never match at one place: their names start with different letters. */
  lemma DirectiveOnce(s: string, p: int, d: Directive, d': Directive)
    requires DirectiveAt(s, p, d) && d != d'
    ensures !DirectiveAt(s, p, d')
  {
    assert ToLower(s[p + 3]) == d.Name()[0];
  }

  /** No match starts inside another: after `//@` come only letters. */
  lemma DirectiveNoOverlap(s: string, p: int, d: Directive, q: int)
    requires DirectiveAt(s, p, d) && p < q < p + 3 + |d.Name()|
    ensures !(q + 2 < |s| && s[q] == '/' && s[q + 1] == '/' && s[q + 2] == '@')
  {
    if q >= p + 3 {
      LowerMatchIndex(s, p + 3, d.Name(), q - p - 3);
      NameLetters(d, q - p - 3);
    }
  }

  /** After a match of `d0` at `from`, a different directive `d` starts nowhere inside it. */
  lemma NoneInside(s: string, from: nat, d0: Directive, d: Directive)
    requires DirectiveAt(s, from, d0) && d0 != d
    ensures forall p :: from <= p < from + 3 + |d0.Name()| ==> !DirectiveAt(s, p, d)
  {
    forall p | from <= p < from + 3 + |d0.Name()| ensures !DirectiveAt(s, p, d) {
      if p == from {
        DirectiveOnce(s, p, d0, d);
      } else {
        DirectiveNoOverlap(s, from, d0, p);
      }
    }
  }

  /** `d` matches somewhere at or after `from`. */
  predicate Occurs(s: string, from: nat, d: Directive)
    decreases |s| - from
  {
    from < |s| && (DirectiveAt(s, from, d) || Occurs(s, from + 1, d))
  }

  /** `Occurs` is the existence of a match place. */
  lemma {:induction false} OccursIff(s: string, from: nat, d: Directive)
    ensures Occurs(s, from, d) <==> exists q :: from <= q && DirectiveAt(s, q, d)
    decreases |s| - from
  {
    if from < |s| {
      OccursIff(s, from + 1, d);
      if exists q :: from <= q && DirectiveAt(s, q, d) {
        var q :| from <= q && DirectiveAt(s, q, d);
        assert q == from || (from + 1 <= q && DirectiveAt(s, q, d));
      }
    }
  }

  /** Over a stretch where `d` matches nowhere, whether it occurs later does not change. */
  lemma {:induction false} OccursSkip(s: string, from: nat, end: nat, d: Directive)
    requires from <= end && forall p :: from <= p < end ==> !DirectiveAt(s, p, d)
    ensures Occurs(s, from, d) == Occurs(s, end, d)
    decreases end - from
  {
    if from < end {
      OccursSkip(s, from + 1, end, d);
    }
  }

  /** Where no directive matches, the search and `Occurs` both move on by one character. */
  lemma StepNone(s: string, from: nat, d: Directive)
    requires from < |s| && DirectiveFirst(s, from).None?
    ensures Kinds(s, from) == Kinds(s, from + 1)
    ensures Occurs(s, from, d) == Occurs(s, from + 1, d)
  {
    assert !DirectiveAt(s, from, d);
  }

  /** Where `d0` matches, the search records it and resumes after it. */
  lemma StepSome(s: string, from: nat, d0: Directive)
    requires DirectiveFirst(s, from) == Some(d0)
    ensures Kinds(s, from) == [d0] + Kinds(s, from + 3 + |d0.Name()|)
    ensures Occurs(s, from, d0)
  {
    assert DirectiveAt(s, from, d0);
    assert from < |s|;
    assert Occurs(s, from, d0);
    assert Kinds(s, from) == [d0] + Kinds(s, from + 3 + |d0.Name()|);
  }

  /** From `from` on, the search finds a directive exactly when the directive occurs. */
  lemma {:induction false} KindsFinds(s: string, from: nat, d: Directive)
    ensures d in Kinds(s, from) <==> Occurs(s, from, d)
    decreases |s| - from
  {
    if from < |s| {
      match DirectiveFirst(s, from)
      case None =>
        KindsFinds(s, from + 1, d);
        StepNone(s, from, d);
      case Some(d0) =>
        var end := from + 3 + |d0.Name()|;
        KindsFinds(s, end, d);
        StepSome(s, from, d0);
        if d0 != d {
          NoneInside(s, from, d0, d);
          OccursSkip(s, from, end, d);
        }
        InStep(d0, d, Kinds(s, from), Kinds(s, end), Occurs(s, from, d), Occurs(s, end, d));
    }
  }

  /** One step of the search: a list headed by `d0` holds `d` when `d` is `d0` or the rest holds it. */
  lemma InStep(d0: Directive, d: Directive, ks: seq<Directive>, rest: seq<Directive>, found: bool, later: bool)
    requires ks == [d0] + rest && (d in rest <==> later)
    requires d == d0 ==> found
    requires d != d0 ==> found == later
    ensures d in ks <==> found
  {
    assert ks[0] == d0 && ks[1..] == rest;
  }

  /** Each federation flag is set exactly when `//@<name>` occurs on the line, ignoring case. */
  lemma FlagIff(line: string, d: Directive)
    ensures Flag(line, d) <==> exists p :: DirectiveAt(line, p, d)
  {
    MatchAllTags(line, 0);
    TagsHas(Kinds(line, 0), d);
    KindsFinds(line, 0, d);
    OccursIff(line, 0, d);
  }
}
