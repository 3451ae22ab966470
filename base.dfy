/**
 * JavaScript string behaviour the merger relies on: optional values,
 * truthiness of strings, `trim`, `split` and `join` on a string separator,
 * the whitespace and line-terminator classes of regular expressions, and
 * ASCII case folding.
 */
module Base {

  /** `undefined` (or `null`) versus a present value. */
  datatype Option<+T> = None | Some(value: T) {
    /** `x ?? default` */
    function GetOr(default: T): T {
      match this
      case Some(v) => v
      case None => default
    }
  }

  /** A string-valued property is truthy when it is present and not empty. */
  predicate Truthy(s: Option<string>) {
    s.Some? && s.value != ""
  }

  /** The WhiteSpace and LineTerminator code points: what `trim` removes and `\s` matches. */
  predicate IsWhiteSpace(c: char) {
    || c == '\t' || c == '\n' || c == '\U{000B}' || c == '\U{000C}' || c == '\r' || c == ' '
    || c == '\U{00A0}' || c == '\U{1680}' || ('\U{2000}' <= c <= '\U{200A}')
    || c == '\U{2028}' || c == '\U{2029}' || c == '\U{202F}' || c == '\U{205F}'
    || c == '\U{3000}' || c == '\U{FEFF}'
  }

  /** The characters `.` does not match in a regular expression without the `s` flag. */
  predicate IsLineTerminator(c: char) {
    c == '\n' || c == '\r' || c == '\U{2028}' || c == '\U{2029}'
  }

  /** `pat` occurs in `s` starting at index `i`. */
  predicate OccursAt(s: string, pat: string, i: int) {
    0 <= i && i + |pat| <= |s| && s[i..i + |pat|] == pat
  }

  /** No line terminator in `s[i..j]`. */
  predicate NoTerminator(s: string, i: int, j: int)
    requires 0 <= i <= j <= |s|
  {
    forall k :: i <= k < j ==> !IsLineTerminator(s[k])
  }

  /** `s.indexOf(pat, from)`, with `None` for -1. */
  function IndexOf(s: string, pat: string, from: nat): (r: Option<nat>)
    requires |pat| > 0
    ensures r.Some? ==> from <= r.value && OccursAt(s, pat, r.value)
    ensures r.Some? ==> forall j :: from <= j < r.value ==> !OccursAt(s, pat, j)
    ensures r.None? ==> forall j :: from <= j ==> !OccursAt(s, pat, j)
    decreases |s| - from
  {
    if from + |pat| > |s| then None
    else if s[from..from + |pat|] == pat then Some(from)
    else IndexOf(s, pat, from + 1)
  }

  /** `s.split(sep)` for a non-empty string separator. */
  function Split(s: string, sep: string): (parts: seq<string>)
    requires |sep| > 0
    ensures |parts| > 0
    decreases |s|
  {
    match IndexOf(s, sep, 0)
    case None => [s]
    case Some(i) => [s[..i]] + Split(s[i + |sep|..], sep)
  }

  /** The first piece of a split is the whole string, or the part before the first separator. */
  lemma SplitHead(s: string, sep: string)
    requires |sep| > 0
    ensures var h := Split(s, sep)[0];
      h == s || (|h| + |sep| <= |s| && s[..|h| + |sep|] == h + sep)
  {
    match IndexOf(s, sep, 0)
    case None =>
    case Some(i) =>
      assert s[..i + |sep|] == s[..i] + s[i..i + |sep|];
  }

  /** `parts.join(sep)` */
  function Join(parts: seq<string>, sep: string): string {
    if |parts| == 0 then ""
    else if |parts| == 1 then parts[0]
    else parts[0] + sep + Join(parts[1..], sep)
  }

  /** Joining the pieces of a split with the same separator gives back the string. */
  lemma {:induction false} JoinSplit(s: string, sep: string)
    requires |sep| > 0
    ensures Join(Split(s, sep), sep) == s
    decreases |s|
  {
    match IndexOf(s, sep, 0)
    case None =>
    case Some(i) =>
      var rest := s[i + |sep|..];
      JoinSplit(rest, sep);
      var tail := Split(rest, sep);
      assert Split(s, sep) == [s[..i]] + tail;
      assert s == s[..i] + sep + rest by {
        assert s[i..i + |sep|] == sep;
      }
  }

  /** No piece of a split contains the separator, so `Split` inverts `Join` on such pieces. */
  lemma {:induction false} SplitPiecesAreFree(s: string, sep: string)
    requires |sep| > 0
    ensures forall k, j :: 0 <= k < |Split(s, sep)| ==> !OccursAt(Split(s, sep)[k], sep, j)
    decreases |s|
  {
    match IndexOf(s, sep, 0)
    case None =>
      forall j ensures !OccursAt(s, sep, j) {
        if 0 <= j { }
      }
    case Some(i) =>
      var rest := s[i + |sep|..];
      SplitPiecesAreFree(rest, sep);
      HeadFree(s, sep, i);
      var parts, tail := Split(s, sep), Split(rest, sep);
      assert parts == [s[..i]] + tail;
      forall k, j | 0 <= k < |parts| ensures !OccursAt(parts[k], sep, j) {
        if k == 0 {
          assert parts[0] == s[..i];
        } else {
          assert parts[k] == tail[k - 1];
        }
      }
  }

  /** The text before the first occurrence of the separator does not contain it. */
  lemma HeadFree(s: string, sep: string, i: nat)
    requires |sep| > 0 && IndexOf(s, sep, 0) == Some(i)
    ensures forall j :: !OccursAt(s[..i], sep, j)
  {
    forall j | OccursAt(s[..i], sep, j) ensures false {
      assert s[..i][j..j + |sep|] == s[j..j + |sep|];
      assert OccursAt(s, sep, j);
    }
  }

  /** `s.trimStart()` */
  function TrimStart(s: string): (r: string)
    ensures |r| <= |s| && r == s[|s| - |r|..]
    ensures forall k :: 0 <= k < |s| - |r| ==> IsWhiteSpace(s[k])
    ensures r != [] ==> !IsWhiteSpace(r[0])
  {
    if |s| > 0 && IsWhiteSpace(s[0]) then TrimStart(s[1..]) else s
  }

  /** `s.trimEnd()` */
  function TrimEnd(s: string): (r: string)
    ensures |r| <= |s| && r == s[..|r|]
    ensures forall k :: |r| <= k < |s| ==> IsWhiteSpace(s[k])
    ensures r != [] ==> !IsWhiteSpace(r[|r| - 1])
  {
    if |s| > 0 && IsWhiteSpace(s[|s| - 1]) then TrimEnd(s[..|s| - 1]) else s
  }

  /** `s.trim()` */
  function Trim(s: string): string {
    TrimEnd(TrimStart(s))
  }

  /** `s.trim().length` is zero exactly when every character of `s` is white space. */
  lemma TrimEmpty(s: string)
    ensures Trim(s) == "" <==> forall k :: 0 <= k < |s| ==> IsWhiteSpace(s[k])
  {
    var t := TrimStart(s);
    if Trim(s) == "" {
      assert |t| == 0;
    } else {
      var r := Trim(s);
      assert r[0] == t[0] == s[|s| - |t|];
    }
  }

  /** ASCII lower-casing, which is all that `toLowerCase` and the `i` flag do to ASCII patterns. */
  function ToLower(c: char): (r: char)
    ensures 'A' <= c <= 'Z' ==> 'a' <= r <= 'z'
    ensures !('A' <= c <= 'Z') ==> r == c
  {
    if 'A' <= c <= 'Z' then (c as int + 32) as char else c
  }

  /** `s.toLowerCase()` on the ASCII range. */
  function LowerCase(s: string): (r: string)
    ensures |r| == |s| && forall k :: 0 <= k < |s| ==> r[k] == ToLower(s[k])
    decreases |s|
  {
    if |s| == 0 then "" else [ToLower(s[0])] + LowerCase(s[1..])
  }

  // ---------------------------------------------------------------------
  // Building a dictionary from entries

  /** `e` is an entry for the key `k`. */
  predicate Sets<V>(e: Option<(string, V)>, k: string) {
    e.Some? && e.value.0 == k
  }

  /**
   * A dictionary built from entries in order, each present entry setting its
   * key and a later one overwriting an earlier one of the same key: both
   * `Object.fromEntries` and a `reduce` spreading `{...acc, [key]: value}`.
   */
  function LastWins<V>(entries: seq<Option<(string, V)>>): map<string, V>
    decreases |entries|
  {
    if |entries| == 0 then map[]
    else
      var acc, last := LastWins(entries[..|entries| - 1]), entries[|entries| - 1];
      if last.Some? then acc[last.value.0 := last.value.1] else acc
  }

  /** A key is present exactly when some entry sets it, with the value of the last entry that does. */
  lemma {:induction false} LastWinsSpec<V>(entries: seq<Option<(string, V)>>, k: string)
    ensures k in LastWins(entries) <==> exists i :: 0 <= i < |entries| && Sets(entries[i], k)
    ensures k in LastWins(entries) ==>
      exists i :: && 0 <= i < |entries| && Sets(entries[i], k)
                  && (forall j :: i < j < |entries| ==> !Sets(entries[j], k))
                  && LastWins(entries)[k] == entries[i].value.1
    decreases |entries|
  {
    if |entries| > 0 {
      var prefix, last := entries[..|entries| - 1], entries[|entries| - 1];
      LastWinsSpec(prefix, k);
      assert forall i :: 0 <= i < |prefix| ==> prefix[i] == entries[i];
      if !Sets(last, k) {
        if k in LastWins(prefix) {
          var i :| && 0 <= i < |prefix| && Sets(prefix[i], k)
                   && (forall j :: i < j < |prefix| ==> !Sets(prefix[j], k))
                   && LastWins(prefix)[k] == prefix[i].value.1;
          assert forall j :: i < j < |entries| ==> !Sets(entries[j], k);
        }
      } else {
        assert Sets(entries[|entries| - 1], k);
      }
    }
  }

  /** One entry, or none, per element, in order: `xs.map(f)`. */
  function Mapped<T, V>(xs: seq<T>, f: T -> Option<(string, V)>): (r: seq<Option<(string, V)>>)
    ensures |r| == |xs| && forall i :: 0 <= i < |xs| ==> r[i] == f(xs[i])
  {
    seq(|xs|, i requires 0 <= i < |xs| => f(xs[i]))
  }

  /** `LastWinsSpec` stated about the elements the entries come from. */
  lemma LastWinsMapped<T, V>(xs: seq<T>, f: T -> Option<(string, V)>, k: string)
    ensures k in LastWins(Mapped(xs, f)) <==> exists i :: 0 <= i < |xs| && Sets(f(xs[i]), k)
    ensures k in LastWins(Mapped(xs, f)) ==>
      exists i :: && 0 <= i < |xs| && Sets(f(xs[i]), k)
                  && (forall j :: i < j < |xs| ==> !Sets(f(xs[j]), k))
                  && LastWins(Mapped(xs, f))[k] == f(xs[i]).value.1
  {
    LastWinsSpec(Mapped(xs, f), k);
  }

  /** `LastWinsMapped` with the value each entry carries computed by `g` from its element. */
  lemma LastWinsMappedValue<T, V>(xs: seq<T>, f: T -> Option<(string, V)>, g: T -> V, k: string)
    requires forall x :: f(x).Some? ==> f(x).value.1 == g(x)
    requires k in LastWins(Mapped(xs, f))
    ensures exists i :: && 0 <= i < |xs| && Sets(f(xs[i]), k)
                        && (forall j :: i < j < |xs| ==> !Sets(f(xs[j]), k))
                        && LastWins(Mapped(xs, f))[k] == g(xs[i])
  {
    LastWinsMapped(xs, f, k);
  }

  // ---------------------------------------------------------------------
  // Filtering

  /** `xs.filter(p)`: the elements that pass `p`, in order. */
  function Filter<T>(xs: seq<T>, p: T -> bool): seq<T>
    decreases |xs|
  {
    if |xs| == 0 then []
    else Filter(xs[..|xs| - 1], p) + if p(xs[|xs| - 1]) then [xs[|xs| - 1]] else []
  }

  /** The filter is no longer than its input and keeps exactly the elements that pass. */
  lemma {:induction false} FilterSpec<T>(xs: seq<T>, p: T -> bool)
    ensures |Filter(xs, p)| <= |xs|
    ensures forall x :: x in Filter(xs, p) <==> x in xs && p(x)
    decreases |xs|
  {
    if |xs| > 0 {
      var prefix, last := xs[..|xs| - 1], xs[|xs| - 1];
      FilterSpec(prefix, p);
      assert xs == prefix + [last];
    }
  }

  /** An element spliced between two runs is an element of the whole. */
  lemma InSplice<T>(s: seq<T>, a: seq<T>, x: T, b: seq<T>)
    requires s == a + [x] + b
    ensures x in s
  {
    assert s[|a|] == x;
  }
}
