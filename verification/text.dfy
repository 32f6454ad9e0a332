/** String helpers shared by the categoriser, the extractor and the
    formatters: ASCII character classes and case mapping, substring search,
    and Python's `sep.join(parts)` / `s.split(c)` with their round trips. */
module Text {
  import opened Wrappers

  // ASCII character classes. Python's `\w`, `\d` and `\s` are Unicode-aware;
  // this model restricts them to their ASCII members.

  predicate IsUpper(c: char) { 'A' <= c <= 'Z' }

  predicate IsLower(c: char) { 'a' <= c <= 'z' }

  predicate IsDigit(c: char) { '0' <= c <= '9' }

  /** `\w`: letters, digits and the underscore. */
  predicate IsWordChar(c: char) { IsUpper(c) || IsLower(c) || IsDigit(c) || c == '_' }

  /** `\s`: space, \t \n \v \f \r, and the separators 0x1C-0x1F, all of which
      Python counts as whitespace. */
  predicate IsSpace(c: char) { c == ' ' || 9 <= c as int <= 13 || 28 <= c as int <= 31 }

  function LowerChar(c: char): char {
    if IsUpper(c) then (c as int + 32) as char else c
  }

  function UpperChar(c: char): char {
    if IsLower(c) then (c as int - 32) as char else c
  }

  /** `str.lower()` over ASCII letters. */
  function Lower(s: string): string {
    seq(|s|, i requires 0 <= i < |s| => LowerChar(s[i]))
  }

  /** `str.upper()` over ASCII letters. */
  function Upper(s: string): string {
    seq(|s|, i requires 0 <= i < |s| => UpperChar(s[i]))
  }

  /** Lower-casing twice is lower-casing once, and lower-casing an upper-cased
      string loses nothing: matching on `Lower(s)` ignores case. */
  lemma LowerAbsorbsCase(s: string)
    ensures Lower(Lower(s)) == Lower(s)
    ensures Lower(Upper(s)) == Lower(s)
  {
    assert forall i :: 0 <= i < |s| ==> Lower(Lower(s))[i] == Lower(s)[i];
    assert forall i :: 0 <= i < |s| ==> Lower(Upper(s))[i] == Lower(s)[i];
  }

  /** Case mapping never creates or removes a given non-letter character. */
  lemma UpperKeepsNonLetters(s: string, c: char)
    requires !IsLower(c) && !IsUpper(c)
    ensures c in Upper(s) <==> c in s
  {
    if c in s {
      var i :| 0 <= i < |s| && s[i] == c;
      assert Upper(s)[i] == c;
    }
    if c in Upper(s) {
      var i :| 0 <= i < |Upper(s)| && Upper(s)[i] == c;
      assert s[i] == c;
    }
  }

  // ---------------------------------------------------------------------------
  // Substring search: Python's `needle in haystack`

  /** `w` occurs in `s` starting at index `i`. */
  ghost predicate OccursAt(s: string, w: string, i: int) {
    0 <= i && i + |w| <= |s| && s[i..i + |w|] == w
  }

  /** Character-by-character comparison of `w[k..]` with `s[i + k..]`. */
  function MatchesFrom(s: string, w: string, i: nat, k: nat): bool
    requires i + |w| <= |s| && k <= |w|
    decreases |w| - k
  {
    k == |w| || (s[i + k] == w[k] && MatchesFrom(s, w, i, k + 1))
  }

  /** Left-to-right scan for `w` in `s`, starting at index `from`. */
  function ContainsFrom(s: string, w: string, from: nat): bool
    decreases |s| - from
  {
    if from + |w| > |s| then false
    else MatchesFrom(s, w, from, 0) || ContainsFrom(s, w, from + 1)
  }

  /** Python's `w in s` for strings. */
  function Contains(s: string, w: string): bool {
    ContainsFrom(s, w, 0)
  }

  lemma {:induction false} MatchesFromSpec(s: string, w: string, i: nat, k: nat)
    requires i + |w| <= |s| && k <= |w|
    ensures MatchesFrom(s, w, i, k) <==> s[i + k..i + |w|] == w[k..]
    decreases |w| - k
  {
    if k < |w| {
      MatchesFromSpec(s, w, i, k + 1);
      assert s[i + k..i + |w|] == [s[i + k]] + s[i + k + 1..i + |w|];
      assert w[k..] == [w[k]] + w[k + 1..];
    }
  }

  /** The scan finds `w` exactly when `w` occurs at or after `from`. */
  lemma {:induction false} ContainsFromSpec(s: string, w: string, from: nat)
    ensures ContainsFrom(s, w, from) <==> exists i :: from <= i && OccursAt(s, w, i)
    decreases |s| - from
  {
    if from + |w| <= |s| {
      MatchesFromSpec(s, w, from, 0);
      assert w[0..] == w;
      assert MatchesFrom(s, w, from, 0) <==> OccursAt(s, w, from);
      ContainsFromSpec(s, w, from + 1);
      if exists i :: from <= i && OccursAt(s, w, i) {
        var i :| from <= i && OccursAt(s, w, i);
        assert i == from || from + 1 <= i;
      }
    }
  }

  /** `Contains` is substring containment. */
  lemma ContainsSpec(s: string, w: string)
    ensures Contains(s, w) <==> exists i :: OccursAt(s, w, i)
  {
    ContainsFromSpec(s, w, 0);
  }

  // ---------------------------------------------------------------------------
  // Python's `sep.join(parts)` and `s.split(c)`

  function Join(sep: string, parts: seq<string>): string
    decreases |parts|
  {
    if |parts| == 0 then ""
    else if |parts| == 1 then parts[0]
    else parts[0] + sep + Join(sep, parts[1..])
  }

  /** The first index of `c` in `s`, if any. */
  function IndexOfChar(s: string, c: char): (r: Option<nat>)
    ensures r.Some? ==> r.value < |s| && s[r.value] == c && c !in s[..r.value]
    ensures r.None? ==> c !in s
  {
    if |s| == 0 then None
    else if s[0] == c then Some(0)
    else
      match IndexOfChar(s[1..], c)
      case None => None
      case Some(i) =>
        assert s[..i + 1] == [s[0]] + s[1..][..i];
        Some(i + 1)
  }

  /** Python's `s.split(c)` for a one-character separator: the pieces between
      the occurrences of `c`, none of which contains `c`. */
  function Split(s: string, c: char): (r: seq<string>)
    ensures |r| >= 1
    ensures forall i :: 0 <= i < |r| ==> c !in r[i]
    decreases |s|
  {
    match IndexOfChar(s, c)
    case None => [s]
    case Some(i) => [s[..i]] + Split(s[i + 1..], c)
  }

  /** Joining the pieces of a split restores the string. */
  lemma {:induction false} JoinSplit(s: string, c: char)
    ensures Join([c], Split(s, c)) == s
    decreases |s|
  {
    match IndexOfChar(s, c)
    case None =>
    case Some(i) =>
      var rest := Split(s[i + 1..], c);
      JoinSplit(s[i + 1..], c);
      assert Split(s, c) == [s[..i]] + rest;
      assert s == s[..i] + [c] + s[i + 1..];
  }

  /** Splitting a join restores the parts, provided no part contains the
      separator. */
  lemma {:induction false} SplitJoin(parts: seq<string>, c: char)
    requires |parts| >= 1
    requires forall i :: 0 <= i < |parts| ==> c !in parts[i]
    ensures Split(Join([c], parts), c) == parts
    decreases |parts|
  {
    if |parts| > 1 {
      var a := parts[0];
      var rest := Join([c], parts[1..]);
      var s := a + [c] + rest;
      assert Join([c], parts) == s;
      IndexOfSeparator(a, c, rest);
      assert s[..|a|] == a;
      assert s[|a| + 1..] == rest;
      SplitJoin(parts[1..], c);
      assert parts == [a] + parts[1..];
    }
  }

  /** In `a + [c] + b` with `c` absent from `a`, the first `c` is at `|a|`. */
  lemma IndexOfSeparator(a: string, c: char, b: string)
    requires c !in a
    ensures IndexOfChar(a + [c] + b, c) == Some(|a|)
  {
    var s := a + [c] + b;
    assert s[|a|] == c;
  }

  /** The first part of a join is a prefix of it. */
  lemma JoinStartsWithFirst(sep: string, parts: seq<string>)
    requires |parts| >= 1
    ensures parts[0] <= Join(sep, parts)
  {
  }

  /** Every part of a join occurs in it, at the offset the preceding parts
      and separators take up. */
  lemma {:induction false} JoinPartAt(sep: string, parts: seq<string>, k: nat) returns (i: nat)
    requires k < |parts|
    ensures OccursAt(Join(sep, parts), parts[k], i)
    decreases |parts|
  {
    if k == 0 {
      i := 0;
      JoinStartsWithFirst(sep, parts);
    } else {
      var j := JoinPartAt(sep, parts[1..], k - 1);
      var head := parts[0] + sep;
      i := |head| + j;
      OccursAfter(head, Join(sep, parts[1..]), parts[k], j);
    }
  }

  /** An occurrence in `b` is an occurrence in `a + b`, shifted by `|a|`. */
  lemma OccursAfter(a: string, b: string, w: string, j: nat)
    requires OccursAt(b, w, j)
    ensures OccursAt(a + b, w, |a| + j)
  {
    assert (a + b)[|a| + j..|a| + j + |w|] == b[j..j + |w|];
  }

  /** An occurrence inside an occurrence is an occurrence. */
  lemma OccursWithin(s: string, m: string, w: string, i: nat, j: nat)
    requires OccursAt(s, m, i) && OccursAt(m, w, j)
    ensures OccursAt(s, w, i + j)
  {
    forall k | 0 <= k < |w|
      ensures s[i + j + k] == w[k]
    {
      assert s[i..i + |m|][j + k] == m[j + k];
      assert m[j..j + |w|][k] == w[k];
    }
  }

  /** With a non-empty separator, a join is empty exactly when it joins
      nothing, or a single empty part. */
  lemma JoinIsEmpty(sep: string, parts: seq<string>)
    requires |sep| > 0
    ensures Join(sep, parts) == "" <==> |parts| == 0 || (|parts| == 1 && parts[0] == "")
  {
    if |parts| > 1 {
      assert |Join(sep, parts)| >= |sep|;
    }
  }
}
