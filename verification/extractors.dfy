/** The regular-expression entity extractor of aimemo/extractors.py. Three
    patterns are run over the text in table order (email, date, name); each is
    scanned left to right in the manner of `re.finditer`, and every match
    becomes an entity whose name and value are the matched text.

    The patterns are written as predicates over positions of the text:
    `Matches(pat, t, p, e)` says that `t[p..e]` is a match of `pat` starting at
    `p`. The executable matchers return the longest match at a position, which
    for these three patterns is the one the backtracking engine settles on: in
    each pattern a greedy run is followed by a character its class does not
    contain, so no run can give back characters to let a later part match,
    except the email domain, whose last dot the engine finds by backtracking
    from the right and which `LastDot` finds the same way. */
module Extractors {
  import opened Wrappers
  import opened Text

  // ---------------------------------------------------------------------------
  // Entities

  /** The `match.span()` of an entity: the matched text is `t[start..end]`. */
  datatype Span = Span(start: nat, end: nat)

  /** `Entity`: the extractor always fills `name` and `value` with the matched
      text, `confidence` with 0.8 and the metadata with the span alone. */
  datatype Entity = Entity(name: string, kind: string, value: string, confidence: real, span: Span)

  /** The patterns of `RegexEntityExtractor`, in the order of its table. */
  datatype Pattern = Email | Date | Name

  const PatternOrder: seq<Pattern> := [Email, Date, Name]

  /** The key of each pattern in the table, used as the entity's type. */
  function TypeName(pat: Pattern): string {
    match pat
    case Email => "email"
    case Date => "date"
    case Name => "name"
  }

  /** The position of each pattern in the table. */
  function Rank(pat: Pattern): nat {
    match pat
    case Email => 0
    case Date => 1
    case Name => 2
  }

  /** The confidence the extractor gives every entity. */
  const Confidence: real := 0.8

  // ---------------------------------------------------------------------------
  // Character classes and maximal runs

  /** `[\w\.-]`: a character of an email's local part or domain. */
  predicate IsEmailChar(c: char) { IsWordChar(c) || c == '.' || c == '-' }

  /** The classes repeated with `+` in the three patterns. */
  datatype CharClass = EmailChars | WordChars | LowerChars

  predicate InClass(c: char, k: CharClass) {
    match k
    case EmailChars => IsEmailChar(c)
    case WordChars => IsWordChar(c)
    case LowerChars => IsLower(c)
  }

  /** The end of the longest run of class `k` starting at `i`: what a greedy
      `[...]+` (or `*`) consumes there. */
  function RunEnd(t: string, i: nat, k: CharClass): (j: nat)
    requires i <= |t|
    ensures i <= j <= |t|
    ensures forall m :: i <= m < j ==> InClass(t[m], k)
    ensures j == |t| || !InClass(t[j], k)
    decreases |t| - i
  {
    if i == |t| || !InClass(t[i], k) then i else RunEnd(t, i + 1, k)
  }

  /** A run of class `k` that covers `t[i..j]` ends at or after `j`, and one
      stops at the first character outside `k`. */
  lemma RunEndBounds(t: string, i: nat, j: nat, k: CharClass)
    requires i <= j <= |t|
    ensures (forall m :: i <= m < j ==> InClass(t[m], k)) ==> j <= RunEnd(t, i, k)
    ensures j < |t| && !InClass(t[j], k) ==> RunEnd(t, i, k) <= j
  {
    var r := RunEnd(t, i, k);
    if r < j {
      assert !InClass(t[r], k);
    }
  }

  // ---------------------------------------------------------------------------
  // The three patterns as predicates over positions

  /** `\d{4}-\d{2}-\d{2}` at `p`: ten characters, with no calendar check and no
      word boundary. */
  predicate DateAt(t: string, p: nat) {
    p + 10 <= |t|
      && IsDigit(t[p]) && IsDigit(t[p + 1]) && IsDigit(t[p + 2]) && IsDigit(t[p + 3])
      && t[p + 4] == '-' && IsDigit(t[p + 5]) && IsDigit(t[p + 6])
      && t[p + 7] == '-' && IsDigit(t[p + 8]) && IsDigit(t[p + 9])
  }

  ghost predicate DateSpan(t: string, p: nat, e: nat) {
    DateAt(t, p) && e == p + 10
  }

  /** Every character of `t[i..j]` is in class `k`. */
  ghost predicate AllIn(t: string, i: nat, j: nat, k: CharClass)
    requires i <= j <= |t|
  {
    forall m :: i <= m < j ==> InClass(t[m], k)
  }

  /** `[\w\.-]+@[\w\.-]+\.\w+` matches `t[p..e]`, with the `@` at `a` and the
      last dot at `d`. */
  ghost predicate EmailParts(t: string, p: nat, a: nat, d: nat, e: nat) {
    p < a && a + 1 < d && d + 1 < e <= |t|
      && AllIn(t, p, a, EmailChars) && t[a] == '@'
      && AllIn(t, a + 1, d, EmailChars) && t[d] == '.'
      && AllIn(t, d + 1, e, WordChars)
  }

  ghost predicate EmailSpan(t: string, p: nat, e: nat) {
    exists a: nat, d: nat :: EmailParts(t, p, a, d, e)
  }

  /** `[A-Z][a-z]+ [A-Z][a-z]+` matches `t[p..e]`, with the space at `q`. */
  ghost predicate NameParts(t: string, p: nat, q: nat, e: nat) {
    p + 1 < q && q + 2 < e <= |t|
      && IsUpper(t[p]) && AllIn(t, p + 1, q, LowerChars)
      && t[q] == ' ' && IsUpper(t[q + 1]) && AllIn(t, q + 2, e, LowerChars)
  }

  ghost predicate NameSpan(t: string, p: nat, e: nat) {
    exists q: nat :: NameParts(t, p, q, e)
  }

  /** The lookbehinds `(?<!^)(?<!\.\s)`: a name neither starts the text nor
      follows a dot and a whitespace character. */
  predicate NameGuard(t: string, p: nat)
    requires p <= |t|
  {
    p > 0 && !(p >= 2 && t[p - 2] == '.' && IsSpace(t[p - 1]))
  }

  /** `t[p..e]` is a match of `pat` that the scan may report at `p`. */
  ghost predicate Matches(pat: Pattern, t: string, p: nat, e: nat) {
    match pat
    case Email => EmailSpan(t, p, e)
    case Date => DateSpan(t, p, e)
    case Name => p <= |t| && NameGuard(t, p) && NameSpan(t, p, e)
  }

  /** `t[p..e]` is the longest match of `pat` at `p`. */
  ghost predicate LongestAt(pat: Pattern, t: string, p: nat, e: nat) {
    Matches(pat, t, p, e) && forall e': nat :: Matches(pat, t, p, e') ==> e' <= e
  }

  lemma MatchBounds(pat: Pattern, t: string, p: nat, e: nat)
    requires Matches(pat, t, p, e)
    ensures p < e <= |t|
  {
  }

  // ---------------------------------------------------------------------------
  // Matchers

  /** `t[d]` is a dot followed by a word character: where `\.\w+` can start. */
  predicate DotAt(t: string, d: nat) {
    d + 1 < |t| && t[d] == '.' && IsWordChar(t[d + 1])
  }

  /** The largest `d` in `[lo, hi)` with `DotAt(t, d)`: the backtracking of the
      greedy domain run to the last dot that a word character follows. */
  function LastDot(t: string, lo: nat, hi: nat): (r: Option<nat>)
    ensures r.Some? ==> lo <= r.value < hi && DotAt(t, r.value)
    ensures r.Some? ==> forall d :: r.value < d < hi ==> !DotAt(t, d)
    ensures r.None? ==> forall d :: lo <= d < hi ==> !DotAt(t, d)
    decreases hi
  {
    if hi <= lo then None
    else if DotAt(t, hi - 1) then Some(hi - 1)
    else LastDot(t, lo, hi - 1)
  }

  /** The end of the longest email match at `p`, if any: the `@` is where
      the run of local-part characters stops, and the match ends at the last
      dot of the domain run followed by its word characters. */
  function EmailEnd(t: string, p: nat): (r: Option<nat>)
    requires p <= |t|
    ensures r.Some? ==> p < r.value <= |t|
  {
    var a := RunEnd(t, p, EmailChars);
    if a == p || a == |t| || t[a] != '@' then None
    else
      var f := RunEnd(t, a + 1, EmailChars);
      match LastDot(t, a + 2, f)
      case None => None
      case Some(d) => Some(RunEnd(t, d + 1, WordChars))
  }

  /** `EmailEnd` finds a match exactly when there is one, and the longest. */
  lemma EmailEndSpec(t: string, p: nat)
    requires p <= |t|
    ensures EmailEnd(t, p).Some? ==> EmailSpan(t, p, EmailEnd(t, p).value)
    ensures forall e: nat :: EmailSpan(t, p, e) ==> EmailEnd(t, p).Some? && e <= EmailEnd(t, p).value
  {
    var a := RunEnd(t, p, EmailChars);
    if a == p || a == |t| || t[a] != '@' {
      EmailNoneBeforeAt(t, p);
    } else {
      var f := RunEnd(t, a + 1, EmailChars);
      match LastDot(t, a + 2, f)
      case None =>
        EmailNoneWithoutDot(t, p, a, f);
      case Some(d) =>
        EmailLongest(t, p, a, f, d, RunEnd(t, d + 1, WordChars));
    }
  }

  /** Every email match at `p` has its `@` where the run from `p` stops. */
  lemma EmailAtSign(t: string, p: nat, a: nat, d: nat, e: nat)
    requires p <= |t| && EmailParts(t, p, a, d, e)
    ensures a == RunEnd(t, p, EmailChars)
  {
    RunEndBounds(t, p, a, EmailChars);
  }

  lemma EmailNoneBeforeAt(t: string, p: nat)
    requires p <= |t|
    requires var a := RunEnd(t, p, EmailChars); a == p || a == |t| || t[a] != '@'
    ensures forall e: nat :: !EmailSpan(t, p, e)
  {
    forall e: nat | EmailSpan(t, p, e)
      ensures false
    {
      var a: nat, d: nat :| EmailParts(t, p, a, d, e);
      EmailAtSign(t, p, a, d, e);
    }
  }

  /** The dot of any email match lies before the end `f` of the domain run. */
  lemma EmailDotInRun(t: string, p: nat, a: nat, f: nat, d: nat, e: nat)
    requires EmailParts(t, p, a, d, e) && f == RunEnd(t, a + 1, EmailChars)
    ensures a + 2 <= d < f && DotAt(t, d)
  {
    assert AllIn(t, a + 1, d + 2, EmailChars) by {
      forall m | a + 1 <= m < d + 2
        ensures InClass(t[m], EmailChars)
      {
        if m == d + 1 {
          assert d + 1 < e && InClass(t[d + 1], WordChars);
        }
      }
    }
    RunEndBounds(t, a + 1, d + 2, EmailChars);
  }

  lemma EmailNoneWithoutDot(t: string, p: nat, a: nat, f: nat)
    requires p < a < |t| && a == RunEnd(t, p, EmailChars) && t[a] == '@'
    requires f == RunEnd(t, a + 1, EmailChars)
    requires forall d :: a + 2 <= d < f ==> !DotAt(t, d)
    ensures forall e: nat :: !EmailSpan(t, p, e)
  {
    forall e: nat | EmailSpan(t, p, e)
      ensures false
    {
      var a': nat, d: nat :| EmailParts(t, p, a', d, e);
      EmailAtSign(t, p, a', d, e);
      EmailDotInRun(t, p, a, f, d, e);
    }
  }

  lemma EmailLongest(t: string, p: nat, a: nat, f: nat, d: nat, e: nat)
    requires p < a < |t| && a == RunEnd(t, p, EmailChars) && t[a] == '@'
    requires f == RunEnd(t, a + 1, EmailChars)
    requires a + 2 <= d < f && DotAt(t, d)
    requires forall d' :: d < d' < f ==> !DotAt(t, d')
    requires e == RunEnd(t, d + 1, WordChars)
    ensures EmailParts(t, p, a, d, e)
    ensures forall e': nat :: EmailSpan(t, p, e') ==> e' <= e
  {
    assert AllIn(t, p, a, EmailChars);
    assert AllIn(t, a + 1, d, EmailChars);
    forall e': nat | EmailSpan(t, p, e')
      ensures e' <= e
    {
      var a': nat, d': nat :| EmailParts(t, p, a', d', e');
      EmailAtSign(t, p, a', d', e');
      EmailDotInRun(t, p, a, f, d', e');
      RunEndBounds(t, d' + 1, e', WordChars);
      if d' < d {
        RunEndBounds(t, d' + 1, d, WordChars);
      }
    }
  }

  /** The end of the longest name match at `p`, if any (lookbehinds aside):
      a capital, the lower-case run after it, a space, a capital and the
      lower-case run after that. */
  function NameEnd(t: string, p: nat): (r: Option<nat>)
    requires p <= |t|
    ensures r.Some? ==> p < r.value <= |t|
  {
    if p == |t| || !IsUpper(t[p]) then None
    else
      var q := RunEnd(t, p + 1, LowerChars);
      if q == p + 1 || q + 1 >= |t| || t[q] != ' ' || !IsUpper(t[q + 1]) then None
      else
        var e := RunEnd(t, q + 2, LowerChars);
        if e == q + 2 then None else Some(e)
  }

  /** `NameEnd` finds a match exactly when there is one, and the longest. */
  lemma NameEndSpec(t: string, p: nat)
    requires p <= |t|
    ensures NameEnd(t, p).Some? ==> NameSpan(t, p, NameEnd(t, p).value)
    ensures forall e: nat :: NameSpan(t, p, e) ==> NameEnd(t, p).Some? && e <= NameEnd(t, p).value
  {
    if p == |t| || !IsUpper(t[p]) {
      NameNone(t, p);
    } else {
      var q := RunEnd(t, p + 1, LowerChars);
      if q == p + 1 || q + 1 >= |t| || t[q] != ' ' || !IsUpper(t[q + 1]) {
        NameNone(t, p);
      } else {
        var e := RunEnd(t, q + 2, LowerChars);
        if e == q + 2 {
          NameNone(t, p);
        } else {
          NameLongest(t, p, q, e);
        }
      }
    }
  }

  /** Every name match at `p` has its space where the lower-case run after
      `p` stops, and ends where the next lower-case run stops or earlier. */
  lemma NameShape(t: string, p: nat, q: nat, e: nat)
    requires p < |t| && NameParts(t, p, q, e)
    ensures q == RunEnd(t, p + 1, LowerChars)
    ensures e <= RunEnd(t, q + 2, LowerChars)
  {
    RunEndBounds(t, p + 1, q, LowerChars);
    RunEndBounds(t, q + 2, e, LowerChars);
  }

  lemma NameNone(t: string, p: nat)
    requires p <= |t|
    requires p == |t| || !IsUpper(t[p])
      || (var q := RunEnd(t, p + 1, LowerChars);
          q == p + 1 || q + 1 >= |t| || t[q] != ' ' || !IsUpper(t[q + 1])
          || RunEnd(t, q + 2, LowerChars) == q + 2)
    ensures forall e: nat :: !NameSpan(t, p, e)
  {
    forall e: nat | NameSpan(t, p, e)
      ensures false
    {
      var q: nat :| NameParts(t, p, q, e);
      NameShape(t, p, q, e);
    }
  }

  lemma NameLongest(t: string, p: nat, q: nat, e: nat)
    requires p < |t| && IsUpper(t[p])
    requires q == RunEnd(t, p + 1, LowerChars) && q > p + 1
    requires q + 1 < |t| && t[q] == ' ' && IsUpper(t[q + 1])
    requires e == RunEnd(t, q + 2, LowerChars) && e > q + 2
    ensures NameParts(t, p, q, e)
    ensures forall e': nat :: NameSpan(t, p, e') ==> e' <= e
  {
    forall e': nat | NameSpan(t, p, e')
      ensures e' <= e
    {
      var q': nat :| NameParts(t, p, q', e');
      NameShape(t, p, q', e');
    }
  }

  /** The end of the longest match of `pat` at `p`, or None when none starts
      there. */
  function MatchAt(pat: Pattern, t: string, p: nat): (r: Option<nat>)
    requires p <= |t|
    ensures r.Some? ==> p < r.value <= |t|
  {
    match pat
    case Email => EmailEnd(t, p)
    case Date => if DateAt(t, p) then Some(p + 10) else None
    case Name => if NameGuard(t, p) then NameEnd(t, p) else None
  }

  /** `MatchAt` reports the longest match at `p`, and None only when no match
      starts there. */
  lemma MatchAtSpec(pat: Pattern, t: string, p: nat)
    requires p <= |t|
    ensures MatchAt(pat, t, p).Some? ==> LongestAt(pat, t, p, MatchAt(pat, t, p).value)
    ensures MatchAt(pat, t, p).None? ==> forall e: nat :: !Matches(pat, t, p, e)
  {
    match pat
    case Email => EmailEndSpec(t, p);
    case Date =>
    case Name => NameEndSpec(t, p);
  }

  // ---------------------------------------------------------------------------
  // The scan

  /** Some span of `spans` contains position `q`. */
  ghost predicate Covered(spans: seq<Span>, q: nat) {
    exists k :: 0 <= k < |spans| && spans[k].start <= q < spans[k].end
  }

  /** A match table lists, for each position, the end of the match the
      pattern takes there, if any; every such match is non-empty and ends
      inside the text. */
  predicate ValidTable(table: seq<Option<nat>>) {
    forall p :: 0 <= p < |table| && table[p].Some? ==> p < table[p].value <= |table|
  }

  /** `finditer`'s loop over a match table from `pos`: a match at the current
      position is reported and the scan resumes at its end, otherwise it moves
      on by one. */
  function Scan(table: seq<Option<nat>>, pos: nat): (spans: seq<Span>)
    requires ValidTable(table) && pos <= |table|
    ensures forall k :: 0 <= k < |spans| ==> pos <= spans[k].start < spans[k].end <= |table|
    decreases |table| - pos
  {
    if pos == |table| then []
    else
      match table[pos]
      case None => Scan(table, pos + 1)
      case Some(e) => [Span(pos, e)] + Scan(table, e)
  }

  /** Every reported span is the table's match at its start. */
  lemma {:induction false} ScanReports(table: seq<Option<nat>>, pos: nat, k: nat)
    requires ValidTable(table) && pos <= |table| && k < |Scan(table, pos)|
    ensures table[Scan(table, pos)[k].start] == Some(Scan(table, pos)[k].end)
    decreases |table| - pos
  {
    match table[pos]
    case None =>
      ScanReports(table, pos + 1, k);
    case Some(e) =>
      if k > 0 {
        ScanReports(table, e, k - 1);
      }
  }

  /** Reported spans never overlap and come in increasing order. */
  lemma {:induction false} ScanDisjoint(table: seq<Option<nat>>, pos: nat, i: nat, j: nat)
    requires ValidTable(table) && pos <= |table| && i < j < |Scan(table, pos)|
    ensures Scan(table, pos)[i].end <= Scan(table, pos)[j].start
    decreases |table| - pos
  {
    match table[pos]
    case None =>
      ScanDisjoint(table, pos + 1, i, j);
    case Some(e) =>
      if i > 0 {
        ScanDisjoint(table, e, i - 1, j - 1);
      }
  }

  /** No match is missed: every position at or after `pos` where the table
      has a match lies inside a reported span. */
  lemma {:induction false} ScanCovers(table: seq<Option<nat>>, pos: nat, q: nat)
    requires ValidTable(table) && pos <= q < |table| && table[q].Some?
    ensures Covered(Scan(table, pos), q)
    decreases |table| - pos
  {
    match table[pos]
    case None =>
      assert Scan(table, pos) == Scan(table, pos + 1);
      ScanCovers(table, pos + 1, q);
    case Some(end) =>
      var rest := Scan(table, end);
      assert Scan(table, pos) == [Span(pos, end)] + rest;
      if end <= q {
        ScanCovers(table, end, q);
      }
      CoveredCons(Span(pos, end), rest, q);
  }

  lemma CoveredCons(s: Span, rest: seq<Span>, q: nat)
    ensures s.start <= q < s.end || Covered(rest, q) ==> Covered([s] + rest, q)
  {
    if s.start <= q < s.end {
      assert ([s] + rest)[0] == s;
    } else if Covered(rest, q) {
      var k :| 0 <= k < |rest| && rest[k].start <= q < rest[k].end;
      assert ([s] + rest)[k + 1] == rest[k];
    }
  }

  /** The matches of `pat` at the first `n` positions of `t`. */
  function MatchTable(pat: Pattern, t: string, n: nat): (table: seq<Option<nat>>)
    requires n <= |t|
    ensures |table| == n
    ensures forall p :: 0 <= p < n ==> table[p] == MatchAt(pat, t, p)
  {
    if n == 0 then [] else MatchTable(pat, t, n - 1) + [MatchAt(pat, t, n - 1)]
  }

  /** The match table of `pat` over the whole of `t`. */
  function Table(pat: Pattern, t: string): (table: seq<Option<nat>>)
    ensures |table| == |t| && ValidTable(table)
    ensures forall p :: 0 <= p < |t| ==> table[p] == MatchAt(pat, t, p)
  {
    MatchTable(pat, t, |t|)
  }

  /** `pattern.finditer(text)`: the spans of the matches of `pat`, in order.
      Python computes a match only at the positions the scan visits; as the
      match at a position does not depend on the scan, the table holding
      every position's match yields the same spans. */
  function FindAll(pat: Pattern, t: string): (spans: seq<Span>)
    ensures forall k :: 0 <= k < |spans| ==> spans[k].start < spans[k].end <= |t|
  {
    Scan(Table(pat, t), 0)
  }

  /** Every reported span is the longest match of the pattern at its start. */
  lemma FindAllLongest(pat: Pattern, t: string, k: nat)
    requires k < |FindAll(pat, t)|
    ensures LongestAt(pat, t, FindAll(pat, t)[k].start, FindAll(pat, t)[k].end)
  {
    var s := FindAll(pat, t)[k];
    ScanReports(Table(pat, t), 0, k);
    MatchAtSpec(pat, t, s.start);
  }

  /** Reported spans never overlap and come in increasing order. */
  lemma FindAllDisjoint(pat: Pattern, t: string, i: nat, j: nat)
    requires i < j < |FindAll(pat, t)|
    ensures FindAll(pat, t)[i].end <= FindAll(pat, t)[j].start
  {
    ScanDisjoint(Table(pat, t), 0, i, j);
  }

  /** No match is missed: every match starts inside a reported span. */
  lemma FindAllCovers(pat: Pattern, t: string, q: nat, e: nat)
    requires Matches(pat, t, q, e)
    ensures Covered(FindAll(pat, t), q)
  {
    MatchBounds(pat, t, q, e);
    MatchAtSpec(pat, t, q);
    ScanCovers(Table(pat, t), 0, q);
  }

  /** The scan reports nothing exactly when the pattern matches nowhere. */
  lemma FindAllEmpty(pat: Pattern, t: string)
    ensures FindAll(pat, t) == [] <==> forall q: nat, e: nat :: !Matches(pat, t, q, e)
  {
    if FindAll(pat, t) != [] {
      FindAllLongest(pat, t, 0);
    }
    forall q: nat, e: nat | Matches(pat, t, q, e)
      ensures FindAll(pat, t) != []
    {
      FindAllCovers(pat, t, q, e);
    }
  }

  // ---------------------------------------------------------------------------
  // Extraction

  /** The entity for one reported span. */
  function ToEntity(pat: Pattern, t: string, s: Span): Entity
    requires s.start <= s.end <= |t|
  {
    Entity(t[s.start..s.end], TypeName(pat), t[s.start..s.end], Confidence, s)
  }

  /** The entities of a list of spans, in order. */
  function ToEntities(pat: Pattern, t: string, spans: seq<Span>): (r: seq<Entity>)
    requires forall k :: 0 <= k < |spans| ==> spans[k].start <= spans[k].end <= |t|
    ensures |r| == |spans|
    ensures forall k :: 0 <= k < |r| ==> r[k] == ToEntity(pat, t, spans[k])
  {
    if |spans| == 0 then []
    else [ToEntity(pat, t, spans[0])] + ToEntities(pat, t, spans[1..])
  }

  /** The entities of every match of one pattern, in scan order. */
  function EntitiesOf(pat: Pattern, t: string): (r: seq<Entity>)
    ensures |r| == |FindAll(pat, t)|
    ensures forall k :: 0 <= k < |r| ==> r[k] == ToEntity(pat, t, FindAll(pat, t)[k])
  {
    ToEntities(pat, t, FindAll(pat, t))
  }

  /** `RegexEntityExtractor.extract`: the email entities, then the date
      entities, then the name entities. */
  function Extract(t: string): (r: seq<Entity>)
    ensures |r| == |FindAll(Email, t)| + |FindAll(Date, t)| + |FindAll(Name, t)|
  {
    EntitiesOf(Email, t) + EntitiesOf(Date, t) + EntitiesOf(Name, t)
  }

  /** The pattern whose block of `Extract(t)` holds index `k`. */
  function PatternAt(t: string, k: nat): Pattern {
    var nE, nD := |FindAll(Email, t)|, |FindAll(Date, t)|;
    if k < nE then Email else if k < nE + nD then Date else Name
  }

  /** Where the block of `pat` starts in `Extract(t)`. */
  function Offset(t: string, pat: Pattern): nat {
    var nE, nD := |FindAll(Email, t)|, |FindAll(Date, t)|;
    match pat
    case Email => 0
    case Date => nE
    case Name => nE + nD
  }

  /** Entity `k` of the extraction is the entity of span `k - Offset` of its
      pattern's scan. */
  lemma ExtractAt(t: string, k: nat)
    requires k < |Extract(t)|
    ensures var pat := PatternAt(t, k);
      Offset(t, pat) <= k < Offset(t, pat) + |FindAll(pat, t)|
        && Extract(t)[k] == EntitiesOf(pat, t)[k - Offset(t, pat)]
  {
    var eE, eD, eN := EntitiesOf(Email, t), EntitiesOf(Date, t), EntitiesOf(Name, t);
    Concat3Index(eE, eD, eN, k);
    if k < |eE| {
      assert PatternAt(t, k) == Email;
    } else if k < |eE| + |eD| {
      assert PatternAt(t, k) == Date;
    } else {
      assert PatternAt(t, k) == Name;
    }
  }

  lemma Concat3Index<T>(a: seq<T>, b: seq<T>, c: seq<T>, k: nat)
    requires k < |a| + |b| + |c|
    ensures (a + b + c)[k] == if k < |a| then a[k] else if k < |a| + |b| then b[k - |a|] else c[k - |a| - |b|]
  {
  }

  /** Every entity's name and value are the text at its span, and its
      confidence is 0.8. */
  lemma ExtractFields(t: string, k: nat)
    requires k < |Extract(t)|
    ensures var ent := Extract(t)[k];
      ent.span.start < ent.span.end <= |t|
        && ent.name == ent.value == t[ent.span.start..ent.span.end]
        && ent.confidence == Confidence
  {
    ExtractAt(t, k);
  }

  /** The table position of an entity type. */
  function KindRank(kind: string): nat {
    if kind == "email" then 0 else if kind == "date" then 1 else 2
  }

  /** Every entity's type is one of the table's keys and names the pattern
      that found it; types come in table order: emails, then dates, then
      names. */
  lemma ExtractKindOrder(t: string, i: nat, j: nat)
    requires i <= j < |Extract(t)|
    ensures Extract(t)[i].kind == TypeName(PatternAt(t, i))
    ensures KindRank(Extract(t)[i].kind) <= KindRank(Extract(t)[j].kind)
  {
    ExtractAt(t, i);
    ExtractAt(t, j);
  }

  /** Entity `k` carries span `k - Offset` of its pattern's scan and that
      pattern's type name. */
  lemma ExtractSpan(t: string, k: nat, pat: Pattern)
    requires k < |Extract(t)| && pat == PatternAt(t, k)
    ensures Offset(t, pat) <= k < Offset(t, pat) + |FindAll(pat, t)|
    ensures Extract(t)[k].span == FindAll(pat, t)[k - Offset(t, pat)]
    ensures Extract(t)[k].kind == TypeName(pat)
  {
    ExtractAt(t, k);
  }

  /** Each entity is the longest match of its pattern at its start. */
  lemma ExtractLongest(t: string, k: nat)
    requires k < |Extract(t)|
    ensures LongestAt(PatternAt(t, k), t, Extract(t)[k].span.start, Extract(t)[k].span.end)
  {
    var pat := PatternAt(t, k);
    ExtractSpan(t, k, pat);
    BlockLongest(t, k, pat);
  }

  /** Entities of one type do not overlap and come in increasing position. */
  lemma ExtractDisjoint(t: string, i: nat, j: nat)
    requires i < j < |Extract(t)|
    requires Extract(t)[i].kind == Extract(t)[j].kind
    ensures Extract(t)[i].span.end <= Extract(t)[j].span.start
  {
    var pat := PatternAt(t, i);
    assert PatternAt(t, j) == pat by {
      KindDeterminesPattern(t, i, j);
    }
    ExtractSpan(t, i, pat);
    ExtractSpan(t, j, pat);
    BlockDisjoint(t, i, j, pat);
  }

  /** Two entities have the same type exactly when the same pattern found
      them. */
  lemma KindDeterminesPattern(t: string, i: nat, j: nat)
    requires i < |Extract(t)| && j < |Extract(t)|
    ensures Extract(t)[i].kind == Extract(t)[j].kind <==> PatternAt(t, i) == PatternAt(t, j)
  {
    var pi, pj := PatternAt(t, i), PatternAt(t, j);
    ExtractSpan(t, i, pi);
    ExtractSpan(t, j, pj);
    TypeNameInjective(pi, pj);
  }

  // FindAllLongest and FindAllDisjoint restated at the indices of `pat`'s
  // block in `Extract(t)`.

  lemma BlockLongest(t: string, k: nat, pat: Pattern)
    requires Offset(t, pat) <= k < Offset(t, pat) + |FindAll(pat, t)|
    ensures LongestAt(pat, t, FindAll(pat, t)[k - Offset(t, pat)].start, FindAll(pat, t)[k - Offset(t, pat)].end)
  {
    FindAllLongest(pat, t, k - Offset(t, pat));
  }

  lemma BlockDisjoint(t: string, i: nat, j: nat, pat: Pattern)
    requires Offset(t, pat) <= i < j < Offset(t, pat) + |FindAll(pat, t)|
    ensures FindAll(pat, t)[i - Offset(t, pat)].end <= FindAll(pat, t)[j - Offset(t, pat)].start
  {
    FindAllDisjoint(pat, t, i - Offset(t, pat), j - Offset(t, pat));
  }

  /** Distinct patterns have distinct type names. */
  lemma TypeNameInjective(p: Pattern, q: Pattern)
    ensures TypeName(p) == TypeName(q) ==> p == q
  {
    if p != q {
      assert TypeName(p)[0] != TypeName(q)[0];
    }
  }

  /** A date entity's value is four digits, a dash, two digits, a dash and
      two digits; a name entity neither starts the text nor follows a dot and
      a whitespace character. */
  lemma ExtractShapes(t: string, k: nat)
    requires k < |Extract(t)|
    ensures Extract(t)[k].kind == "date" ==> DateAt(Extract(t)[k].value, 0) && |Extract(t)[k].value| == 10
    ensures Extract(t)[k].kind == "name" ==> NameGuard(t, Extract(t)[k].span.start)
  {
    var pat := PatternAt(t, k);
    ExtractSpan(t, k, pat);
    ExtractLongest(t, k);
    ExtractFields(t, k);
    TypeNameInjective(pat, Date);
    TypeNameInjective(pat, Name);
    var s := Extract(t)[k].span;
    if pat == Date {
      var v := t[s.start..s.end];
      assert forall m :: 0 <= m < 10 ==> v[m] == t[s.start + m];
    }
  }

  /** The date pattern has no word boundary and no calendar check: a date
      is recognised whatever text surrounds it. */
  lemma DateIgnoresContext(a: string, d: string, b: string)
    requires |d| == 10
    ensures DateAt(a + d + b, |a|) <==> DateAt(d, 0)
  {
    var t := a + d + b;
    assert forall m :: 0 <= m < 10 ==> t[|a| + m] == d[m];
  }

  /** No match is missed: every match of every pattern starts inside an
      entity of that pattern's type. */
  lemma ExtractComplete(t: string, pat: Pattern, q: nat, e: nat)
    requires Matches(pat, t, q, e)
    ensures exists k ::
      (0 <= k < |Extract(t)| && Extract(t)[k].kind == TypeName(pat)
        && Extract(t)[k].span.start <= q < Extract(t)[k].span.end)
  {
    FindAllCovers(pat, t, q, e);
    var spans := FindAll(pat, t);
    var i :| 0 <= i < |spans| && spans[i].start <= q < spans[i].end;
    var k := Offset(t, pat) + i;
    assert PatternAt(t, k) == pat;
    ExtractSpan(t, k, pat);
  }

  /** A longest match that no earlier match of the same pattern overlaps is
      reported exactly: the scan reaches its start and takes all of it. */
  lemma FindAllReports(pat: Pattern, t: string, p: nat, e: nat)
    requires LongestAt(pat, t, p, e)
    requires forall q: nat, e': nat :: q < p && Matches(pat, t, q, e') ==> e' <= p
    ensures exists i :: 0 <= i < |FindAll(pat, t)| && FindAll(pat, t)[i] == Span(p, e)
  {
    FindAllCovers(pat, t, p, e);
    var spans := FindAll(pat, t);
    var i :| 0 <= i < |spans| && spans[i].start <= p < spans[i].end;
    FindAllLongest(pat, t, i);
    assert spans[i] == Span(p, e);
  }

  /** Such a match becomes an entity of its pattern's type whose value is the
      matched text. */
  lemma ExtractReports(t: string, pat: Pattern, p: nat, e: nat)
    requires LongestAt(pat, t, p, e)
    requires forall q: nat, e': nat :: q < p && Matches(pat, t, q, e') ==> e' <= p
    ensures exists k ::
      (0 <= k < |Extract(t)| && Extract(t)[k].kind == TypeName(pat)
        && Extract(t)[k].span == Span(p, e) && Extract(t)[k].value == t[p..e])
  {
    FindAllReports(pat, t, p, e);
    var i :| 0 <= i < |FindAll(pat, t)| && FindAll(pat, t)[i] == Span(p, e);
    ExtractIndex(t, pat, i);
  }

  /** Span `i` of `pat`'s scan becomes entity `Offset + i` of the extraction. */
  lemma ExtractIndex(t: string, pat: Pattern, i: nat)
    requires i < |FindAll(pat, t)|
    ensures Offset(t, pat) + i < |Extract(t)|
    ensures Extract(t)[Offset(t, pat) + i] == ToEntity(pat, t, FindAll(pat, t)[i])
  {
    var eE, eD, eN := EntitiesOf(Email, t), EntitiesOf(Date, t), EntitiesOf(Name, t);
    var k := Offset(t, pat) + i;
    Concat3Index(eE, eD, eN, k);
    match pat
    case Email =>
      assert Extract(t)[k] == eE[i];
    case Date =>
      assert Extract(t)[k] == eD[i];
    case Name =>
      assert Extract(t)[k] == eN[i];
  }

  /** A text yields no entities exactly when no pattern matches anywhere in
      it. */
  lemma ExtractEmpty(t: string)
    ensures Extract(t) == [] <==> forall pat: Pattern, q: nat, e: nat :: !Matches(pat, t, q, e)
  {
    if Extract(t) != [] {
      ExtractLongest(t, 0);
    }
    forall pat: Pattern, q: nat, e: nat | Matches(pat, t, q, e)
      ensures Extract(t) != []
    {
      ExtractComplete(t, pat, q, e);
    }
  }

  // ---------------------------------------------------------------------------
  // The worked example: "Meeting with John Doe on 2023-10-25 at test@example.com"
  // yields the email, the date and the name "John Doe". The text is cut into
  // a prefix, the match and a suffix; each match is shown to be the longest
  // at its start, with no earlier match of its pattern reaching it.

  /** A run of class `k` from `i` that stops at `j`. */
  lemma RunEndAt(t: string, i: nat, j: nat, k: CharClass)
    requires i <= j <= |t|
    requires forall m :: i <= m < j ==> InClass(t[m], k)
    requires j == |t| || !InClass(t[j], k)
    ensures RunEnd(t, i, k) == j
  {
    RunEndBounds(t, i, j, k);
  }

  /** No email match reaches past `p` from an earlier start when no `@`
      precedes `p` and the character before `p` cannot be part of an email. */
  lemma NoEmailBefore(t: string, p: nat)
    requires 0 < p <= |t|
    requires forall m :: 0 <= m < p ==> t[m] != '@'
    requires !InClass(t[p - 1], EmailChars)
    ensures forall q: nat, e: nat :: q < p && Matches(Email, t, q, e) ==> e <= p
  {
  }

  lemma MeetingAroundName(t: string)
    requires t == "Meeting with John Doe on 2023-10-25 at test@example.com"
    ensures t == "Meeting with " + "John Doe" + " on 2023-10-25 at test@example.com"
  {
  }

  lemma MeetingAroundDate(t: string)
    requires t == "Meeting with John Doe on 2023-10-25 at test@example.com"
    ensures t == "Meeting with John Doe on " + "2023-10-25" + " at test@example.com"
  {
  }

  lemma MeetingAroundEmail(t: string)
    requires t == "Meeting with John Doe on 2023-10-25 at test@example.com"
    ensures t == "Meeting with John Doe on 2023-10-25 at " + "test@example.com"
  {
  }

  lemma MeetingNameMatch(t: string)
    requires t == "Meeting with " + "John Doe" + " on 2023-10-25 at test@example.com"
    ensures LongestAt(Name, t, 13, 21)
    ensures forall q: nat, e: nat :: q < 13 && Matches(Name, t, q, e) ==> e <= 13
  {
    RunEndAt(t, 14, 17, LowerChars);
    RunEndAt(t, 19, 21, LowerChars);
    assert MatchAt(Name, t, 13) == Some(21);
    MatchAtSpec(Name, t, 13);
    assert forall m :: 0 < m < 13 ==> !IsUpper(t[m]);
  }

  lemma MeetingName(t: string)
    requires t == "Meeting with " + "John Doe" + " on 2023-10-25 at test@example.com"
    ensures exists k ::
      (0 <= k < |Extract(t)| && Extract(t)[k].kind == "name" && Extract(t)[k].value == "John Doe")
  {
    MeetingNameMatch(t);
    ExtractReports(t, Name, 13, 21);
  }

  lemma MeetingDateMatch(t: string)
    requires t == "Meeting with John Doe on " + "2023-10-25" + " at test@example.com"
    ensures LongestAt(Date, t, 25, 35)
    ensures forall q: nat, e: nat :: q < 25 && Matches(Date, t, q, e) ==> e <= 25
  {
    assert MatchAt(Date, t, 25) == Some(35);
    MatchAtSpec(Date, t, 25);
    assert forall m :: 0 <= m < 25 ==> !IsDigit(t[m]);
  }

  lemma MeetingDate(t: string)
    requires t == "Meeting with John Doe on " + "2023-10-25" + " at test@example.com"
    ensures exists k ::
      (0 <= k < |Extract(t)| && Extract(t)[k].kind == "date" && Extract(t)[k].value == "2023-10-25")
  {
    MeetingDateMatch(t);
    ExtractReports(t, Date, 25, 35);
  }

  lemma MeetingEmailMatch(t: string)
    requires t == "Meeting with John Doe on 2023-10-25 at " + "test@example.com"
    ensures LongestAt(Email, t, 39, 55)
  {
    RunEndAt(t, 39, 43, EmailChars);
    RunEndAt(t, 44, 55, EmailChars);
    assert LastDot(t, 46, 52) == Some(51);
    assert LastDot(t, 46, 53) == Some(51);
    assert LastDot(t, 46, 54) == Some(51);
    assert LastDot(t, 46, 55) == Some(51);
    RunEndAt(t, 52, 55, WordChars);
    assert MatchAt(Email, t, 39) == Some(55);
    MatchAtSpec(Email, t, 39);
  }

  lemma MeetingEmailFirst(t: string)
    requires t == "Meeting with John Doe on 2023-10-25 at " + "test@example.com"
    ensures forall q: nat, e: nat :: q < 39 && Matches(Email, t, q, e) ==> e <= 39
  {
    NoEmailBefore(t, 39);
  }

  lemma MeetingEmail(t: string)
    requires t == "Meeting with John Doe on 2023-10-25 at " + "test@example.com"
    ensures exists k ::
      (0 <= k < |Extract(t)| && Extract(t)[k].kind == "email" && Extract(t)[k].value == "test@example.com")
  {
    MeetingEmailMatch(t);
    MeetingEmailFirst(t);
    ExtractReports(t, Email, 39, 55);
  }

  /** The extractor's worked example: at least three entities, among them an
      email, a date and the name "John Doe". */
  lemma ExtractMeeting(t: string)
    requires t == "Meeting with John Doe on 2023-10-25 at test@example.com"
    ensures exists k ::
      (0 <= k < |Extract(t)| && Extract(t)[k].kind == "email" && Extract(t)[k].value == "test@example.com")
    ensures exists k ::
      (0 <= k < |Extract(t)| && Extract(t)[k].kind == "date" && Extract(t)[k].value == "2023-10-25")
    ensures exists k ::
      (0 <= k < |Extract(t)| && Extract(t)[k].kind == "name" && Extract(t)[k].value == "John Doe")
    ensures |Extract(t)| >= 3
  {
    MeetingAroundEmail(t);
    MeetingEmail(t);
    MeetingAroundDate(t);
    MeetingDate(t);
    MeetingAroundName(t);
    MeetingName(t);
    ThreeKinds(Extract(t), "email", "date", "name");
  }

  /** Entities of three different types are three different entities. */
  lemma ThreeKinds(es: seq<Entity>, a: string, b: string, c: string)
    requires a != b && b != c && a != c
    requires exists k :: 0 <= k < |es| && es[k].kind == a
    requires exists k :: 0 <= k < |es| && es[k].kind == b
    requires exists k :: 0 <= k < |es| && es[k].kind == c
    ensures |es| >= 3
  {
    var i :| 0 <= i < |es| && es[i].kind == a;
    var j :| 0 <= j < |es| && es[j].kind == b;
    var k :| 0 <= k < |es| && es[k].kind == c;
  }
}
