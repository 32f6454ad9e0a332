/** The keyword categoriser of aimemo/categorizer.py: a memory's text is
    lower-cased and space-padded, the categories are tried in a fixed order,
    and the first category with a whole-phrase keyword hit wins. */
module Categorizer {
  import opened Text

  /** `MemoryCategory`; the categoriser never produces `Unknown`. */
  datatype MemoryCategory = Fact | Preference | Skill | Rule | Context | Unknown

  /** The string value of each category (the enum subclasses `str`). */
  function Value(c: MemoryCategory): string {
    match c
    case Fact => "fact"
    case Preference => "preference"
    case Skill => "skill"
    case Rule => "rule"
    case Context => "context"
    case Unknown => "unknown"
  }

  /** The order in which the keyword table is consulted. */
  const CategoryOrder: seq<MemoryCategory> := [Preference, Skill, Rule, Fact]

  /** The keyword table: keywords for exactly the categories of
      `CategoryOrder`. */
  function KeywordsOf(c: MemoryCategory): (r: seq<string>)
    ensures |r| > 0 <==> c in CategoryOrder
  {
    match c
    case Preference => ["like", "love", "hate", "prefer", "enjoy", "want"]
    case Skill => ["can", "know", "able to", "expert", "proficient"]
    case Rule => ["always", "never", "must", "should", "rule"]
    case Fact => ["is a", "located", "born", "defined as", "is in"]
    case _ => []
  }

  function Pad(s: string): string { " " + s + " " }

  /** `f" {keyword} " in f" {text_lower} "`, on the already lower-cased text. */
  predicate PhraseHit(lowered: string, keyword: string) {
    Contains(Pad(lowered), Pad(keyword))
  }

  /** A keyword hits a text when it hits the text's lower-cased form. */
  predicate KeywordHit(text: string, keyword: string) {
    PhraseHit(Lower(text), keyword)
  }

  /** Some keyword of `c` hits `text`: the reference definition the scan below
      is proved against. */
  ghost predicate Hits(text: string, c: MemoryCategory) {
    exists keyword :: keyword in KeywordsOf(c) && KeywordHit(text, keyword)
  }

  /** The inner loop: does any of `keywords[k..]` hit? */
  function AnyHitFrom(lowered: string, keywords: seq<string>, k: nat): (b: bool)
    requires k <= |keywords|
    ensures b <==> exists j :: k <= j < |keywords| && PhraseHit(lowered, keywords[j])
    decreases |keywords| - k
  {
    if k == |keywords| then false
    else PhraseHit(lowered, keywords[k]) || AnyHitFrom(lowered, keywords, k + 1)
  }

  /** Does some keyword of category `c` hit? */
  predicate RowHit(lowered: string, c: MemoryCategory) {
    AnyHitFrom(lowered, KeywordsOf(c), 0)
  }

  /** The scan of one table row agrees with the reference definition. */
  lemma RowHitIsHits(text: string, c: MemoryCategory)
    ensures RowHit(Lower(text), c) <==> Hits(text, c)
  {
    var keywords := KeywordsOf(c);
    if Hits(text, c) {
      var keyword :| keyword in keywords && KeywordHit(text, keyword);
      var j :| 0 <= j < |keywords| && keywords[j] == keyword;
      assert PhraseHit(Lower(text), keywords[j]);
    }
    if RowHit(Lower(text), c) {
      var j :| 0 <= j < |keywords| && PhraseHit(Lower(text), keywords[j]);
      assert keywords[j] in keywords && KeywordHit(text, keywords[j]);
    }
  }

  /** The outer loop: the index in `order` of the first category with a hit,
      or `|order|` when none has one. */
  function FirstHitIndex(lowered: string, order: seq<MemoryCategory>): (k: nat)
    ensures k <= |order|
    ensures forall j :: 0 <= j < k ==> !RowHit(lowered, order[j])
    ensures k < |order| ==> RowHit(lowered, order[k])
    decreases |order|
  {
    if |order| == 0 || RowHit(lowered, order[0]) then 0
    else 1 + FirstHitIndex(lowered, order[1..])
  }

  /** `KeywordCategorizer.categorize`: the first category, in the order
      Preference, Skill, Rule, Fact, that has a keyword hit; Context when none
      has; never Unknown. */
  function Categorize(text: string): (r: MemoryCategory)
    ensures r != Unknown
    ensures r == Preference <==> Hits(text, Preference)
    ensures r == Skill <==> (!Hits(text, Preference) && Hits(text, Skill))
    ensures r == Rule <==> (!Hits(text, Preference) && !Hits(text, Skill) && Hits(text, Rule))
    ensures r == Fact <==>
      (!Hits(text, Preference) && !Hits(text, Skill) && !Hits(text, Rule) && Hits(text, Fact))
    ensures r == Context <==>
      (!Hits(text, Preference) && !Hits(text, Skill) && !Hits(text, Rule) && !Hits(text, Fact))
  {
    RowHitIsHits(text, Preference);
    RowHitIsHits(text, Skill);
    RowHitIsHits(text, Rule);
    RowHitIsHits(text, Fact);
    var k := FirstHitIndex(Lower(text), CategoryOrder);
    assert k == 0 || k == 1 || k == 2 || k == 3 || k == 4;
    if k < |CategoryOrder| then CategoryOrder[k] else Context
  }

  /** A phrase is delimited in `l` at `i`: it occurs there, preceded by a space
      or the start of `l` and followed by a space or the end of `l`. */
  ghost predicate DelimitedAt(l: string, phrase: string, i: int) {
    OccursAt(l, phrase, i)
      && (i == 0 || l[i - 1] == ' ')
      && (i + |phrase| == |l| || l[i + |phrase|] == ' ')
  }

  lemma PadIndex(l: string, j: int)
    requires 0 <= j < |l| + 2
    ensures Pad(l)[j] == if j == 0 || j == |l| + 1 then ' ' else l[j - 1]
  {
  }

  lemma PaddedOccurrenceIsDelimited(l: string, phrase: string, i: int)
    requires OccursAt(Pad(l), Pad(phrase), i)
    ensures DelimitedAt(l, phrase, i)
  {
    var p, n := Pad(l), Pad(phrase);
    forall j | 0 <= j < |n|
      ensures p[i + j] == n[j]
    {
      assert p[i..i + |n|][j] == p[i + j];
    }
    forall j | 0 <= j < |phrase|
      ensures l[i + j] == phrase[j]
    {
      PadIndex(l, i + j + 1);
      assert n[j + 1] == phrase[j];
    }
    assert l[i..i + |phrase|] == phrase;
    PadIndex(l, i);
    PadIndex(l, i + |phrase| + 1);
  }

  lemma DelimitedIsPaddedOccurrence(l: string, phrase: string, i: int)
    requires DelimitedAt(l, phrase, i)
    ensures OccursAt(Pad(l), Pad(phrase), i)
  {
    var p, n := Pad(l), Pad(phrase);
    forall j | 0 <= j < |n|
      ensures p[i + j] == n[j]
    {
      PadIndex(l, i + j);
      if 0 < j <= |phrase| {
        assert l[i..i + |phrase|][j - 1] == l[i + j - 1];
      }
    }
    assert p[i..i + |n|] == n;
  }

  /** A keyword hits a lower-cased text exactly when it occurs there as a
      whole phrase: preceded by a space or the start, followed by a space or the
      end. */
  lemma PhraseHitIsWholePhrase(l: string, keyword: string)
    ensures PhraseHit(l, keyword) <==> exists i :: DelimitedAt(l, keyword, i)
  {
    ContainsSpec(Pad(l), Pad(keyword));
    if PhraseHit(l, keyword) {
      var i :| OccursAt(Pad(l), Pad(keyword), i);
      PaddedOccurrenceIsDelimited(l, keyword, i);
    }
    if exists i :: DelimitedAt(l, keyword, i) {
      var i :| DelimitedAt(l, keyword, i);
      DelimitedIsPaddedOccurrence(l, keyword, i);
    }
  }

  /** A keyword hits a text exactly when it occurs in the lower-cased text as a
      whole phrase. So "like" does not hit "likely", nor "always" hit "always,",
      and a multi-word keyword hits only as a contiguous phrase. */
  lemma KeywordHitIsWholePhrase(text: string, keyword: string)
    ensures KeywordHit(text, keyword) <==> exists i :: DelimitedAt(Lower(text), keyword, i)
  {
    PhraseHitIsWholePhrase(Lower(text), keyword);
  }

  /** Case does not matter: texts that agree after lower-casing are put in the
      same category; in particular upper-casing a text does not change it. */
  lemma CategorizeIgnoresCase(text: string)
    ensures Categorize(Upper(text)) == Categorize(text)
    ensures Categorize(Lower(text)) == Categorize(text)
  {
    LowerAbsorbsCase(text);
  }

  /** Every character of a keyword that hits occurs in the lower-cased text. */
  lemma HitLettersOccur(lowered: string, keyword: string)
    ensures PhraseHit(lowered, keyword) ==> forall c :: c in keyword ==> c in lowered
  {
    ContainsSpec(Pad(lowered), Pad(keyword));
    if PhraseHit(lowered, keyword) {
      var i :| OccursAt(Pad(lowered), Pad(keyword), i);
      forall j | 0 <= j < |keyword|
        ensures keyword[j] in lowered
      {
        assert Pad(keyword)[j + 1] == keyword[j];
        assert Pad(lowered)[i..i + |Pad(keyword)|][j + 1] == Pad(lowered)[i + j + 1];
        PadIndex(lowered, i + j + 1);
      }
    }
  }

  /** A keyword cannot hit a lower-cased text that lacks one of its characters. */
  lemma MissingLetter(lowered: string, keyword: string, c: char)
    requires c in keyword && c !in lowered
    ensures !PhraseHit(lowered, keyword)
  {
    HitLettersOccur(lowered, keyword);
  }

  lemma SliceIndex(s: string, i: int, n: int, k: int)
    ensures 0 <= i <= k < i + n <= |s| ==> s[i..i + n][k - i] == s[k]
  {
  }

  /** A keyword without spaces that hits `a + " " + b` hits `a` or `b`: it
      cannot straddle the space. */
  lemma SpacelessHitSplits(a: string, b: string, keyword: string)
    requires ' ' !in keyword
    ensures PhraseHit(a + " " + b, keyword) ==> PhraseHit(a, keyword) || PhraseHit(b, keyword)
  {
    var l := a + " " + b;
    var n := |keyword|;
    PhraseHitIsWholePhrase(l, keyword);
    PhraseHitIsWholePhrase(a, keyword);
    PhraseHitIsWholePhrase(b, keyword);
    if PhraseHit(l, keyword) {
      var i :| DelimitedAt(l, keyword, i);
      if i + n <= |a| {
        assert a[i..i + n] == l[i..i + n];
        assert DelimitedAt(a, keyword, i);
      } else {
        SliceIndex(l, i, n, |a|);
        assert i >= |a| + 1;
        var j := i - |a| - 1;
        assert b[j..j + n] == l[i..i + n];
        assert DelimitedAt(b, keyword, j);
      }
    }
  }

  /** A keyword without spaces hits a word without spaces only when it is that
      word. */
  lemma SpacelessHitWord(w: string, keyword: string)
    requires ' ' !in w
    ensures PhraseHit(w, keyword) ==> keyword == w
  {
    PhraseHitIsWholePhrase(w, keyword);
    if PhraseHit(w, keyword) {
      var i :| DelimitedAt(w, keyword, i);
    }
  }

  /** In a text of words separated by single spaces, a non-empty keyword
      without spaces hits only when it is one of the words. */
  lemma {:induction false} SpacelessHitWords(words: seq<string>, keyword: string)
    requires |keyword| > 0 && ' ' !in keyword
    requires forall k :: 0 <= k < |words| ==> ' ' !in words[k]
    ensures PhraseHit(Join(" ", words), keyword) ==> keyword in words
    decreases |words|
  {
    if |words| == 0 {
      SpacelessHitWord("", keyword);
    } else if |words| == 1 {
      SpacelessHitWord(words[0], keyword);
    } else {
      SpacelessHitSplits(words[0], Join(" ", words[1..]), keyword);
      SpacelessHitWord(words[0], keyword);
      SpacelessHitWords(words[1..], keyword);
    }
  }

  /** A keyword hits when its padded form matches the padded text at some
      index. */
  lemma MatchIsHit(lowered: string, keyword: string, i: nat)
    requires i + |keyword| <= |lowered|
    requires MatchesFrom(Pad(lowered), Pad(keyword), i, 0)
    ensures PhraseHit(lowered, keyword)
  {
    MatchesFromSpec(Pad(lowered), Pad(keyword), i, 0);
    assert Pad(keyword)[0..] == Pad(keyword);
    assert OccursAt(Pad(lowered), Pad(keyword), i);
    ContainsSpec(Pad(lowered), Pad(keyword));
  }


  /** First match, not majority: a text that both a preference keyword
      ("love") and a rule keyword ("always") hit is a preference. */
  lemma PreferenceWinsOverRule(text: string)
    requires KeywordHit(text, "love") && KeywordHit(text, "always")
    ensures Hits(text, Preference) && Hits(text, Rule)
    ensures Categorize(text) == Preference
  {
    HitVia(text, Lower(text), Preference, "love");
    HitVia(text, Lower(text), Rule, "always");
  }

  /** A keyword longer than the lower-cased text cannot hit it. */
  lemma LongKeywordMisses(lowered: string, keyword: string)
    requires |lowered| < |keyword|
    ensures !PhraseHit(lowered, keyword)
  {
    ContainsSpec(Pad(lowered), Pad(keyword));
  }

  /** Every keyword in the table is at least three characters long. */
  lemma KeywordsAreLong(c: MemoryCategory, keyword: string)
    requires keyword in KeywordsOf(c)
    ensures |keyword| >= 3
  {
  }

  /** A text shorter than every keyword, the empty text among them, falls
      through the whole table to Context. */
  lemma CategorizeShortText(text: string)
    requires |text| < 3
    ensures Categorize(text) == Context
  {
    var l := Lower(text);
    forall c: MemoryCategory, keyword | keyword in KeywordsOf(c)
      ensures !PhraseHit(l, keyword)
    {
      KeywordsAreLong(c, keyword);
      LongKeywordMisses(l, keyword);
    }
  }

  // ---------------------------------------------------------------------------
  // The documented examples. Each is proved from a few facts about its
  // lower-cased text: where the deciding keyword matches, and, for every
  // keyword of an earlier category, a letter it has that the text lacks or,
  // for a one-word keyword, that it is none of the text's words. The examples
  // are stated for every text with the given lower-cased form.

  /** A category hits a text when one of its keywords hits the lower-cased text. */
  lemma HitVia(text: string, l: string, c: MemoryCategory, keyword: string)
    requires Lower(text) == l && keyword in KeywordsOf(c) && PhraseHit(l, keyword)
    ensures Hits(text, c)
  {
  }

  /** A category misses a text when none of its keywords hits the lower-cased text. */
  lemma MissVia(text: string, l: string, c: MemoryCategory)
    requires Lower(text) == l
    requires forall keyword :: keyword in KeywordsOf(c) ==> !PhraseHit(l, keyword)
    ensures !Hits(text, c)
  {
  }

  /** `l` is `words` separated by single spaces. */
  predicate Words(l: string, words: seq<string>) {
    l == Join(" ", words) && forall k :: 0 <= k < |words| ==> ' ' !in words[k]
  }

  /** Each keyword from index `k` on is ruled out for a text of `words`: the
      character at its index in `absent` is `*` and the keyword is a single
      word that is none of `words`, or the character is a letter the keyword
      holds. */
  predicate RuledOut(keywords: seq<string>, absent: string, words: seq<string>, k: nat)
    requires |absent| == |keywords|
    decreases |keywords| - k
  {
    k >= |keywords|
      || ((if absent[k] == '*' then ' ' !in keywords[k] && keywords[k] !in words
           else absent[k] in keywords[k])
          && RuledOut(keywords, absent, words, k + 1))
  }

  /** Keywords that are ruled out, by letters the text lacks or by not being
      one of its words, do not hit it. */
  lemma {:induction false} RuledOutMisses(l: string, words: seq<string>, keywords: seq<string>, absent: string, k: nat)
    requires '*' in absent ==> Words(l, words)
    requires forall ch :: ch in absent ==> ch !in l
    requires forall keyword :: keyword in keywords ==> |keyword| > 0
    requires |absent| == |keywords| && RuledOut(keywords, absent, words, k)
    ensures forall j :: k <= j < |keywords| ==> !PhraseHit(l, keywords[j])
    decreases |keywords| - k
  {
    if k < |keywords| {
      var keyword := keywords[k];
      if absent[k] == '*' {
        SpacelessHitWords(words, keyword);
      } else {
        MissingLetter(l, keyword, absent[k]);
      }
      RuledOutMisses(l, words, keywords, absent, k + 1);
    }
  }

  /** A category whose keywords are all ruled out misses the text. */
  lemma RowMisses(text: string, words: seq<string>, c: MemoryCategory, absent: string)
    requires '*' in absent ==> Words(Lower(text), words)
    requires forall ch :: ch in absent ==> ch !in Lower(text)
    requires |absent| == |KeywordsOf(c)| && RuledOut(KeywordsOf(c), absent, words, 0)
    ensures !Hits(text, c)
  {
    var keywords := KeywordsOf(c);
    RuledOutMisses(Lower(text), words, keywords, absent, 0);
    forall keyword | keyword in keywords
      ensures !PhraseHit(Lower(text), keyword)
    {
      var j :| 0 <= j < |keywords| && keywords[j] == keyword;
    }
    MissVia(text, Lower(text), c);
  }

  // Literal facts about each example text: where its deciding keyword
  // matches (`...Facts`), the words it splits into (`...Words`), letters it
  // lacks (`...Absent`), and how each keyword of an earlier category is ruled
  // out (`...RuledOut`), `*` marking a keyword that is none of the words.

  lemma LovePythonFacts()
    ensures Pad("i love python") == " i love python " && Pad("love") == " love "
    ensures MatchesFrom(" i love python ", " love ", 2, 0)
  {
  }

  /** Every text that lower-cases to "i love python" is a preference. */
  lemma CategorizeLovePython(text: string)
    requires Lower(text) == "i love python"
    ensures Categorize(text) == Preference
  {
    LovePythonFacts();
    MatchIsHit(Lower(text), "love", 2);
    HitVia(text, Lower(text), Preference, "love");
  }

  lemma CodeInRustFacts(l: string)
    requires l == "i can code in rust"
    ensures Pad(l) == " i can code in rust " && Pad("can") == " can "
    ensures MatchesFrom(" i can code in rust ", " can ", 2, 0)
  {
  }

  lemma CodeInRustAbsent(l: string)
    requires l == "i can code in rust"
    ensures forall ch :: ch in "llhpjw" ==> ch !in l
  {
  }

  lemma CodeInRustPreferenceRuledOut()
    ensures RuledOut(KeywordsOf(Preference), "llhpjw", [], 0)
  {
    assert RuledOut(KeywordsOf(Preference), "llhpjw", [], 4);
    assert RuledOut(KeywordsOf(Preference), "llhpjw", [], 2);
  }

  /** Every text that lower-cases to "i can code in rust" is a skill. */
  lemma CategorizeCodeInRust(text: string)
    requires Lower(text) == "i can code in rust"
    ensures Categorize(text) == Skill
  {
    var l := Lower(text);
    var words: seq<string> := [];
    CodeInRustFacts(l);
    CodeInRustAbsent(l);
    CodeInRustPreferenceRuledOut();
    MatchIsHit(l, "can", 2);
    RowMisses(text, words, Preference, "llhpjw");
    HitVia(text, l, Skill, "can");
  }

  lemma WriteTestsFacts(l: string)
    requires l == "always write tests"
    ensures Pad(l) == " always write tests " && Pad("always") == " always "
    ensures MatchesFrom(" always write tests ", " always ", 0, 0)
  {
  }

  lemma WriteTestsAbsent(l: string)
    requires l == "always write tests"
    ensures forall ch :: ch in "kohpnn" ==> ch !in l
    ensures forall ch :: ch in "ckbxp" ==> ch !in l
  {
  }

  lemma WriteTestsPreferenceRuledOut()
    ensures RuledOut(KeywordsOf(Preference), "kohpnn", [], 0)
  {
    assert RuledOut(KeywordsOf(Preference), "kohpnn", [], 4);
    assert RuledOut(KeywordsOf(Preference), "kohpnn", [], 2);
  }

  lemma WriteTestsSkillRuledOut()
    ensures RuledOut(KeywordsOf(Skill), "ckbxp", [], 0)
  {
    assert RuledOut(KeywordsOf(Skill), "ckbxp", [], 3);
    assert RuledOut(KeywordsOf(Skill), "ckbxp", [], 1);
  }

  /** Every text that lower-cases to "always write tests" is a rule. */
  lemma CategorizeWriteTests(text: string)
    requires Lower(text) == "always write tests"
    ensures Categorize(text) == Rule
  {
    var l := Lower(text);
    var words: seq<string> := [];
    WriteTestsFacts(l);
    WriteTestsAbsent(l);
    WriteTestsPreferenceRuledOut();
    WriteTestsSkillRuledOut();
    MatchIsHit(l, "always", 0);
    RowMisses(text, words, Preference, "kohpnn");
    RowMisses(text, words, Skill, "ckbxp");
    HitVia(text, l, Rule, "always");
  }

  /** "prefer" and "can" have all their letters in "paris is in france", but
      are none of its words. */
  lemma ParisFacts(l: string)
    requires l == "paris is in france"
    ensures Pad(l) == " paris is in france " && Pad("is in") == " is in "
    ensures MatchesFrom(" paris is in france ", " is in ", 6, 0)
  {
  }

  lemma ParisWords(l: string)
    requires l == "paris is in france"
    ensures Words(l, ["paris", "is", "in", "france"])
  {
    assert Join(" ", ["in", "france"]) == "in france";
    assert Join(" ", ["is", "in", "france"]) == "is in france";
  }

  lemma ParisAbsent(l: string)
    requires l == "paris is in france"
    ensures forall ch :: ch in "llh*jw" ==> ch !in l
    ensures forall ch :: ch in "*kbxo" ==> ch !in l
    ensures forall ch :: ch in "lvmhu" ==> ch !in l
  {
  }

  lemma ParisPreferenceRuledOut()
    ensures RuledOut(KeywordsOf(Preference), "llh*jw", ["paris", "is", "in", "france"], 0)
  {
    assert RuledOut(KeywordsOf(Preference), "llh*jw", ["paris", "is", "in", "france"], 4);
    assert RuledOut(KeywordsOf(Preference), "llh*jw", ["paris", "is", "in", "france"], 2);
  }

  lemma ParisSkillRuledOut()
    ensures RuledOut(KeywordsOf(Skill), "*kbxo", ["paris", "is", "in", "france"], 0)
  {
    assert RuledOut(KeywordsOf(Skill), "*kbxo", ["paris", "is", "in", "france"], 3);
    assert RuledOut(KeywordsOf(Skill), "*kbxo", ["paris", "is", "in", "france"], 1);
  }

  lemma ParisRuleRuledOut()
    ensures RuledOut(KeywordsOf(Rule), "lvmhu", ["paris", "is", "in", "france"], 0)
  {
    assert RuledOut(KeywordsOf(Rule), "lvmhu", ["paris", "is", "in", "france"], 3);
    assert RuledOut(KeywordsOf(Rule), "lvmhu", ["paris", "is", "in", "france"], 1);
  }

  /** Every text that lower-cases to "paris is in france" is a fact. */
  lemma CategorizeParis(text: string)
    requires Lower(text) == "paris is in france"
    ensures Categorize(text) == Fact
  {
    var l := Lower(text);
    var words := ["paris", "is", "in", "france"];
    ParisFacts(l);
    ParisWords(l);
    ParisAbsent(l);
    ParisPreferenceRuledOut();
    ParisSkillRuledOut();
    ParisRuleRuledOut();
    MatchIsHit(l, "is in", 6);
    RowMisses(text, words, Preference, "llh*jw");
    RowMisses(text, words, Skill, "*kbxo");
    RowMisses(text, words, Rule, "lvmhu");
    HitVia(text, l, Fact, "is in");
  }

  lemma RandomTextWords(l: string)
    requires l == "just some random text"
    ensures Words(l, ["just", "some", "random", "text"])
  {
    assert Join(" ", ["random", "text"]) == "random text";
    assert Join(" ", ["some", "random", "text"]) == "some random text";
  }

  lemma RandomTextAbsent(l: string)
    requires l == "just some random text"
    ensures forall ch :: ch in "llhpyw" ==> ch !in l
    ensures forall ch :: ch in "ckbpp" ==> ch !in l
    ensures forall ch :: ch in "lv*hl" ==> ch !in l
    ensures forall ch :: ch in "ilbfi" ==> ch !in l
  {
  }

  lemma RandomTextPreferenceRuledOut()
    ensures RuledOut(KeywordsOf(Preference), "llhpyw", ["just", "some", "random", "text"], 0)
  {
    assert RuledOut(KeywordsOf(Preference), "llhpyw", ["just", "some", "random", "text"], 4);
    assert RuledOut(KeywordsOf(Preference), "llhpyw", ["just", "some", "random", "text"], 2);
  }

  lemma RandomTextSkillRuledOut()
    ensures RuledOut(KeywordsOf(Skill), "ckbpp", ["just", "some", "random", "text"], 0)
  {
    assert RuledOut(KeywordsOf(Skill), "ckbpp", ["just", "some", "random", "text"], 3);
    assert RuledOut(KeywordsOf(Skill), "ckbpp", ["just", "some", "random", "text"], 1);
  }

  lemma RandomTextRuleRuledOut()
    ensures RuledOut(KeywordsOf(Rule), "lv*hl", ["just", "some", "random", "text"], 0)
  {
    assert RuledOut(KeywordsOf(Rule), "lv*hl", ["just", "some", "random", "text"], 3);
    assert RuledOut(KeywordsOf(Rule), "lv*hl", ["just", "some", "random", "text"], 1);
  }

  lemma RandomTextFactRuledOut()
    ensures RuledOut(KeywordsOf(Fact), "ilbfi", ["just", "some", "random", "text"], 0)
  {
    assert RuledOut(KeywordsOf(Fact), "ilbfi", ["just", "some", "random", "text"], 3);
    assert RuledOut(KeywordsOf(Fact), "ilbfi", ["just", "some", "random", "text"], 1);
  }

  /** Every text that lower-cases to "just some random text" has no keyword of
      any category: it is context. */
  lemma CategorizeRandomText(text: string)
    requires Lower(text) == "just some random text"
    ensures Categorize(text) == Context
  {
    var l := Lower(text);
    var words := ["just", "some", "random", "text"];
    RandomTextWords(l);
    RandomTextAbsent(l);
    RandomTextPreferenceRuledOut();
    RandomTextSkillRuledOut();
    RandomTextRuleRuledOut();
    RandomTextFactRuledOut();
    RowMisses(text, words, Preference, "llhpyw");
    RowMisses(text, words, Skill, "ckbpp");
    RowMisses(text, words, Rule, "lv*hl");
    RowMisses(text, words, Fact, "ilbfi");
  }

  /** The documented examples, on the literal texts. */
  lemma CategorizeExamples(t1: string, t2: string, t3: string, t4: string, t5: string)
    requires t1 == "I love Python" && t2 == "I can code in Rust" && t3 == "Always write tests"
    requires t4 == "Paris is in France" && t5 == "Just some random text"
    ensures Categorize(t1) == Preference && Categorize(t2) == Skill && Categorize(t3) == Rule
    ensures Categorize(t4) == Fact && Categorize(t5) == Context
  {
    LowerLovePython(t1);
    LowerCodeInRust(t2);
    LowerWriteTests(t3);
    LowerParis(t4);
    LowerRandomText(t5);
    CategorizeLovePython(t1);
    CategorizeCodeInRust(t2);
    CategorizeWriteTests(t3);
    CategorizeParis(t4);
    CategorizeRandomText(t5);
  }

  lemma LowerLovePython(t: string)
    requires t == "I love Python"
    ensures Lower(t) == "i love python"
  {
  }

  lemma LowerCodeInRust(t: string)
    requires t == "I can code in Rust"
    ensures Lower(t) == "i can code in rust"
  {
  }

  lemma LowerWriteTests(t: string)
    requires t == "Always write tests"
    ensures Lower(t) == "always write tests"
  {
  }

  lemma LowerParis(t: string)
    requires t == "Paris is in France"
    ensures Lower(t) == "paris is in france"
  {
  }

  lemma LowerRandomText(t: string)
    requires t == "Just some random text"
    ensures Lower(t) == "just some random text"
  {
  }
}
