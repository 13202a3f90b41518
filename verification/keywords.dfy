/**
 * Keyword extraction (`extract_keywords` in resume_app/app.py): a word pass over
 * the regex `[a-zA-Z][a-zA-Z+\-/#&.\d]{2,}` with stopwords dropped, and a phrase
 * pass over adjacent letters-only tokens that keeps a fixed list of two-word
 * phrases. Both passes keep first occurrences only; phrases come first.
 */
module KeywordExtraction {
  import opened TextUtil
  import opened Seqs

  /** The words of the stopword literal, in source order. */
  const STOP_WORDS: seq<string> := [
    "a", "an", "the", "and", "or", "for", "with", "of", "in", "to", "from", "on", "at", "by",
    "be", "is", "are", "as", "into", "via", "using", "use", "uses", "user",
    "we", "you", "they", "them", "this", "that", "these", "those",
    "strong", "excellent", "good", "great"
  ]
  /** The stopword set `STOP`: the set of those words. */
  const STOP: set<string> := set w | w in STOP_WORDS

  /** The tuple of recognised two-word phrases the bigram pass tests against. */
  const PHRASE_LIST: seq<string> := [
    "system design", "data structures", "machine learning", "product roadmap",
    "user research", "a/b testing", "cloud computing"
  ]
  /** Membership in the phrase tuple, as a set. */
  const PHRASES: set<string> := set w | w in PHRASE_LIST

  /** The character class `[a-zA-Z+\-/#&.\d]` of the word regex (digits taken as ASCII). */
  predicate IsWordChar(c: char) {
    IsAsciiLetter(c) || IsAsciiDigit(c) || c == '+' || c == '-' || c == '/' || c == '#' || c == '&' || c == '.'
  }

  /** A whole match of the word regex. */
  predicate IsWordToken(t: string) {
    |t| >= 3 && IsAsciiLetter(t[0]) && forall c :: c in t ==> IsWordChar(c)
  }

  /** A keyword of the word pass: a lowercase word-regex match that is not a stopword. */
  predicate IsKeywordWord(w: string) {
    IsWordToken(w) && (forall c :: c in w ==> !IsAsciiUpper(c)) && w !in STOP
  }

  /** Length of the longest prefix of `s` made of word-class characters. */
  function WordRun(s: string): (n: nat)
    ensures n <= |s|
    ensures forall k :: 0 <= k < n ==> IsWordChar(s[k])
    ensures n < |s| ==> !IsWordChar(s[n])
  {
    if s == [] || !IsWordChar(s[0]) then 0 else 1 + WordRun(s[1..])
  }

  /**
   * `re.findall(r"[a-zA-Z][a-zA-Z+\-/#&.\d]{2,}", s)`, as a left-to-right scan: at a
   * letter the greedy class run is taken whole when it is at least three characters
   * long; otherwise the scan moves on by one character.
   */
  function WordTokens(s: string): seq<string>
    decreases |s|
  {
    if s == [] then []
    else if IsAsciiLetter(s[0]) && WordRun(s) >= 3 then
      var n := WordRun(s);
      [s[..n]] + WordTokens(s[n..])
    else
      WordTokens(s[1..])
  }

  /** Every match of the word regex is a whole match made of characters of the text. */
  lemma {:induction false} WordTokensShape(s: string)
    ensures forall t :: t in WordTokens(s) ==> IsWordToken(t) && CharsFrom(t, s)
    decreases |s|
  {
    if s != [] {
      if IsAsciiLetter(s[0]) && WordRun(s) >= 3 {
        var n := WordRun(s);
        WordTokensShape(s[n..]);
        assert forall c :: c in s[..n] ==> IsWordChar(c) && c in s;
      } else {
        WordTokensShape(s[1..]);
      }
    }
  }

  /** Every match of the word regex occurs in the text as a contiguous run. */
  lemma {:induction false} WordTokensOccur(s: string)
    ensures forall t :: t in WordTokens(s) ==> IsSubstring(t, s)
    decreases |s|
  {
    if s != [] {
      var n := if IsAsciiLetter(s[0]) && WordRun(s) >= 3 then WordRun(s) else 1;
      WordTokensOccur(s[n..]);
      forall t | t in WordTokens(s[n..]) ensures IsSubstring(t, s) {
        SubstringOfSuffix(t, s, n);
      }
      if n > 1 {
        assert IsPrefix(s[..n], s);
      }
    }
  }

  /**
   * A run of class characters whose letters all lie among its last two characters
   * holds no match: a match needs a letter followed by at least two more characters
   * of the class.
   */
  lemma {:induction false} WordTokensShortRun(s: string, m: nat)
    requires m <= |s|
    requires forall q :: 0 <= q < m ==> IsWordChar(s[q])
    requires m == |s| || !IsWordChar(s[m])
    requires forall q :: 0 <= q < m - 2 ==> !IsAsciiLetter(s[q])
    ensures WordTokens(s) == WordTokens(s[m..])
    decreases m
  {
    if m > 0 {
      // a letter here starts the whole run, which is too short to match
      assert IsAsciiLetter(s[0]) ==> WordRun(s) == m;
      assert s[1..][m - 1..] == s[m..];
      WordTokensShortRun(s[1..], m - 1);
    }
  }

  /** Length of the longest prefix of `s` made of ASCII letters. */
  function LetterRun(s: string): (n: nat)
    ensures n <= |s|
    ensures forall k :: 0 <= k < n ==> IsAsciiLetter(s[k])
    ensures n < |s| ==> !IsAsciiLetter(s[n])
  {
    if s == [] || !IsAsciiLetter(s[0]) then 0 else 1 + LetterRun(s[1..])
  }

  /** `re.findall(r"[a-zA-Z]+", s)`: the maximal runs of letters, left to right. */
  function LetterTokens(s: string): seq<string>
    decreases |s|
  {
    if s == [] then []
    else if IsAsciiLetter(s[0]) then
      var n := LetterRun(s);
      [s[..n]] + LetterTokens(s[n..])
    else
      LetterTokens(s[1..])
  }

  /** Every letter token is a non-empty run of ASCII letters. */
  lemma {:induction false} LetterTokensShape(s: string)
    ensures forall t :: t in LetterTokens(s) ==> t != [] && forall c :: c in t ==> IsAsciiLetter(c)
    decreases |s|
  {
    if s != [] {
      if IsAsciiLetter(s[0]) {
        var n := LetterRun(s);
        LetterTokensShape(s[n..]);
        assert forall c :: c in s[..n] ==> IsAsciiLetter(c);
      } else {
        LetterTokensShape(s[1..]);
      }
    }
  }

  /** `[" ".join(pair) for pair in zip(tokens, tokens[1:])]`. */
  function Bigrams(tokens: seq<string>): (r: seq<string>)
    ensures |r| == if |tokens| < 2 then 0 else |tokens| - 1
    ensures forall i :: 0 <= i < |r| ==> r[i] == tokens[i] + " " + tokens[i + 1]
  {
    if |tokens| < 2 then []
    else seq(|tokens| - 1, i requires 0 <= i < |tokens| - 1 => tokens[i] + " " + tokens[i + 1])
  }

  /** A bigram of letters-only tokens holds one space and otherwise letters. */
  lemma BigramShape(tokens: seq<string>)
    requires forall t :: t in tokens ==> forall c :: c in t ==> IsAsciiLetter(c)
    ensures forall b :: b in Bigrams(tokens) ==>
              ' ' in b && forall c :: c in b ==> c == ' ' || IsAsciiLetter(c)
  {
    forall b | b in Bigrams(tokens)
      ensures ' ' in b && forall c :: c in b ==> c == ' ' || IsAsciiLetter(c)
    {
      var i :| 0 <= i < |tokens| - 1 && b == tokens[i] + " " + tokens[i + 1];
      assert b[|tokens[i]|] == ' ';
      assert tokens[i] in tokens && tokens[i + 1] in tokens;
    }
  }

  /** The word pass: the non-stopword matches of the word regex, first occurrences only. */
  function WordKeys(lower: string): (r: seq<string>)
    ensures NoDup(r)
    ensures forall w :: w in r <==> w in WordTokens(lower) && w !in STOP
  {
    Dedup(FilterIn(WordTokens(lower), STOP, false))
  }

  /** The phrase pass: the recognised bigrams of the letter tokens, first occurrences only. */
  function PhraseKeys(lower: string): (r: seq<string>)
    ensures NoDup(r)
    ensures forall p :: p in r <==> p in Bigrams(LetterTokens(lower)) && p in PHRASES
  {
    Dedup(FilterIn(Bigrams(LetterTokens(lower)), PHRASES, true))
  }

  /** What `extract_keywords(text)` returns: `key_ngrams + uniq`. */
  function Keywords(text: string): (r: seq<string>)
    ensures forall k :: k in r <==>
              (k in Bigrams(LetterTokens(Lower(text))) && k in PHRASES) ||
              (k in WordTokens(Lower(text)) && k !in STOP)
  {
    PhraseKeys(Lower(text)) + WordKeys(Lower(text))
  }

  /**
   * `extract_keywords`, loop for loop: the word pass with its `seen` set, then the
   * tokenisation into letters and the bigram pass with its `seen2` set.
   */
  method ExtractKeywords(text: string) returns (keys: seq<string>)
    ensures keys == Keywords(text)
  {
    var lower := Lower(text);
    var words := WordTokens(lower);
    var uniq: seq<string> := [];
    var seen: set<string> := {};
    for i := 0 to |words|
      invariant uniq == Dedup(FilterIn(words[..i], STOP, false))
      invariant forall w :: w in seen <==> w in uniq
    {
      var w := words[i];
      DedupFilterStep(words, i, STOP, false);
      if w in STOP {
        continue;
      }
      if w !in seen {
        seen := seen + {w};
        uniq := uniq + [w];
      }
    }
    assert words[..|words|] == words;

    var tokens := LetterTokens(lower);
    var bigrams := Bigrams(tokens);
    var keyNgrams: seq<string> := [];
    var seen2: set<string> := {};
    for i := 0 to |bigrams|
      invariant keyNgrams == Dedup(FilterIn(bigrams[..i], PHRASES, true))
      invariant forall b :: b in seen2 <==> b in keyNgrams
    {
      var bg := bigrams[i];
      DedupFilterStep(bigrams, i, PHRASES, true);
      if bg in seen2 {
        continue;
      }
      if bg in PHRASES {
        seen2 := seen2 + {bg};
        keyNgrams := keyNgrams + [bg];
      }
    }
    assert bigrams[..|bigrams|] == bigrams;
    keys := keyNgrams + uniq;
  }

  /** Every phrase the phrase pass emits is a recognised phrase made of letters and one space. */
  lemma PhraseKeysShape(lower: string)
    ensures forall p :: p in PhraseKeys(lower) ==>
              p in PHRASES && ' ' in p && forall c :: c in p ==> c == ' ' || IsAsciiLetter(c)
  {
    LetterTokensShape(lower);
    BigramShape(LetterTokens(lower));
  }

  /** Every word the word pass emits on lowercased text is a lowercase word-regex match and no stopword. */
  lemma WordKeysShape(text: string)
    ensures forall w :: w in WordKeys(Lower(text)) ==> IsKeywordWord(w) && ' ' !in w
  {
    WordTokensShape(Lower(text));
    LowerHasNoUpper(text);
  }

  /** Each entry is either a recognised phrase (holding a space) or a keyword word (holding none). */
  lemma KeywordsShape(text: string)
    ensures forall k :: k in Keywords(text) ==>
              (k in PHRASES && ' ' in k) || (IsKeywordWord(k) && ' ' !in k)
  {
    PhraseKeysShape(Lower(text));
    WordKeysShape(text);
  }

  /** Phrases hold a space; words never do. */
  lemma SpaceSeparatesPasses(lower: string)
    ensures forall p :: p in PhraseKeys(lower) ==> ' ' in p
    ensures forall w :: w in WordKeys(lower) ==> ' ' !in w
  {
    LetterTokensShape(lower);
    BigramShape(LetterTokens(lower));
    WordTokensShape(lower);
  }

  /** `extract_keywords` never returns the same entry twice. */
  lemma KeywordsNoDup(text: string)
    ensures NoDup(Keywords(text))
  {
    SpaceSeparatesPasses(Lower(text));
    NoDupConcat(PhraseKeys(Lower(text)), WordKeys(Lower(text)), ' ');
  }

  /** Every recognised phrase is two words joined by a space. */
  lemma PhrasesHaveSpace()
    ensures forall p :: p in PHRASES ==> ' ' in p
  {
    forall p | p in PHRASES ensures ' ' in p {
      var k :| 0 <= k < |PHRASE_LIST| && PHRASE_LIST[k] == p;
      assert PHRASE_LIST[k][|p| - 1] != ' ';
    }
  }

  /**
   * The output is the phrases followed by the words: every entry before position
   * |PhraseKeys| is a recognised phrase, every entry from there on a keyword word
   * (which is never a phrase), so each phrase comes before each word.
   */
  lemma PhrasesBeforeWords(text: string)
    ensures forall i :: 0 <= i < |Keywords(text)| ==>
              (Keywords(text)[i] in PHRASES <==> i < |PhraseKeys(Lower(text))|)
    ensures forall i :: |PhraseKeys(Lower(text))| <= i < |Keywords(text)| ==> IsKeywordWord(Keywords(text)[i])
  {
    var p := PhraseKeys(Lower(text));
    var w := WordKeys(Lower(text));
    var r := Keywords(text);
    PhraseKeysShape(Lower(text));
    WordKeysShape(text);
    PhrasesHaveSpace();
    forall i | 0 <= i < |r| ensures r[i] in PHRASES <==> i < |p| {
      if i < |p| {
        assert r[i] == p[i];
      } else {
        assert r[i] == w[i - |p|];
      }
    }
  }

  /** "a/b testing" is in the phrase tuple but is never emitted: bigrams hold letters and a space only. */
  lemma ABTestingNeverEmitted(text: string)
    ensures "a/b testing" !in Keywords(text)
  {
    var lower := Lower(text);
    var ab := "a/b testing";
    assert ab[1] == '/' && ab[3] == ' ';
    assert '/' in ab && ' ' in ab;
    LetterTokensShape(lower);
    BigramShape(LetterTokens(lower));
    assert ab !in Bigrams(LetterTokens(lower));
    WordTokensShape(lower);
    assert ab !in WordTokens(lower);
  }

  /** The output for a text equals the output for its lowercase form. */
  lemma KeywordsCaseInsensitive(text: string)
    ensures Keywords(Lower(text)) == Keywords(text)
  {
    LowerIdempotent(text);
  }

  /** Whitespace-only (or empty) text yields no keywords. */
  lemma {:induction false} KeywordsOfBlank(text: string)
    requires IsBlank(text)
    ensures Keywords(text) == []
  {
    var lower := Lower(text);
    assert forall k :: 0 <= k < |lower| ==> !IsAsciiLetter(lower[k]) by {
      forall k | 0 <= k < |lower| ensures !IsAsciiLetter(lower[k]) {
        assert text[k] in text;
      }
    }
    NoLetterNoTokens(lower);
  }

  lemma {:induction false} NoLetterNoTokens(s: string)
    requires forall k :: 0 <= k < |s| ==> !IsAsciiLetter(s[k])
    ensures WordTokens(s) == [] && LetterTokens(s) == []
    decreases |s|
  {
    if s != [] {
      NoLetterNoTokens(s[1..]);
    }
  }

  // ---------------------------------------------------------------------------
  // Completeness of the scanners: every regex match present in the text is found.
  // ---------------------------------------------------------------------------

  /** A cut position that no word-class run crosses: the regex scan passes through it. */
  predicate WordBoundary(s: string, p: nat)
    requires p <= |s|
  {
    p == 0 || p == |s| || !IsWordChar(s[p - 1]) || !IsWordChar(s[p])
  }

  /** A cut position that no letter run crosses. */
  predicate LetterBoundary(s: string, p: nat)
    requires p <= |s|
  {
    p == 0 || p == |s| || !IsAsciiLetter(s[p - 1]) || !IsAsciiLetter(s[p])
  }

  /** A word-class run that ends before the cut is unchanged by cutting. */
  lemma {:induction false} WordRunPrefix(s: string, p: nat)
    requires WordRun(s) <= p <= |s|
    ensures WordRun(s[..p]) == WordRun(s)
    decreases p
  {
    if p > 0 && IsWordChar(s[0]) {
      assert s[..p][0] == s[0] && s[..p][1..] == s[1..][..p - 1];
      WordRunPrefix(s[1..], p - 1);
    } else if p > 0 {
      assert s[..p][0] == s[0];
    }
  }

  /** A letter run that ends before the cut is unchanged by cutting. */
  lemma {:induction false} LetterRunPrefix(s: string, p: nat)
    requires LetterRun(s) <= p <= |s|
    ensures LetterRun(s[..p]) == LetterRun(s)
    decreases p
  {
    if p > 0 && IsAsciiLetter(s[0]) {
      assert s[..p][0] == s[0] && s[..p][1..] == s[1..][..p - 1];
      LetterRunPrefix(s[1..], p - 1);
    } else if p > 0 {
      assert s[..p][0] == s[0];
    }
  }

  /** Scanning for the word regex on both sides of a boundary is scanning the whole text. */
  lemma {:induction false} WordTokensSplit(s: string, p: nat)
    requires p <= |s| && WordBoundary(s, p)
    ensures WordTokens(s) == WordTokens(s[..p]) + WordTokens(s[p..])
    decreases |s|, 1
  {
    if p == 0 {
      assert s[..0] == [] && s[0..] == s;
    } else if p == |s| {
      assert s[..p] == s && s[p..] == [];
    } else {
      // no run starting at 0 reaches past the boundary
      var n := WordRun(s);
      assert n <= p;
      WordRunPrefix(s, p);
      assert s[..p][0] == s[0];
      if IsAsciiLetter(s[0]) && n >= 3 {
        WordTokensSplitAfterToken(s, p, n);
      } else {
        WordTokensSplitAfterSkip(s, p);
      }
    }
  }

  /** WordTokensSplit when the scan takes the run `s[..n]` first. */
  lemma {:induction false} WordTokensSplitAfterToken(s: string, p: nat, n: nat)
    requires 0 < p < |s| && WordBoundary(s, p)
    requires n == WordRun(s) && n <= p && WordRun(s[..p]) == n && s[..p][0] == s[0] && IsAsciiLetter(s[0]) && n >= 3
    ensures WordTokens(s) == WordTokens(s[..p]) + WordTokens(s[p..])
    decreases |s|, 0
  {
    var t := s[..p];
    var u := s[n..];
    assert WordBoundary(u, p - n) by {
      if 0 < p - n {
        assert u[p - n - 1] == s[p - 1] && u[p - n] == s[p];
      }
    }
    calc {
      WordTokens(s);
      [s[..n]] + WordTokens(u);
      { WordTokensSplit(u, p - n); }
      [s[..n]] + (WordTokens(u[..p - n]) + WordTokens(u[p - n..]));
      { assert u[..p - n] == t[n..]; assert u[p - n..] == s[p..]; }
      [s[..n]] + WordTokens(t[n..]) + WordTokens(s[p..]);
      { assert t[..n] == s[..n]; }
      WordTokens(t) + WordTokens(s[p..]);
    }
  }

  /** WordTokensSplit when the scan moves past the first character. */
  lemma {:induction false} WordTokensSplitAfterSkip(s: string, p: nat)
    requires 0 < p < |s| && WordBoundary(s, p)
    requires WordRun(s) <= p && WordRun(s[..p]) == WordRun(s) && s[..p][0] == s[0] && !(IsAsciiLetter(s[0]) && WordRun(s) >= 3)
    ensures WordTokens(s) == WordTokens(s[..p]) + WordTokens(s[p..])
    decreases |s|, 0
  {
    var t := s[..p];
    var u := s[1..];
    assert WordBoundary(u, p - 1) by {
      if 0 < p - 1 {
        assert u[p - 2] == s[p - 1] && u[p - 1] == s[p];
      }
    }
    calc {
      WordTokens(s);
      WordTokens(u);
      { WordTokensSplit(u, p - 1); }
      WordTokens(u[..p - 1]) + WordTokens(u[p - 1..]);
      { assert u[..p - 1] == t[1..]; assert u[p - 1..] == s[p..]; }
      WordTokens(t[1..]) + WordTokens(s[p..]);
      WordTokens(t) + WordTokens(s[p..]);
    }
  }

  /** Scanning for letter runs on both sides of a boundary is scanning the whole text. */
  lemma {:induction false} LetterTokensSplit(s: string, p: nat)
    requires p <= |s| && LetterBoundary(s, p)
    ensures LetterTokens(s) == LetterTokens(s[..p]) + LetterTokens(s[p..])
    decreases |s|, 1
  {
    if p == 0 {
      assert s[..0] == [] && s[0..] == s;
    } else if p == |s| {
      assert s[..p] == s && s[p..] == [];
    } else {
      // no run starting at 0 reaches past the boundary
      var n := LetterRun(s);
      assert n <= p;
      LetterRunPrefix(s, p);
      assert s[..p][0] == s[0];
      if IsAsciiLetter(s[0]) {
        LetterTokensSplitAfterToken(s, p, n);
      } else {
        LetterTokensSplitAfterSkip(s, p);
      }
    }
  }

  /** LetterTokensSplit when the scan takes the run `s[..n]` first. */
  lemma {:induction false} LetterTokensSplitAfterToken(s: string, p: nat, n: nat)
    requires 0 < p < |s| && LetterBoundary(s, p)
    requires n == LetterRun(s) && n <= p && LetterRun(s[..p]) == n && s[..p][0] == s[0] && IsAsciiLetter(s[0])
    ensures LetterTokens(s) == LetterTokens(s[..p]) + LetterTokens(s[p..])
    decreases |s|, 0
  {
    var t := s[..p];
    var u := s[n..];
    assert LetterBoundary(u, p - n) by {
      if 0 < p - n {
        assert u[p - n - 1] == s[p - 1] && u[p - n] == s[p];
      }
    }
    calc {
      LetterTokens(s);
      [s[..n]] + LetterTokens(u);
      { LetterTokensSplit(u, p - n); }
      [s[..n]] + (LetterTokens(u[..p - n]) + LetterTokens(u[p - n..]));
      { assert u[..p - n] == t[n..]; assert u[p - n..] == s[p..]; }
      [s[..n]] + LetterTokens(t[n..]) + LetterTokens(s[p..]);
      { assert t[..n] == s[..n]; }
      LetterTokens(t) + LetterTokens(s[p..]);
    }
  }

  /** LetterTokensSplit when the scan moves past the first character. */
  lemma {:induction false} LetterTokensSplitAfterSkip(s: string, p: nat)
    requires 0 < p < |s| && LetterBoundary(s, p)
    requires LetterRun(s) <= p && LetterRun(s[..p]) == LetterRun(s) && s[..p][0] == s[0] && !(IsAsciiLetter(s[0]))
    ensures LetterTokens(s) == LetterTokens(s[..p]) + LetterTokens(s[p..])
    decreases |s|, 0
  {
    var t := s[..p];
    var u := s[1..];
    assert LetterBoundary(u, p - 1) by {
      if 0 < p - 1 {
        assert u[p - 2] == s[p - 1] && u[p - 1] == s[p];
      }
    }
    calc {
      LetterTokens(s);
      LetterTokens(u);
      { LetterTokensSplit(u, p - 1); }
      LetterTokens(u[..p - 1]) + LetterTokens(u[p - 1..]);
      { assert u[..p - 1] == t[1..]; assert u[p - 1..] == s[p..]; }
      LetterTokens(t[1..]) + LetterTokens(s[p..]);
      LetterTokens(t) + LetterTokens(s[p..]);
    }
  }

  /** Leading characters that are not letters start no match of the word regex. */
  lemma {:induction false} WordTokensSkip(s: string, m: nat)
    requires m <= |s|
    requires forall q :: 0 <= q < m ==> !IsAsciiLetter(s[q])
    ensures WordTokens(s) == WordTokens(s[m..])
    decreases m
  {
    if m > 0 {
      assert s[1..][m - 1..] == s[m..];
      WordTokensSkip(s[1..], m - 1);
    }
  }

  /** A whole word-regex match, scanned on its own, is found whole. */
  lemma WordTokensOfToken(t: string)
    requires IsWordToken(t)
    ensures WordTokens(t) == [t]
  {
    var n := WordRun(t);
    assert t[..n] == t && t[n..] == [];
  }

  /** A run of letters, scanned on its own, is one letter token. */
  lemma LetterTokensOfRun(t: string)
    requires t != [] && forall q :: 0 <= q < |t| ==> IsAsciiLetter(t[q])
    ensures LetterTokens(t) == [t]
  {
    var n := LetterRun(t);
    assert t[..n] == t && t[n..] == [];
  }

  /**
   * `re.findall` of the word regex returns every match in place: if `s[k..j]` starts
   * with a letter, is a whole run of the class (nothing of the class follows it) and
   * is at least 3 long, and only non-letters lie between it and the previous
   * boundary `i`, then it is returned, between the matches before and after it.
   */
  lemma WordTokensFind(s: string, i: nat, k: nat, j: nat)
    requires i <= k < j <= |s|
    requires IsWordToken(s[k..j])
    requires i == 0 || !IsWordChar(s[i - 1])
    requires forall q :: i <= q < k ==> !IsAsciiLetter(s[q])
    requires j == |s| || !IsWordChar(s[j])
    ensures WordTokens(s) == WordTokens(s[..k]) + [s[k..j]] + WordTokens(s[j..])
  {
    WordTokensReach(s, i, k);
    WordTokensReachPrefix(s, i, k);
    WordTokensFrom(s, k, j);
    Regroup(WordTokens(s), WordTokens(s[..i]), WordTokens(s[..k]), WordTokens(s[k..]), s[k..j], WordTokens(s[j..]));
  }

  /** The sequence algebra behind WordTokensFind and LetterTokensFind, kept apart from the scanners. */
  lemma Regroup<T>(whole: seq<T>, front: seq<T>, front': seq<T>, rest: seq<T>, x: T, tail: seq<T>)
    requires whole == front + rest && front' == front && rest == [x] + tail
    ensures whole == front' + [x] + tail
  {
  }

  /** Scanning from the start of a whole match `s[k..j]` yields that match first. */
  lemma WordTokensFrom(s: string, k: nat, j: nat)
    requires k < j <= |s|
    requires IsWordToken(s[k..j])
    requires j == |s| || !IsWordChar(s[j])
    ensures WordTokens(s[k..]) == [s[k..j]] + WordTokens(s[j..])
  {
    var u := s[k..];
    assert u[..j - k] == s[k..j];
    assert j - k == |u| || u[j - k] == s[j];
    WordTokensTake(u, j - k);
    assert u[j - k..] == s[j..];
  }

  /**
   * Past a boundary i, leading non-letters up to k start no match: the matches of `s`
   * are those before i followed by those from k on.
   */
  lemma WordTokensReach(s: string, i: nat, k: nat)
    requires i <= k <= |s|
    requires i == 0 || !IsWordChar(s[i - 1])
    requires forall q :: i <= q < k ==> !IsAsciiLetter(s[q])
    ensures WordTokens(s) == WordTokens(s[..i]) + WordTokens(s[k..])
  {
    WordTokensSplit(s, i);
    WordTokensSkipFrom(s, i, k);
  }

  /** Non-letters between i and k start no match. */
  lemma WordTokensSkipFrom(s: string, i: nat, k: nat)
    requires i <= k <= |s|
    requires forall q :: i <= q < k ==> !IsAsciiLetter(s[q])
    ensures WordTokens(s[i..]) == WordTokens(s[k..])
  {
    var t := s[i..];
    assert forall q :: 0 <= q < k - i ==> t[q] == s[q + i];
    WordTokensSkip(t, k - i);
    assert t[k - i..] == s[k..];
  }

  /** Cutting the text at k past the same boundary and non-letters loses no match. */
  lemma WordTokensReachPrefix(s: string, i: nat, k: nat)
    requires i <= k <= |s|
    requires i == 0 || !IsWordChar(s[i - 1])
    requires forall q :: i <= q < k ==> !IsAsciiLetter(s[q])
    ensures WordTokens(s[..k]) == WordTokens(s[..i])
  {
    var pre := s[..k];
    assert WordBoundary(pre, i) by {
      if 0 < i { assert pre[i - 1] == s[i - 1]; }
    }
    WordTokensSplit(pre, i);
    assert pre[..i] == s[..i] && pre[i..] == s[i..k];
    NoLetterNoTokens(s[i..k]);
  }

  /** A text that starts with a whole word-regex match yields that match first. */
  lemma WordTokensTake(u: string, m: nat)
    requires m <= |u| && IsWordToken(u[..m])
    requires m == |u| || !IsWordChar(u[m])
    ensures WordTokens(u) == [u[..m]] + WordTokens(u[m..])
  {
    WordTokensSplit(u, m);
    WordTokensOfToken(u[..m]);
  }

  /**
   * `re.findall(r"[a-zA-Z]+", s)` returns every maximal letter run `s[k..j]` in
   * place, between the runs before and after it.
   */
  lemma LetterTokensFind(s: string, k: nat, j: nat)
    requires k < j <= |s|
    requires forall q :: k <= q < j ==> IsAsciiLetter(s[q])
    requires k == 0 || !IsAsciiLetter(s[k - 1])
    requires j == |s| || !IsAsciiLetter(s[j])
    ensures LetterTokens(s) == LetterTokens(s[..k]) + [s[k..j]] + LetterTokens(s[j..])
  {
    LetterTokensSplit(s, k);
    LetterTokensFrom(s, k, j);
    Regroup(LetterTokens(s), LetterTokens(s[..k]), LetterTokens(s[..k]), LetterTokens(s[k..]), s[k..j], LetterTokens(s[j..]));
  }

  /** Scanning from the start of a maximal letter run `s[k..j]` yields that run first. */
  lemma LetterTokensFrom(s: string, k: nat, j: nat)
    requires k < j <= |s|
    requires forall q :: k <= q < j ==> IsAsciiLetter(s[q])
    requires j == |s| || !IsAsciiLetter(s[j])
    ensures LetterTokens(s[k..]) == [s[k..j]] + LetterTokens(s[j..])
  {
    var u := s[k..];
    assert forall q :: 0 <= q < j - k ==> u[q] == s[q + k];
    assert j - k == |u| || u[j - k] == s[j];
    LetterTokensTake(u, j - k);
    assert u[..j - k] == s[k..j];
    assert u[j - k..] == s[j..];
  }

  /** A text that starts with a maximal letter run yields that run first. */
  lemma LetterTokensTake(u: string, m: nat)
    requires 0 < m <= |u|
    requires forall q :: 0 <= q < m ==> IsAsciiLetter(u[q])
    requires m == |u| || !IsAsciiLetter(u[m])
    ensures LetterTokens(u) == [u[..m]] + LetterTokens(u[m..])
  {
    LetterTokensSplit(u, m);
    LetterTokensOfRun(u[..m]);
  }

  /**
   * Two maximal letter runs separated only by non-letters are adjacent tokens, so
   * they form a bigram.
   */
  lemma LetterTokensAdjacent(s: string, k1: nat, j1: nat, k2: nat, j2: nat)
    requires k1 < j1 < k2 < j2 <= |s|
    requires forall q :: k1 <= q < j1 ==> IsAsciiLetter(s[q])
    requires forall q :: k2 <= q < j2 ==> IsAsciiLetter(s[q])
    requires forall q :: j1 <= q < k2 ==> !IsAsciiLetter(s[q])
    requires k1 == 0 || !IsAsciiLetter(s[k1 - 1])
    requires j2 == |s| || !IsAsciiLetter(s[j2])
    ensures LetterTokens(s) == LetterTokens(s[..k1]) + [s[k1..j1], s[k2..j2]] + LetterTokens(s[j2..])
  {
    LetterTokensFind(s, k1, j1);
    LetterTokensGapThenRun(s, j1, k2, j2);
    RegroupPair(LetterTokens(s), LetterTokens(s[..k1]), s[k1..j1], LetterTokens(s[j1..]), s[k2..j2], LetterTokens(s[j2..]));
  }

  /** The sequence algebra behind LetterTokensAdjacent, kept apart from the scanner. */
  lemma RegroupPair<T>(whole: seq<T>, front: seq<T>, x: T, rest: seq<T>, y: T, tail: seq<T>)
    requires whole == front + [x] + rest && rest == [y] + tail
    ensures whole == front + [x, y] + tail
  {
  }

  /** After a gap without letters, the next letter token is the maximal run `s[k..j]`. */
  lemma LetterTokensGapThenRun(s: string, g: nat, k: nat, j: nat)
    requires g < k < j <= |s|
    requires forall q :: k <= q < j ==> IsAsciiLetter(s[q])
    requires forall q :: g <= q < k ==> !IsAsciiLetter(s[q])
    requires j == |s| || !IsAsciiLetter(s[j])
    ensures LetterTokens(s[g..]) == [s[k..j]] + LetterTokens(s[j..])
  {
    var t := s[g..];
    calc {
      LetterTokens(t);
      { assert t[k - g - 1] == s[k - 1];
        assert forall q :: k - g <= q < j - g ==> t[q] == s[q + g];
        assert j - g == |t| || t[j - g] == s[j];
        LetterTokensFind(t, k - g, j - g); }
      LetterTokens(t[..k - g]) + [t[k - g..j - g]] + LetterTokens(t[j - g..]);
      { assert t[..k - g] == s[g..k];
        assert t[k - g..j - g] == s[k..j];
        assert t[j - g..] == s[j..];
        NoLetterNoTokens(s[g..k]); }
      [s[k..j]] + LetterTokens(s[j..]);
    }
  }

  /** Lowercasing does not change which characters belong to the word regex's class. */
  lemma LowerKeepsWordChar(c: char)
    ensures IsWordChar(LowerChar(c)) <==> IsWordChar(c)
  {
  }

  /**
   * A word present in the text is extracted: a lowercase, non-stopword match of the
   * word regex with no class character on either side is among the keywords.
   */
  lemma WordInKeywords(text: string, k: nat, j: nat)
    requires k < j <= |text|
    requires IsKeywordWord(Lower(text)[k..j])
    requires k == 0 || !IsWordChar(text[k - 1])
    requires j == |text| || !IsWordChar(text[j])
    ensures Lower(text)[k..j] in Keywords(text)
  {
    LowerWordTokenFound(text, k, j);
    WordTokenInKeywords(text, Lower(text)[k..j]);
  }

  /** WordTokenFound on the lowercased text, with the bounds checked on the original. */
  lemma LowerWordTokenFound(text: string, k: nat, j: nat)
    requires k < j <= |text|
    requires IsWordToken(Lower(text)[k..j])
    requires k == 0 || !IsWordChar(text[k - 1])
    requires j == |text| || !IsWordChar(text[j])
    ensures Lower(text)[k..j] in WordTokens(Lower(text))
  {
    var lower := Lower(text);
    assert k == 0 || !IsWordChar(lower[k - 1]) by {
      if k > 0 { LowerKeepsWordChar(text[k - 1]); }
    }
    assert j == |lower| || !IsWordChar(lower[j]) by {
      if j < |text| { LowerKeepsWordChar(text[j]); }
    }
    WordTokenFound(lower, k, j);
  }

  /** A whole match of the word regex with no class character on either side is returned. */
  lemma WordTokenFound(s: string, k: nat, j: nat)
    requires k < j <= |s|
    requires IsWordToken(s[k..j])
    requires k == 0 || !IsWordChar(s[k - 1])
    requires j == |s| || !IsWordChar(s[j])
    ensures s[k..j] in WordTokens(s)
  {
    WordTokensFind(s, k, k, j);
  }

  /** One direction of Keywords' contract, applied to a non-stopword match. */
  lemma WordTokenInKeywords(text: string, w: string)
    requires w in WordTokens(Lower(text)) && w !in STOP
    ensures w in Keywords(text)
  {
  }

  /**
   * A listed phrase present in the text is extracted: when two maximal letter runs
   * separated only by non-letters lowercase to the words of a phrase of the tuple,
   * that phrase is among the phrase keys, the block Keywords(text) lists first
   * (BigramInKeywords carries any such bigram on to Keywords(text)).
   */
  lemma PhraseInKeywords(text: string, phrase: string, k1: nat, j1: nat, k2: nat, j2: nat)
    requires k1 < j1 < k2 < j2 <= |text|
    requires forall q :: k1 <= q < j1 ==> IsAsciiLetter(text[q])
    requires forall q :: k2 <= q < j2 ==> IsAsciiLetter(text[q])
    requires forall q :: j1 <= q < k2 ==> !IsAsciiLetter(text[q])
    requires k1 == 0 || !IsAsciiLetter(text[k1 - 1])
    requires j2 == |text| || !IsAsciiLetter(text[j2])
    requires phrase == Lower(text)[k1..j1] + " " + Lower(text)[k2..j2]
    requires phrase in PHRASES
    ensures phrase in PhraseKeys(Lower(text))
  {
    assert phrase in Bigrams(LetterTokens(Lower(text))) by {
      AdjacentRunsBigram(text, k1, j1, k2, j2);
    }
  }

  /** One direction of Keywords' contract, applied to a listed bigram (e.g. one from PhraseInKeywords). */
  lemma BigramInKeywords(text: string, p: string)
    requires p in Bigrams(LetterTokens(Lower(text))) && p in PHRASES
    ensures p in Keywords(text)
  {
  }

  /** Two maximal letter runs separated only by non-letters give a bigram of the lowercased text. */
  lemma AdjacentRunsBigram(text: string, k1: nat, j1: nat, k2: nat, j2: nat)
    requires k1 < j1 < k2 < j2 <= |text|
    requires forall q :: k1 <= q < j1 ==> IsAsciiLetter(text[q])
    requires forall q :: k2 <= q < j2 ==> IsAsciiLetter(text[q])
    requires forall q :: j1 <= q < k2 ==> !IsAsciiLetter(text[q])
    requires k1 == 0 || !IsAsciiLetter(text[k1 - 1])
    requires j2 == |text| || !IsAsciiLetter(text[j2])
    ensures Lower(text)[k1..j1] + " " + Lower(text)[k2..j2] in Bigrams(LetterTokens(Lower(text)))
  {
    var lower := Lower(text);
    assert forall q :: 0 <= q < |text| ==> (IsAsciiLetter(lower[q]) <==> IsAsciiLetter(text[q]));
    AdjacentLetterRunsBigram(lower, k1, j1, k2, j2);
  }

  /** Two maximal letter runs separated only by non-letters give adjacent tokens, hence a bigram. */
  lemma AdjacentLetterRunsBigram(s: string, k1: nat, j1: nat, k2: nat, j2: nat)
    requires k1 < j1 < k2 < j2 <= |s|
    requires forall q :: k1 <= q < j1 ==> IsAsciiLetter(s[q])
    requires forall q :: k2 <= q < j2 ==> IsAsciiLetter(s[q])
    requires forall q :: j1 <= q < k2 ==> !IsAsciiLetter(s[q])
    requires k1 == 0 || !IsAsciiLetter(s[k1 - 1])
    requires j2 == |s| || !IsAsciiLetter(s[j2])
    ensures s[k1..j1] + " " + s[k2..j2] in Bigrams(LetterTokens(s))
  {
    LetterTokensAdjacent(s, k1, j1, k2, j2);
    var before := LetterTokens(s[..k1]);
    var tokens := LetterTokens(s);
    assert tokens[|before|] == s[k1..j1] && tokens[|before| + 1] == s[k2..j2];
    assert Bigrams(tokens)[|before|] == s[k1..j1] + " " + s[k2..j2];
  }
}
