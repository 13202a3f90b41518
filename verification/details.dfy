/**
 * The local fallback extractor `basic_details_from_text` in resume_app/app.py, Name
 * and Skills parts: the name is the first non-blank line cut down to name characters
 * and to 80 of them; the skills are the entries of a fixed list that occur in the
 * lowercased text, as a sorted list without repeats.
 */
module Details {
  import opened Wrappers
  import opened TextUtil
  import opened Seqs

  /** The character class `[A-Za-z .'-]` a name may keep. */
  predicate IsNameChar(c: char) {
    IsAsciiLetter(c) || c == ' ' || c == '.' || c == '\'' || c == '-'
  }

  const NAME_LIMIT: nat := 80

  /** `re.sub(r"[^A-Za-z .'-]", "", s)`: the name characters of `s`, in order. */
  function KeepNameChars(s: string): (r: string)
    ensures forall c :: c in r <==> c in s && IsNameChar(c)
    ensures IsSubsequence(r, s)
    ensures |s| == 1 ==> r == (if IsNameChar(s[0]) then s else [])
  {
    if s == [] then []
    else
      var k := KeepNameChars(s[..|s| - 1]);
      var c := s[|s| - 1];
      assert s == s[..|s| - 1] + [c];
      if IsNameChar(c) then
        assert (k + [c])[..|k + [c]| - 1] == k;
        k + [c]
      else
        SubsequenceOfLonger(k, s[..|s| - 1], c);
        k
  }

  /**
   * The substitution works character by character: the kept characters of a
   * concatenation are those of each part, in turn. With the one-character case in
   * KeepNameChars's contract this fixes the result, multiplicities included.
   */
  lemma {:induction false} KeepNameCharsConcat(a: string, b: string)
    ensures KeepNameChars(a + b) == KeepNameChars(a) + KeepNameChars(b)
    decreases |b|
  {
    if b == [] {
      assert a + b == a;
    } else {
      var init := b[..|b| - 1];
      var c := b[|b| - 1];
      var ab := a + b;
      var kept := if IsNameChar(c) then [c] else [];
      assert ab[..|ab| - 1] == a + init && ab[|ab| - 1] == c;
      calc {
        KeepNameChars(ab);
        KeepNameChars(a + init) + kept;
        { KeepNameCharsConcat(a, init); }
        KeepNameChars(a) + KeepNameChars(init) + kept;
        { assert b[..|b| - 1] == init; }
        KeepNameChars(a) + KeepNameChars(b);
      }
    }
  }

  /** `s[:n]`. */
  function Take(s: string, n: nat): (r: string)
    ensures |r| <= n && IsPrefix(r, s)
    ensures |s| >= n ==> |r| == n
    ensures |s| <= n ==> r == s
    ensures CharsFrom(r, s)
  {
    if |s| <= n then s
    else
      assert forall k :: 0 <= k < n ==> s[..n][k] == s[k];
      s[..n]
  }

  /** Position of the first line whose strip is non-empty, or `|lines|` if there is none. */
  function FirstNonBlankIndex(lines: seq<string>): (i: nat)
    ensures i <= |lines|
    ensures forall j :: 0 <= j < i ==> IsBlank(lines[j])
    ensures i < |lines| ==> !IsBlank(lines[i])
  {
    if lines == [] then 0
    else
      StripEmptyIffBlank(lines[0]);
      if Strip(lines[0]) != [] then 0 else 1 + FirstNonBlankIndex(lines[1..])
  }

  /**
   * `next((ln.strip() for ln in lines if ln.strip()), "")`: the stripped first
   * non-blank line, or empty when every line is blank.
   */
  function FirstNonBlank(lines: seq<string>): (r: string)
    ensures r == [] <==> forall l :: l in lines ==> IsBlank(l)
    ensures r != [] ==> r == Strip(lines[FirstNonBlankIndex(lines)])
  {
    var i := FirstNonBlankIndex(lines);
    if i < |lines| then
      StripEmptyIffBlank(lines[i]);
      Strip(lines[i])
    else
      []
  }

  /**
   * `details["Name"]`: missing exactly when the whole text is blank; otherwise at most
   * 80 characters, all from `[A-Za-z .'-]`, each found in the text.
   */
  function Name(text: string): (r: Option<string>)
    ensures r.None? <==> IsBlank(text)
    ensures r.Some? ==>
              |r.value| <= NAME_LIMIT &&
              forall c :: c in r.value ==> IsNameChar(c) && c in text
  {
    NoFirstLineIffBlank(text);
    FirstLineFromText(text);
    var firstLine := FirstNonBlank(SplitLines(text));
    if firstLine == [] then None else Some(Take(KeepNameChars(firstLine), NAME_LIMIT))
  }

  /** There is no non-blank line exactly when the whole text is blank. */
  lemma NoFirstLineIffBlank(text: string)
    ensures FirstNonBlank(SplitLines(text)) == [] <==> IsBlank(text)
  {
    var lines := SplitLines(text);
    if FirstNonBlank(lines) == [] {
      forall c | c in text ensures IsSpace(c) {
        var k :| 0 <= k < |text| && text[k] == c;
        if !IsLineBreak(c) {
          SplitLinesCover(text, k);
          var l :| l in lines && c in l;
          assert IsBlank(l);
        } else {
          LineBreakIsSpace(c);
        }
      }
    } else {
      var i := FirstNonBlankIndex(lines);
      var l := lines[i];
      assert l in lines && !IsBlank(l);
      var c :| c in l && !IsSpace(c);
      assert CharsFrom(l, text);
    }
  }

  /** The stripped first line is made of characters of the text. */
  lemma FirstLineFromText(text: string)
    ensures CharsFrom(FirstNonBlank(SplitLines(text)), text)
  {
    var lines := SplitLines(text);
    if FirstNonBlank(lines) != [] {
      var l := lines[FirstNonBlankIndex(lines)];
      assert l in lines;
    }
  }

  /** The skill keywords `common_skills`, in source order. */
  const COMMON_SKILLS: seq<string> := [
    "python", "java", "c++", "javascript", "react", "node", "sql", "nosql", "aws", "gcp", "azure",
    "docker", "kubernetes", "git", "machine learning", "data analysis", "agile", "scrum"
  ]

  /** `[s for s in common_skills if s in lower]`. */
  function FoundSkills(lower: string, skills: seq<string>): (r: seq<string>)
    ensures forall s :: s in r <==> s in skills && IsSubstring(s, lower)
  {
    if skills == [] then []
    else if IsSubstring(skills[0], lower) then [skills[0]] + FoundSkills(lower, skills[1..])
    else FoundSkills(lower, skills[1..])
  }

  /** Strictly increasing in Python's string order: sorted and free of repeats. */
  predicate StrictlySorted(s: seq<string>) {
    forall i, j :: 0 <= i < j < |s| ==> LexLess(s[i], s[j])
  }

  /** Put `x` into its place in a strictly sorted list, unless it is already there. */
  function Insert(x: string, s: seq<string>): (r: seq<string>)
    requires StrictlySorted(s)
    ensures StrictlySorted(r)
    ensures forall y :: y in r <==> y == x || y in s
  {
    if s == [] then [x]
    else if x == s[0] then s
    else if LexLess(x, s[0]) then
      assert forall j :: 0 < j < |s| ==> LexLess(x, s[j]) by {
        forall j | 0 < j < |s| ensures LexLess(x, s[j]) {
          LexLessTransitive(x, s[0], s[j]);
        }
      }
      [x] + s
    else
      LexLessTotal(x, s[0]);
      var t := Insert(x, s[1..]);
      assert forall y :: y in t ==> LexLess(s[0], y);
      [s[0]] + t
  }

  /** `sorted(set(xs))`. */
  function SortedSet(xs: seq<string>): (r: seq<string>)
    ensures StrictlySorted(r)
    ensures forall y :: y in r <==> y in xs
  {
    if xs == [] then [] else Insert(xs[0], SortedSet(xs[1..]))
  }

  /**
   * `details["Skills"]`: sorted, without repeats, and exactly the entries of
   * `common_skills` that occur in the lowercased text.
   */
  function Skills(text: string): (r: seq<string>)
    ensures StrictlySorted(r) && NoDup(r)
    ensures forall s :: s in r <==> s in COMMON_SKILLS && IsSubstring(s, Lower(text))
  {
    var r := SortedSet(FoundSkills(Lower(text), COMMON_SKILLS));
    StrictlySortedNoDup(r);
    r
  }

  /** A strictly sorted list has no repeats. */
  lemma StrictlySortedNoDup(s: seq<string>)
    requires StrictlySorted(s)
    ensures NoDup(s)
  {
    forall i, j | 0 <= i < j < |s| ensures s[i] != s[j] {
      if s[i] == s[j] {
        LexLessIrreflexive(s[i]);
      }
    }
  }

  /** A strictly sorted list is determined by its elements: `sorted(set(...))` has one answer. */
  lemma {:induction false} StrictlySortedUnique(a: seq<string>, b: seq<string>)
    requires StrictlySorted(a) && StrictlySorted(b)
    requires forall y :: y in a <==> y in b
    ensures a == b
    decreases |a|
  {
    assert a == [] <==> b == [] by {
      if a != [] { assert a[0] in a; }
      if b != [] { assert b[0] in b; }
    }
    if a != [] {
      if a[0] != b[0] {
        // each head occurs in the other list after its head, so each is below the other
        assert a[0] in b && b[0] in a;
        LexLessTotal(a[0], b[0]);
        LexLessAsymmetric(a[0], b[0]);
      }
      forall y ensures y in a[1..] <==> y in b[1..] {
        if y in a[1..] {
          var k :| 1 <= k < |a| && a[k] == y;
          assert LexLess(a[0], y);
          if y == b[0] { LexLessIrreflexive(y); }
          assert y in b;
        }
        if y in b[1..] {
          var k :| 1 <= k < |b| && b[k] == y;
          assert LexLess(b[0], y);
          if y == a[0] { LexLessIrreflexive(y); }
          assert y in a;
        }
      }
      StrictlySortedUnique(a[1..], b[1..]);
      assert a == [a[0]] + a[1..] && b == [b[0]] + b[1..];
    }
  }
}
