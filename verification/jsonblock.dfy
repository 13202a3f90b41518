/**
 * `extract_json_block` in resume_app/app.py: `re.search(r"\{.*\}", text, re.DOTALL)`.
 * The search succeeds at the leftmost `{` that has a `}` somewhere after it, and the
 * greedy `.*` (which crosses newlines under DOTALL) runs to the last `}` of the text.
 */
module JsonBlock {
  import opened Wrappers
  import opened TextUtil
  import opened Seqs

  /** Position of the last occurrence of `c` in `s`. */
  function LastIndex(s: string, c: char): (i: nat)
    requires c in s
    ensures i < |s| && s[i] == c
    ensures c !in s[i + 1..]
  {
    if s[|s| - 1] == c then |s| - 1
    else
      assert c in s[..|s| - 1] by {
        var k :| 0 <= k < |s| && s[k] == c;
        assert s[..|s| - 1][k] == c;
      }
      var i := LastIndex(s[..|s| - 1], c);
      assert s[i + 1..] == s[..|s| - 1][i + 1..] + [s[|s| - 1]];
      i
  }

  /** Some `{` comes before some `}`: the pattern `\{.*\}` has a match. */
  predicate HasBlock(text: string) {
    exists i, j :: 0 <= i < j < |text| && text[i] == '{' && text[j] == '}'
  }

  /**
   * The match of `\{.*\}` (DOTALL), or None. It starts at the first `{` and ends at
   * the last `}`, and no `{`…`}` span of the text is longer.
   */
  function ExtractJsonBlock(text: string): (r: Option<string>)
    ensures r.None? <==> !HasBlock(text)
    ensures r.Some? ==> |r.value| >= 2 && r.value[0] == '{' && r.value[|r.value| - 1] == '}'
    ensures r.Some? ==> '{' in text && IsPrefix(r.value, text[FirstIndex(text, '{')..])
    ensures r.Some? ==> forall i, j :: 0 <= i < j < |text| && text[i] == '{' && text[j] == '}' ==>
              j - i + 1 <= |r.value|
  {
    if '{' !in text || '}' !in text then None
    else
      var open := FirstIndex(text, '{');
      var close := LastIndex(text, '}');
      if open < close then
        assert text[open..][..close + 1 - open] == text[open..close + 1];
        Some(text[open..close + 1])
      else
        None
  }
}
