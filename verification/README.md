# Resume screener: keyword matching and ATS scoring

This project models the deterministic core of a resume screening service. Each part
below is a function of resume_app/app.py:

- **Keyword extraction** (`extract_keywords`). The text is lowercased. A word pass
  collects the matches of `[a-zA-Z][a-zA-Z+\-/#&.\d]{2,}`, drops stopwords and keeps
  first occurrences. A phrase pass forms bigrams of the letter runs and keeps those
  found in a fixed tuple of two-word phrases, again first occurrences only. The
  result is the phrases followed by the words.
- **ATS scoring** (`calculate_ats`). A blank job description, or one without
  keywords, scores 0 with empty lists. Otherwise the job description's keywords are
  split into those the resume also has ("matched") and those it lacks ("missing").
  The score is the rounded percentage of distinct keywords matched.
- **Local detail fallback** (`basic_details_from_text`, Name and Skills parts). The
  name is the first non-blank line, stripped, cut down to `[A-Za-z .'-]` and to 80
  characters. The skills are the entries of a fixed list that occur in the
  lowercased text, as a sorted list without repeats.
- **JSON block extraction** (`extract_json_block`). The model returns the text from
  the first `{` to the last `}`, or nothing.

Modules:

- `Wrappers` holds `Option`.
- `Seqs` holds repeat-free sequences, first-occurrence de-duplication and membership
  filters.
- `TextUtil` models the Python `str` behaviour the core relies on: ASCII `lower()`,
  `isspace()`, `strip()`, `splitlines()`, substring `in`, and string `<`.
- `KeywordExtraction`, `Ats`, `Details` and `JsonBlock` model the four functions
  above.

`extract_keywords` works by updating lists and seen sets in two loops. It is
modelled as the method `ExtractKeywords`, whose loop invariants tie each loop's
state to the function `Keywords`. Everything else in the core is pure and is
modelled as functions with lemmas.

The phrase tuple contains `"a/b testing"`, but bigrams are made of letter runs
joined by one space, so that phrase can never be produced
(`ABTestingNeverEmitted`).

The word pass and the phrase pass keep separate seen sets. The output still never
repeats an entry, because every phrase contains a space and no word does
(`KeywordsNoDup`). The code runs the word pass first and puts the phrases first in
the output. The model follows the code, and the order in which the passes run does
not change the result.

## Model

| member | source | states |
|---|---|---|
| KeywordExtraction.ExtractKeywords | resume_app/app.py:85-104 | The two loops, with their `seen`/`seen2` sets, return exactly `Keywords(text)`: the recognised phrases among the bigrams (first occurrences, in order), followed by the non-stopword word-regex matches (first occurrences, in order). |
| KeywordExtraction.WordTokens | resume_app/app.py:86 | `re.findall` of the word regex. The function has no contract of its own; the lemmas named here pin its result on every text. They state the match shape (WordTokensShape), that matches occur in the text (WordTokensOccur), splitting at a cut no match crosses (WordTokensSplit), that every whole match is found (WordTokensFind), and that too-short runs give none (WordTokensShortRun). |
| KeywordExtraction.WordTokensShape | resume_app/app.py:86 | Every match of the word regex is at least 3 characters long, starts with a letter, consists of word-class characters only, and takes its characters from the scanned text. |
| KeywordExtraction.WordTokensOccur | resume_app/app.py:86 | Every match of the word regex occurs in the scanned text as a contiguous run: the scanner makes up no token. |
| KeywordExtraction.WordTokensShortRun | resume_app/app.py:86 | A run of class characters whose letters all lie among its last two characters holds no match, since a match needs a letter followed by at least two class characters. |
| KeywordExtraction.WordTokensSplit | resume_app/app.py:86 | Cutting the text where no match can span the cut (a non-class character on one side) splits the matches into those before the cut followed by those after it. |
| KeywordExtraction.WordTokensFind | resume_app/app.py:86 | `findall` misses no match: a whole run of class characters, starting with a letter and at least 3 long, that follows a boundary and only non-letters, is returned in place, between the matches before it and those after it. |
| KeywordExtraction.WordTokenFound | resume_app/app.py:86 | A whole match of the word regex with no class character on either side is among the matches. |
| KeywordExtraction.LetterTokens | resume_app/app.py:94 | `re.findall(r"[a-zA-Z]+", ...)`. The function has no contract of its own; the lemmas named here pin its result on every text. They state the token shape (LetterTokensShape), splitting beside a non-letter (LetterTokensSplit), that every maximal run is found (LetterTokensFind), that adjacent runs give consecutive tokens (LetterTokensAdjacent), and that letterless text gives none (NoLetterNoTokens). |
| KeywordExtraction.LetterTokensShape | resume_app/app.py:94 | Every match of `[a-zA-Z]+` is non-empty and made of ASCII letters only. |
| KeywordExtraction.LetterTokensSplit | resume_app/app.py:94 | Cutting the text next to a non-letter splits the letter runs into those before the cut followed by those after it. |
| KeywordExtraction.LetterTokensFind | resume_app/app.py:94 | `findall` misses no letter run: every maximal run of ASCII letters is returned in place, between the runs before it and those after it. |
| KeywordExtraction.LetterTokensAdjacent | resume_app/app.py:94 | Two maximal letter runs with only non-letters between them are returned as consecutive tokens. |
| KeywordExtraction.AdjacentLetterRunsBigram | resume_app/app.py:94-95 | Two maximal letter runs with only non-letters between them, joined by one space, form one of the bigrams. |
| KeywordExtraction.AdjacentRunsBigram | resume_app/app.py:94-95 | The same for the lowercased text, with the letter runs located in the original text. |
| KeywordExtraction.Bigrams | resume_app/app.py:95 | `zip(tokens, tokens[1:])` gives one bigram fewer than there are tokens (none for fewer than two). The bigram at position i is token i and token i+1 joined by one space. |
| KeywordExtraction.WordKeys | resume_app/app.py:86-93 | The word loop emits no entry twice. A string is emitted exactly when it is a word-regex match of the lowercased text and not a stopword. |
| KeywordExtraction.PhraseKeys | resume_app/app.py:94-103 | The phrase loop emits no entry twice. A string is emitted exactly when it is a bigram of the lowercased text's letter runs and is in the phrase tuple. |
| KeywordExtraction.Keywords | resume_app/app.py:85-104 | A string is in the output exactly when it is a recognised phrase among the bigrams, or a non-stopword match of the word regex, of the lowercased text. |
| KeywordExtraction.WordInKeywords | resume_app/app.py:85-104 | A word present in the text is extracted: a lowercase, non-stopword word-regex match with no class character on either side of it in the text is among the keywords. |
| KeywordExtraction.PhraseInKeywords | resume_app/app.py:94-103 | A listed phrase present in the text is extracted: two maximal letter runs with only non-letters between them, which lowercase to the words of a listed phrase, put that phrase into the phrase block. That block is the front of the output. |
| KeywordExtraction.BigramShape | resume_app/app.py:95 | A bigram of letters-only tokens contains a space and otherwise only letters. |
| KeywordExtraction.WordKeysShape | resume_app/app.py:86-93 | Every word the word pass emits is a lowercase match of the word regex, is not in `STOP`, and contains no space. |
| KeywordExtraction.PhraseKeysShape | resume_app/app.py:94-103 | Every phrase the phrase pass emits is in the phrase tuple, contains a space, and is otherwise made of letters. |
| KeywordExtraction.KeywordsShape | resume_app/app.py:85-104 | Each output entry is either a recognised phrase containing a space, or a non-stopword lowercase word token without one. |
| KeywordExtraction.SpaceSeparatesPasses | resume_app/app.py:86-103 | Every phrase-pass entry contains a space; no word-pass entry does. |
| KeywordExtraction.KeywordsNoDup | resume_app/app.py:85-104 | The output of `extract_keywords` never contains the same entry twice, even though the two passes keep separate seen sets. |
| KeywordExtraction.PhrasesHaveSpace | resume_app/app.py:100-101 | Every entry of the phrase tuple contains a space. |
| KeywordExtraction.PhrasesBeforeWords | resume_app/app.py:104 | An output entry is a recognised phrase if and only if its position is before the end of the phrase block. Every entry after that block is a keyword word, so every phrase comes before every word. |
| KeywordExtraction.ABTestingNeverEmitted | resume_app/app.py:94-103 | `"a/b testing"`, although listed in the phrase tuple, is never in the output for any text. |
| KeywordExtraction.KeywordsCaseInsensitive | resume_app/app.py:86-94 | Extracting from the lowercased text gives the same output as extracting from the text itself. |
| KeywordExtraction.KeywordsOfBlank | resume_app/app.py:85-104 | Whitespace-only or empty text yields no keywords. |
| KeywordExtraction.NoLetterNoTokens | resume_app/app.py:86-94 | Text without ASCII letters has no word matches and no letter tokens. |
| Ats.RoundHalfEven | resume_app/app.py:118 | `round(num/den)` lies within one half of the exact ratio (`-den <= 2*(r*den - num) <= den`), and equals the ratio when the division is exact. |
| Ats.PercentBounds | resume_app/app.py:118 | The rounded percentage of m out of n (with m <= n) lies in [0, 100], is 100 when m = n, and is 0 when m = 0. |
| Ats.MatchKeywords | resume_app/app.py:113-119 | For any keyword lists, `matched` holds exactly the job-description keywords that are resume keywords, without repeats. `missing` holds exactly those that are not, without repeats when the job-description keywords have none. |
| Ats.CalculateAts | resume_app/app.py:107-119 | For any inputs, `matched` holds exactly the job description's keywords that the resume also has, and `missing` exactly those it lacks. Neither list repeats a keyword, and the score is at most 100. |
| Ats.MatchKeywordsSpec | resume_app/app.py:113-119 | On repeat-free job-description keywords: each keyword is in exactly one of matched and missing. Both lists come only from those keywords, their lengths add up to the keyword count, and each keeps the keyword order without repeats. Matched keywords are resume keywords and missing ones are not. The score is within one half of 100·matched/keywords and lies in [0, 100]: 100 when nothing is missing, 0 when nothing matched. |
| Ats.AtsShortCircuit | resume_app/app.py:107-112 | A blank job description, or one with no keywords, gives score 0 with empty matched and missing lists, whatever the resume. |
| Ats.AtsBlankHasNoKeywords | resume_app/app.py:108-112 | A blank job description has no keywords, so the first short circuit is a special case of the second. |
| Ats.AtsSpec | resume_app/app.py:107-119 | `calculate_ats` past its short circuits: the MatchKeywordsSpec properties with the job description's and the resume's extracted keywords (order, no repeats, exact partition, membership among resume keywords, score within one half of the percentage and in [0, 100]). |
| Ats.AtsFullCoverage | resume_app/app.py:113-119 | A resume holding every job-description keyword scores 100, matches all the keywords in order, and misses none. |
| Ats.AtsNoOverlap | resume_app/app.py:113-119 | A resume sharing no keyword with the job description scores 0, matches nothing, and misses every keyword in order. |
| Seqs.Dedup | resume_app/app.py:87-93 | First-occurrence de-duplication (a seen-set loop, or `dict.fromkeys`) yields a sequence without repeats, with the same elements, and no longer than the input. |
| Seqs.DedupKeepsFirstOccurrenceOrder | resume_app/app.py:87-93 | De-duplication keeps first-occurrence order: of two kept elements, the earlier one in the result occurs first in the input. |
| Seqs.DedupOfNoDup | resume_app/app.py:116-117 | `dict.fromkeys` on a list without repeats returns the list unchanged. |
| Seqs.FilterIn | resume_app/app.py:114-115 | The list comprehension keeps exactly the elements that pass the membership test, in input order (a subsequence), and keeps a repeat-free input repeat-free. |
| Seqs.FilterInSplit | resume_app/app.py:114-115 | Together, the `in` filter and the `not in` filter have as many elements as the list they filter. |
| Seqs.FilterInAll | resume_app/app.py:114-115 | A filter that every element passes returns the whole list. |
| Seqs.NoDupConcat | resume_app/app.py:104 | Two repeat-free lists separated by an element (every entry of the first holds it, none of the second does) concatenate into a repeat-free list. |
| Seqs.DedupFilterStep | resume_app/app.py:88-103 | One loop iteration: de-duplicating the filtered prefix extended by one element adds that element exactly when it passes the filter and is not yet present. |
| TextUtil.Lower | resume_app/app.py:74 | Lowercasing maps each character on its own (ASCII capitals to small letters, everything else unchanged), so in this model the result has the input's length. |
| TextUtil.LowerIdempotent | resume_app/app.py:86-94 | Lowercasing twice is the same as lowercasing once. |
| TextUtil.Strip | resume_app/app.py:64 | `strip()` keeps characters of the input, and a non-empty result neither starts nor ends with whitespace. |
| TextUtil.StripEmptyIffBlank | resume_app/app.py:64 | `ln.strip()` is empty exactly when the line is empty or whitespace only. |
| TextUtil.SplitLines | resume_app/app.py:64 | Every line from `splitlines()` is made of characters of the text. |
| TextUtil.SplitLinesCover | resume_app/app.py:64 | Every character that is not a line boundary lies on one of the lines from `splitlines()`. |
| TextUtil.LexLessIrreflexive | resume_app/app.py:76 | No string sorts before itself. |
| TextUtil.LexLessTransitive | resume_app/app.py:76 | String order `<` is transitive. |
| TextUtil.LexLessAsymmetric | resume_app/app.py:76 | String order `<` is asymmetric. |
| TextUtil.LexLessTotal | resume_app/app.py:76 | Of two different strings, one sorts before the other. |
| Details.KeepNameChars | resume_app/app.py:65 | `re.sub(r"[^A-Za-z .'-]", "", s)` keeps exactly the name characters of `s`, in order. A one-character string is kept when it is a name character and emptied otherwise. |
| Details.KeepNameCharsConcat | resume_app/app.py:65 | The substitution acts character by character: the result for a concatenation is the result for each part, in turn. With the one-character case this fixes the result, repeated characters included. |
| Details.Take | resume_app/app.py:65 | `s[:n]` is a prefix of `s` of length min(n, \|s\|). |
| Details.FirstNonBlankIndex | resume_app/app.py:64 | Every line before the returned position is blank, and the line at that position (if any) is not. |
| Details.FirstNonBlank | resume_app/app.py:64 | The generator's `next` yields "" exactly when every line is blank. Otherwise it yields the stripped first non-blank line. |
| Details.NoFirstLineIffBlank | resume_app/app.py:64 | No line of `splitlines()` survives `strip()` exactly when the whole text is empty or whitespace only. |
| Details.Name | resume_app/app.py:62-65 | The name is None exactly when the whole text is empty or whitespace only. Otherwise it has at most 80 characters, all from `[A-Za-z .'-]`, each occurring in the text. |
| Details.FirstLineFromText | resume_app/app.py:64 | The stripped first non-blank line is made of characters of the text. |
| Details.FoundSkills | resume_app/app.py:75 | The comprehension keeps exactly the listed skills that occur as substrings of the lowercased text. |
| Details.Insert | resume_app/app.py:76 | Inserting into a strictly sorted list keeps it strictly sorted and adds exactly the new element. |
| Details.SortedSet | resume_app/app.py:76 | `sorted(set(xs))` is strictly increasing and has exactly the elements of `xs`. |
| Details.Skills | resume_app/app.py:70-76 | The skills are sorted and repeat-free, and a string is among them exactly when it is in `common_skills` and occurs in the lowercased text. |
| Details.StrictlySortedNoDup | resume_app/app.py:76 | A strictly increasing list has no repeats. |
| Details.StrictlySortedUnique | resume_app/app.py:76 | Two strictly sorted lists with the same elements are equal, so `sorted(set(...))` has exactly one possible result. |
| JsonBlock.ExtractJsonBlock | resume_app/app.py:146-148 | `re.search(r"\{.*\}", text, re.DOTALL)` finds no match exactly when no `{` comes before a `}`. A match starts with `{` and ends with `}`, begins at the first `{` of the text, and is at least as long as any `{`…`}` span in the text. |

## Left out

- The Email and Phone regexes of `basic_details_from_text` (resume_app/app.py:66-69) are not modelled; only Name and Skills are.
- Reading PDF and DOCX files, the Gemini HTTP calls with their retries, `json.loads` on the extracted block, the Flask routes and uploads are I/O or network work and are not modelled.
- main.py, resume_app/resume_extractor.py and utils/scorer.py are not part of this model.
- TextUtil.Lower: lowercases ASCII letters only; Python's `lower()` also maps non-ASCII letters. This shows in the output: the Kelvin sign U+212A lowercases to `k` in Python, so "\u212Aubernetes" yields the keyword "kubernetes" there but "ubernetes" here. Python's `lower()` can also change the length of a string (U+0130 becomes two characters), so the length preservation stated for Lower holds for the model only.
- KeywordExtraction.WordTokens: `\d` is taken as the ASCII digits; Python's `\d` also matches other Unicode decimal digits.
- Ats.RoundHalfEven: rounds the exact ratio 100·m/n half to even. The source rounds the float `100 * (m / n)`, whose value can differ from the exact ratio by a rounding error. The two can therefore disagree at a ratio that is exactly a half.
- JsonBlock.ExtractJsonBlock: the caller's fallback to the whole reply when no block is found is not modelled.
- TextUtil.SplitLines: only states that lines come from the text and (in SplitLinesCover) that they cover it. The exact split into lines is stated by its definition.
