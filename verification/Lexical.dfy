/** Lexical overlap between a task hint and an experience (`internal/localapp/experience_compiler.go`). */
module Lexical {
  import opened Common

  const MAX_OVERLAP := 10

  const STOPWORDS := {
    "a", "an", "and", "are", "as", "at", "be", "by", "for", "from", "in", "is", "it", "of", "on", "or",
    "that", "the", "this", "to", "with"
  }

  predicate TermChar(c: char) {
    'a' <= c <= 'z' || '0' <= c <= '9'
  }

  function NormalizeTerm(term: string): string {
    if term == "asynchronous" then "async"
    else if term in {"cancellation", "cancelled", "canceled", "cancelling", "canceling", "cancels"} then "cancel"
    else term
  }

  function Word(current: string): set<string> {
    if current == "" then {} else {current}
  }

  /** The maximal runs of lower-cased term characters in `s`, the first one continuing `current`. */
  function Words(s: string, current: string): set<string> {
    if s == "" then Word(current)
    else if TermChar(LowerChar(s[0])) then Words(s[1..], current + [LowerChar(s[0])])
    else Word(current) + Words(s[1..], "")
  }

  function Terms(s: string): set<string> {
    set word | word in Words(s, "") && NormalizeTerm(word) !in STOPWORDS :: NormalizeTerm(word)
  }

  function Overlap(hint: string, text: string): nat {
    var common := |Terms(hint) * Terms(text)|;
    if common < MAX_OVERLAP then common else MAX_OVERLAP
  }

  /** The counting loop, over the hint's terms in any order, stopping at ten. */
  method LexicalOverlap(hint: string, text: string) returns (overlap: nat)
    ensures overlap == Overlap(hint, text)
  {
    hide Terms;
    var hintTerms, textTerms := Terms(hint), Terms(text);
    var left := hintTerms;
    overlap := 0;
    ghost var found: set<string> := {};
    while left != {}
      invariant left <= hintTerms
      invariant found == (hintTerms - left) * textTerms && overlap == |found| < MAX_OVERLAP
      decreases left
    {
      var term :| term in left;
      left := left - {term};
      if term in textTerms {
        found := found + {term};
        overlap := overlap + 1;
        if overlap == MAX_OVERLAP {
          SubsetCardinality(found, hintTerms * textTerms);
          return;
        }
      }
    }
    assert found == hintTerms * textTerms;
  }

  // ---------- the terms of a text are those of its parts ----------

  lemma {:induction false} WordsOfParts(a: string, b: string, current: string)
    ensures Words(a + " " + b, current) == Words(a, current) + Words(b, "")
    decreases a
  {
    var s := a + " " + b;
    if a == "" {
      assert s[1..] == b;
    } else {
      assert s[0] == a[0] && s[1..] == a[1..] + " " + b;
      if TermChar(LowerChar(a[0])) {
        WordsOfParts(a[1..], b, current + [LowerChar(a[0])]);
      } else {
        WordsOfParts(a[1..], b, "");
      }
    }
  }

  lemma TermsOfParts(a: string, b: string)
    ensures Terms(a + " " + b) == Terms(a) + Terms(b)
  {
    WordsOfParts(a, b, "");
  }

  function TermsOfAll(parts: seq<string>): set<string> {
    set k, term | 0 <= k < |parts| && term in Terms(parts[k]) :: term
  }

  lemma {:induction false} TermsOfJoin(parts: seq<string>)
    ensures Terms(Join(parts, " ")) == TermsOfAll(parts)
  {
    if |parts| > 1 {
      TermsOfJoin(parts[1..]);
      TermsOfParts(parts[0], Join(parts[1..], " "));
      assert forall k :: 0 < k < |parts| ==> parts[k] == parts[1..][k - 1];
    }
  }

  /** The overlap is the number of shared terms, up to ten. */
  lemma OverlapCounts(hint: string, text: string)
    ensures Overlap(hint, text) <= 10 && Overlap(hint, text) <= |Terms(hint) * Terms(text)|
    ensures Overlap(hint, text) == 10 || Overlap(hint, text) == |Terms(hint) * Terms(text)|
  {
  }

  lemma OverlapPositive(hint: string, text: string)
    ensures Overlap(hint, text) > 0 <==> exists term :: term in Terms(hint) && term in Terms(text)
  {
    if term :| term in Terms(hint) && term in Terms(text) {
      assert term in Terms(hint) * Terms(text);
    } else {
      assert Terms(hint) * Terms(text) == {};
    }
  }

  // ---------- what the terms of a text are ----------

  predicate IsLetterOrDigit(c: char) {
    'a' <= c <= 'z' || 'A' <= c <= 'Z' || '0' <= c <= '9'
  }

  /** The characters from i to j are a longest run of letters and digits. */
  ghost predicate IsRun(s: string, i: nat, j: nat) {
    && i < j <= |s| && (forall k :: i <= k < j ==> IsLetterOrDigit(s[k]))
    && (i > 0 ==> !IsLetterOrDigit(s[i - 1])) && (j < |s| ==> !IsLetterOrDigit(s[j]))
  }

  lemma TermCharIff(c: char)
    ensures TermChar(LowerChar(c)) == IsLetterOrDigit(c)
  {
  }

  /** Where the run that `current` begins ends in s. */
  function RunEnd(s: string): (end: nat)
    ensures end <= |s|
  {
    if s == "" || !IsLetterOrDigit(s[0]) then 0 else 1 + RunEnd(s[1..])
  }

  lemma {:induction false} RunEndIs(s: string)
    ensures forall k :: 0 <= k < RunEnd(s) ==> IsLetterOrDigit(s[k])
    ensures RunEnd(s) < |s| ==> !IsLetterOrDigit(s[RunEnd(s)])
  {
    if s != "" && IsLetterOrDigit(s[0]) {
      RunEndIs(s[1..]);
    }
  }

  lemma {:induction false} WordsOfRun(s: string, current: string)
    ensures Words(s, current) ==
            Word(current + ToLower(s[..RunEnd(s)])) + (if RunEnd(s) < |s| then Words(s[RunEnd(s) + 1..], "") else {})
    decreases |s|
  {
    RunEndIs(s);
    if s == "" || !IsLetterOrDigit(s[0]) {
      if s != "" { TermCharIff(s[0]); }
      assert ToLower(s[..0]) == "" && current + "" == current;
    } else {
      TermCharIff(s[0]);
      WordsOfRun(s[1..], current + [LowerChar(s[0])]);
      var e := RunEnd(s[1..]);
      assert s[..e + 1] == [s[0]] + s[1..][..e];
      assert ToLower(s[..e + 1]) == [LowerChar(s[0])] + ToLower(s[1..][..e]);
      assert current + [LowerChar(s[0])] + ToLower(s[1..][..e]) == current + ToLower(s[..e + 1]);
      assert RunEnd(s) < |s| ==> s[1..][e + 1..] == s[RunEnd(s) + 1..];
    }
  }

  lemma {:induction false} WordsAreRuns(s: string, word: string)
    ensures word in Words(s, "") <==> exists i: nat, j: nat :: IsRun(s, i, j) && word == ToLower(s[i..j])
    decreases |s|
  {
    var e := RunEnd(s);
    RunEndIs(s);
    WordsOfRun(s, "");
    assert "" + ToLower(s[..e]) == ToLower(s[..e]) && s[0..e] == s[..e];
    RunsAreRuns(s, e);
    if e < |s| {
      WordsAreRuns(s[e + 1..], word);
    }
    hide Words, RunEnd, IsRun;
    if e < |s| {
      var rest := s[e + 1..];
      forall i: nat, j: nat | IsRun(rest, i, j)
        ensures s[i + e + 1..j + e + 1] == rest[i..j]
      {
      }
    }
  }

  /** The runs of a string are the one that reaches its first separator and those behind that separator. */
  lemma RunsAreRuns(s: string, e: nat)
    requires e <= |s| && (forall k :: 0 <= k < e ==> IsLetterOrDigit(s[k])) && (e < |s| ==> !IsLetterOrDigit(s[e]))
    ensures forall i: nat, j: nat :: IsRun(s, i, j) <==>
              || (i == 0 && j == e && e > 0)
              || (j > i > e && e < |s| && IsRun(s[e + 1..], i - e - 1, j - e - 1))
  {
  }

  /** A text's terms are its runs of letters and digits in lower case, without common words, by their usual form. */
  lemma TermsMean(s: string, term: string)
    ensures term in Terms(s) <==>
              && term !in STOPWORDS
              && exists i: nat, j: nat :: IsRun(s, i, j) && term == NormalizeTerm(ToLower(s[i..j]))
  {
    forall word
      ensures word in Words(s, "") <==> exists i: nat, j: nat :: IsRun(s, i, j) && word == ToLower(s[i..j])
    {
      WordsAreRuns(s, word);
    }
    hide IsRun, Words, NormalizeTerm;
    if term !in STOPWORDS {
      if i: nat, j: nat :| IsRun(s, i, j) && term == NormalizeTerm(ToLower(s[i..j])) {
        assert ToLower(s[i..j]) in Words(s, "");
      }
    }
  }

  /** The twenty-one common words are no terms, and two words are known in several forms. */
  lemma UsualForms(word: string)
    requires IsWord(word)
    ensures Terms(word) ==
              if word in {"a", "an", "and", "are", "as", "at", "be", "by", "for", "from", "in", "is", "it", "of", "on", "or",
                          "that", "the", "this", "to", "with"} then {}
              else if word in {"cancels", "cancelled", "canceled", "cancelling", "canceling", "cancellation"} then {"cancel"}
              else if word == "asynchronous" then {"async"}
              else {word}
  {
    hide *;
    TermsOfWord(word);
    NormalForm(word);
    CommonWords(word);
    CommonWords("cancel");
    CommonWords("async");
    LongTerms();
  }

  lemma TermsOfWord(word: string)
    requires IsWord(word)
    ensures Terms(word) == if NormalizeTerm(word) in STOPWORDS then {} else {NormalizeTerm(word)}
  {
    WordOfWord(word, "");
    assert "" + word == word;
    SomeWord(word);
    hide Words, IsWord, NormalizeTerm;
  }

  lemma NormalForm(word: string)
    ensures NormalizeTerm(word) ==
            if word in {"cancels", "cancelled", "canceled", "cancelling", "canceling", "cancellation"} then "cancel"
            else if word == "asynchronous" then "async"
            else word
  {
  }

  lemma CommonWords(word: string)
    ensures word in STOPWORDS <==>
              word in {"a", "an", "and", "are", "as", "at", "be", "by", "for", "from", "in", "is", "it", "of", "on", "or",
                       "that", "the", "this", "to", "with"}
  {
  }

  lemma LongTerms()
    ensures forall word :: word in STOPWORDS ==> |word| <= 4 && NormalizeTerm(word) == word
    ensures |"cancel"| == 6 && |"async"| == 5
  {
  }

  // ---------- a hint made of one term ----------

  predicate IsWord(s: string) {
    s != "" && forall k :: 0 <= k < |s| ==> TermChar(s[k])
  }

  lemma {:induction false} WordsAreWords(s: string, current: string, word: string)
    requires word in Words(s, current) && (current == "" || IsWord(current))
    ensures IsWord(word)
    decreases s
  {
    if s != "" {
      if TermChar(LowerChar(s[0])) {
        WordsAreWords(s[1..], current + [LowerChar(s[0])], word);
      } else if word in Words(s[1..], "") {
        WordsAreWords(s[1..], "", word);
      }
    }
  }

  lemma {:induction false} WordOfWord(s: string, current: string)
    requires s == "" || IsWord(s)
    ensures Words(s, current) == Word(current + s)
    decreases s
  {
    if s != "" {
      WordOfWord(s[1..], current + [s[0]]);
      assert current + [s[0]] + s[1..] == current + s;
    } else {
      assert current + s == current;
    }
  }

  lemma NormalizedWord(word: string)
    requires IsWord(word)
    ensures IsWord(NormalizeTerm(word)) && NormalizeTerm(NormalizeTerm(word)) == NormalizeTerm(word)
  {
  }

  lemma SomeWord(word: string)
    requires IsWord(word)
    ensures word != ""
  {
  }

  /** A term, given as a hint, is the hint's only term. */
  lemma TermIsItsOwnHint(s: string, term: string)
    requires term in Terms(s)
    ensures Terms(term) == {term}
  {
    var word :| word in Words(s, "") && NormalizeTerm(word) == term && term !in STOPWORDS;
    hide IsWord, NormalizeTerm, Words;
    WordsAreWords(s, "", word);
    NormalizedWord(word);
    WordOfWord(term, "");
    assert "" + term == term;
    SomeWord(term);
  }
}
