/**
 * Answer selection (the top-1 branch of `find_relevant_context_cosine`) and
 * `capitalize_first_letter`. The sentence-transformer and the cosine
 * similarity stay outside: the selection receives one score per sentence.
 */
module Retrieval {
  import opened Wrappers
  import opened Strings
  import opened Splitting

  /** Scores below this are not answered. */
  const Threshold: real := 0.6

  /** The fixed reply when no sentence is similar enough. */
  const PoliteAnswer: string := "Пока что я только учусь, поэтому не могу ответить на Ваш вопрос. Пожалуйста, обратитесь в каналы технической поддержки в zulip."

  /** Separates the question from the answer inside a corpus sentence. */
  const Delimiter: string := "? "

  /** `argmax` of an empty score vector raises; `split("? ")[1]` without a delimiter raises IndexError. */
  datatype RetrievalError = EmptyCorpus | NoDelimiter

  /** `k` holds the largest score and no earlier index does (the first maximal index, as a tensor's `argmax` returns). */
  predicate IsFirstMax(scores: seq<real>, k: int)
  {
    && 0 <= k < |scores|
    && (forall i :: 0 <= i < |scores| ==> scores[i] <= scores[k])
    && (forall i :: 0 <= i < k ==> scores[i] < scores[k])
  }

  function ArgMax(scores: seq<real>): (k: nat)
    requires |scores| > 0
    ensures IsFirstMax(scores, k)
  {
    if |scores| == 1 then 0
    else
      var k := ArgMax(scores[..|scores| - 1]);
      if scores[|scores| - 1] > scores[k] then |scores| - 1 else k
  }

  /** `sentence.split("? ")[1]`. */
  function AnswerPart(sentence: string): (r: Result<string, RetrievalError>)
    ensures r.Success? <==> Contains(sentence, Delimiter)
    ensures r.Success? ==> !Contains(r.value, Delimiter)
  {
    var parts := Split(sentence, Delimiter);
    SplitPiecesFree(sentence, Delimiter);
    if |parts| < 2 then Failure(NoDelimiter) else Success(parts[1])
  }

  /** The answer part is the text right after the first "? ", up to the next "? " or the end. */
  lemma AnswerPartLocation(sentence: string, i: nat)
    requires FindFrom(sentence, Delimiter, 0) == Some(i)
    ensures AnswerPart(sentence).Success?
    ensures var a := AnswerPart(sentence).value;
            && i + 2 + |a| <= |sentence|
            && !Contains(sentence[..i], Delimiter)
            && sentence[i..i + 2] == Delimiter
            && sentence[i + 2..i + 2 + |a|] == a
            && (i + 2 + |a| == |sentence| || OccursAt(sentence, Delimiter, i + 2 + |a|))
  {
    assert |Delimiter| == 2;
    var parts := Split(sentence, Delimiter);
    SplitAt(sentence, Delimiter, i);
    var rest := sentence[i + 2..];
    var a := Split(rest, Delimiter)[0];
    assert parts[1] == parts[1..][0] == a;
    assert AnswerPart(sentence) == Success(a);
    SecondPieceLocation(sentence, Delimiter, i);
  }

  /** The top-1 branch: decline below the threshold, else the answer part of the best sentence. */
  function SelectAnswer(sentences: seq<string>, scores: seq<real>): (r: Result<string, RetrievalError>)
    requires |scores| == |sentences|
    ensures |sentences| == 0 <==> r == Failure(EmptyCorpus)
    ensures |sentences| > 0 && (forall i :: 0 <= i < |scores| ==> scores[i] < Threshold) ==> r == Success(PoliteAnswer)
    ensures (exists i :: 0 <= i < |scores| && scores[i] >= Threshold) ==>
              exists k :: IsFirstMax(scores, k) && r == AnswerPart(sentences[k])
  {
    if |sentences| == 0 then Failure(EmptyCorpus)
    else
      var best := ArgMax(scores);
      if scores[best] < Threshold then Success(PoliteAnswer)
      else AnswerPart(sentences[best])
  }

  /** `s` scores highest among `candidates` against `query`, and at least the threshold. */
  ghost predicate IsBestAboveThreshold(candidates: set<string>, query: string, similarity: (string, string) -> real, s: string)
  {
    && s in candidates && similarity(query, s) >= Threshold
    && forall t :: t in candidates ==> similarity(query, t) <= similarity(query, s)
  }

  /** The answer read off a set of candidate sentences scored against `query`. */
  ghost predicate IsRetrievedAnswer(candidates: set<string>, query: string, similarity: (string, string) -> real, answer: string)
  {
    || ((forall s :: s in candidates ==> similarity(query, s) < Threshold) && answer == PoliteAnswer)
    || exists s :: IsBestAboveThreshold(candidates, query, similarity, s) && AnswerPart(s) == Success(answer)
  }

  /** Whatever order the candidate sentences are listed in, the selected answer is
      the decline message when every score is below the threshold and otherwise the
      answer part of a best-scoring sentence, which must hold the delimiter. */
  lemma SelectAnswerFromCandidates(sentences: seq<string>, candidates: set<string>, query: string,
                                   similarity: (string, string) -> real)
    requires forall s :: s in sentences <==> s in candidates
    ensures var scores := seq(|sentences|, i requires 0 <= i < |sentences| => similarity(query, sentences[i]));
            var r := SelectAnswer(sentences, scores);
            && (r == Failure(EmptyCorpus) <==> candidates == {})
            && (r.Success? ==> IsRetrievedAnswer(candidates, query, similarity, r.value))
            && (r == Failure(NoDelimiter) ==>
                  exists s :: IsBestAboveThreshold(candidates, query, similarity, s) && !Contains(s, Delimiter))
  {
    var scores := seq(|sentences|, i requires 0 <= i < |sentences| => similarity(query, sentences[i]));
    if sentences == [] {
      assert forall c :: c !in candidates;
    } else {
      assert sentences[0] in candidates;
      var best := ArgMax(scores);
      var s := sentences[best];
      forall t | t in candidates ensures similarity(query, t) <= similarity(query, s) {
        var j :| 0 <= j < |sentences| && sentences[j] == t;
        assert scores[j] <= scores[best];
      }
      if similarity(query, s) < Threshold {
        assert SelectAnswer(sentences, scores) == Success(PoliteAnswer);
      } else {
        assert SelectAnswer(sentences, scores) == AnswerPart(s);
        assert IsBestAboveThreshold(candidates, query, similarity, s);
      }
    }
  }

  // ---------------------------------------------------------------------
  // Capitalisation

  /** The length of the run of `\s` characters at the start of `text`. */
  function LeadingSpaces(text: string): (n: nat)
    ensures n <= |text|
    ensures forall i :: 0 <= i < n ==> IsSpace(text[i])
    ensures n < |text| ==> !IsSpace(text[n])
  {
    if text == [] || !IsSpace(text[0]) then 0 else 1 + LeadingSpaces(text[1..])
  }

  /** `re.sub(r'^\s*([a-zA-Z])', lambda m: m.group(1).upper(), text)` as written: the whole
      match, leading whitespace included, is replaced by the upper-cased letter. */
  function CapitalizeAsWritten(text: string): (r: string)
    ensures var n := LeadingSpaces(text);
            n < |text| && IsAsciiLetter(text[n]) ==>
              && |r| == |text| - n
              && r[0] == UpperAscii(text[n]) && IsAsciiLetter(r[0]) && !IsAsciiLower(r[0])
              && r[1..] == text[n + 1..]
    ensures var n := LeadingSpaces(text);
            !(n < |text| && IsAsciiLetter(text[n])) ==> r == text
  {
    var n := LeadingSpaces(text);
    if n < |text| && IsAsciiLetter(text[n]) then [UpperAscii(text[n])] + text[n + 1..] else text
  }

  /** Applying the regex a second time changes nothing: the first pass leaves no leading
      whitespace before an upper-case letter, or leaves the text as it was. */
  lemma AsWrittenIdempotent(text: string)
    ensures CapitalizeAsWritten(CapitalizeAsWritten(text)) == CapitalizeAsWritten(text)
  {
    var r := CapitalizeAsWritten(text);
    var n := LeadingSpaces(text);
    if n < |text| && IsAsciiLetter(text[n]) {
      assert !IsSpace(r[0]);
      assert LeadingSpaces(r) == 0;
      assert [r[0]] + r[1..] == r;
    }
  }

  /** Upper-case the first character after the leading whitespace when it is an ASCII letter. */
  function CapitalizeFirstLetter(text: string): (r: string)
    ensures |r| == |text|
    ensures forall i :: 0 <= i < |text| && i != LeadingSpaces(text) ==> r[i] == text[i]
    ensures LeadingSpaces(text) < |text| ==> r[LeadingSpaces(text)] == UpperAscii(text[LeadingSpaces(text)])
  {
    var n := LeadingSpaces(text);
    if n < |text| && IsAsciiLetter(text[n]) then text[..n] + [UpperAscii(text[n])] + text[n + 1..] else text
  }

  /** Capitalising twice is capitalising once. */
  lemma CapitalizeIdempotent(text: string)
    ensures CapitalizeFirstLetter(CapitalizeFirstLetter(text)) == CapitalizeFirstLetter(text)
  {
    var r := CapitalizeFirstLetter(text);
    var n := LeadingSpaces(text);
    LeadingSpacesSame(text, r, n);
  }

  lemma {:induction false} LeadingSpacesSame(text: string, r: string, n: nat)
    requires n == LeadingSpaces(text) && |r| == |text|
    requires forall i :: 0 <= i < n ==> r[i] == text[i]
    requires n < |text| ==> !IsSpace(r[n])
    ensures LeadingSpaces(r) == n
  {
    if n > 0 {
      LeadingSpacesSame(text[1..], r[1..], n - 1);
    } else if r != [] {
      assert !IsSpace(r[0]);
    }
  }

  /** Under the corrected rule only an ASCII lower-case initial changes; a Cyrillic or any other initial is left alone. */
  lemma NonAsciiInitialUnchanged(text: string)
    requires LeadingSpaces(text) == |text| || !IsAsciiLower(text[LeadingSpaces(text)])
    ensures CapitalizeFirstLetter(text) == text
  {
  }

  /** The regex as written changes nothing when no ASCII letter follows the leading whitespace
      (a Cyrillic initial, a digit, or whitespace only); an upper-case initial still loses that whitespace. */
  lemma AsWrittenNonLetterUnchanged(text: string)
    requires LeadingSpaces(text) == |text| || !IsAsciiLetter(text[LeadingSpaces(text)])
    ensures CapitalizeAsWritten(text) == text
  {
  }

  /** The regex as written differs from the intended rule exactly by dropping the leading whitespace. */
  lemma AsWrittenDropsLeadingSpace(text: string)
    ensures var n := LeadingSpaces(text);
            CapitalizeAsWritten(text)
            == if n < |text| && IsAsciiLetter(text[n]) then CapitalizeFirstLetter(text)[n..] else CapitalizeFirstLetter(text)
  {
    var n := LeadingSpaces(text);
    if n < |text| && IsAsciiLetter(text[n]) {
      DropFront(text[..n], UpperAscii(text[n]), text[n + 1..]);
    }
  }

  lemma DropFront(p: string, x: char, q: string)
    ensures (p + [x] + q)[|p|..] == [x] + q
  {
  }

  /** " ok" comes back as "Ok", one character shorter, rather than " Ok". */
  lemma AsWrittenCounterexample()
    ensures CapitalizeAsWritten(" ok") == "Ok"
    ensures CapitalizeFirstLetter(" ok") == " Ok"
  {
    assert LeadingSpaces(" ok") == 1 by {
      assert " ok"[1..] == "ok";
      assert LeadingSpaces("ok") == 0;
    }
    assert " ok"[2..] == "k";
  }

  /** What `capitalize_first_letter` receives: one string, or a list of them. */
  datatype Reply = Text(text: string) | Texts(texts: seq<string>)

  /** The list branch maps the single-string rule, as written, over the elements, in order. */
  function CapitalizeReply(x: Reply): (r: Reply)
    ensures x.Text? ==> r == Text(CapitalizeAsWritten(x.text))
    ensures x.Texts? ==> r.Texts? && |r.texts| == |x.texts|
    ensures x.Texts? ==> forall i :: 0 <= i < |x.texts| ==> r.texts[i] == CapitalizeAsWritten(x.texts[i])
  {
    match x
    case Text(t) => Text(CapitalizeAsWritten(t))
    case Texts(ts) => Texts(seq(|ts|, i requires 0 <= i < |ts| => CapitalizeAsWritten(ts[i])))
  }
}
