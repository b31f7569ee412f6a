/**
 * Corpus extraction (`extract_corpus_texts`): the distinct sentences
 * `question + " " + answers[0].text` over every qa of every paragraph of the
 * first article of a dataset file. The file has already been read; reading
 * it is not part of this model.
 */
module Corpus {
  import opened Wrappers
  import opened QaFormat

  /** Both are an IndexError in the source: `data[0]` or `answers[0]` is missing. */
  datatype CorpusError = NoArticle | NoAnswer

  /** The retrieval sentence of one qa. */
  function Sentence(qa: Qa): string
    requires |qa.answers| > 0
  {
    qa.question + " " + qa.answers[0].text
  }

  ghost predicate AnswersPresent(ps: seq<Paragraph>)
  {
    forall i, j :: 0 <= i < |ps| && 0 <= j < |ps[i].qas| ==> |ps[i].qas[j].answers| > 0
  }

  predicate NoDuplicates(xs: seq<string>)
  {
    forall i, j :: 0 <= i < j < |xs| ==> xs[i] != xs[j]
  }

  ghost function QaSentences(qas: seq<Qa>): set<string>
    requires forall j :: 0 <= j < |qas| ==> |qas[j].answers| > 0
  {
    if qas == [] then {} else QaSentences(qas[..|qas| - 1]) + {Sentence(qas[|qas| - 1])}
  }

  ghost function ParagraphSentences(ps: seq<Paragraph>): set<string>
    requires AnswersPresent(ps)
  {
    if ps == [] then {}
    else
      var init := ps[..|ps| - 1];
      assert AnswersPresent(init) by {
        forall i, j | 0 <= i < |init| && 0 <= j < |init[i].qas|
          ensures |init[i].qas[j].answers| > 0
        {
          assert init[i] == ps[i];
        }
      }
      ParagraphSentences(init) + QaSentences(ps[|ps| - 1].qas)
  }

  /** What `extract_corpus_texts` yields for a file, as a set, or the IndexError it raises. */
  ghost function CorpusOf(f: QaFile): Result<set<string>, CorpusError>
  {
    if |f.data| == 0 then Failure(NoArticle)
    else if !AnswersPresent(f.data[0].paragraphs) then Failure(NoAnswer)
    else Success(ParagraphSentences(f.data[0].paragraphs))
  }

  /** The sentence set holds exactly the sentences of the qas of the paragraphs. */
  lemma {:induction false} QaSentencesMembership(qas: seq<Qa>, s: string)
    requires forall j :: 0 <= j < |qas| ==> |qas[j].answers| > 0
    ensures s in QaSentences(qas) <==> exists j :: 0 <= j < |qas| && Sentence(qas[j]) == s
  {
    if qas != [] {
      var init := qas[..|qas| - 1];
      QaSentencesMembership(init, s);
      if exists j :: 0 <= j < |init| && Sentence(init[j]) == s {
        var j :| 0 <= j < |init| && Sentence(init[j]) == s;
        assert Sentence(qas[j]) == s;
      }
      if exists j :: 0 <= j < |qas| && Sentence(qas[j]) == s {
        var j :| 0 <= j < |qas| && Sentence(qas[j]) == s;
        if j < |init| {
          assert Sentence(init[j]) == s;
        }
      }
    }
  }

  lemma {:induction false} CorpusMembership(ps: seq<Paragraph>, s: string)
    requires AnswersPresent(ps)
    ensures s in ParagraphSentences(ps) <==>
            exists i, j :: 0 <= i < |ps| && 0 <= j < |ps[i].qas| && Sentence(ps[i].qas[j]) == s
  {
    if ps != [] {
      var n := |ps| - 1;
      var init := ps[..n];
      AnswersPresentPrefix(ps, n);
      CorpusMembership(init, s);
      QaSentencesMembership(ps[n].qas, s);
      assert ParagraphSentences(ps) == ParagraphSentences(init) + QaSentences(ps[n].qas);
      if s in ParagraphSentences(ps) {
        if s in ParagraphSentences(init) {
          var i, j :| 0 <= i < |init| && 0 <= j < |init[i].qas| && Sentence(init[i].qas[j]) == s;
          assert init[i] == ps[i];
        } else {
          var j :| 0 <= j < |ps[n].qas| && Sentence(ps[n].qas[j]) == s;
        }
      }
      if exists i, j :: 0 <= i < |ps| && 0 <= j < |ps[i].qas| && Sentence(ps[i].qas[j]) == s {
        var i, j :| 0 <= i < |ps| && 0 <= j < |ps[i].qas| && Sentence(ps[i].qas[j]) == s;
        if i < n {
          assert init[i] == ps[i];
        }
      }
    }
  }

  lemma AnswersPresentPrefix(ps: seq<Paragraph>, n: nat)
    requires n <= |ps| && AnswersPresent(ps)
    ensures AnswersPresent(ps[..n])
  {
    var init := ps[..n];
    forall i, j | 0 <= i < |init| && 0 <= j < |init[i].qas|
      ensures |init[i].qas[j].answers| > 0
    {
      assert init[i] == ps[i];
    }
  }

  /** The two lists carry the same questions and the same first answers. */
  ghost predicate SameSentences(ps: seq<Paragraph>, qs: seq<Paragraph>)
  {
    && |ps| == |qs|
    && (forall i :: 0 <= i < |ps| ==> |ps[i].qas| == |qs[i].qas|)
    && (forall i, j :: 0 <= i < |ps| && 0 <= j < |ps[i].qas| ==>
          && ps[i].qas[j].question == qs[i].qas[j].question
          && |ps[i].qas[j].answers| > 0 && |qs[i].qas[j].answers| > 0
          && ps[i].qas[j].answers[0].text == qs[i].qas[j].answers[0].text)
  }

  /** Only questions and first answer texts reach the corpus: ids, contexts,
      answer offsets and the second and later answers do not. */
  lemma OnlyFirstAnswersMatter(ps: seq<Paragraph>, qs: seq<Paragraph>)
    requires SameSentences(ps, qs)
    ensures AnswersPresent(ps) && AnswersPresent(qs)
    ensures ParagraphSentences(ps) == ParagraphSentences(qs)
  {
    forall s ensures s in ParagraphSentences(ps) <==> s in ParagraphSentences(qs) {
      CorpusMembership(ps, s);
      CorpusMembership(qs, s);
      if exists i, j :: 0 <= i < |ps| && 0 <= j < |ps[i].qas| && Sentence(ps[i].qas[j]) == s {
        var i, j :| 0 <= i < |ps| && 0 <= j < |ps[i].qas| && Sentence(ps[i].qas[j]) == s;
        assert Sentence(qs[i].qas[j]) == s;
      }
      if exists i, j :: 0 <= i < |qs| && 0 <= j < |qs[i].qas| && Sentence(qs[i].qas[j]) == s {
        var i, j :| 0 <= i < |qs| && 0 <= j < |qs[i].qas| && Sentence(qs[i].qas[j]) == s;
        assert Sentence(ps[i].qas[j]) == s;
      }
    }
  }

  /** Rewriting ids (as the converters do) leaves the retrieval corpus as it was. */
  lemma SameUpToIdsSameCorpus(ps: seq<Paragraph>, qs: seq<Paragraph>)
    requires SameUpToIds(ps, qs) && AnswersPresent(ps)
    ensures AnswersPresent(qs)
    ensures ParagraphSentences(ps) == ParagraphSentences(qs)
  {
    OnlyFirstAnswersMatter(ps, qs);
  }

  /** Articles after the first are never read. */
  lemma LaterArticlesIgnored(a: Article, rest: seq<Article>, rest': seq<Article>, v: Option<string>, v': Option<string>)
    ensures CorpusOf(QaFile([a] + rest, v)) == CorpusOf(QaFile([a] + rest', v'))
  {
  }

  /**
   * `extract_corpus_texts` on a loaded file: a set is filled in two nested
   * loops and returned as a list, so the result holds each sentence once, in
   * an order the contract leaves open.
   */
  method ExtractCorpusTexts(f: QaFile) returns (r: Result<seq<string>, CorpusError>)
    ensures CorpusOf(f).Failure? ==> r == Failure(CorpusOf(f).error)
    ensures CorpusOf(f).Success? ==> r.Success? && NoDuplicates(r.value)
    ensures CorpusOf(f).Success? ==> forall s :: s in r.value <==> s in CorpusOf(f).value
  {
    if |f.data| == 0 {
      return Failure(NoArticle);
    }
    var collected := CollectSentences(f.data[0].paragraphs);
    if collected.Failure? {
      return Failure(collected.error);
    }
    var list := SetToList(collected.value);
    r := Success(list);
  }

  /** The two nested loops of `extract_corpus_texts`: add each qa's sentence to a set. */
  method CollectSentences(ps: seq<Paragraph>) returns (r: Result<set<string>, CorpusError>)
    ensures r.Failure? <==> !AnswersPresent(ps)
    ensures r.Failure? ==> r.error == NoAnswer
    ensures r.Success? ==> AnswersPresent(ps) && r.value == ParagraphSentences(ps)
  {
    var sentences: set<string> := {};
    for i := 0 to |ps|
      invariant AnswersPresent(ps[..i])
      invariant sentences == ParagraphSentences(ps[..i])
    {
      var qas := ps[i].qas;
      for j := 0 to |qas|
        invariant forall k :: 0 <= k < j ==> |qas[k].answers| > 0
        invariant sentences == ParagraphSentences(ps[..i]) + QaSentences(qas[..j])
      {
        if |qas[j].answers| == 0 {
          assert !AnswersPresent(ps) by {
            assert |ps[i].qas[j].answers| == 0;
          }
          return Failure(NoAnswer);
        }
        assert qas[..j + 1][..j] == qas[..j];
        sentences := sentences + {qas[j].question + " " + qas[j].answers[0].text};
      }
      assert qas[..|qas|] == qas;
      AnswersPresentSnoc(ps, i);
    }
    assert ps[..|ps|] == ps;
    r := Success(sentences);
  }

  lemma AnswersPresentSnoc(ps: seq<Paragraph>, i: nat)
    requires i < |ps| && AnswersPresent(ps[..i])
    requires forall k :: 0 <= k < |ps[i].qas| ==> |ps[i].qas[k].answers| > 0
    ensures AnswersPresent(ps[..i + 1])
    ensures ps[..i + 1][..i] == ps[..i] && ps[..i + 1][i] == ps[i]
  {
    var done := ps[..i + 1];
    forall p, k | 0 <= p < |done| && 0 <= k < |done[p].qas|
      ensures |done[p].qas[k].answers| > 0
    {
      if p < i {
        assert done[p] == ps[..i][p];
      }
    }
  }

  /** `list(qa_sentences)`: every element of the set once, in some order. */
  method SetToList(sentences: set<string>) returns (list: seq<string>)
    ensures NoDuplicates(list)
    ensures forall s :: s in list <==> s in sentences
  {
    var rest := sentences;
    list := [];
    while rest != {}
      invariant rest <= sentences
      invariant forall s :: s in list <==> s in sentences - rest
      invariant NoDuplicates(list)
      decreases rest
    {
      var s :| s in rest;
      assert s !in list;
      list := list + [s];
      rest := rest - {s};
    }
  }
}
