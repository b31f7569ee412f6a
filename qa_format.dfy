/**
 * The question-answering dataset layout the bot reads and the converters
 * write (the DeepPavlov/SQuAD shape), as typed records:
 *
 *   { "data": [ { "title": ..., "paragraphs": [
 *       { "context": ..., "id": ..., "qas": [
 *           { "id": ..., "question": ..., "answers": [ { "text": ..., "answer_start": ... } ] } ] } ] } ],
 *     "version": ... }
 *
 * Keys that a writer leaves out are `None`. A qa id is a string in some
 * writers and an integer in others.
 */
module QaFormat {
  import opened Wrappers

  datatype QaId = StrId(s: string) | IntId(n: int)

  datatype Answer = Answer(text: string, answerStart: int)

  datatype Qa = Qa(id: Option<QaId>, question: string, answers: seq<Answer>)

  /** A paragraph; also the shape of one item of the flat "old" lists. */
  datatype Paragraph = Paragraph(context: string, id: Option<int>, qas: seq<Qa>)

  datatype Article = Article(title: string, paragraphs: seq<Paragraph>)

  datatype QaFile = QaFile(data: seq<Article>, version: Option<string>)

  const DatasetTitle: string := "Custom QA Dataset"

  /** Two lists of paragraphs that differ at most in the ids of their paragraphs and qas. */
  ghost predicate SameUpToIds(ps: seq<Paragraph>, qs: seq<Paragraph>)
  {
    && |ps| == |qs|
    && (forall i :: 0 <= i < |ps| ==> ps[i].context == qs[i].context && |ps[i].qas| == |qs[i].qas|)
    && (forall i, j :: 0 <= i < |ps| && 0 <= j < |ps[i].qas| ==>
          ps[i].qas[j].question == qs[i].qas[j].question && ps[i].qas[j].answers == qs[i].qas[j].answers)
  }
}
