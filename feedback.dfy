/**
 * The feedback log (`write_feedback_to_json`): each reaction becomes one
 * record, appended to a file opened in append mode. The file is the sequence
 * `records`; its JSON encoding is not part of this model.
 */
module Feedback {
  import opened Wrappers
  import opened QaFormat
  import Corpus

  /** `{context, label, id, qas}`: the written block, shaped like a dataset paragraph plus the reaction under the key `label` (`label` is reserved in Dafny, hence `labelText`). */
  datatype FeedbackRecord = FeedbackRecord(context: string, labelText: string, id: int, qas: seq<Qa>)

  /** The three `random.randint(1, 20000)` values are `rand(0)`, `rand(1)`, `rand(2)`, in that order. */
  function FeedbackBlock(question: string, answer: string, reaction: string, rand: nat -> int): (r: FeedbackRecord)
    requires forall k :: 1 <= rand(k) <= 20000
    ensures r.context == question + " " + answer && r.labelText == reaction
    ensures |r.qas| == 1 && r.qas[0].question == question
    ensures |r.qas[0].answers| == 1 && r.qas[0].answers[0].text == answer
    ensures 1 <= r.id <= 20000
    ensures r.qas[0].id.Some? && r.qas[0].id.value.IntId? && 1 <= r.qas[0].id.value.n <= 20000
    ensures 1 <= r.qas[0].answers[0].answerStart <= 20000
  {
    var id := rand(0);
    var qaId := rand(1);
    var answerStart := rand(2);
    FeedbackRecord(question + " " + answer, reaction, id, [Qa(Some(IntId(qaId)), question, [Answer(answer, answerStart)])])
  }

  /** Read back as a dataset paragraph, a record retrieves exactly its own context. */
  lemma FeedbackIsCorpusEntry(question: string, answer: string, reaction: string, rand: nat -> int)
    requires forall k :: 1 <= rand(k) <= 20000
    ensures var r := FeedbackBlock(question, answer, reaction, rand);
            Corpus.Sentence(r.qas[0]) == r.context
  {
  }

  class FeedbackLog {
    /** Every block written so far, oldest first. */
    var records: seq<FeedbackRecord>

    constructor ()
      ensures records == []
    {
      records := [];
    }

    /** `write_feedback_to_json`: build one block and append it. */
    method WriteFeedbackToJson(question: string, answer: string, reaction: string, rand: nat -> int)
      requires forall k :: 1 <= rand(k) <= 20000
      modifies this
      ensures records == old(records) + [FeedbackBlock(question, answer, reaction, rand)]
    {
      var block := FeedbackBlock(question, answer, reaction, rand);
      records := records + [block];
    }
  }
}
