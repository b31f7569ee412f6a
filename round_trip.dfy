/**
 * How the preprocessing output feeds the bot: the corpus the bot reads from a
 * converted file is exactly the question–answer sentences of the input.
 */
module RoundTrip {
  import opened Wrappers
  import opened QaFormat
  import opened Corpus
  import opened Converters

  /** The sentences a table of rows stands for. */
  ghost function RowSentences(rows: seq<Row>): set<string>
  {
    set r | r in rows :: r.question + " " + r.answer
  }

  /** Reading back a file written by `convert_to_deep_pavlov_json_format` yields one sentence per row. */
  lemma DeepPavlovRoundTrip(rows: seq<Row>)
    ensures CorpusOf(DeepPavlovFile(rows)) == Success(RowSentences(rows))
  {
    var ps := DeepPavlovFile(rows).data[0].paragraphs;
    assert AnswersPresent(ps);
    forall s ensures s in ParagraphSentences(ps) <==> s in RowSentences(rows) {
      CorpusMembership(ps, s);
      if s in RowSentences(rows) {
        var r :| r in rows && s == r.question + " " + r.answer;
        var i :| 0 <= i < |rows| && rows[i] == r;
        assert Sentence(ps[i].qas[0]) == s;
      }
      if s in ParagraphSentences(ps) {
        var i, j :| 0 <= i < |ps| && 0 <= j < |ps[i].qas| && Sentence(ps[i].qas[j]) == s;
        assert j == 0 && rows[i] in rows;
      }
    }
    assert ParagraphSentences(ps) == RowSentences(rows);
  }

  /** Re-numbering by `convert_json_format` leaves the corpus the bot reads unchanged. */
  lemma ConvertJsonFormatKeepsCorpus(items: seq<Paragraph>, f: QaFile)
    requires AnswersPresent(items)
    requires |f.data| == 1 && SameUpToIds(items, f.data[0].paragraphs)
    ensures CorpusOf(f) == Success(ParagraphSentences(items))
  {
    SameUpToIdsSameCorpus(items, f.data[0].paragraphs);
  }

  /** Randomising qa ids with `change_id_to_random` leaves the corpus unchanged too. */
  lemma ChangeIdKeepsCorpus(before: seq<Paragraph>, after: seq<Paragraph>, a: Article, v: Option<string>)
    requires AnswersPresent(before) && SameUpToIds(before, after)
    ensures CorpusOf(QaFile([Article(a.title, after)], v)) == CorpusOf(QaFile([Article(a.title, before)], v))
  {
    SameUpToIdsSameCorpus(before, after);
  }
}
