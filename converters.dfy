/**
 * The dataset converters of the preprocessing script, with their file
 * reading and writing taken out: each takes the loaded JSON value and returns
 * the value it would write. `random.randint` is the parameter `rand`, the
 * k-th value (from 0) it returns during one call; `random.shuffle` is the
 * shuffled list itself.
 */
module Converters {
  import opened Wrappers
  import opened Strings
  import opened QaFormat

  /** One row of the question/answer table. */
  datatype Row = Row(question: string, answer: string)

  /** One directory entry: a file name and the JSON list the file holds. */
  datatype FolderEntry<T> = FolderEntry(name: string, contents: seq<T>)

  // ---------------------------------------------------------------------
  // convert_to_deep_pavlov_json_format

  /** The paragraph written for the row with the given index. */
  function RowParagraph(index: nat, row: Row): Paragraph
  {
    Paragraph(row.answer, None, [Qa(Some(StrId(Decimal(index))), row.question, [Answer(row.answer, 0)])])
  }

  function RowParagraphs(rows: seq<Row>): seq<Paragraph>
  {
    seq(|rows|, i requires 0 <= i < |rows| => RowParagraph(i, rows[i]))
  }

  /** The dataset written for a table whose rows carry the indices 0, 1, .... */
  function DeepPavlovFile(rows: seq<Row>): QaFile
  {
    QaFile([Article(DatasetTitle, RowParagraphs(rows))], Some("1.0"))
  }

  /** The layout promised: one article titled "Custom QA Dataset", version "1.0", and
      per row, in row order, a paragraph whose context is the answer and whose single
      qa has the row index as id, the question, and the answer at offset 0. */
  lemma DeepPavlovLayout(rows: seq<Row>, i: nat)
    requires i < |rows|
    ensures var f := DeepPavlovFile(rows);
            && f.version == Some("1.0") && |f.data| == 1 && f.data[0].title == "Custom QA Dataset"
            && |f.data[0].paragraphs| == |rows|
            && f.data[0].paragraphs[i].context == rows[i].answer
            && f.data[0].paragraphs[i].qas == [Qa(Some(StrId(Decimal(i))), rows[i].question, [Answer(rows[i].answer, 0)])]
  {
  }

  /** Rows get distinct qa ids. */
  lemma DeepPavlovIdsDistinct(rows: seq<Row>, i: nat, j: nat)
    requires i < j < |rows|
    ensures DeepPavlovFile(rows).data[0].paragraphs[i].qas[0].id != DeepPavlovFile(rows).data[0].paragraphs[j].qas[0].id
  {
    DecimalInjective(i, j);
  }

  /** `convert_to_deep_pavlov_json_format`: append one paragraph per row. */
  method ConvertToDeepPavlovJsonFormat(rows: seq<Row>) returns (f: QaFile)
    ensures f == DeepPavlovFile(rows)
  {
    var paragraphs: seq<Paragraph> := [];
    for index := 0 to |rows|
      invariant paragraphs == RowParagraphs(rows[..index])
    {
      var row := rows[index];
      var paragraph := Paragraph(row.answer, None, [Qa(Some(StrId(Decimal(index))), row.question, [Answer(row.answer, 0)])]);
      paragraphs := paragraphs + [paragraph];
    }
    assert rows[..|rows|] == rows;
    f := QaFile([Article(DatasetTitle, paragraphs)], Some("1.0"));
  }

  // ---------------------------------------------------------------------
  // convert_json_format and change_id_to_random

  /** Every paragraph and every qa carries an integer id in `[lo, hi]`. */
  ghost predicate IntIdsIn(ps: seq<Paragraph>, lo: int, hi: int)
  {
    && (forall i :: 0 <= i < |ps| ==> ps[i].id.Some? && lo <= ps[i].id.value <= hi)
    && (forall i, j :: 0 <= i < |ps| && 0 <= j < |ps[i].qas| ==>
          ps[i].qas[j].id.Some? && ps[i].qas[j].id.value.IntId? && lo <= ps[i].qas[j].id.value.n <= hi)
  }

  /** Every qa carries the decimal string of an integer in `[lo, hi]` as id. */
  ghost predicate DecimalQaIdsIn(ps: seq<Paragraph>, lo: int, hi: int)
  {
    forall i, j :: 0 <= i < |ps| && 0 <= j < |ps[i].qas| ==>
      ps[i].qas[j].id.Some? && ps[i].qas[j].id.value.StrId? && IsDecimalIn(ps[i].qas[j].id.value.s, lo, hi)
  }

  /** `convert_json_format`: wrap a flat list of items into one article, with fresh ids. */
  method ConvertJsonFormat(items: seq<Paragraph>, rand: nat -> int) returns (f: QaFile)
    requires forall k :: 1 <= rand(k) <= 10000
    ensures f.version == None && |f.data| == 1 && f.data[0].title == DatasetTitle
    ensures SameUpToIds(items, f.data[0].paragraphs)
    ensures IntIdsIn(f.data[0].paragraphs, 1, 10000)
  {
    var paragraphs: seq<Paragraph> := [];
    var draws: nat := 0;
    for i := 0 to |items|
      invariant SameUpToIds(items[..i], paragraphs)
      invariant IntIdsIn(paragraphs, 1, 10000)
    {
      var item := items[i];
      var qaList: seq<Qa> := [];
      for j := 0 to |item.qas|
        invariant |qaList| == j
        invariant forall m :: 0 <= m < j ==>
                    qaList[m].question == item.qas[m].question && qaList[m].answers == item.qas[m].answers
        invariant forall m :: 0 <= m < j ==>
                    qaList[m].id.Some? && qaList[m].id.value.IntId? && 1 <= qaList[m].id.value.n <= 10000
      {
        var qa := item.qas[j];
        var newQa := Qa(Some(IntId(rand(draws))), qa.question, qa.answers);
        draws := draws + 1;
        qaList := qaList + [newQa];
      }
      var paragraph := Paragraph(item.context, Some(rand(draws)), qaList);
      draws := draws + 1;
      assert items[..i + 1] == items[..i] + [item];
      paragraphs := paragraphs + [paragraph];
    }
    assert items[..|items|] == items;
    f := QaFile([Article(DatasetTitle, paragraphs)], None);
  }

  /** `change_id_to_random`: overwrite the id of every qa, in place. */
  method ChangeIdToRandom(items: array<Paragraph>, rand: nat -> int)
    requires forall k :: 1 <= rand(k) <= 1000
    modifies items
    ensures SameUpToIds(old(items[..]), items[..])
    ensures forall i :: 0 <= i < items.Length ==> items[i].id == old(items[i].id)
    ensures DecimalQaIdsIn(items[..], 1, 1000)
  {
    var draws: nat := 0;
    for i := 0 to items.Length
      invariant SameUpToIds(old(items[..]), items[..])
      invariant forall m :: 0 <= m < items.Length ==> items[m].id == old(items[m].id)
      invariant DecimalQaIdsIn(items[..i], 1, 1000)
    {
      var paragraph := items[i];
      var qas := paragraph.qas;
      for j := 0 to |qas|
        invariant |qas| == |paragraph.qas|
        invariant forall m :: 0 <= m < |qas| ==>
                    qas[m].question == paragraph.qas[m].question && qas[m].answers == paragraph.qas[m].answers
        invariant forall m :: 0 <= m < j ==>
                    qas[m].id.Some? && qas[m].id.value.StrId? && IsDecimalIn(qas[m].id.value.s, 1, 1000)
      {
        var value := rand(draws);
        draws := draws + 1;
        assert IsDecimalIn(Decimal(value), 1, 1000);
        qas := qas[j := qas[j].(id := Some(StrId(Decimal(value))))];
      }
      var updated := paragraph.(qas := qas);
      SameUpToIdsUpdate(old(items[..]), items[..], i, updated);
      DecimalQaIdsSnoc(items[..i], updated);
      items[i] := updated;
      assert items[..i + 1] == items[..i] + [updated];
    }
    assert items[..] == items[..items.Length];
  }

  lemma SameUpToIdsUpdate(ps: seq<Paragraph>, qs: seq<Paragraph>, i: nat, q: Paragraph)
    requires SameUpToIds(ps, qs) && i < |qs|
    requires q.context == qs[i].context && |q.qas| == |qs[i].qas|
    requires forall m :: 0 <= m < |q.qas| ==>
               q.qas[m].question == qs[i].qas[m].question && q.qas[m].answers == qs[i].qas[m].answers
    ensures SameUpToIds(ps, qs[i := q])
  {
  }

  lemma DecimalQaIdsSnoc(ps: seq<Paragraph>, q: Paragraph)
    requires DecimalQaIdsIn(ps, 1, 1000)
    requires forall m :: 0 <= m < |q.qas| ==>
               q.qas[m].id.Some? && q.qas[m].id.value.StrId? && IsDecimalIn(q.qas[m].id.value.s, 1, 1000)
    ensures DecimalQaIdsIn(ps + [q], 1, 1000)
  {
  }

  // ---------------------------------------------------------------------
  // split_train_test

  /** `split_train_test` after the shuffle: the first `int(len * ratio)` items train, the rest test. */
  function SplitTrainTest<T>(data: seq<T>, shuffled: seq<T>, ratio: real): (r: (seq<T>, seq<T>))
    requires multiset(shuffled) == multiset(data)
    ensures r.0 + r.1 == shuffled
    ensures multiset(r.0) + multiset(r.1) == multiset(data)
    ensures 0.0 <= ratio <= 1.0 ==> |r.0| == (|data| as real * ratio).Floor
    ensures ratio >= 1.0 ==> r.0 == shuffled && r.1 == []
  {
    assert |shuffled| == |multiset(shuffled)| == |data|;
    var n := |shuffled|;
    var trainSize := Truncate(n as real * ratio);
    ScaledSizeBounds(n, ratio);
    var cut := SliceBound(trainSize, n);
    assert shuffled == shuffled[..cut] + shuffled[cut..];
    (shuffled[..cut], shuffled[cut..])
  }

  lemma ScaledSizeBounds(n: nat, ratio: real)
    ensures 0.0 <= ratio <= 1.0 ==> 0 <= (n as real * ratio).Floor <= n
    ensures ratio >= 1.0 ==> (n as real * ratio).Floor >= n
  {
    var x := n as real * ratio;
    if 0.0 <= ratio <= 1.0 {
      assert 0.0 <= x by {
        assert n as real >= 0.0;
      }
      assert x <= n as real * 1.0;
      assert x.Floor as real <= x;
      assert (n as real).Floor == n;
    } else if ratio >= 1.0 {
      assert x >= n as real * 1.0;
    }
  }

  // ---------------------------------------------------------------------
  // merge_json_files

  /** The lists of the `.json` files of a directory listing, in listing order. */
  function JsonContents<T>(listing: seq<FolderEntry<T>>): seq<seq<T>>
  {
    if listing == [] then []
    else (if EndsWith(listing[0].name, ".json") then [listing[0].contents] else [])
         + JsonContents(listing[1..])
  }

  function Flatten<T>(lists: seq<seq<T>>): seq<T>
  {
    if lists == [] then [] else lists[0] + Flatten(lists[1..])
  }

  lemma {:induction false} FlattenAppend<T>(xs: seq<seq<T>>, ys: seq<seq<T>>)
    ensures Flatten(xs + ys) == Flatten(xs) + Flatten(ys)
  {
    if xs == [] {
      assert xs + ys == ys;
    } else {
      assert (xs + ys)[1..] == xs[1..] + ys;
      FlattenAppend(xs[1..], ys);
    }
  }

  lemma {:induction false} JsonContentsMembership<T>(listing: seq<FolderEntry<T>>, x: T)
    ensures x in Flatten(JsonContents(listing)) <==>
            exists i :: 0 <= i < |listing| && EndsWith(listing[i].name, ".json") && x in listing[i].contents
  {
    if listing != [] {
      var rest := listing[1..];
      JsonContentsMembership(rest, x);
      var head := if EndsWith(listing[0].name, ".json") then [listing[0].contents] else [];
      FlattenAppend(head, JsonContents(rest));
      assert Flatten(head) == (if EndsWith(listing[0].name, ".json") then listing[0].contents else []);
      if exists i :: 0 <= i < |rest| && EndsWith(rest[i].name, ".json") && x in rest[i].contents {
        var i :| 0 <= i < |rest| && EndsWith(rest[i].name, ".json") && x in rest[i].contents;
        assert listing[i + 1] == rest[i];
      }
      if exists i :: 0 <= i < |listing| && EndsWith(listing[i].name, ".json") && x in listing[i].contents {
        var i :| 0 <= i < |listing| && EndsWith(listing[i].name, ".json") && x in listing[i].contents;
        if i > 0 {
          assert rest[i - 1] == listing[i];
        }
      }
    }
  }

  /** `merge_json_files`: extend one list with the list of every `.json` file, in listing order. */
  method MergeJsonFiles<T>(listing: seq<FolderEntry<T>>) returns (combined: seq<T>)
    ensures combined == Flatten(JsonContents(listing))
    ensures forall x :: x in combined <==>
              exists i :: 0 <= i < |listing| && EndsWith(listing[i].name, ".json") && x in listing[i].contents
  {
    var jsonFiles := JsonContents(listing);
    combined := [];
    for i := 0 to |jsonFiles|
      invariant combined == Flatten(jsonFiles[..i])
    {
      assert jsonFiles[..i + 1] == jsonFiles[..i] + [jsonFiles[i]];
      FlattenAppend(jsonFiles[..i], [jsonFiles[i]]);
      assert Flatten([jsonFiles[i]]) == jsonFiles[i] + Flatten([]);
      combined := combined + jsonFiles[i];
    }
    assert jsonFiles[..|jsonFiles|] == jsonFiles;
    forall x ensures x in combined <==>
        exists i :: 0 <= i < |listing| && EndsWith(listing[i].name, ".json") && x in listing[i].contents
    {
      JsonContentsMembership(listing, x);
    }
  }
}
