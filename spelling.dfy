/**
 * Spelling normalisation (`replace_incorrect_spellings`). A reverse index
 * maps each lower-cased misspelling to its canonical spelling; the text is
 * cut into maximal `\w+` runs; each run is lower-cased, reduced to its normal
 * form by the morphological analyser, and replaced by the canonical spelling
 * when that normal form is a key of the index, by its lower-cased self
 * otherwise. The analyser is the parameter `normalForm`.
 */
module Spelling {
  import opened Strings

  /** One entry of the corrections dictionary: canonical spelling and its known misspellings. */
  datatype Correction = Correction(canonical: string, variants: seq<string>)

  /** A piece of tokenised text: a maximal run of word characters, or one other character. */
  datatype Token = Word(text: string) | Other(c: char)

  // ---------------------------------------------------------------------
  // Reverse index

  function LowerAll(vs: seq<string>): (ls: seq<string>)
    ensures |ls| == |vs| && forall j :: 0 <= j < |vs| ==> ls[j] == Lower(vs[j])
  {
    seq(|vs|, j requires 0 <= j < |vs| => Lower(vs[j]))
  }

  /** Every lower-cased misspelling in `vs`, mapped to `canonical`. */
  function VariantsIndex(vs: seq<string>, canonical: string): map<string, string>
  {
    map w | w in LowerAll(vs) :: canonical
  }

  lemma VariantsIndexSnoc(vs: seq<string>, v: string, canonical: string)
    ensures VariantsIndex(vs + [v], canonical) == VariantsIndex(vs, canonical)[Lower(v) := canonical]
  {
    assert LowerAll(vs + [v]) == LowerAll(vs) + [Lower(v)];
  }

  /** Every lower-cased misspelling of one entry, mapped to its canonical spelling. */
  function EntryIndex(c: Correction): map<string, string>
  {
    VariantsIndex(c.variants, c.canonical)
  }

  /** The reverse index after reading the entries in order: later entries overwrite earlier ones. */
  function ReverseIndex(cs: seq<Correction>): map<string, string>
  {
    if cs == [] then map[] else ReverseIndex(cs[..|cs| - 1]) + EntryIndex(cs[|cs| - 1])
  }

  /** The keys of the reverse index are exactly the lower-cased misspellings. */
  lemma {:induction false} ReverseIndexKeys(cs: seq<Correction>, w: string)
    ensures w in ReverseIndex(cs) <==> exists i :: 0 <= i < |cs| && w in LowerAll(cs[i].variants)
  {
    if cs != [] {
      var init := cs[..|cs| - 1];
      ReverseIndexKeys(init, w);
      if exists i :: 0 <= i < |init| && w in LowerAll(init[i].variants) {
        var i :| 0 <= i < |init| && w in LowerAll(init[i].variants);
        assert cs[i] == init[i];
      }
      if exists i :: 0 <= i < |cs| && w in LowerAll(cs[i].variants) {
        var i :| 0 <= i < |cs| && w in LowerAll(cs[i].variants);
        if i < |init| {
          assert init[i] == cs[i];
        }
      }
    }
  }

  /** A misspelling listed under several entries maps to the last of them. */
  lemma {:induction false} ReverseIndexLastWins(cs: seq<Correction>, w: string, i: nat)
    requires i < |cs| && w in LowerAll(cs[i].variants)
    requires forall k :: i < k < |cs| ==> w !in LowerAll(cs[k].variants)
    ensures w in ReverseIndex(cs) && ReverseIndex(cs)[w] == cs[i].canonical
  {
    var n := |cs| - 1;
    if i < n {
      var init := cs[..n];
      assert init[i] == cs[i];
      forall k | i < k < |init| ensures w !in LowerAll(init[k].variants) {
        assert init[k] == cs[k];
      }
      ReverseIndexLastWins(init, w, i);
    }
  }

  lemma UnionUpdate(a: map<string, string>, b: map<string, string>, k: string, v: string)
    ensures (a + b)[k := v] == a + b[k := v]
  {
  }

  lemma ReverseIndexSnoc(cs: seq<Correction>, i: nat)
    requires i < |cs|
    ensures ReverseIndex(cs[..i + 1]) == ReverseIndex(cs[..i]) + EntryIndex(cs[i])
  {
    assert cs[..i + 1][..i] == cs[..i];
  }

  /** The first loop of `replace_incorrect_spellings`. */
  method BuildReverseIndex(cs: seq<Correction>) returns (index: map<string, string>)
    ensures index == ReverseIndex(cs)
  {
    index := map[];
    for i := 0 to |cs|
      invariant index == ReverseIndex(cs[..i])
    {
      var entry := cs[i];
      ghost var before := index;
      for j := 0 to |entry.variants|
        invariant index == before + VariantsIndex(entry.variants[..j], entry.canonical)
      {
        var v := entry.variants[j];
        assert entry.variants[..j + 1] == entry.variants[..j] + [v];
        VariantsIndexSnoc(entry.variants[..j], v, entry.canonical);
        UnionUpdate(before, VariantsIndex(entry.variants[..j], entry.canonical), Lower(v), entry.canonical);
        index := index[Lower(v) := entry.canonical];
      }
      assert entry.variants[..|entry.variants|] == entry.variants;
      ReverseIndexSnoc(cs, i);
    }
    assert cs[..|cs|] == cs;
  }

  // ---------------------------------------------------------------------
  // Tokenising

  /** The length of the run of word characters at the start of `s`. */
  function WordRunLength(s: string): (n: nat)
    ensures n <= |s|
    ensures forall i :: 0 <= i < n ==> IsWordChar(s[i])
    ensures n < |s| ==> !IsWordChar(s[n])
  {
    if s == [] || !IsWordChar(s[0]) then 0 else 1 + WordRunLength(s[1..])
  }

  /** The matches of `\b\w+\b` are the maximal word runs; everything between them is kept character by character. */
  function Tokenize(s: string): seq<Token>
    decreases |s|
  {
    if s == [] then []
    else if !IsWordChar(s[0]) then [Other(s[0])] + Tokenize(s[1..])
    else
      var n := WordRunLength(s);
      [Word(s[..n])] + Tokenize(s[n..])
  }

  function Concat(ts: seq<Token>): string
  {
    if ts == [] then ""
    else (match ts[0] case Word(w) => w case Other(c) => [c]) + Concat(ts[1..])
  }

  /** Tokens are maximal runs of word characters and single other characters. */
  ghost predicate WellTokenized(ts: seq<Token>)
  {
    && (forall i :: 0 <= i < |ts| && ts[i].Word? ==>
          |ts[i].text| > 0 && forall k :: 0 <= k < |ts[i].text| ==> IsWordChar(ts[i].text[k]))
    && (forall i :: 0 <= i < |ts| && ts[i].Other? ==> !IsWordChar(ts[i].c))
    && (forall i :: 0 <= i < |ts| - 1 && ts[i].Word? ==> ts[i + 1].Other?)
  }

  /** Tokenising loses nothing: the tokens spell the text again. */
  lemma {:induction false} TokenizeConcat(s: string)
    decreases |s|
    ensures Concat(Tokenize(s)) == s
  {
    if s != [] {
      if !IsWordChar(s[0]) {
        TokenizeOther(s);
        TokenizeConcat(s[1..]);
        ConcatCons(Other(s[0]), Tokenize(s[1..]));
        assert s == [s[0]] + s[1..];
      } else {
        var n := WordRunLength(s);
        TokenizeWord(s);
        TokenizeConcat(s[n..]);
        ConcatCons(Word(s[..n]), Tokenize(s[n..]));
        assert s == s[..n] + s[n..];
      }
    }
  }

  lemma ConcatCons(t: Token, ts: seq<Token>)
    ensures Concat([t] + ts) == (match t case Word(w) => w case Other(c) => [c]) + Concat(ts)
  {
    assert ([t] + ts)[1..] == ts;
  }

  /** Tokens are the maximal word runs and the single characters between them. */
  lemma {:induction false} TokenizeMaximal(s: string)
    decreases |s|
    ensures WellTokenized(Tokenize(s))
    ensures s != [] ==> Tokenize(s) != [] && (Tokenize(s)[0].Other? <==> !IsWordChar(s[0]))
  {
    if s != [] {
      var ts := Tokenize(s);
      if !IsWordChar(s[0]) {
        TokenizeMaximal(s[1..]);
        assert ts == [Other(s[0])] + Tokenize(s[1..]);
      } else {
        var n := WordRunLength(s);
        TokenizeMaximal(s[n..]);
        assert ts == [Word(s[..n])] + Tokenize(s[n..]);
        assert n < |s| ==> !IsWordChar(s[n..][0]);
      }
    }
  }

  /** A character outside every word run separates the text: tokenising works on each side. */
  lemma TokenizeAtSeparator(a: string, c: char, b: string)
    requires !IsWordChar(c)
    ensures Tokenize(a + [c] + b) == Tokenize(a) + [Other(c)] + Tokenize(b)
  {
    var y := [c] + b;
    assert a + [c] + b == a + y;
    TokenizeAppend(a, y);
    TokenizeOther(y);
    assert y[1..] == b;
  }

  /** Text that ends where a non-word character begins tokenises on its own. */
  lemma {:induction false} TokenizeAppend(x: string, y: string)
    requires y != [] && !IsWordChar(y[0])
    decreases |x|
    ensures Tokenize(x + y) == Tokenize(x) + Tokenize(y)
  {
    if x == [] {
      assert x + y == y;
    } else if !IsWordChar(x[0]) {
      var xy := x + y;
      assert xy[0] == x[0] && xy[1..] == x[1..] + y;
      TokenizeOther(xy);
      TokenizeOther(x);
      TokenizeAppend(x[1..], y);
      PrependAssoc(Other(x[0]), Tokenize(x[1..]), Tokenize(y));
    } else {
      var xy := x + y;
      var n := WordRunLength(x);
      WordRunPrefix(x, y);
      assert xy[0] == x[0] && xy[..n] == x[..n] && xy[n..] == x[n..] + y;
      TokenizeWord(xy);
      TokenizeWord(x);
      TokenizeAppend(x[n..], y);
      PrependAssoc(Word(x[..n]), Tokenize(x[n..]), Tokenize(y));
    }
  }

  lemma PrependAssoc<T>(h: T, front: seq<T>, back: seq<T>)
    ensures [h] + (front + back) == ([h] + front) + back
  {
  }

  lemma TokenizeOther(s: string)
    requires s != [] && !IsWordChar(s[0])
    ensures Tokenize(s) == [Other(s[0])] + Tokenize(s[1..])
  {
  }

  lemma TokenizeWord(s: string)
    requires s != [] && IsWordChar(s[0])
    ensures Tokenize(s) == [Word(s[..WordRunLength(s)])] + Tokenize(s[WordRunLength(s)..])
  {
  }

  lemma {:induction false} WordRunPrefix(a: string, b: string)
    requires (b != [] && !IsWordChar(b[0])) || WordRunLength(a) < |a|
    decreases |a|
    ensures WordRunLength(a + b) == WordRunLength(a)
  {
    if a != [] && IsWordChar(a[0]) {
      assert (a + b)[1..] == a[1..] + b;
      WordRunPrefix(a[1..], b);
    } else if a == [] {
    } else {
      assert (a + b)[0] == a[0];
    }
  }

  // ---------------------------------------------------------------------
  // Substitution

  /** `replace_words` on one matched run. */
  function RewriteWord(word: string, index: map<string, string>, normalForm: string -> string): string
  {
    var w := Lower(word);
    var root := normalForm(w);
    if root in index then index[root] else w
  }

  function Rewrite(ts: seq<Token>, index: map<string, string>, normalForm: string -> string): string
  {
    if ts == [] then ""
    else
      (match ts[0] case Word(w) => RewriteWord(w, index, normalForm) case Other(c) => [c])
      + Rewrite(ts[1..], index, normalForm)
  }

  /** `word_pattern.sub(replace_words, text)` for a given reverse index. */
  function Substitute(text: string, index: map<string, string>, normalForm: string -> string): string
  {
    Rewrite(Tokenize(text), index, normalForm)
  }

  /** `replace_incorrect_spellings(text, corrections, morph)` as a function of its inputs. */
  function Normalize(text: string, cs: seq<Correction>, normalForm: string -> string): string
  {
    Substitute(text, ReverseIndex(cs), normalForm)
  }

  lemma {:induction false} RewriteAppend(ts: seq<Token>, us: seq<Token>, index: map<string, string>, normalForm: string -> string)
    ensures Rewrite(ts + us, index, normalForm) == Rewrite(ts, index, normalForm) + Rewrite(us, index, normalForm)
  {
    if ts == [] {
      assert ts + us == us;
    } else {
      assert (ts + us)[0] == ts[0];
      assert (ts + us)[1..] == ts[1..] + us;
      RewriteAppend(ts[1..], us, index, normalForm);
    }
  }

  /** A character outside the word runs stays where it is: the text on each side
      of it is normalised on its own. */
  lemma SeparatorKept(a: string, c: char, b: string, cs: seq<Correction>, normalForm: string -> string)
    requires !IsWordChar(c)
    ensures Normalize(a + [c] + b, cs, normalForm)
            == Normalize(a, cs, normalForm) + [c] + Normalize(b, cs, normalForm)
  {
    var index := ReverseIndex(cs);
    var ta, tb := Tokenize(a), Tokenize(b);
    TokenizeAtSeparator(a, c, b);
    RewriteAppend(ta + [Other(c)], tb, index, normalForm);
    RewriteAppend(ta, [Other(c)], index, normalForm);
    RewriteSeparator(c, index, normalForm);
  }

  lemma RewriteSeparator(c: char, index: map<string, string>, normalForm: string -> string)
    ensures Rewrite([Other(c)], index, normalForm) == [c]
  {
    assert [Other(c)][1..] == [];
  }

  /** A text without word characters comes back unchanged. */
  lemma {:induction false} NoWordsUnchanged(text: string, cs: seq<Correction>, normalForm: string -> string)
    requires forall i :: 0 <= i < |text| ==> !IsWordChar(text[i])
    decreases |text|
    ensures Normalize(text, cs, normalForm) == text
  {
    if text != [] {
      NoWordsUnchanged(text[1..], cs, normalForm);
    }
  }

  /** A single word whose normal form is a lower-cased misspelling becomes the
      canonical spelling of the last entry that lists it. */
  lemma MisspellingReplaced(word: string, cs: seq<Correction>, normalForm: string -> string, i: nat)
    requires |word| > 0 && forall k :: 0 <= k < |word| ==> IsWordChar(word[k])
    requires i < |cs| && normalForm(Lower(word)) in LowerAll(cs[i].variants)
    requires forall k :: i < k < |cs| ==> normalForm(Lower(word)) !in LowerAll(cs[k].variants)
    ensures Normalize(word, cs, normalForm) == cs[i].canonical
  {
    ReverseIndexLastWins(cs, normalForm(Lower(word)), i);
    SingleWord(word, ReverseIndex(cs), normalForm);
  }

  /** A text that is one word run is rewritten as that word. */
  lemma SingleWord(word: string, index: map<string, string>, normalForm: string -> string)
    requires |word| > 0 && forall k :: 0 <= k < |word| ==> IsWordChar(word[k])
    ensures Substitute(word, index, normalForm) == RewriteWord(word, index, normalForm)
  {
    WordRunAll(word);
    assert word[..|word|] == word;
    assert word[|word|..] == [];
    assert Tokenize(word) == [Word(word)];
    assert Rewrite([Word(word)], index, normalForm) == RewriteWord(word, index, normalForm) + Rewrite([], index, normalForm);
  }

  lemma {:induction false} WordRunAll(s: string)
    requires forall k :: 0 <= k < |s| ==> IsWordChar(s[k])
    ensures WordRunLength(s) == |s|
  {
    if s != [] {
      WordRunAll(s[1..]);
    }
  }

  /** A word whose normal form is no misspelling comes back lower-cased. */
  lemma UnknownWordLowered(word: string, cs: seq<Correction>, normalForm: string -> string)
    requires |word| > 0 && forall k :: 0 <= k < |word| ==> IsWordChar(word[k])
    requires forall i :: 0 <= i < |cs| ==> normalForm(Lower(word)) !in LowerAll(cs[i].variants)
    ensures Normalize(word, cs, normalForm) == Lower(word)
  {
    ReverseIndexKeys(cs, normalForm(Lower(word)));
    SingleWord(word, ReverseIndex(cs), normalForm);
  }

  /** With no corrections, normalising lower-cases every word run and nothing else. */
  lemma {:induction false} NoCorrectionsLowercases(text: string, normalForm: string -> string)
    ensures Normalize(text, [], normalForm) == Lower(text)
  {
    assert ReverseIndex([]) == map[];
    TokenizeConcat(text);
    TokenizeMaximal(text);
    RewriteEmptyIndexLowers(Tokenize(text), normalForm);
  }

  lemma {:induction false} RewriteEmptyIndexLowers(ts: seq<Token>, normalForm: string -> string)
    requires forall i :: 0 <= i < |ts| && ts[i].Other? ==> !IsWordChar(ts[i].c)
    ensures Rewrite(ts, map[], normalForm) == Lower(Concat(ts))
  {
    if ts != [] {
      RewriteEmptyIndexLowers(ts[1..], normalForm);
      var head := match ts[0] case Word(w) => w case Other(c) => [c];
      LowerAppend(head, Concat(ts[1..]));
    }
  }

  /** `replace_incorrect_spellings`: build the reverse index in a loop, then substitute. */
  method ReplaceIncorrectSpellings(text: string, cs: seq<Correction>, normalForm: string -> string)
    returns (corrected: string)
    ensures corrected == Normalize(text, cs, normalForm)
  {
    var index := BuildReverseIndex(cs);
    corrected := Substitute(text, index, normalForm);
  }
}
