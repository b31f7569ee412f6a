# MIEM help-desk bot: retrieval engine and dataset preprocessing

This project models, in Dafny, the part of the MIEM technical-support Telegram bot that makes decisions:

- how the bot turns a topic's DeepPavlov-format dataset into a corpus of `question + " " + answer` sentences;
- how it normalises a user's spelling against a dictionary of misspellings;
- how it picks the best sentence above the 0.6 similarity threshold and cuts the answer out of it;
- how it capitalises the reply;
- how it keeps the per-user session (chosen topic, command flag, last exchange);
- how it appends like/dislike feedback records.

It also models the preprocessing helpers that produce and reshape those datasets:

- CSV rows to the DeepPavlov layout;
- folder merge;
- train/test split;
- id re-numbering.

The modules follow the program:

- `Strings`: the character classes of Python's `re`, `str.lower`, `str(n)` and `int()` truncation.
- `Splitting`: `str.find` and `str.split` on a non-empty separator, and `sep.join`.
- `QaFormat`: the JSON shapes.
- `Corpus`: `extract_corpus_texts`.
- `Spelling`: `replace_incorrect_spellings`.
- `Converters`: the other preprocessing helpers.
- `Retrieval`: the top-1 branch of `find_relevant_context_cosine`, and `capitalize_first_letter`.
- `Feedback`: `write_feedback_to_json`.
- `Session`: the handlers. A session is consistent when its command flag always comes with a command topic.
- `RoundTrip`: how the preprocessing output feeds the bot.

Some collaborators are parameters of the model:

- The sentence-embedding model and its cosine similarity are the function `similarity`.
- The pymorphy2 analyser's normal form is the function `normalForm`.
- The dataset files on disk are a `map` from the lower-cased topic to a parsed `QaFile`.
- `random.randint` is an oracle `rand` whose k-th value is the k-th number drawn in the call.
- `random.shuffle` is a given permutation `shuffled` of the input.

Two behaviours of the code are worth naming:

- **No `"? "` in the best sentence.** The code indexes `split("? ")[1]`, which raises IndexError. The model returns the error `NoDelimiter`, and `Echo` reports it as `Raised(RetrievalFailed(NoDelimiter))`.
- **Leading whitespace in `capitalize_first_letter`.** The regex replacement drops the leading whitespace before a capitalised ASCII letter. The replies of `Echo` follow the regex as written (`Retrieval.CapitalizeAsWritten`). The corrected rule (`Retrieval.CapitalizeFirstLetter`) is stated beside it; see Findings below.

## Model

| member | source | states |
|---|---|---|
| Corpus.ExtractCorpusTexts | telegram_bot.py:19-32 | Fails exactly when the file has no first article (NoArticle) or some qa of its paragraphs has no first answer (NoAnswer). Otherwise it returns a duplicate-free list whose elements are exactly the `question + " " + answers[0].text` sentences of the first article. |
| Corpus.CollectSentences | telegram_bot.py:24-30 | Fails with NoAnswer iff some qa has no first answer. Otherwise the set it fills is exactly the corpus of the paragraphs. |
| Corpus.SetToList | telegram_bot.py:32 | The list holds each element of the set exactly once, and nothing else. |
| Corpus.CorpusMembership | telegram_bot.py:27-30 | A sentence is in the corpus iff some paragraph holds a qa whose question and first answer form it. |
| Corpus.QaSentencesMembership | telegram_bot.py:29-30 | Within one paragraph, a sentence is collected iff some qa forms it. |
| Corpus.OnlyFirstAnswersMatter | telegram_bot.py:30 | Two paragraph lists with the same questions and the same first answers yield the same corpus, whatever their other answers, contexts and ids. |
| Corpus.SameUpToIdsSameCorpus | telegram_bot.py:27-30 | Paragraph lists that differ only in ids yield the same corpus. |
| Corpus.LaterArticlesIgnored | telegram_bot.py:25 | Only the first article is read: articles after it and the version do not change the corpus. |
| Retrieval.ArgMax | telegram_bot.py:121 | Returns the first index of a maximal score, as torch's `Tensor.argmax` on the `util.cos_sim` result does. |
| Retrieval.AnswerPart | telegram_bot.py:126 | Succeeds iff the sentence contains `"? "`, and the piece returned holds no `"? "`. |
| Retrieval.AnswerPartLocation | telegram_bot.py:126 | When the first `"? "` is at index i, there is none before i, and the piece is the text starting at i + 2 and running up to the next `"? "` or the end. |
| Retrieval.SelectAnswer | telegram_bot.py:108-126 | An empty corpus is an error. When every score is below 0.6, the result is the polite decline text. Otherwise it is the answer part of the first best-scoring sentence. |
| Retrieval.SelectAnswerFromCandidates | telegram_bot.py:108-126 | Whatever the listing order, the result is one of two things. It is the decline when every candidate scores below 0.6. Otherwise it is the answer part of a best-scoring candidate at or above 0.6, or NoDelimiter when such a candidate lacks `"? "`. |
| Retrieval.CapitalizeAsWritten | telegram_bot.py:35-37 | When an ASCII letter follows the leading whitespace, the result drops that whitespace: it is shorter by the whitespace's length, starts with the letter in upper case and continues with the text after the letter. Otherwise the text is unchanged. |
| Retrieval.AsWrittenIdempotent | telegram_bot.py:37 | Applying the regex as written twice equals applying it once. |
| Retrieval.CapitalizeFirstLetter | telegram_bot.py:35-37 | The corrected rule, not the program: keeps the length and every character except the first one after the leading whitespace. That character is replaced by its ASCII upper case. |
| Retrieval.CapitalizeIdempotent | telegram_bot.py:35-37 | Under the corrected rule, capitalising twice equals capitalising once. |
| Retrieval.AsWrittenNonLetterUnchanged | telegram_bot.py:37 | The regex as written returns a text unchanged when the first non-space character is not an ASCII letter (a Cyrillic initial, say) or there is none. |
| Retrieval.NonAsciiInitialUnchanged | telegram_bot.py:37 | Under the corrected rule, a text whose first non-space character is not an ASCII lower-case letter is returned unchanged. The regex as written differs here: it drops the whitespace before an upper-case ASCII initial. |
| Retrieval.AsWrittenDropsLeadingSpace | telegram_bot.py:37 | The regex as written yields the corrected result minus its leading whitespace whenever an ASCII letter follows that whitespace, and the same result otherwise. |
| Retrieval.AsWrittenCounterexample | telegram_bot.py:37 | `" ok"` becomes `"Ok"` as written and `" Ok"` when corrected. |
| Retrieval.CapitalizeReply | telegram_bot.py:35-40 | A single string is capitalised by the regex as written. A list is capitalised the same way element by element, keeping its length and order. |
| Feedback.FeedbackBlock | telegram_bot.py:43-62 | The record's context is `question + " " + answer` and its label is the reaction. It holds one qa with the question and one answer with the answer text. Its id, qa id and answer_start all lie in [1, 20000]. |
| Feedback.FeedbackIsCorpusEntry | telegram_bot.py:45-62 | The record's qa, read as a corpus sentence, is exactly the record's context. |
| Feedback.FeedbackLog.WriteFeedbackToJson | telegram_bot.py:64-66 | Appends exactly one block to the log, leaving earlier records in place. |
| Session.UserData.ChosenTopic | telegram_bot.py:198-201 | Before any command, a topic is chosen iff a button was pressed, and it is that button's data lower-cased. In a consistent session after a command, it is the command topic lower-cased. With no topic the error is TopicUnset, and a chosen topic is already lower case. |
| Session.UserData.constructor | telegram_bot.py:193-200 | A new session has no topic, no command flag, no button topic and no last exchange, so it is consistent. |
| Session.GetTopic | telegram_bot.py:97-105 | Raises, changing nothing, iff the text has no `/`. Otherwise it stores the lower-cased piece after the first `/` as the command topic and sets the command flag, leaving the button topic and last exchange alone; a consistent session stays consistent. |
| Session.TopicHandler | telegram_bot.py:133-137 | Stores the button's data, as given, as the button topic, and changes nothing else; a consistent session stays consistent. |
| Session.ButtonTopicBeforeCommand | telegram_bot.py:198-199 | Before any command, the topic `echo` uses is the last button pressed, lower-cased. |
| Session.CommandTopicSticks | telegram_bot.py:97-105 | After a command, a later button press does not change the topic `echo` uses: the flag is never cleared. |
| Session.Like | telegram_bot.py:144-158 | Writes one "like" record iff an exchange is stored. The record holds the re-normalised stored question and the stored answer; with no stored exchange the log is unchanged. |
| Session.Dislike | telegram_bot.py:161-176 | The same as Like, with the label "dislike". |
| Session.ButtonHandler | telegram_bot.py:180-190 | "like" and "dislike" record feedback and leave the session unchanged. Any other data selects that topic and writes nothing. |
| Session.AnswerQuestion | telegram_bot.py:205-209 | Over any listing of the candidate sentences, the reply is EmptyCorpus for no candidates. Otherwise it is the retrieved answer capitalised by the regex as written (leading whitespace before an ASCII letter dropped), or NoDelimiter for a best sentence above the threshold that lacks `"? "`. |
| Session.Echo | telegram_bot.py:193-218 | Raises TopicUnset when no topic is chosen, CorpusMissing when the topic has no file, and the extraction error for a malformed file. A readable corpus for the empty topic asks the user to choose a topic. Otherwise the reply is the answer retrieved from the topic's corpus for the normalised question, capitalised by the regex as written, and that exchange is stored as the last message. The session keys stay consistent: a command flag always comes with a command topic. |
| Spelling.ReverseIndexKeys | preprocessing/parse_jsons.py:13-16 | A word is a key of the reverse index iff it is the lower-cased form of some listed variant. |
| Spelling.ReverseIndexLastWins | preprocessing/parse_jsons.py:13-16 | A variant listed under several canonical forms maps to the last one. |
| Spelling.BuildReverseIndex | preprocessing/parse_jsons.py:13-16 | The loop builds exactly the reverse index. |
| Spelling.TokenizeConcat | preprocessing/parse_jsons.py:30-33 | Splitting a text into word runs and single separators loses nothing: the pieces concatenate back to the text. |
| Spelling.TokenizeMaximal | preprocessing/parse_jsons.py:30 | Word tokens are non-empty maximal runs of `\w` characters, and separators are non-word characters. |
| Spelling.TokenizeAtSeparator | preprocessing/parse_jsons.py:30 | A non-word character splits the token list into the lists of the two sides. |
| Spelling.RewriteAppend | preprocessing/parse_jsons.py:33 | Rewriting distributes over concatenation of token lists. |
| Spelling.SeparatorKept | preprocessing/parse_jsons.py:30-33 | A non-word character is kept in place, and each side of it is normalised independently. |
| Spelling.NoWordsUnchanged | preprocessing/parse_jsons.py:30-33 | Text without word characters comes back unchanged. |
| Spelling.MisspellingReplaced | preprocessing/parse_jsons.py:20-27 | A word whose lower-cased form has a normal form equal to a lower-cased listed variant becomes the canonical form of the last entry listing it. |
| Spelling.UnknownWordLowered | preprocessing/parse_jsons.py:21-27 | A word whose normal form is not listed becomes its lower-cased self, not its normal form. |
| Spelling.NoCorrectionsLowercases | preprocessing/parse_jsons.py:10-35 | With an empty dictionary the whole text is simply lower-cased. |
| Spelling.ReplaceIncorrectSpellings | preprocessing/parse_jsons.py:10-35 | The method computes exactly the normalisation that the lemmas above characterise. |
| Converters.DeepPavlovLayout | preprocessing/parse_jsons.py:50-79 | The output holds one article titled "Custom QA Dataset" with version "1.0". It has one paragraph per row, in row order: the context is the answer, and the single qa has id `str(index)`, the question, and the answer at offset 0. |
| Converters.DeepPavlovIdsDistinct | preprocessing/parse_jsons.py:68 | Different rows get different qa ids. |
| Converters.ConvertToDeepPavlovJsonFormat | preprocessing/parse_jsons.py:41-79 | The loop builds exactly that layout. |
| Converters.ConvertJsonFormat | preprocessing/parse_jsons.py:133-162 | The output has no version and one article titled "Custom QA Dataset". Its paragraphs keep each item's context, questions and answers in order, and carry integer paragraph and qa ids in [1, 10000]. |
| Converters.ChangeIdToRandom | preprocessing/parse_jsons.py:126-129 | Every qa id is replaced in place by the decimal string of a number in [1, 1000]. Contexts, questions, answers and paragraph ids are unchanged. |
| Converters.SplitTrainTest | preprocessing/parse_jsons.py:109-123 | Train and test concatenate to the shuffled data, which is a permutation of the input. For a ratio in [0, 1], train has `int(len * ratio)` items; for a ratio of 1 or more, test is empty. |
| Converters.FlattenAppend | preprocessing/parse_jsons.py:99-102 | Extending by several lists in turn is the same as extending by their concatenation. |
| Converters.JsonContentsMembership | preprocessing/parse_jsons.py:93-102 | An item is in the merged list iff it occurs in some listed file whose name ends with ".json". |
| Converters.MergeJsonFiles | preprocessing/parse_jsons.py:91-102 | The loop produces the `.json` files' lists concatenated in listing order, which holds exactly the items of those files. |
| RoundTrip.DeepPavlovRoundTrip | preprocessing/parse_jsons.py:61-79 | Reading a converted table back with the bot's extractor yields exactly the set of `question + " " + answer` of its rows. |
| RoundTrip.ConvertJsonFormatKeepsCorpus | preprocessing/parse_jsons.py:147-162 | Re-wrapping with fresh ids leaves the corpus the bot reads equal to the sentences of the original items. |
| RoundTrip.ChangeIdKeepsCorpus | preprocessing/parse_jsons.py:126-129 | Randomising qa ids does not change the corpus. |
| Splitting.Split | telegram_bot.py:126 | There is always at least one piece. There are two or more iff the separator occurs. The first piece is a prefix of the text and, unless it is the whole text, is followed by the separator. |
| Splitting.SplitPiecesFree | telegram_bot.py:126 | No piece contains the separator. |
| Splitting.JoinSplit | telegram_bot.py:126 | Splitting on a non-empty separator and joining with it gives the text back. |
| Splitting.SecondPieceLocation | telegram_bot.py:126 | The second piece starts right after the first occurrence of the separator, and ends at the next occurrence or at the end of the text. |
| Strings.DecimalRoundTrip | preprocessing/parse_jsons.py:68 | `str(n)` read back as a number is `n`. |
| Strings.LowerIdempotent | telegram_bot.py:100 | Lower-casing twice equals lower-casing once. |

## Left out

- Telegram transport is not modelled: updates, message sending, inline keyboards, `query.answer()` and the texts the handlers send.
- `start`, `main` and handler registration are not modelled; they are wiring.
- config.py is not part of this model.
- The sentence-embedding model and `util.cos_sim` are not modelled. Scores come from the parameter `similarity`, and floating-point rounding is not modelled.
- The top-n branch of `find_relevant_context_cosine` (`np.argsort`) is not modelled; the bot only calls the top-1 branch.
- pymorphy2's morphological analysis is not modelled beyond the parameter `normalForm`.
- File I/O, JSON encoding and directory listing are not modelled. Files are values: a `map` of topic corpora, a listing of name/contents pairs, and a feedback log with one record per appended block.
- `random.randint` and `random.shuffle` are not modelled as generators. They are the parameters `rand` and `shuffled`.
- `load_csv` and `csv_to_json` are not modelled. A table is a sequence of rows indexed 0, 1, ….
- `Strings.Lower` and `Strings.IsWordChar` cover ASCII and the Cyrillic block (U+0400–U+04FF) only; within the block `Strings.LowerChar` maps every case pair that Python's `str.lower` maps. Other scripts' case mapping and Unicode word characters are not modelled.
- Missing JSON keys (KeyError) cannot arise, because records are typed. A missing first article or first answer is modelled, because the code indexes them.
- Converters.ChangeIdToRandom: paragraphs are array elements, so aliasing between paragraphs that share a qa list is not modelled.
- Converters.SplitTrainTest: `len * ratio` is exact real arithmetic, so floating-point rounding before `int()` is not modelled. For a negative ratio the body cuts where Python's negative slice would, but the contract states only the concatenation and permutation properties there. The ratio is always passed explicitly; the default `train_ratio=0.8` is not modelled.
- Session.GetTopic: the failure of `send_message` between storing the topic and setting the flag is not modelled.
- Session.Echo: when no topic is set, the model reports TopicUnset whether Python would raise AttributeError or UnboundLocalError. Which sentence wins among equal best scores depends on the corpus order that Python's set iteration gives, so the contract names a best sentence rather than a specific one.
- The `print(*text)` in the list branch of `capitalize_first_letter` is left out.

## Findings

| source | as written | input that shows it | evidently intended | confidence | as-written member | corrected member |
|---|---|---|---|---|---|---|
| telegram_bot.py:37 | The replacement returns only the upper-cased captured letter for a match that starts at the beginning and includes the leading whitespace, so that whitespace is deleted | `" ok"` becomes `"Ok"` | Upper-case the first letter and keep the leading whitespace: `" Ok"` | medium, not executed | Retrieval.AsWrittenCounterexample | Retrieval.CapitalizeFirstLetter |
