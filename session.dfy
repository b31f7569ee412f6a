/**
 * The per-user conversation state kept in `context.user_data` and the
 * handlers that read and write it: `get_topic`, `topic_handler`, `like`,
 * `dislike`, `button_handler` and `echo`. Messages the handlers send are not
 * modelled; what they decide and store is. The embedding model is the
 * parameter `similarity`, the pymorphy2 analyser is `normalForm`, the corpus
 * files are `corpora` (keyed by the lower-cased topic, as in the file name
 * `<topic>.json`), and the feedback file is a `FeedbackLog`.
 */
module Session {
  import opened Wrappers
  import opened Strings
  import opened Splitting
  import opened QaFormat
  import opened Spelling
  import opened Corpus
  import opened Retrieval
  import opened Feedback

  /** `{'user_question': ..., 'bot_answer': ...}`. */
  datatype LastMessage = LastMessage(userQuestion: string, botAnswer: string)

  /** What `echo` raises instead of answering. */
  datatype EchoError =
    | TopicUnset                         // `None.lower()` (AttributeError): no topic chosen yet
    | CorpusMissing                      // no `<topic>.json` file (FileNotFoundError)
    | CorpusUnreadable(e: CorpusError)   // IndexError inside `extract_corpus_texts`
    | RetrievalFailed(r: RetrievalError) // empty corpus, or the best sentence has no "? "

  datatype EchoReply = Answered(answer: string) | ChooseTopicFirst | Raised(error: EchoError)

  /** The keys of `context.user_data`; an absent key is `None`. */
  class UserData {
    var lastTopic: Option<string>
    /** Whether the key 'command_flag' is present; its value is always True. */
    var commandFlag: bool
    var selectedTopic: Option<string>
    var lastMessage: Option<LastMessage>

    constructor ()
      ensures lastTopic == None && !commandFlag && selectedTopic == None && lastMessage == None
      ensures Valid()
    {
      lastTopic, commandFlag, selectedTopic, lastMessage := None, false, None, None;
    }

    /** The command flag is only ever set together with the topic of the command. */
    ghost predicate Valid()
      reads this
    {
      commandFlag ==> lastTopic.Some?
    }

    /** The topic `echo` looks up: the button topic until a command has been seen, then the command topic. */
    function ChosenTopic(): (r: Result<string, EchoError>)
      reads this
      ensures !commandFlag ==> (r.Success? <==> selectedTopic.Some?)
      ensures !commandFlag && r.Success? ==> r.value == Lower(selectedTopic.value)
      ensures Valid() && commandFlag ==> r == Success(Lower(lastTopic.value))
      ensures r.Failure? ==> r.error == TopicUnset
      ensures r.Success? ==> Lower(r.value) == r.value
    {
      if !commandFlag then
        (if selectedTopic.Some? then LowerIdempotent(selectedTopic.value); Success(Lower(selectedTopic.value))
         else Failure(TopicUnset))
      else if lastTopic.Some? then LowerIdempotent(lastTopic.value); Success(Lower(lastTopic.value))
      else Failure(TopicUnset)
    }
  }

  /** `get_topic`: store the lower-cased text between the first and second "/" and set the command flag. */
  method GetTopic(user: UserData, text: string) returns (raised: bool)
    modifies user
    ensures raised <==> !Contains(text, "/")
    ensures raised ==> unchanged(user)
    ensures !raised ==> user.lastTopic == Some(Lower(Split(text, "/")[1])) && user.commandFlag
    ensures user.selectedTopic == old(user.selectedTopic) && user.lastMessage == old(user.lastMessage)
    ensures old(user.Valid()) ==> user.Valid()
  {
    var parts := Split(text, "/");
    if |parts| < 2 {
      return true;
    }
    var chosenTopic := parts[1];
    user.lastTopic := Some(Lower(chosenTopic));
    user.commandFlag := true;
    raised := false;
  }

  /** `topic_handler`: remember the topic of the pressed button, as given. */
  method TopicHandler(user: UserData, data: string)
    modifies user
    ensures user.selectedTopic == Some(data)
    ensures user.lastTopic == old(user.lastTopic) && user.commandFlag == old(user.commandFlag)
    ensures user.lastMessage == old(user.lastMessage)
    ensures old(user.Valid()) ==> user.Valid()
  {
    user.selectedTopic := Some(data);
  }

  /** Before any topic command, the topic is the last button pressed, lower-cased. */
  method ButtonTopicBeforeCommand(user: UserData, button: string)
    requires !user.commandFlag
    modifies user
    ensures user.ChosenTopic() == Success(Lower(button))
  {
    TopicHandler(user, button);
  }

  /** After a topic command, buttons no longer change the topic: the flag is never cleared. */
  method CommandTopicSticks(user: UserData, command: string, button: string)
    requires Contains(command, "/")
    modifies user
    ensures user.ChosenTopic() == Success(Lower(Split(command, "/")[1]))
  {
    var raised := GetTopic(user, command);
    TopicHandler(user, button);
    LowerIdempotent(Split(command, "/")[1]);
  }

  /** The shared body of `like` and `dislike`. */
  method React(user: UserData, log: FeedbackLog, cs: seq<Correction>, normalForm: string -> string,
               reaction: string, rand: nat -> int) returns (written: bool)
    requires forall k :: 1 <= rand(k) <= 20000
    modifies log
    ensures written <==> user.lastMessage.Some?
    ensures written ==>
              var m := user.lastMessage.value;
              log.records == old(log.records) + [FeedbackBlock(Normalize(m.userQuestion, cs, normalForm), m.botAnswer, reaction, rand)]
    ensures !written ==> log.records == old(log.records)
  {
    var lastMessage := user.lastMessage;
    if lastMessage.None? {
      return false;
    }
    var botAnswer := lastMessage.value.botAnswer;
    var userQuestion := lastMessage.value.userQuestion;
    var replacedQuestion := ReplaceIncorrectSpellings(userQuestion, cs, normalForm);
    log.WriteFeedbackToJson(replacedQuestion, botAnswer, reaction, rand);
    written := true;
  }

  /** `like`: one record labelled "like" when an exchange is stored, none otherwise. */
  method Like(user: UserData, log: FeedbackLog, cs: seq<Correction>, normalForm: string -> string, rand: nat -> int)
    returns (written: bool)
    requires forall k :: 1 <= rand(k) <= 20000
    modifies log
    ensures written <==> user.lastMessage.Some?
    ensures written ==>
              var m := user.lastMessage.value;
              log.records == old(log.records) + [FeedbackBlock(Normalize(m.userQuestion, cs, normalForm), m.botAnswer, "like", rand)]
    ensures !written ==> log.records == old(log.records)
  {
    written := React(user, log, cs, normalForm, "like", rand);
  }

  /** `dislike`: one record labelled "dislike" when an exchange is stored, none otherwise. */
  method Dislike(user: UserData, log: FeedbackLog, cs: seq<Correction>, normalForm: string -> string, rand: nat -> int)
    returns (written: bool)
    requires forall k :: 1 <= rand(k) <= 20000
    modifies log
    ensures written <==> user.lastMessage.Some?
    ensures written ==>
              var m := user.lastMessage.value;
              log.records == old(log.records) + [FeedbackBlock(Normalize(m.userQuestion, cs, normalForm), m.botAnswer, "dislike", rand)]
    ensures !written ==> log.records == old(log.records)
  {
    written := React(user, log, cs, normalForm, "dislike", rand);
  }

  /** `button_handler`: 'like' and 'dislike' record feedback; any other value selects a topic. */
  method ButtonHandler(user: UserData, log: FeedbackLog, data: string, cs: seq<Correction>,
                       normalForm: string -> string, rand: nat -> int) returns (written: bool)
    requires forall k :: 1 <= rand(k) <= 20000
    modifies user, log
    ensures data == "like" || data == "dislike" ==>
              && unchanged(user)
              && (written <==> user.lastMessage.Some?)
              && (written ==>
                    var m := user.lastMessage.value;
                    log.records == old(log.records) + [FeedbackBlock(Normalize(m.userQuestion, cs, normalForm), m.botAnswer, data, rand)])
              && (!written ==> log.records == old(log.records))
    ensures data != "like" && data != "dislike" ==>
              && !written && log.records == old(log.records)
              && user.selectedTopic == Some(data)
              && user.lastTopic == old(user.lastTopic) && user.commandFlag == old(user.commandFlag)
              && user.lastMessage == old(user.lastMessage)
  {
    if data == "like" {
      written := Like(user, log, cs, normalForm, rand);
    } else if data == "dislike" {
      written := Dislike(user, log, cs, normalForm, rand);
    } else {
      TopicHandler(user, data);
      written := false;
    }
  }

  /** What `echo` may reply for a question over a non-empty topic whose corpus is `candidates`. */
  ghost predicate IsReplyFor(candidates: set<string>, question: string, similarity: (string, string) -> real, reply: EchoReply)
  {
    if candidates == {} then reply == Raised(RetrievalFailed(EmptyCorpus))
    else
      || (reply.Answered? && exists a :: reply.answer == CapitalizeAsWritten(a)
                                       && IsRetrievedAnswer(candidates, question, similarity, a))
      || (reply == Raised(RetrievalFailed(NoDelimiter))
          && exists s :: IsBestAboveThreshold(candidates, question, similarity, s) && !Contains(s, Delimiter))
  }

  /** The answering step of `echo`: score the listed sentences, select, capitalise. */
  method AnswerQuestion(sentences: seq<string>, ghost candidates: set<string>, question: string,
                        similarity: (string, string) -> real) returns (reply: EchoReply)
    requires forall s :: s in sentences <==> s in candidates
    ensures reply.Answered? || reply.Raised?
    ensures IsReplyFor(candidates, question, similarity, reply)
  {
    var scores := seq(|sentences|, i requires 0 <= i < |sentences| => similarity(question, sentences[i]));
    SelectAnswerFromCandidates(sentences, candidates, question, similarity);
    var selected := SelectAnswer(sentences, scores);
    if selected.Failure? {
      return Raised(RetrievalFailed(selected.error));
    }
    reply := Answered(CapitalizeAsWritten(selected.value));
  }

  /**
   * `echo`: normalise the question, pick the topic, read its corpus, answer
   * with the best sentence (or decline), capitalise, and remember the exchange.
   */
  method Echo(user: UserData, text: string, cs: seq<Correction>, normalForm: string -> string,
              corpora: map<string, QaFile>, similarity: (string, string) -> real) returns (reply: EchoReply)
    modifies user
    ensures user.lastTopic == old(user.lastTopic) && user.commandFlag == old(user.commandFlag)
    ensures user.selectedTopic == old(user.selectedTopic)
    ensures old(user.Valid()) ==> user.Valid()
    ensures reply.Answered? ==> user.lastMessage == Some(LastMessage(Normalize(text, cs, normalForm), reply.answer))
    ensures !reply.Answered? ==> user.lastMessage == old(user.lastMessage)
    ensures match old(user.ChosenTopic())
            case Failure(_) => reply == Raised(TopicUnset)
            case Success(topic) =>
              if topic !in corpora then reply == Raised(CorpusMissing)
              else match CorpusOf(corpora[topic])
                case Failure(e) => reply == Raised(CorpusUnreadable(e))
                case Success(candidates) =>
                  if topic == "" then reply == ChooseTopicFirst
                  else IsReplyFor(candidates, Normalize(text, cs, normalForm), similarity, reply)
  {
    var replacedQuestion := ReplaceIncorrectSpellings(text, cs, normalForm);
    var topic := user.ChosenTopic();
    if topic.Failure? {
      return Raised(TopicUnset);
    }
    var chosenTopic := topic.value;
    if chosenTopic !in corpora {
      return Raised(CorpusMissing);
    }
    var listed := ExtractCorpusTexts(corpora[chosenTopic]);
    if listed.Failure? {
      return Raised(CorpusUnreadable(listed.error));
    }
    if chosenTopic == "" {
      return ChooseTopicFirst;
    }
    reply := AnswerQuestion(listed.value, CorpusOf(corpora[chosenTopic]).value, replacedQuestion, similarity);
    if reply.Answered? {
      user.lastMessage := Some(LastMessage(replacedQuestion, reply.answer));
    }
  }
}
