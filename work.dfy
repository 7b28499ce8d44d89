/** generate_work: for each variant, one pass over the topic files that fills the
    questions and answers dictionaries, then one question PDF and one answer PDF. */
module Work {
  import opened Results
  import opened Strings
  import opened Selection
  import opened Document

  const DefinitionsFolder := "Определения"
  const FormulasFolder := "Формулы"
  const DefinitionAnswersFolder := "Определения ответы"
  const FormulaAnswersFolder := "Формулы ответы"

  const DefinitionPrefix := "Определение: "
  const FormulaPrefix := "Формула: "
  const MissingImagePrefix := "[Изображение отсутствует для формулы: "

  /** The text files readlines() can open: path -> its lines, line endings included. */
  type FileSystem = map<string, seq<string>>

  /** read_file(path); open() raises FileNotFoundError for a path that is not there. */
  function ReadFile(fs: FileSystem, path: string): (r: Result<seq<string>>)
    ensures r.Ok? <==> path in fs
    ensures r.Ok? ==> r.value == fs[path]
    ensures r.Err? ==> r.error == FileNotFound(path)
  {
    if path in fs then Ok(fs[path]) else Err(FileNotFound(path))
  }

  /** topic.replace('.txt', ''): the key used for this topic file in both dictionaries. */
  function TopicName(topic: string): string {
    RemoveAll(topic, ".txt")
  }

  function DefinitionsPath(topic: string): string {
    Join(DefinitionsFolder, topic)
  }

  function DefinitionAnswersPath(topic: string): string {
    Join(DefinitionAnswersFolder, topic)
  }

  function FormulasPath(topic: string): string {
    Join(FormulasFolder, topic)
  }

  /** The picture answering the formula on line `index` (from 0) of a topic's formulas file. */
  function FormulaImagePath(topicName: string, index: nat): string {
    Join(Join(FormulaAnswersFolder, topicName), Digits(index + 1) + ".png")
  }

  /** The draws random.sample made for one topic of one variant. */
  datatype Picks = Picks(definitions: seq<nat>, formulas: seq<nat>)

  /** The draws are what random.sample can return for every sample the topic takes. */
  predicate PicksFit(fs: FileSystem, topic: string, counts: seq<(int, int)>, t: nat, p: Picks) {
    (DefinitionsPath(topic) in fs && t < |counts| && counts[t].1 >= 0 ==>
      IsSample(p.definitions, |fs[DefinitionsPath(topic)]|, Min(|fs[DefinitionsPath(topic)]|, counts[t].1)))
    && (FormulasPath(topic) in fs && t < |counts| && counts[t].0 >= 0 ==>
      IsSample(p.formulas, |fs[FormulasPath(topic)]|, Min(|fs[FormulasPath(topic)]|, counts[t].0)))
  }

  /** The answer to selected definition q: the answers file is opened again and its line
      at definitions.index(q), the first line equal to q, is stripped and prefixed. */
  function DefinitionAnswer(fs: FileSystem, answersPath: string, definitions: seq<string>, q: string): (r: Result<Item>)
    requires q in definitions
  {
    match ReadFile(fs, answersPath)
    case Err(e) => Err(e)
    case Ok(lines) =>
      var index := IndexOf(definitions, q);
      if index < |lines| then Ok(Text(DefinitionPrefix + Strip(lines[index])))
      else Err(AnswerLineMissing(answersPath, index))
  }

  /** The answers to the first n selected definitions, in order; the first failing
      lookup ends the run. */
  function AnswersUpTo(fs: FileSystem, answersPath: string, definitions: seq<string>, selected: seq<string>, n: nat): (r: Result<seq<Item>>)
    requires forall i :: 0 <= i < |selected| ==> selected[i] in definitions
    requires n <= |selected|
    ensures r.Ok? ==> |r.value| == n
  {
    if n == 0 then Ok([])
    else
      match AnswersUpTo(fs, answersPath, definitions, selected, n - 1)
      case Err(e) => Err(e)
      case Ok(earlier) =>
        match DefinitionAnswer(fs, answersPath, definitions, selected[n - 1])
        case Err(e) => Err(e)
        case Ok(answer) => Ok(earlier + [answer])
  }

  /** The answers to all the selected definitions. */
  function DefinitionAnswers(fs: FileSystem, answersPath: string, definitions: seq<string>, selected: seq<string>): Result<seq<Item>>
    requires forall i :: 0 <= i < |selected| ==> selected[i] in definitions
  {
    AnswersUpTo(fs, answersPath, definitions, selected, |selected|)
  }

  /** The answer to selected formula q: its picture with a caption when the picture
      exists, otherwise a note that it is missing. */
  function FormulaAnswer(images: set<string>, topicName: string, formulas: seq<string>, q: string): Item
    requires q in formulas
  {
    var answerImage := FormulaImagePath(topicName, IndexOf(formulas, q));
    if answerImage in images then Figure(answerImage, FormulaPrefix + Strip(q))
    else Text(MissingImagePrefix + Strip(q) + "]")
  }

  function FormulaAnswers(images: set<string>, topicName: string, formulas: seq<string>, selected: seq<string>): (r: seq<Item>)
    requires forall i :: 0 <= i < |selected| ==> selected[i] in formulas
    ensures |r| == |selected|
  {
    seq(|selected|, i requires 0 <= i < |selected| => FormulaAnswer(images, topicName, formulas, selected[i]))
  }

  /** The questions asked for the selected lines: each line stripped. */
  function Questions(selected: seq<string>): (r: seq<Item>)
    ensures |r| == |selected|
  {
    seq(|selected|, i requires 0 <= i < |selected| => Text(Strip(selected[i])))
  }

  /** What one topic contributes to questions[topic_name] and answers[topic_name]. */
  datatype TopicLists = TopicLists(questions: seq<Item>, answers: seq<Item>)

  /** One pass of the topic loop, in the order the source performs its reads, lookups
      and samples: the first of them to fail decides the error. */
  function AssembledTopic(fs: FileSystem, images: set<string>, topic: string, t: nat,
                          counts: seq<(int, int)>, p: Picks): (r: Result<TopicLists>)
    requires PicksFit(fs, topic, counts, t, p)
  {
    match ReadFile(fs, DefinitionsPath(topic))
    case Err(e) => Err(e)
    case Ok(definitions) =>
      if t >= |counts| then Err(CountsMissing(t))
      else
        match SelectRandomItems(definitions, counts[t].1, p.definitions)
        case Err(e) => Err(e)
        case Ok(selectedDefinitions) =>
          match DefinitionAnswers(fs, DefinitionAnswersPath(topic), definitions, selectedDefinitions)
          case Err(e) => Err(e)
          case Ok(definitionAnswers) =>
            match ReadFile(fs, FormulasPath(topic))
            case Err(e) => Err(e)
            case Ok(formulas) =>
              match SelectRandomItems(formulas, counts[t].0, p.formulas)
              case Err(e) => Err(e)
              case Ok(selectedFormulas) =>
                Ok(TopicLists(Questions(selectedDefinitions) + Questions(selectedFormulas),
                              definitionAnswers + FormulaAnswers(images, TopicName(topic), formulas, selectedFormulas)))
  }

  /** A failed lookup stops the answers at that definition. */
  lemma {:induction false} AnswersStop(fs: FileSystem, answersPath: string, definitions: seq<string>, selected: seq<string>, j: nat, n: nat)
    requires forall i :: 0 <= i < |selected| ==> selected[i] in definitions
    requires j < n <= |selected|
    requires AnswersUpTo(fs, answersPath, definitions, selected, j).Ok?
    requires DefinitionAnswer(fs, answersPath, definitions, selected[j]).Err?
    ensures AnswersUpTo(fs, answersPath, definitions, selected, n)
      == Err(DefinitionAnswer(fs, answersPath, definitions, selected[j]).error)
    decreases n
  {
    if n > j + 1 {
      AnswersStop(fs, answersPath, definitions, selected, j, n - 1);
    }
  }

  /** One more selected definition answered. */
  lemma AnswersUpToStep(fs: FileSystem, answersPath: string, definitions: seq<string>, selected: seq<string>, j: nat)
    requires forall i :: 0 <= i < |selected| ==> selected[i] in definitions
    requires j < |selected|
    requires AnswersUpTo(fs, answersPath, definitions, selected, j).Ok?
    requires DefinitionAnswer(fs, answersPath, definitions, selected[j]).Ok?
    ensures AnswersUpTo(fs, answersPath, definitions, selected, j + 1)
      == Ok(AnswersUpTo(fs, answersPath, definitions, selected, j).value
            + [DefinitionAnswer(fs, answersPath, definitions, selected[j]).value])
  {
  }

  /** Lines 89-92 for one selected definition q: reopen the answers file and look up
      the line at definitions.index(q). */
  method AnswerDefinition(fs: FileSystem, answersPath: string, definitions: seq<string>, q: string)
    returns (r: Result<Item>)
    requires q in definitions
    ensures r == DefinitionAnswer(fs, answersPath, definitions, q)
  {
    var definitionAnswers :- ReadFile(fs, answersPath);
    var index := IndexOf(definitions, q);
    if index >= |definitionAnswers| {
      return Err(AnswerLineMissing(answersPath, index));
    }
    var answer := Strip(definitionAnswers[index]);
    return Ok(Text(DefinitionPrefix + answer));
  }

  /** The loop over the selected definitions (lines 87-92): each one is asked as a
      question, then answered from the answers file, until a lookup fails. */
  method AskDefinitions(fs: FileSystem, answersPath: string, definitions: seq<string>, selected: seq<string>)
    returns (questions: seq<Item>, answers: Result<seq<Item>>)
    requires forall i :: 0 <= i < |selected| ==> selected[i] in definitions
    ensures answers == DefinitionAnswers(fs, answersPath, definitions, selected)
    ensures answers.Ok? ==> questions == Questions(selected)
  {
    questions := [];
    var answered: seq<Item> := [];
    ghost var asked := Questions(selected);
    for j := 0 to |selected|
      invariant questions == asked[..j]
      invariant AnswersUpTo(fs, answersPath, definitions, selected, j) == Ok(answered)
    {
      var q := selected[j];
      questions := questions + [Text(Strip(q))];
      TakeSnoc(asked, j);
      var answer := AnswerDefinition(fs, answersPath, definitions, q);
      if answer.Err? {
        AnswersStop(fs, answersPath, definitions, selected, j, |selected|);
        return questions, Err(answer.error);
      }
      AnswersUpToStep(fs, answersPath, definitions, selected, j);
      answered := answered + [answer.value];
    }
    assert asked[..|selected|] == asked;
    answers := Ok(answered);
  }

  /** Lines 99-104 for one selected formula q: its picture, if there is one, or a note. */
  method AnswerFormula(images: set<string>, topicName: string, formulas: seq<string>, q: string)
    returns (r: Item)
    requires q in formulas
    ensures r == FormulaAnswer(images, topicName, formulas, q)
  {
    var formulasAnswersFolder := Join(FormulaAnswersFolder, topicName);
    var answerImage := Join(formulasAnswersFolder, Digits(IndexOf(formulas, q) + 1) + ".png");
    if answerImage in images {
      return Figure(answerImage, FormulaPrefix + Strip(q));
    }
    return Text(MissingImagePrefix + Strip(q) + "]");
  }

  /** The loop over the selected formulas (lines 97-104), appending to both lists. */
  method AskFormulas(images: set<string>, topicName: string, formulas: seq<string>, selected: seq<string>,
                     questions: seq<Item>, answers: seq<Item>)
    returns (questions': seq<Item>, answers': seq<Item>)
    requires forall i :: 0 <= i < |selected| ==> selected[i] in formulas
    ensures questions' == questions + Questions(selected)
    ensures answers' == answers + FormulaAnswers(images, topicName, formulas, selected)
  {
    questions', answers' := questions, answers;
    ghost var asked := Questions(selected);
    ghost var answered := FormulaAnswers(images, topicName, formulas, selected);
    for j := 0 to |selected|
      invariant questions' == questions + asked[..j]
      invariant answers' == answers + answered[..j]
    {
      var q := selected[j];
      questions' := questions' + [Text(Strip(q))];
      var answer := AnswerFormula(images, topicName, formulas, q);
      answers' := answers' + [answer];
      TakeSnoc(asked, j);
      TakeSnoc(answered, j);
    }
    assert asked[..|selected|] == asked && answered[..|selected|] == answered;
  }

  /** The body of the topic loop (lines 79-104) for topic file `topic` at position t. */
  method AssembleTopic(fs: FileSystem, images: set<string>, topic: string, t: nat,
                       counts: seq<(int, int)>, p: Picks) returns (r: Result<TopicLists>)
    requires PicksFit(fs, topic, counts, t, p)
    ensures r == AssembledTopic(fs, images, topic, t, counts, p)
  {
    var topicName := TopicName(topic);
    var definitionsPath := Join(DefinitionsFolder, topic);
    var definitions :- ReadFile(fs, definitionsPath);
    if t >= |counts| {
      return Err(CountsMissing(t));
    }
    var selectedDefinitions :- SelectRandomItems(definitions, counts[t].1, p.definitions);
    var questions, definitionAnswers := AskDefinitions(fs, Join(DefinitionAnswersFolder, topic), definitions, selectedDefinitions);
    var answers :- definitionAnswers;
    var formulasPath := Join(FormulasFolder, topic);
    var formulas :- ReadFile(fs, formulasPath);
    var selectedFormulas :- SelectRandomItems(formulas, counts[t].0, p.formulas);
    questions, answers := AskFormulas(images, topicName, formulas, selectedFormulas, questions, answers);
    return Ok(TopicLists(questions, answers));
  }

  /** The answers file has a line at the first position of every selected line. */
  predicate AnswerLinesPresent(lines: seq<string>, definitions: seq<string>, selected: seq<string>)
    requires forall i :: 0 <= i < |selected| ==> selected[i] in definitions
  {
    forall i :: 0 <= i < |selected| ==> IndexOf(definitions, selected[i]) < |lines|
  }

  /** For each selected line, the answers line at its first position, stripped, after "Определение: ". */
  function LookedUpAnswers(lines: seq<string>, definitions: seq<string>, selected: seq<string>): (r: seq<Item>)
    requires forall i :: 0 <= i < |selected| ==> selected[i] in definitions
    requires AnswerLinesPresent(lines, definitions, selected)
    ensures |r| == |selected|
  {
    seq(|selected|, i requires 0 <= i < |selected| =>
      Text(DefinitionPrefix + Strip(lines[IndexOf(definitions, selected[i])])))
  }

  /** A selected definition is answered by the answers line at its first position,
      stripped, after "Определение: ", when the answers file has that line. */
  lemma DefinitionAnswerFound(fs: FileSystem, answersPath: string, definitions: seq<string>, q: string)
    requires q in definitions
    ensures DefinitionAnswer(fs, answersPath, definitions, q).Ok?
      <==> answersPath in fs && IndexOf(definitions, q) < |fs[answersPath]|
    ensures DefinitionAnswer(fs, answersPath, definitions, q).Ok? ==>
      DefinitionAnswer(fs, answersPath, definitions, q).value
        == Text(DefinitionPrefix + Strip(fs[answersPath][IndexOf(definitions, q)]))
  {
  }

  /** The first n answers exist exactly when n is 0 (the answers file is then never
      opened) or the answers file exists and holds a line at the first position of each
      of the first n selected lines. */
  lemma {:induction false} AnswersUpToExist(fs: FileSystem, answersPath: string, definitions: seq<string>, selected: seq<string>, n: nat)
    requires forall i :: 0 <= i < |selected| ==> selected[i] in definitions
    requires n <= |selected|
    ensures AnswersUpTo(fs, answersPath, definitions, selected, n).Ok?
      <==> n == 0 || (answersPath in fs
                      && forall i :: 0 <= i < n ==> IndexOf(definitions, selected[i]) < |fs[answersPath]|)
    decreases n
  {
    if n > 0 {
      AnswersUpToExist(fs, answersPath, definitions, selected, n - 1);
      DefinitionAnswerFound(fs, answersPath, definitions, selected[n - 1]);
    }
  }

  /** The first n answers, when their lines exist, are those lines, stripped, after
      "Определение: ". */
  lemma {:induction false} AnswersUpToValues(fs: FileSystem, answersPath: string, definitions: seq<string>, selected: seq<string>, n: nat)
    requires forall i :: 0 <= i < |selected| ==> selected[i] in definitions
    requires n <= |selected|
    requires answersPath in fs
    requires forall i :: 0 <= i < n ==> IndexOf(definitions, selected[i]) < |fs[answersPath]|
    ensures var r := AnswersUpTo(fs, answersPath, definitions, selected, n);
      r.Ok? && |r.value| == n
      && forall i :: 0 <= i < n ==>
           r.value[i] == Text(DefinitionPrefix + Strip(fs[answersPath][IndexOf(definitions, selected[i])]))
    decreases n
  {
    if n > 0 {
      AnswersUpToValues(fs, answersPath, definitions, selected, n - 1);
      DefinitionAnswerFound(fs, answersPath, definitions, selected[n - 1]);
    }
  }

  /** The definition answers exist exactly when nothing was selected (the answers file is
      then never opened) or the answers file exists and holds a line at the first position
      of every selected line. */
  lemma DefinitionAnswersExist(fs: FileSystem, answersPath: string, definitions: seq<string>, selected: seq<string>)
    requires forall i :: 0 <= i < |selected| ==> selected[i] in definitions
    ensures DefinitionAnswers(fs, answersPath, definitions, selected).Ok?
      <==> selected == [] || (answersPath in fs && AnswerLinesPresent(fs[answersPath], definitions, selected))
  {
    AnswersUpToExist(fs, answersPath, definitions, selected, |selected|);
  }

  /** Each definition answer is the answers line at the first position of its selected line. */
  lemma DefinitionAnswersValues(fs: FileSystem, answersPath: string, definitions: seq<string>, selected: seq<string>)
    requires forall i :: 0 <= i < |selected| ==> selected[i] in definitions
    requires answersPath in fs && AnswerLinesPresent(fs[answersPath], definitions, selected)
    ensures DefinitionAnswers(fs, answersPath, definitions, selected)
      == Ok(LookedUpAnswers(fs[answersPath], definitions, selected))
  {
    AnswersUpToValues(fs, answersPath, definitions, selected, |selected|);
    assert DefinitionAnswers(fs, answersPath, definitions, selected).value
      == LookedUpAnswers(fs[answersPath], definitions, selected);
  }

  /** A failing lookup among the first n names the file: a missing answers file, or the
      position of the first selected line whose answer line is not there. */
  lemma {:induction false} AnswersUpToFailure(fs: FileSystem, answersPath: string, definitions: seq<string>, selected: seq<string>, n: nat)
    requires forall i :: 0 <= i < |selected| ==> selected[i] in definitions
    requires n <= |selected|
    requires AnswersUpTo(fs, answersPath, definitions, selected, n).Err?
    ensures answersPath !in fs ==>
      AnswersUpTo(fs, answersPath, definitions, selected, n).error == FileNotFound(answersPath)
    ensures answersPath in fs ==>
      exists j :: 0 <= j < n
        && AnswersUpTo(fs, answersPath, definitions, selected, n).error
           == AnswerLineMissing(answersPath, IndexOf(definitions, selected[j]))
        && |fs[answersPath]| <= IndexOf(definitions, selected[j])
        && forall k :: 0 <= k < j ==> IndexOf(definitions, selected[k]) < |fs[answersPath]|
    decreases n
  {
    var before := AnswersUpTo(fs, answersPath, definitions, selected, n - 1);
    if before.Err? {
      AnswersUpToFailure(fs, answersPath, definitions, selected, n - 1);
      if answersPath in fs {
        var j :| 0 <= j < n - 1
          && before.error == AnswerLineMissing(answersPath, IndexOf(definitions, selected[j]))
          && |fs[answersPath]| <= IndexOf(definitions, selected[j])
          && forall k :: 0 <= k < j ==> IndexOf(definitions, selected[k]) < |fs[answersPath]|;
      }
    } else if answersPath in fs {
      AnswersUpToExist(fs, answersPath, definitions, selected, n - 1);
      var j := n - 1;
      assert forall k :: 0 <= k < j ==> IndexOf(definitions, selected[k]) < |fs[answersPath]|;
    }
  }

  /** A failing lookup names the file: a missing answers file, or the position of the
      first selected line whose answer line is not there. */
  lemma DefinitionAnswersFailure(fs: FileSystem, answersPath: string, definitions: seq<string>, selected: seq<string>)
    requires forall i :: 0 <= i < |selected| ==> selected[i] in definitions
    requires DefinitionAnswers(fs, answersPath, definitions, selected).Err?
    ensures answersPath !in fs ==>
      DefinitionAnswers(fs, answersPath, definitions, selected).error == FileNotFound(answersPath)
    ensures answersPath in fs ==>
      exists j :: 0 <= j < |selected|
        && DefinitionAnswers(fs, answersPath, definitions, selected).error
           == AnswerLineMissing(answersPath, IndexOf(definitions, selected[j]))
        && |fs[answersPath]| <= IndexOf(definitions, selected[j])
        && forall k :: 0 <= k < j ==> IndexOf(definitions, selected[k]) < |fs[answersPath]|
  {
    AnswersUpToFailure(fs, answersPath, definitions, selected, |selected|);
  }

  /** A selected definition whose text does not occur earlier in the file is answered by
      the answers line at its own position. */
  lemma DefinitionAnswerAtPosition(fs: FileSystem, answersPath: string, definitions: seq<string>, p: nat)
    requires p < |definitions| && answersPath in fs && p < |fs[answersPath]|
    requires forall j :: 0 <= j < p ==> definitions[j] != definitions[p]
    ensures DefinitionAnswer(fs, answersPath, definitions, definitions[p])
      == Ok(Text(DefinitionPrefix + Strip(fs[answersPath][p])))
  {
    IndexOfFirst(definitions, definitions[p]);
    assert IndexOf(definitions, definitions[p]) == p;
  }

  /** A line that also occurs earlier in the definitions file is never answered from its
      own position: whichever copy random.sample drew, the answer comes from the answers
      line of the FIRST copy. */
  lemma RepeatedDefinitionAnswersFirst(fs: FileSystem, answersPath: string, definitions: seq<string>, p: nat, j: nat)
    requires j < p < |definitions| && definitions[j] == definitions[p]
    requires answersPath in fs && p < |fs[answersPath]|
    ensures IndexOf(definitions, definitions[p]) <= j < p
    ensures DefinitionAnswer(fs, answersPath, definitions, definitions[p])
      == Ok(Text(DefinitionPrefix + Strip(fs[answersPath][IndexOf(definitions, definitions[p])])))
  {
    IndexOfFirst(definitions, definitions[p]);
    DefinitionAnswerFound(fs, answersPath, definitions, definitions[p]);
  }

  /** A successful pass over a topic: every file it opened was there, both counts were
      given and non-negative, and its lists are the drawn lines asked as questions,
      definitions before formulas, beside their answers. */
  lemma AssembledTopicParts(fs: FileSystem, images: set<string>, topic: string, t: nat,
                            counts: seq<(int, int)>, p: Picks)
    requires PicksFit(fs, topic, counts, t, p)
    requires AssembledTopic(fs, images, topic, t, counts, p).Ok?
    ensures DefinitionsPath(topic) in fs && FormulasPath(topic) in fs
    ensures t < |counts| && counts[t].0 >= 0 && counts[t].1 >= 0
    ensures IsSample(p.definitions, |fs[DefinitionsPath(topic)]|, Min(|fs[DefinitionsPath(topic)]|, counts[t].1))
    ensures IsSample(p.formulas, |fs[FormulasPath(topic)]|, Min(|fs[FormulasPath(topic)]|, counts[t].0))
    ensures var definitions, formulas := fs[DefinitionsPath(topic)], fs[FormulasPath(topic)];
      var sd, sf := Pick(definitions, p.definitions), Pick(formulas, p.formulas);
      (forall i :: 0 <= i < |sd| ==> sd[i] in definitions)
      && (forall i :: 0 <= i < |sf| ==> sf[i] in formulas)
      && DefinitionAnswers(fs, DefinitionAnswersPath(topic), definitions, sd).Ok?
      && AssembledTopic(fs, images, topic, t, counts, p).value
         == TopicLists(Questions(sd) + Questions(sf),
                       DefinitionAnswers(fs, DefinitionAnswersPath(topic), definitions, sd).value
                       + FormulaAnswers(images, TopicName(topic), formulas, sf))
  {
  }

  lemma ConcatAt<T>(a: seq<T>, b: seq<T>, i: nat)
    requires i < |b|
    ensures (a + b)[|a| + i] == b[i]
  {
  }

  /** The definitions block of a topic: its first questions are the drawn definitions,
      each beside the answers line at the first position of its text, stripped, after
      "Определение: "; that line exists for every one of them. */
  lemma AssembledTopicDefinitions(fs: FileSystem, images: set<string>, topic: string, t: nat,
                                  counts: seq<(int, int)>, p: Picks)
    requires PicksFit(fs, topic, counts, t, p)
    requires AssembledTopic(fs, images, topic, t, counts, p).Ok?
    ensures DefinitionsPath(topic) in fs && t < |counts| && counts[t].1 >= 0
    ensures var r := AssembledTopic(fs, images, topic, t, counts, p).value;
      var definitions := fs[DefinitionsPath(topic)];
      var nd := Min(|definitions|, counts[t].1);
      |p.definitions| == nd && nd <= |r.questions| && nd <= |r.answers|
      && forall i :: 0 <= i < nd ==>
           var q := definitions[p.definitions[i]];
           DefinitionAnswersPath(topic) in fs
           && IndexOf(definitions, q) < |fs[DefinitionAnswersPath(topic)]|
           && r.questions[i] == Text(Strip(q))
           && r.answers[i] == Text(DefinitionPrefix + Strip(fs[DefinitionAnswersPath(topic)][IndexOf(definitions, q)]))
  {
    AssembledTopicParts(fs, images, topic, t, counts, p);
    var r := AssembledTopic(fs, images, topic, t, counts, p).value;
    var definitions, formulas := fs[DefinitionsPath(topic)], fs[FormulasPath(topic)];
    var sd, sf := Pick(definitions, p.definitions), Pick(formulas, p.formulas);
    var answersPath := DefinitionAnswersPath(topic);
    DefinitionAnswersExist(fs, answersPath, definitions, sd);
    if sd != [] {
      DefinitionAnswersValues(fs, answersPath, definitions, sd);
      var da := LookedUpAnswers(fs[answersPath], definitions, sd);
      assert r.questions == Questions(sd) + Questions(sf);
      assert r.answers == da + FormulaAnswers(images, TopicName(topic), formulas, sf);
      forall i | 0 <= i < |sd|
        ensures r.questions[i] == Text(Strip(sd[i])) && r.answers[i] == da[i]
      {
      }
    }
  }

  /** The formulas block of a topic: after the definitions come the drawn formulas, each
      answered by its picture `{index + 1}.png` with a caption when that picture exists, and
      by a note naming the formula otherwise. */
  lemma AssembledTopicFormulas(fs: FileSystem, images: set<string>, topic: string, t: nat,
                               counts: seq<(int, int)>, p: Picks)
    requires PicksFit(fs, topic, counts, t, p)
    requires AssembledTopic(fs, images, topic, t, counts, p).Ok?
    ensures DefinitionsPath(topic) in fs && FormulasPath(topic) in fs
    ensures t < |counts| && counts[t].0 >= 0 && counts[t].1 >= 0
    ensures var r := AssembledTopic(fs, images, topic, t, counts, p).value;
      var definitions, formulas := fs[DefinitionsPath(topic)], fs[FormulasPath(topic)];
      var nd, nf := Min(|definitions|, counts[t].1), Min(|formulas|, counts[t].0);
      |r.questions| == |r.answers| == nd + nf
      && |p.formulas| == nf
      && forall i :: 0 <= i < nf ==>
           var q := formulas[p.formulas[i]];
           var image := FormulaImagePath(TopicName(topic), IndexOf(formulas, q));
           r.questions[nd + i] == Text(Strip(q))
           && r.answers[nd + i] == if image in images then Figure(image, FormulaPrefix + Strip(q))
                                   else Text(MissingImagePrefix + Strip(q) + "]")
  {
    AssembledTopicParts(fs, images, topic, t, counts, p);
    var definitions, formulas := fs[DefinitionsPath(topic)], fs[FormulasPath(topic)];
    var sd := Pick(definitions, p.definitions);
    var da := DefinitionAnswers(fs, DefinitionAnswersPath(topic), definitions, sd).value;
    FormulaBlock(images, TopicName(topic), formulas, p.formulas, Questions(sd), da);
  }

  /** The formulas block after any lists of equal length: one question and one answer
      per drawn formula, at the same offsets. */
  lemma FormulaBlock(images: set<string>, topicName: string, formulas: seq<string>, positions: seq<nat>,
                     questions: seq<Item>, answers: seq<Item>)
    requires forall i :: 0 <= i < |positions| ==> positions[i] < |formulas|
    requires |questions| == |answers|
    ensures var selected := Pick(formulas, positions);
      var qs := questions + Questions(selected);
      var ans := answers + FormulaAnswers(images, topicName, formulas, selected);
      |qs| == |ans| == |questions| + |positions|
      && forall i :: 0 <= i < |positions| ==>
           var q := formulas[positions[i]];
           var image := FormulaImagePath(topicName, IndexOf(formulas, q));
           qs[|questions| + i] == Text(Strip(q))
           && ans[|questions| + i] == if image in images then Figure(image, FormulaPrefix + Strip(q))
                                     else Text(MissingImagePrefix + Strip(q) + "]")
  {
    var selected := Pick(formulas, positions);
    var qf, fa := Questions(selected), FormulaAnswers(images, topicName, formulas, selected);
    var qs, ans := questions + qf, answers + fa;
    forall i | 0 <= i < |positions|
      ensures var q := formulas[positions[i]];
        var image := FormulaImagePath(topicName, IndexOf(formulas, q));
        qs[|questions| + i] == Text(Strip(q))
        && ans[|questions| + i] == if image in images then Figure(image, FormulaPrefix + Strip(q))
                                   else Text(MissingImagePrefix + Strip(q) + "]")
    {
      ConcatAt(questions, qf, i);
      ConcatAt(answers, fa, i);
      var q := selected[i];
      assert qf[i] == Text(Strip(q));
      assert fa[i] == FormulaAnswer(images, topicName, formulas, q);
    }
  }

  /** An image answer always points at a picture that exists, so the answer sheet shows it. */
  lemma AnswerPicturesExist(fs: FileSystem, images: set<string>, topic: string, t: nat,
                            counts: seq<(int, int)>, p: Picks, i: nat)
    requires PicksFit(fs, topic, counts, t, p)
    requires AssembledTopic(fs, images, topic, t, counts, p).Ok?
    requires i < |AssembledTopic(fs, images, topic, t, counts, p).value.answers|
    requires AssembledTopic(fs, images, topic, t, counts, p).value.answers[i].Figure?
    ensures AssembledTopic(fs, images, topic, t, counts, p).value.answers[i].path in images
  {
    AssembledTopicDefinitions(fs, images, topic, t, counts, p);
    AssembledTopicFormulas(fs, images, topic, t, counts, p);
    var definitions := fs[DefinitionsPath(topic)];
    var nd := Min(|definitions|, counts[t].1);
    if i >= nd {
      assert i - nd < Min(|fs[FormulasPath(topic)]|, counts[t].0);
    }
  }

  lemma AssembledTopicAligned(fs: FileSystem, images: set<string>, topic: string, t: nat,
                              counts: seq<(int, int)>, p: Picks)
    requires PicksFit(fs, topic, counts, t, p)
    requires AssembledTopic(fs, images, topic, t, counts, p).Ok?
    ensures |AssembledTopic(fs, images, topic, t, counts, p).value.questions|
      == |AssembledTopic(fs, images, topic, t, counts, p).value.answers|
  {
    AssembledTopicFormulas(fs, images, topic, t, counts, p);
  }

  /** The keys of an insertion-ordered dict, in order. */
  function Keys<V>(d: seq<(string, V)>): seq<string> {
    seq(|d|, i requires 0 <= i < |d| => d[i].0)
  }

  /** d with the value of every entry under key replaced. */
  function Replace<V>(d: seq<(string, V)>, key: string, value: V): seq<(string, V)> {
    seq(|d|, i requires 0 <= i < |d| => if d[i].0 == key then (key, value) else d[i])
  }

  /** d[key] = value on an insertion-ordered dict. */
  function Put<V>(d: seq<(string, V)>, key: string, value: V): seq<(string, V)> {
    if key in Keys(d) then Replace(d, key, value) else d + [(key, value)]
  }

  /** A key already present keeps its place, a new key is added last, and no other key
      moves. */
  lemma PutKeys<V>(d: seq<(string, V)>, key: string, value: V)
    ensures Keys(Put(d, key, value)) == if key in Keys(d) then Keys(d) else Keys(d) + [key]
  {
    if key !in Keys(d) {
      assert (d + [(key, value)])[..|d|] == d;
    }
  }

  /** The entry under key holds the new value, and every other entry is unchanged. */
  lemma PutEntries<V>(d: seq<(string, V)>, key: string, value: V)
    ensures var r := Put(d, key, value);
      forall i :: 0 <= i < |r| ==>
        if r[i].0 == key then r[i].1 == value else i < |d| && r[i] == d[i]
  {
    assert forall i :: 0 <= i < |d| ==> Keys(d)[i] == d[i].0;
  }

  /** A key not yet present goes in last. */
  lemma PutNew<V>(d: seq<(string, V)>, key: string, value: V)
    requires key !in Keys(d)
    ensures Put(d, key, value) == d + [(key, value)]
    ensures Keys(Put(d, key, value)) == Keys(d) + [key]
  {
    PutKeys(d, key, value);
  }

  /** The two dictionaries of one variant. */
  datatype Sheets = Sheets(questions: Content, answers: Content)

  /** Draws for every topic of one variant, each fitting that topic's files. */
  predicate PicksFitVariant(fs: FileSystem, topics: seq<string>, counts: seq<(int, int)>, picks: seq<Picks>) {
    |picks| == |topics|
    && forall t :: 0 <= t < |topics| ==> PicksFit(fs, topics[t], counts, t, picks[t])
  }

  /** Folds per-topic results into the two dictionaries in listing order: topic t goes in
      under names[t], and the first failed topic's error ends the fold. */
  function Merge(names: seq<string>, results: seq<Result<TopicLists>>): (r: Result<Sheets>)
    requires |names| == |results|
    decreases |names|
  {
    if names == [] then Ok(Sheets([], []))
    else
      var n := |names| - 1;
      match Merge(names[..n], results[..n])
      case Err(e) => Err(e)
      case Ok(earlier) =>
        match results[n]
        case Err(e) => Err(e)
        case Ok(lists) =>
          Ok(Sheets(Put(earlier.questions, names[n], lists.questions), Put(earlier.answers, names[n], lists.answers)))
  }

  /** Merge succeeds exactly when every topic does. */
  lemma {:induction false} MergeOk(names: seq<string>, results: seq<Result<TopicLists>>)
    requires |names| == |results|
    ensures Merge(names, results).Ok? <==> forall t :: 0 <= t < |results| ==> results[t].Ok?
    decreases |names|
  {
    if names != [] {
      var n := |names| - 1;
      MergeOk(names[..n], results[..n]);
      MergeOkStep(names, results);
      assert forall t :: 0 <= t < n ==> results[..n][t] == results[t];
    }
  }

  /** One more topic: Merge succeeds exactly when the earlier topics and the new one do. */
  lemma MergeOkStep(names: seq<string>, results: seq<Result<TopicLists>>)
    requires |names| == |results| && names != []
    ensures Merge(names, results).Ok?
      <==> Merge(names[..|names| - 1], results[..|names| - 1]).Ok? && results[|names| - 1].Ok?
  {
  }

  /** A failed Merge fails with the error of the first failed topic. */
  lemma {:induction false} MergeFails(names: seq<string>, results: seq<Result<TopicLists>>, k: nat)
    requires |names| == |results|
    requires k < |results| && results[k].Err?
    requires forall t :: 0 <= t < k ==> results[t].Ok?
    ensures Merge(names, results) == Err(results[k].error)
    decreases |names|
  {
    var n := |names| - 1;
    MergeErrStep(names, results);
    if k < n {
      MergeFails(names[..n], results[..n], k);
      assert results[..n][k] == results[k];
    } else {
      MergeOk(names[..n], results[..n]);
      assert forall t :: 0 <= t < n ==> results[..n][t] == results[t];
    }
  }

  /** One more topic: a failure so far, or of the new topic, is the failure of the whole. */
  lemma MergeErrStep(names: seq<string>, results: seq<Result<TopicLists>>)
    requires |names| == |results| && names != []
    ensures var n := |names| - 1; var earlier := Merge(names[..n], results[..n]);
      (earlier.Err? ==> Merge(names, results) == earlier)
      && (earlier.Ok? && results[n].Err? ==> Merge(names, results) == Err(results[n].error))
  {
  }

  /** The dictionaries of a Merge have the same keys in the same order, each key's two
      lists equally long when every topic's are, and the keys are exactly the names. */
  lemma {:induction false} MergeAligned(names: seq<string>, results: seq<Result<TopicLists>>)
    requires |names| == |results|
    requires forall t :: 0 <= t < |results| && results[t].Ok? ==>
      |results[t].value.questions| == |results[t].value.answers|
    requires Merge(names, results).Ok?
    ensures var s := Merge(names, results).value;
      Keys(s.questions) == Keys(s.answers)
      && (forall i :: 0 <= i < |s.questions| ==> |s.questions[i].1| == |s.answers[i].1|)
      && (forall name :: name in Keys(s.questions) <==> name in names)
    decreases |names|
  {
    if names != [] {
      var n := |names| - 1;
      assert forall t :: 0 <= t < n ==> results[..n][t] == results[t];
      MergeAligned(names[..n], results[..n]);
      var earlier := Merge(names[..n], results[..n]).value;
      PutAligned(earlier, names[..n], names[n], results[n].value);
      assert names == names[..n] + [names[n]];
    }
  }

  /** The step of MergeAligned: putting one topic's lists of equal length into aligned
      dictionaries keeps them aligned. */
  lemma PutAligned(sheets: Sheets, names: seq<string>, name: string, lists: TopicLists)
    requires Keys(sheets.questions) == Keys(sheets.answers)
    requires forall i :: 0 <= i < |sheets.questions| ==> |sheets.questions[i].1| == |sheets.answers[i].1|
    requires forall key :: key in Keys(sheets.questions) <==> key in names
    requires |lists.questions| == |lists.answers|
    ensures var q, a := Put(sheets.questions, name, lists.questions), Put(sheets.answers, name, lists.answers);
      Keys(q) == Keys(a)
      && (forall i :: 0 <= i < |q| ==> |q[i].1| == |a[i].1|)
      && (forall key :: key in Keys(q) <==> key in names + [name])
  {
    PutKeys(sheets.questions, name, lists.questions);
    PutKeys(sheets.answers, name, lists.answers);
    PutEntries(sheets.questions, name, lists.questions);
    PutEntries(sheets.answers, name, lists.answers);
    var q, a := Put(sheets.questions, name, lists.questions), Put(sheets.answers, name, lists.answers);
    assert forall i :: 0 <= i < |q| ==> Keys(q)[i] == q[i].0 && Keys(a)[i] == a[i].0;
    assert forall i :: 0 <= i < |sheets.questions| ==>
      Keys(sheets.questions)[i] == sheets.questions[i].0 && Keys(sheets.answers)[i] == sheets.answers[i].0;
  }

  /** Without repeated names, position t of each dictionary holds topic t's lists under names[t]. */
  lemma {:induction false} MergeByPosition(names: seq<string>, results: seq<Result<TopicLists>>)
    requires |names| == |results|
    requires Distinct(names)
    requires Merge(names, results).Ok?
    ensures var s := Merge(names, results).value;
      Keys(s.questions) == Keys(s.answers) == names
      && forall t :: 0 <= t < |results| ==>
           results[t].Ok?
           && s.questions[t].1 == results[t].value.questions
           && s.answers[t].1 == results[t].value.answers
    decreases |names|
  {
    if names != [] {
      var n := |names| - 1;
      assert forall t :: 0 <= t < n ==> results[..n][t] == results[t] && names[..n][t] == names[t];
      MergeByPosition(names[..n], results[..n]);
      var earlier := Merge(names[..n], results[..n]).value;
      assert names[n] !in names[..n];
      var lists := results[n].value;
      PutNew(earlier.questions, names[n], lists.questions);
      PutNew(earlier.answers, names[n], lists.answers);
      AppendByPosition(names, results, earlier);
    }
  }

  /** The step of MergeByPosition: appending the last topic under its own name. */
  lemma AppendByPosition(names: seq<string>, results: seq<Result<TopicLists>>, earlier: Sheets)
    requires |names| == |results| > 0
    requires Keys(earlier.questions) == Keys(earlier.answers) == names[..|names| - 1]
    requires forall t :: 0 <= t < |names| - 1 ==>
      results[t].Ok?
      && earlier.questions[t].1 == results[t].value.questions
      && earlier.answers[t].1 == results[t].value.answers
    requires results[|names| - 1].Ok?
    ensures var n := |names| - 1;
      var s := Sheets(earlier.questions + [(names[n], results[n].value.questions)],
                      earlier.answers + [(names[n], results[n].value.answers)]);
      Keys(s.questions) == Keys(s.answers) == names
      && forall t :: 0 <= t < |results| ==>
           results[t].Ok?
           && s.questions[t].1 == results[t].value.questions
           && s.answers[t].1 == results[t].value.answers
  {
    var n := |names| - 1;
    assert names == names[..n] + [names[n]];
    var q := earlier.questions + [(names[n], results[n].value.questions)];
    var a := earlier.answers + [(names[n], results[n].value.answers)];
    assert forall i :: 0 <= i < |earlier.questions| ==>
      Keys(earlier.questions)[i] == earlier.questions[i].0 && Keys(earlier.answers)[i] == earlier.answers[i].0;
    assert Keys(q) == Keys(earlier.questions) + [names[n]];
    assert Keys(a) == Keys(earlier.answers) + [names[n]];
  }

  /** One more successful topic puts its lists under its name in both dictionaries. */
  lemma MergeStep(names: seq<string>, results: seq<Result<TopicLists>>, t: nat, earlier: Sheets, lists: TopicLists)
    requires |names| == |results| && t < |names|
    requires Merge(names[..t], results[..t]) == Ok(earlier) && results[t] == Ok(lists)
    ensures Merge(names[..t + 1], results[..t + 1])
      == Ok(Sheets(Put(earlier.questions, names[t], lists.questions), Put(earlier.answers, names[t], lists.answers)))
  {
    assert names[..t + 1][..t] == names[..t] && results[..t + 1][..t] == results[..t];
    assert names[..t + 1][t] == names[t] && results[..t + 1][t] == results[t];
  }

  /** Once a topic fails, the topics after it change nothing. */
  lemma {:induction false} MergeStops(names: seq<string>, results: seq<Result<TopicLists>>, k: nat)
    requires |names| == |results|
    requires 0 < k <= |names|
    requires Merge(names[..k], results[..k]).Err?
    ensures Merge(names, results) == Merge(names[..k], results[..k])
    decreases |names|
  {
    if k < |names| {
      var n := |names| - 1;
      assert names[..n][..k] == names[..k] && results[..n][..k] == results[..k];
      MergeStops(names[..n], results[..n], k);
    } else {
      assert names[..k] == names && results[..k] == results;
    }
  }

  /** The topic names, in listing order. */
  function TopicNames(topics: seq<string>): (r: seq<string>)
    ensures |r| == |topics|
    ensures forall t :: 0 <= t < |topics| ==> r[t] == TopicName(topics[t])
  {
    seq(|topics|, i requires 0 <= i < |topics| => TopicName(topics[i]))
  }

  /** What each topic of one variant assembles, in listing order. */
  function TopicResults(fs: FileSystem, images: set<string>, topics: seq<string>,
                        counts: seq<(int, int)>, picks: seq<Picks>): (r: seq<Result<TopicLists>>)
    requires PicksFitVariant(fs, topics, counts, picks)
    ensures |r| == |topics|
    ensures forall t :: 0 <= t < |topics| ==> r[t] == AssembledTopic(fs, images, topics[t], t, counts, picks[t])
  {
    seq(|topics|, t requires 0 <= t < |topics| => AssembledTopic(fs, images, topics[t], t, counts, picks[t]))
  }

  /** questions and answers after the topic loop of one variant (lines 75-104), or the
      error of the first topic that fails. */
  function AssembledVariant(fs: FileSystem, images: set<string>, topics: seq<string>,
                            counts: seq<(int, int)>, picks: seq<Picks>): Result<Sheets>
    requires PicksFitVariant(fs, topics, counts, picks)
  {
    Merge(TopicNames(topics), TopicResults(fs, images, topics, counts, picks))
  }

  /** A variant fails exactly when one of its topics does, and then with the error of the
      first topic that fails. */
  lemma VariantFails(fs: FileSystem, images: set<string>, topics: seq<string>,
                     counts: seq<(int, int)>, picks: seq<Picks>)
    requires PicksFitVariant(fs, topics, counts, picks)
    ensures AssembledVariant(fs, images, topics, counts, picks).Ok?
      <==> forall t :: 0 <= t < |topics| ==> AssembledTopic(fs, images, topics[t], t, counts, picks[t]).Ok?
    ensures forall k ::
              0 <= k < |topics| && AssembledTopic(fs, images, topics[k], k, counts, picks[k]).Err?
              && (forall t :: 0 <= t < k ==> AssembledTopic(fs, images, topics[t], t, counts, picks[t]).Ok?)
              ==> AssembledVariant(fs, images, topics, counts, picks)
                  == Err(AssembledTopic(fs, images, topics[k], k, counts, picks[k]).error)
  {
    var names, results := TopicNames(topics), TopicResults(fs, images, topics, counts, picks);
    MergeOk(names, results);
    forall k | 0 <= k < |topics| && results[k].Err? && (forall t :: 0 <= t < k ==> results[t].Ok?)
      ensures Merge(names, results) == Err(results[k].error)
    {
      MergeFails(names, results, k);
    }
  }

  /** The two dictionaries of a variant have the same topics in the same order, each
      topic's question and answer lists equally long, and a topic appears exactly when
      some listed file carries its name. */
  lemma VariantAligned(fs: FileSystem, images: set<string>, topics: seq<string>,
                       counts: seq<(int, int)>, picks: seq<Picks>)
    requires PicksFitVariant(fs, topics, counts, picks)
    requires AssembledVariant(fs, images, topics, counts, picks).Ok?
    ensures var s := AssembledVariant(fs, images, topics, counts, picks).value;
      Keys(s.questions) == Keys(s.answers)
      && (forall i :: 0 <= i < |s.questions| ==> |s.questions[i].1| == |s.answers[i].1|)
      && (forall name :: name in Keys(s.questions) <==> name in TopicNames(topics))
  {
    var results := TopicResults(fs, images, topics, counts, picks);
    forall t | 0 <= t < |results| && results[t].Ok?
      ensures |results[t].value.questions| == |results[t].value.answers|
    {
      AssembledTopicAligned(fs, images, topics[t], t, counts, picks[t]);
    }
    MergeAligned(TopicNames(topics), results);
  }

  /** When no two files share a topic name, position t of each dictionary holds the
      lists topic t assembled, under its name. */
  lemma VariantByTopic(fs: FileSystem, images: set<string>, topics: seq<string>,
                       counts: seq<(int, int)>, picks: seq<Picks>)
    requires PicksFitVariant(fs, topics, counts, picks)
    requires Distinct(TopicNames(topics))
    requires AssembledVariant(fs, images, topics, counts, picks).Ok?
    ensures var s := AssembledVariant(fs, images, topics, counts, picks).value;
      Keys(s.questions) == Keys(s.answers) == TopicNames(topics)
      && forall t :: 0 <= t < |topics| ==>
           AssembledTopic(fs, images, topics[t], t, counts, picks[t]).Ok?
           && s.questions[t].1 == AssembledTopic(fs, images, topics[t], t, counts, picks[t]).value.questions
           && s.answers[t].1 == AssembledTopic(fs, images, topics[t], t, counts, picks[t]).value.answers
  {
    MergeByPosition(TopicNames(topics), TopicResults(fs, images, topics, counts, picks));
  }

  /** The topic loop of one variant (lines 75-104). */
  method AssembleVariant(fs: FileSystem, images: set<string>, topics: seq<string>,
                         counts: seq<(int, int)>, picks: seq<Picks>) returns (r: Result<Sheets>)
    requires PicksFitVariant(fs, topics, counts, picks)
    ensures r == AssembledVariant(fs, images, topics, counts, picks)
  {
    ghost var names := TopicNames(topics);
    ghost var results := TopicResults(fs, images, topics, counts, picks);
    var questions: Content := [];
    var answers: Content := [];
    for t := 0 to |topics|
      invariant Merge(names[..t], results[..t]) == Ok(Sheets(questions, answers))
    {
      var topicName := TopicName(topics[t]);
      var lists := AssembleTopic(fs, images, topics[t], t, counts, picks[t]);
      if lists.Err? {
        assert names[..t + 1][..t] == names[..t] && results[..t + 1][..t] == results[..t];
        assert results[..t + 1][t] == lists;
        MergeStops(names, results, t + 1);
        return Err(lists.error);
      }
      MergeStep(names, results, t, Sheets(questions, answers), lists.value);
      questions := Put(questions, topicName, lists.value.questions);
      answers := Put(answers, topicName, lists.value.answers);
    }
    assert names[..|topics|] == names && results[..|topics|] == results;
    return Ok(Sheets(questions, answers));
  }

  /** f"Вариант {variant}.pdf" */
  function QuestionsFileName(variant: nat): string {
    "Вариант " + Digits(variant) + ".pdf"
  }

  /** f"Вариант {variant} ответы.pdf" */
  function AnswersFileName(variant: nat): string {
    "Вариант " + Digits(variant) + " ответы.pdf"
  }

  /** The name of the i-th file written (from 0): the questions of variant i / 2 + 1 when
      i is even, its answers when i is odd. */
  function OutputFileName(i: nat): string {
    if i % 2 == 0 then QuestionsFileName(i / 2 + 1) else AnswersFileName(i / 2 + 1)
  }

  /** Files 2v and 2v + 1 are the questions and the answers of variant v + 1. */
  lemma OutputFileNamesOfVariant(v: nat)
    ensures OutputFileName(2 * v) == QuestionsFileName(v + 1)
    ensures OutputFileName(2 * v + 1) == AnswersFileName(v + 1)
  {
    assert (2 * v) % 2 == 0 && (2 * v) / 2 == v;
    assert (2 * v + 1) % 2 == 1 && (2 * v + 1) / 2 == v;
  }

  /** What follows the variant number in the i-th output name. */
  function OutputSuffix(i: nat): string {
    if i % 2 == 0 then ".pdf" else " ответы.pdf"
  }

  /** The i-th output name is the common prefix, the variant number, then the suffix. */
  lemma OutputFileNameParts(i: nat)
    ensures OutputFileName(i) == "Вариант " + (Digits(i / 2 + 1) + OutputSuffix(i))
    ensures OutputFileName(i)[|"Вариант "|..] == Digits(i / 2 + 1) + OutputSuffix(i)
  {
  }

  /** Different outputs get different names: no variant's questions file is any variant's
      answers file, and the variant number is read back from either name. */
  lemma OutputFileNamesDistinct(i: nat, j: nat)
    requires i != j
    ensures OutputFileName(i) != OutputFileName(j)
    ensures OutputFileName(i) != [] && OutputFileName(i)[0] != '/'
  {
    OutputFileNameParts(i);
    OutputFileNameParts(j);
    var x, y := OutputSuffix(i), OutputSuffix(j);
    if OutputFileName(i) == OutputFileName(j) {
      DigitsThenText(i / 2 + 1, x, j / 2 + 1, y);
      assert false;
    }
  }

  /** A file generate_pdf wrote: its path and the element list it was built from. */
  datatype Pdf = Pdf(folder: string, name: string, elements: seq<Element>)
  {
    /** os.path.join(output_folder, name): where the file goes. */
    function Path(): string {
      Join(folder, name)
    }
  }

  /** What the run leaves behind: the files written so far, and the error that ended it early, if any. */
  datatype Outcome = Outcome(written: seq<Pdf>, failure: Option<Error>)

  /** The two files of the variant at position v (variant v + 1): files 2v and 2v + 1 of
      the run, built from its questions dictionary and its answers dictionary (lines 106-110). */
  function VariantPdfs(outputFolder: string, images: set<string>, v: nat, sheets: Sheets): seq<Pdf> {
    seq(2, k requires 0 <= k < 2 =>
      Pdf(outputFolder, OutputFileName(2 * v + k),
          Layout(Outline(if k == 0 then sheets.questions else sheets.answers, 1, images))))
  }

  /** Variant v + 1 writes "Вариант {v + 1}.pdf" from its questions dictionary, then
      "Вариант {v + 1} ответы.pdf" from its answers dictionary. */
  lemma VariantPdfsNamed(outputFolder: string, images: set<string>, v: nat, sheets: Sheets)
    ensures VariantPdfs(outputFolder, images, v, sheets)
      == [Pdf(outputFolder, QuestionsFileName(v + 1), Layout(Outline(sheets.questions, 1, images))),
          Pdf(outputFolder, AnswersFileName(v + 1), Layout(Outline(sheets.answers, 1, images)))]
  {
    var files := VariantPdfs(outputFolder, images, v, sheets);
    assert files[0] == Pdf(outputFolder, OutputFileName(2 * v), Layout(Outline(sheets.questions, 1, images)));
    assert files[1] == Pdf(outputFolder, OutputFileName(2 * v + 1), Layout(Outline(sheets.answers, 1, images)));
    OutputFileNamesOfVariant(v);
  }

  /** What each variant assembles, in order: variants[v] is variant v + 1. */
  function VariantResults(fs: FileSystem, images: set<string>, topics: seq<string>, counts: seq<(int, int)>,
                          picks: seq<seq<Picks>>): (r: seq<Result<Sheets>>)
    requires forall v :: 0 <= v < |picks| ==> PicksFitVariant(fs, topics, counts, picks[v])
    ensures |r| == |picks|
    ensures forall v :: 0 <= v < |picks| ==> r[v] == AssembledVariant(fs, images, topics, counts, picks[v])
  {
    seq(|picks|, v requires 0 <= v < |picks| => AssembledVariant(fs, images, topics, counts, picks[v]))
  }

  /** The variants run one after the other, each writing its two files; the first
      variant whose assembly fails ends the run, keeping the files written before it. */
  function Run(outputFolder: string, images: set<string>, variants: seq<Result<Sheets>>): (r: Outcome)
    decreases |variants|
  {
    if variants == [] then Outcome([], None)
    else
      var n := |variants| - 1;
      var earlier := Run(outputFolder, images, variants[..n]);
      if earlier.failure.Some? then earlier
      else
        match variants[n]
        case Err(e) => Outcome(earlier.written, Some(e))
        case Ok(sheets) => Outcome(earlier.written + VariantPdfs(outputFolder, images, n, sheets), None)
  }

  /** A run without failure writes 2 * num_variants files; a failed run stops at the
      first variant whose assembly fails, after the two files of each variant before it. */
  lemma {:induction false} RunCounts(outputFolder: string, images: set<string>, variants: seq<Result<Sheets>>)
    ensures var r := Run(outputFolder, images, variants);
      |r.written| % 2 == 0 && |r.written| <= 2 * |variants|
      && (r.failure.None? <==> |r.written| == 2 * |variants|)
      && (r.failure.Some? ==> variants[|r.written| / 2] == Err(r.failure.value))
      && forall v :: 0 <= v < |r.written| / 2 ==> variants[v].Ok?
    decreases |variants|
  {
    if variants != [] {
      var n := |variants| - 1;
      RunCounts(outputFolder, images, variants[..n]);
      assert forall v :: 0 <= v < n ==> variants[..n][v] == variants[v];
    }
  }

  /** Every variant that completes writes exactly its two files, questions then answers,
      named after its number, with the elements generate_pdf builds from its dictionaries. */
  lemma {:induction false} RunWrites(outputFolder: string, images: set<string>, variants: seq<Result<Sheets>>, v: nat)
    requires 2 * v < |Run(outputFolder, images, variants).written|
    ensures v < |variants| && variants[v].Ok?
    ensures 2 * v + 2 <= |Run(outputFolder, images, variants).written|
    ensures Run(outputFolder, images, variants).written[2 * v..2 * v + 2]
      == VariantPdfs(outputFolder, images, v, variants[v].value)
    decreases |variants|
  {
    var n := |variants| - 1;
    var earlier := Run(outputFolder, images, variants[..n]);
    RunCounts(outputFolder, images, variants[..n]);
    if 2 * v < |earlier.written| {
      RunWrites(outputFolder, images, variants[..n], v);
      assert variants[..n][v] == variants[v];
    }
  }

  /** The i-th file of a run goes into outputFolder under the i-th output name. */
  lemma RunFileNames(outputFolder: string, images: set<string>, variants: seq<Result<Sheets>>)
    ensures var r := Run(outputFolder, images, variants);
      forall i :: 0 <= i < |r.written| ==> r.written[i].folder == outputFolder && r.written[i].name == OutputFileName(i)
  {
    var r := Run(outputFolder, images, variants);
    forall i | 0 <= i < |r.written|
      ensures r.written[i].folder == outputFolder && r.written[i].name == OutputFileName(i)
    {
      var v, k := i / 2, i % 2;
      assert 2 * v + k == i;
      RunWrites(outputFolder, images, variants, v);
      assert r.written[i] == VariantPdfs(outputFolder, images, v, variants[v].value)[k];
    }
  }

  /** No two files of a run share a path: 2 * num_variants distinct files for a complete run. */
  lemma RunPathsDistinct(outputFolder: string, images: set<string>, variants: seq<Result<Sheets>>)
    ensures var r := Run(outputFolder, images, variants);
      forall i, j :: 0 <= i < j < |r.written| ==> r.written[i].Path() != r.written[j].Path()
  {
    RunFileNames(outputFolder, images, variants);
    var r := Run(outputFolder, images, variants);
    forall i, j | 0 <= i < j < |r.written|
      ensures r.written[i].Path() != r.written[j].Path()
    {
      OutputFileNamesDistinct(i, j);
      OutputFileNamesDistinct(j, i);
      if r.written[i].Path() == r.written[j].Path() {
        JoinInjective(outputFolder, OutputFileName(i), OutputFileName(j));
      }
    }
  }

  /** Once a variant fails, later variants change nothing. */
  lemma {:induction false} RunStops(outputFolder: string, images: set<string>, variants: seq<Result<Sheets>>, k: nat)
    requires 0 < k <= |variants|
    requires Run(outputFolder, images, variants[..k]).failure.Some?
    ensures Run(outputFolder, images, variants) == Run(outputFolder, images, variants[..k])
    decreases |variants|
  {
    if k < |variants| {
      var n := |variants| - 1;
      assert variants[..n][..k] == variants[..k];
      RunStops(outputFolder, images, variants[..n], k);
    } else {
      assert variants[..k] == variants;
    }
  }

  /** generate_work(questions_per_topic, num_variants) once the run's inputs are explicit:
      `topics` is what os.listdir returned, `outputFolder` the folder named after the
      clock, `picks[v]` the draws random.sample made in variant v + 1. */
  method GenerateWork(fs: FileSystem, images: set<string>, topics: seq<string>,
                      questionsPerTopic: seq<(int, int)>, numVariants: int, outputFolder: string,
                      picks: seq<seq<Picks>>) returns (written: seq<Pdf>, failure: Option<Error>)
    requires |picks| == if numVariants > 0 then numVariants else 0
    requires forall v :: 0 <= v < |picks| ==> PicksFitVariant(fs, topics, questionsPerTopic, picks[v])
    ensures Outcome(written, failure)
      == Run(outputFolder, images, VariantResults(fs, images, topics, questionsPerTopic, picks))
  {
    ghost var variants := VariantResults(fs, images, topics, questionsPerTopic, picks);
    written := [];
    for variant := 1 to |picks| + 1
      invariant Run(outputFolder, images, variants[..variant - 1]) == Outcome(written, None)
    {
      assert variants[..variant][..variant - 1] == variants[..variant - 1];
      var sheets := AssembleVariant(fs, images, topics, questionsPerTopic, picks[variant - 1]);
      if sheets.Err? {
        RunStops(outputFolder, images, variants, variant);
        return written, Some(sheets.error);
      }
      var questionsFile := QuestionsFileName(variant);
      var answersFile := AnswersFileName(variant);
      var questionsElements, _ := GeneratePdf(sheets.value.questions, images);
      var answersElements, _ := GeneratePdf(sheets.value.answers, images);
      VariantPdfsNamed(outputFolder, images, variant - 1, sheets.value);
      var files := [Pdf(outputFolder, questionsFile, questionsElements), Pdf(outputFolder, answersFile, answersElements)];
      assert files == VariantPdfs(outputFolder, images, variant - 1, sheets.value);
      written := written + files;
    }
    assert variants[..|picks|] == variants;
    failure := None;
  }
}
