# generatePDF.py worksheet generator — Dafny model

`generatePDF.py` builds randomised physics worksheets. For each variant it walks the topic
files and fills two insertion-ordered dictionaries, `questions` and `answers`, mapping each
topic name to a list of items:

- **Questions**: the sampled definition lines, stripped, then the sampled formula lines,
  stripped.
- **Answers**: for each definition, `"Определение: "` followed by the stripped line of the
  definitions-answers file at the definition's first position. For each formula at first
  position `pos`, either the pair
  `(Формулы ответы/<topic name>/<pos+1>.png, "Формула: " + line.strip())` when that picture
  exists, or the text `"[Изображение отсутствует для формулы: " + line.strip() + "]"`. The
  topic name is the topic's file name after `.replace('.txt', '')` (`Work.TopicName`).

Each dictionary then goes to `generate_pdf`. It turns the dictionary into a flat list of
document elements: one heading per non-empty topic, and a numbered paragraph per item. The
number runs across the whole document. A picture that exists is embedded after its caption.
Each list is written as `Вариант {v}.pdf` or `Вариант {v} ответы.pdf` in the output folder.

The model has five modules:

- `Results` (`results.dfy`): `Option`, `Result`, and the four exceptions the model covers:
  - a missing text file;
  - a missing `questions_per_topic` pair;
  - a negative sample size;
  - an answers file too short for the looked-up line.
- `Strings` (`strings.dfy`): the string operations the program relies on:
  - `str.strip()` over Python's whitespace set;
  - `f"{n}"` for natural numbers, with its injectivity;
  - `str.replace('.txt', '')`, which removes every occurrence, not only a suffix;
  - two-argument `os.path.join`;
  - `list.index`, the first match.
- `Selection` (`selection.dfy`): `select_random_items`. The positions `random.sample` draws
  are an input. The model demands only what `random.sample` guarantees: the clamped number
  of positions, all in range, no two alike.
- `Document` (`document.dfy`): `generate_pdf` as the imperative `GeneratePdf`/`AppendItems`
  loops. They are proved against a specification: `Outline` numbers the items of the
  non-empty topics, and `Layout` turns sections into elements. `ReadBack` parses an element
  list back into its sections, which shows that `Layout` loses nothing.
- `Work` (`work.dfy`): `generate_work`.
  - Files are a map from path to lines, and existing pictures are a set of paths.
  - Topic order, the output folder and the sampled positions are parameters.
  - The topic loop body is `AssembleTopic` with its loops `AskDefinitions` and `AskFormulas`.
  - The variant loop is `AssembleVariant` together with `GenerateWork`.
  - Python dictionaries are association lists in insertion order. Assigning to a key that is
    already present keeps its place, as `dict` does.
  - Each method is tied to a specification function: `AssembledTopic`, `Merge`,
    `AssembledVariant`, or `Run`. The properties are proved about those functions.

Details of what generatePDF.py does:

- The bank folders are `Определения`, `Формулы`, `Определения ответы` and `Формулы ответы`.
- Questions are the stripped lines.
- A formula's caption is `"Формула: "` followed by the stripped line.
- Only the definitions and formulas files must exist for every topic. The definitions-answers
  file is opened once per selected definition, so it is never opened when no definition is
  selected.
- A missing `questions_per_topic` entry or a negative count also stops the run.

## Model

| member | source | states |
|---|---|---|
| Selection.SelectRandomItems | generatePDF.py:19-20 | fails exactly when the count is negative (random.sample's ValueError); otherwise returns min(len(items), count) items, the i-th being items at the i-th drawn position |
| Selection.SampleWithoutReplacement | generatePDF.py:19-20 | a sample taken at distinct in-range positions is a sub-multiset of the items: no item is drawn more often than it occurs |
| Selection.SampleEdgeCases | generatePDF.py:19-20 | a count of 0 or an empty list gives the empty list; a count at least len(items) gives a permutation of all items |
| Selection.PickDistinct | generatePDF.py:20 | items taken at pairwise distinct positions form a sub-multiset of the list |
| Strings.StripDropsOnlyWhitespace | generatePDF.py:88 | str.strip() returns one contiguous run of the line, drops only whitespace on either side, and the run neither starts nor ends with whitespace |
| Strings.StripIdempotent | generatePDF.py:44 | stripping a stripped line changes nothing, so line.strip() in generate_pdf keeps the questions already stripped at lines 88 and 98 as they are |
| Strings.ParseDigitsOfDigits | generatePDF.py:100 | the decimal rendering of a number reads back as that number |
| Strings.DigitsInjective | generatePDF.py:106-107 | different numbers give different decimal renderings |
| Strings.DigitsThenText | generatePDF.py:106-107 | a decimal rendering followed by text that starts with a non-digit can be split only one way |
| Strings.RemoveAllAbsent | generatePDF.py:79 | replace(pat, '') leaves a name without pat unchanged |
| Strings.RemoveTxtSuffix | generatePDF.py:79 | for a file name whose stem contains no ".txt", topic.replace('.txt', '') gives back the stem |
| Strings.JoinInjective | generatePDF.py:106-107 | os.path.join onto one folder keeps different relative names apart |
| Strings.IndexOfFirst | generatePDF.py:91 | list.index returns an occurrence with no earlier occurrence |
| Strings.IndexOfDistinct | generatePDF.py:91 | in a list without repeated lines, looking up the line at p gives p |
| Work.DefinitionAnswerFound | generatePDF.py:89-92 | one definition's answer exists exactly when the answers file exists and is longer than the definition's first position, and it is "Определение: " + strip of that line |
| Work.AnswersUpToExist | generatePDF.py:87-92 | answering the first n selected definitions succeeds exactly when n is 0 or the answers file exists and each one's first position is within it |
| Work.AnswersUpToValues | generatePDF.py:87-92 | when every lookup is in range, the n answers are in selection order, each the prefixed, stripped answers line at its definition's first position |
| Work.AnswersUpToFailure | generatePDF.py:89-91 | a failed lookup reports the missing answers file, or else the first selected definition whose position lies beyond the end of the answers file |
| Work.AnswersStop | generatePDF.py:87-91 | once one lookup fails, no later definition changes the error |
| Work.DefinitionAnswersExist | generatePDF.py:87-92 | all selected definitions are answered exactly when none is selected, or the answers file exists and covers every looked-up position |
| Work.DefinitionAnswersValues | generatePDF.py:87-92 | when the answers file covers every lookup, the answers are the looked-up lines in selection order |
| Work.DefinitionAnswersFailure | generatePDF.py:89-91 | the error of a failed answering names the missing file or the first out-of-range lookup |
| Work.DefinitionAnswerAtPosition | generatePDF.py:91-92 | a definition whose line first occurs at p is answered by answers line p |
| Work.RepeatedDefinitionAnswersFirst | generatePDF.py:91 | a definition line repeated at positions j < p is answered from the line at its first position, never from p |
| Work.AnswerDefinition | generatePDF.py:89-92 | the method returns the answer, or the error, of the one-definition specification |
| Work.AskDefinitions | generatePDF.py:87-92 | the loop yields the stripped questions and all answers in order, or the first lookup's error |
| Work.AnswerFormula | generatePDF.py:99-104 | the method returns the picture pair when "<topic>/<pos+1>.png" exists and the placeholder text otherwise |
| Work.AskFormulas | generatePDF.py:97-104 | the loop appends exactly the stripped selected formulas to the questions and their answers to the answers |
| Work.AssembleTopic | generatePDF.py:78-104 | one pass of the topic loop returns the specification's two lists, or its first error in source order |
| Work.AssembledTopicParts | generatePDF.py:84-104 | a successful topic read both bank files, had non-negative counts and drew valid samples; its questions are the definitions block then the formulas block, and its answers are in the same order |
| Work.AssembledTopicDefinitions | generatePDF.py:84-92 | the first min(len(definitions), count) positions of both lists are, for each drawn definition, its stripped text and its prefixed answers line |
| Work.AssembledTopicFormulas | generatePDF.py:94-104 | both lists have length definitions + formulas taken, and the formula positions follow the definitions, each with its picture pair or placeholder |
| Work.FormulaBlock | generatePDF.py:97-104 | appending a formula block keeps the two lists equally long and puts each formula's answer at its question's position |
| Work.AnswerPicturesExist | generatePDF.py:99-102 | every picture item among a topic's answers names a picture that exists |
| Work.AssembledTopicAligned | generatePDF.py:81-104 | a topic's questions and answers lists are equally long |
| Work.PutKeys | generatePDF.py:81-82 | assigning a topic key keeps an existing key in place and adds a new key last |
| Work.PutEntries | generatePDF.py:81-82 | after the assignment the key holds the new list and every other entry is unchanged |
| Work.PutNew | generatePDF.py:81-82 | a key not yet present is appended at the end |
| Work.MergeOk | generatePDF.py:78-104 | the topic loop completes exactly when every topic succeeds |
| Work.MergeFails | generatePDF.py:78-104 | the loop's error is that of the first failing topic |
| Work.MergeStops | generatePDF.py:78-104 | once a topic fails, later topics do not change the outcome |
| Work.MergeAligned | generatePDF.py:75-104 | both dictionaries have the same keys in the same order (exactly the topic names) and equally long lists under each key |
| Work.MergeByPosition | generatePDF.py:75-104 | with distinct topic names, entry t of each dictionary holds topic t's lists |
| Work.VariantFails | generatePDF.py:75-104 | a variant is assembled exactly when all its topics are, and otherwise fails with the first failing topic's error |
| Work.VariantAligned | generatePDF.py:75-104 | a variant's questions and answers dictionaries have the same keys, the topic names, and equally long lists per key |
| Work.VariantByTopic | generatePDF.py:75-104 | with distinct topic names, the dictionaries list the topics in discovery order, each with that topic's lists |
| Work.AssembleVariant | generatePDF.py:75-104 | the loop returns the specification's dictionaries, or its first error |
| Work.OutputFileNamesOfVariant | generatePDF.py:106-107 | files 2v and 2v+1 are "Вариант {v+1}.pdf" and "Вариант {v+1} ответы.pdf" |
| Work.OutputFileNamesDistinct | generatePDF.py:106-107 | no two output files get the same name, and every name is relative |
| Work.VariantPdfsNamed | generatePDF.py:106-110 | a variant writes its questions document under the questions name, then its answers document under the answers name |
| Work.RunCounts | generatePDF.py:74-110 | a run writes two files per completed variant; it stops with the first failing variant's error, and writes 2 x num_variants files when none fails |
| Work.RunWrites | generatePDF.py:74-110 | files 2v and 2v+1 are written only for a variant that was assembled, and are its two documents |
| Work.RunFileNames | generatePDF.py:106-107 | every written file lies in the output folder, and the i-th one has the i-th output name |
| Work.RunPathsDistinct | generatePDF.py:106-107 | no two files of a run share a path, so none is overwritten |
| Work.RunStops | generatePDF.py:74-110 | once a variant fails, later variants change nothing |
| Work.GenerateWork | generatePDF.py:61-110 | the variant loop writes exactly the files of the run specification, in order, and reports its failure |
| Document.ItemElements | generatePDF.py:43-56 | a text item gives Paragraph("n. " + strip) and Spacer(12); an existing picture gives caption, Spacer(9), Image and Spacer(12); a missing picture gives the caption and Spacer(12) |
| Document.AppendItem | generatePDF.py:43-56 | one item appends exactly its elements at its number |
| Document.AppendItems | generatePDF.py:42-57 | the inner loop appends the topic's entries numbered on from the counter, and advances the counter once per item |
| Document.GeneratePdf | generatePDF.py:35-57 | the element list is the layout of the outline numbered from 1, and the final counter is 1 + the number of items |
| Document.TopicStep | generatePDF.py:38-57 | one topic leaves the elements and counter unchanged when empty, and otherwise adds its heading and entries |
| Document.OutlineEntries | generatePDF.py:37-57 | the document's entries, section after section, are all items numbered from the start value in dictionary order |
| Document.OutlineNumbering | generatePDF.py:37-57 | entries are numbered n, n+1, ... with one number per item across the whole document, never reset per topic |
| Document.OutlineSections | generatePDF.py:38-40 | there is one section per non-empty topic, in order, titled with its name and holding one entry per item |
| Document.EmptyTopicInvisible | generatePDF.py:38-39 | inserting an empty topic anywhere changes neither the items nor the document |
| Document.HeadingThenFirstItem | generatePDF.py:38-45 | every heading is followed immediately by a numbered paragraph, and a non-empty document ends with Spacer(12) |
| Document.LayoutEntriesShape | generatePDF.py:42-56 | a topic's elements start with a paragraph, end with Spacer(12) and contain no heading |
| Document.ReadBackLayout | generatePDF.py:35-57 | reading back an element list recovers every section's title and numbered lines |
| Document.LayoutInjective | generatePDF.py:35-57 | different outlines never give the same element list |
| Document.EntriesConcat | generatePDF.py:42-57 | numbering two lists of items in a row equals numbering their concatenation |

## Left out

- Styling, fonts, page size and `doc.build` (generatePDF.py:11-12, 25-34, 59) belong to the rendering library. The model ends at the element list, and a written file is a `Pdf` record of folder, name and elements.
- Document.GeneratePdf: reportlab's `Paragraph` parses its text as markup when it is built (generatePDF.py:40, 44, 51, 55). The model keeps the raw text in the element, so it does not model how `<` or `&` are shown, nor the ValueError malformed markup raises; `GeneratePdf` never fails.
- Failures from reportlab, PIL, text decoding and `os.makedirs` also stop the program; they are not among the modelled errors.
- Work.ReadFile: the file system is only an abstraction, a map from path to lines. A missing path gives `FileNotFound`, and nothing further is proved about reading.
- The PIL open/save round trip (generatePDF.py:49-50) calls an image library and does not change the element list. An existing picture that PIL cannot open is not modelled.
- File reading, UTF-8 decoding and line splitting (generatePDF.py:14-16) are not modelled; the file system is a map from path to lines.
- `os.listdir` order (generatePDF.py:69) is not modelled; the topic list is a parameter. A listing entry that is not a readable file counts as a missing file.
- `os.makedirs` and the `datetime.now()` folder name (generatePDF.py:71-72) are not modelled; the output folder is a parameter.
- `random.sample`'s distribution is not modelled. The drawn positions are a parameter, constrained only to what `random.sample` guarantees.
- `questions_per_topic` entries that are not pairs of integers, and a `num_variants` that is not an integer, are not modelled.
- The `images` parameter of `generate_pdf` is not modelled, because the body never reads it. Picture existence is the set of existing paths.
- `os.path.join` is modelled for two POSIX path components only.
- Work.AskDefinitions: when a lookup fails, the model says nothing about the partial question list. The exception ends the run, so that list is never read.
- Document.GeneratePdf: also returns the final counter value, which the source keeps local. The proofs use it to state the numbering.
