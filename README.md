# Persona prompt builder and answer cleaner

A Dafny model of the conversational core of a Telegram chatbot (`gpt_neo.py`).
A `Person` holds a persona name and a list of dialogue lines. The list starts as a
thirteen-line few-shot template with the name filled in. Each question appends a
three-line turn: a `###` separator, `Me : <question>`, and an open `<name> : ` line.
The prompt sent to the text-generation endpoint is all lines concatenated.
The endpoint's `generated_text` is then cleaned in three steps:

1. every occurrence of the prompt is removed (`str.replace`);
2. every `###` stop marker is removed;
3. the text is cut at the first `Me :` (`str.partition(...)[0]`).

A failed request becomes the string `"Error:"` followed by the endpoint's error
messages joined by single spaces.

Files:

- `pystr.dfy` (module `PyStr`): the Python `str` operations the code relies on. It covers
  `in`, `find`, `replace` (CPython's left-to-right, non-overlapping scan, including
  the empty-pattern case), `split`, `join` and `partition`, with their laws.
- `persona.dfy` (module `Persona`): the template (`get_context`), the question turn,
  the conversation after a list of questions, and the `Person` class. The class
  has a `seq<string>` context field, which `Prompt` extends line by line in a loop.
- `completion.dfy` (module `Completion`): answer cleaning, error formatting, and the
  choice between the two once the HTTP call has returned.

Two consequences of step 1 being a Python `replace`:

- Step 1 removes every occurrence of the prompt, not only a leading one.
- An empty prompt leaves the text unchanged.

## Model

| member | source | states |
|---|---|---|
| Persona.Said | gpt_neo.py:15-26 | a finished dialogue line starts with the speaker and " : " and ends in a newline |
| Persona.TemplateLine | gpt_neo.py:14-26 | every template line, with the name filled in, ends in a newline |
| Persona.Template | gpt_neo.py:12-28 | the template has exactly 13 lines, and every line ends in a newline |
| Persona.TemplateIntroducesPersona | gpt_neo.py:14 | the first line starts with the fixed introduction and contains the name followed by " as a chatbot.", and so contains "chatbot" |
| Persona.TemplateInjective | gpt_neo.py:16 | the name is substituted verbatim: equal templates come from equal names |
| Persona.Person.constructor | gpt_neo.py:8-10 | a new person keeps the given name unvalidated, its context is exactly the template, and no questions have been asked |
| Persona.Turn | gpt_neo.py:31-35 | a question adds three lines, which concatenate to "###\nMe : " + q + "\n" + name + " : " |
| Persona.Turns | gpt_neo.py:30-41 | the lines appended for n questions number 3n |
| Persona.Conversation | gpt_neo.py:10-41 | after n questions the context has 13 + 3n lines, and its first 13 are the template |
| Persona.PromptOf | gpt_neo.py:43-44 | definition: the prompt is "".join of the context; its laws are the rows PromptExtends, PromptEndsWithOpenTurn and PromptGrows |
| Persona.ConversationExtends | gpt_neo.py:40-41 | asking one more question appends that question's turn and leaves every earlier line unchanged |
| Persona.PromptExtends | gpt_neo.py:30-44 | each question makes the prompt exactly the previous prompt plus "###\nMe : " + q + "\n" + name + " : ", which then ends with name + " : " |
| Persona.PromptEndsWithOpenTurn | gpt_neo.py:34-43 | once a question has been asked, the prompt ends with name + " : " and nothing after it |
| Persona.PromptGrows | gpt_neo.py:39-44 | the prompt after some questions is a proper prefix of the prompt after more questions; the context grows by 3 lines per question |
| Persona.Person.Prompt | gpt_neo.py:39-44 | the given lines (a list other than the context itself; see "Left out") are appended in order, with nothing else changed, and the result is the concatenation of the whole new context |
| Persona.Person.Question | gpt_neo.py:30-37 | the context gains exactly the question's three lines; the returned prompt is the old prompt plus the turn, ends with name + " : " and is strictly longer; the template-plus-turns invariant is kept |
| PyStr.Join | gpt_neo.py:43 | definition of `sep.join(items)`, used for "".join here and " ".join at line 87; its laws are the rows ConcatAppend and SplitJoin |
| PyStr.ConcatAppend | gpt_neo.py:43 | "".join of two line lists placed end to end is the join of the first followed by the join of the second |
| PyStr.Find | gpt_neo.py:83 | the reported index is an occurrence with no earlier one; no index is reported exactly when the pattern does not occur |
| PyStr.Partition | gpt_neo.py:83 | the three parts concatenate back to the input; the head never contains the separator; the head is the whole input exactly when the separator is absent; when the separator occurs, the cut is at its first occurrence |
| PyStr.ReplaceAll | gpt_neo.py:81-82 | definition of `str.replace`, with CPython's left-to-right, non-overlapping scan; its laws are the rows ReplaceAbsent, ReplaceAtFirst, ReplaceIsSplitJoin and RemoveShrinks |
| PyStr.ReplaceAbsent | gpt_neo.py:81 | replace changes nothing when the pattern does not occur |
| PyStr.ReplaceAtFirst | gpt_neo.py:81 | replace keeps the text before the first occurrence, substitutes that occurrence, then continues after it |
| PyStr.ReplaceIsSplitJoin | gpt_neo.py:81 | for a non-empty pattern, replace agrees with rep.join(s.split(pat)) |
| PyStr.RemoveShrinks | gpt_neo.py:81-82 | replacing a pattern by "" never lengthens the text |
| PyStr.SplitJoin | gpt_neo.py:87 | splitting at a one-character separator undoes joining with it, for a non-empty list whose items do not contain the separator |
| Completion.RemoveStops | gpt_neo.py:82 | after removing "###" the text contains no "###" and is no longer than before |
| Completion.NoStopAfterRemoval | gpt_neo.py:82 | removing every "###" cannot create a new "###" |
| Completion.Clean | gpt_neo.py:81-83 | the cleaned answer contains neither "Me :" nor "###", and is no longer than the generated text |
| Completion.CleanIsHeadOfStripped | gpt_neo.py:82-83 | the cleaned answer is a prefix of the stop-stripped text, and equals it exactly when that text has no "Me :" |
| Completion.EchoRemoved | gpt_neo.py:81 | if the text is the prompt followed by a continuation that does not contain the prompt, cleaning works on the continuation alone |
| Completion.NoEcho | gpt_neo.py:81 | if the prompt does not occur in the text at all, the echo-removal step changes nothing |
| Completion.StripTail | gpt_neo.py:82 | stop removal keeps an answer with no '#', drops the "###" after it and keeps the "Me :" that follows |
| Completion.FindAtTurn | gpt_neo.py:83 | when an answer with no "Me :" is followed by "Me :", the first "Me :" is found right after the answer, including when the answer ends in "M" or "Me" |
| Completion.CleanEchoedAnswer | gpt_neo.py:81-83 | prompt + answer + "###" + a following "Me :" turn cleans to exactly the answer, for any answer with no '#' and no "Me :" and any following turn, as long as the prompt does not recur after the echo |
| Completion.CleanExample | gpt_neo.py:81-83 | prompt + "I am fine.###Me : what now?" cleans to "I am fine." when the prompt does not occur in the continuation |
| Completion.Items | gpt_neo.py:87 | definition: the strings `" ".join` iterates over, namely a list's elements or a string's characters (`Chars`); its laws are the rows SingleError, ErrorMessagesRecoverable and TextErrorSpaced |
| Completion.Chars | gpt_neo.py:87 | definition: a string-valued error field seen as the one-character strings `" ".join` iterates over; its law is the row TextErrorSpaced |
| Completion.FormatError | gpt_neo.py:87 | every error answer starts with "Error:" |
| Completion.SingleError | gpt_neo.py:87 | a one-element error list [e] gives exactly "Error:" + e |
| Completion.ErrorMessagesRecoverable | gpt_neo.py:87 | after "Error:" come the messages joined by single spaces, which splitting at spaces recovers when none contains a space |
| Completion.TextErrorSpaced | gpt_neo.py:87 | an error field that is a string, not a list, comes out with its characters at even offsets after "Error:" and a space between each neighbouring pair |
| Completion.Answer | gpt_neo.py:78-88 | a success answer contains neither "###" nor "Me :"; a failure answer starts with "Error:" |
| Completion.ErrorIndistinguishable | gpt_neo.py:78-88 | a generated answer can equal the string an endpoint failure produces, so the two cannot be told apart |

## Left out

- The HTTP round trip in `TextGen.query` (gpt_neo.py:70-80, 86) is not modelled. This covers the request body, `requests.request`, `raise_for_status` and JSON decoding. It is network I/O, so the model starts from the decoded outcome (`Completion.Response`).
- Faults other than an HTTP error status are not modelled: network errors, malformed JSON, and a missing `generated_text` or `error` key. In the source they propagate as uncaught exceptions.
- An `error` value that is a JSON object is not modelled. The source joins its keys with spaces after "Error:" and raises no exception. An `error` value that is a number, boolean or null, or a list with a non-string element, raises `TypeError` in the join and is not modelled either.
- `TextGen.__init__` and `get_hug_creds` (gpt_neo.py:52-66) are not modelled. They are fixed endpoint configuration and a credentials-file read.
- `Person.__repr__` and `main` (gpt_neo.py:46-47, 91-101) are not modelled. They are debug printing and a demo driver.
- The default argument of `question` is not modelled. The source's default `question=None` would format as "Me : None", and no caller uses it.
- The unused `line` parameter of `get_context` is dropped.
- telegram_artist_ai.py (chat transport, command wiring, profanity filtering) is not part of this model.
- AIimage.py (an image-API wrapper) is not part of this model.
- Persona.Person.Prompt: the context list is modelled as a value (`seq<string>`), so aliasing is not captured. In the source, `prompt` appends to `self.context` while iterating its argument. Passing the context list itself, as in `p.prompt(p.context)`, therefore never terminates; the model instead appends one copy of the old context. Any outside reference to the list also sees the appended lines, which a value field cannot show. No caller passes the context itself.
- The model keeps no link between a `Person` and the endpoint. The caller passes the prompt string to the cleaning functions as `payload`.
