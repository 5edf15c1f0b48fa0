/**
 The persona context builder: a few-shot dialogue template that primes a
 text-generation model to answer as a named persona, and the `Person` object
 whose context grows by one question turn at a time.
 */
module Persona {
  import opened PyStr

  /** The label of the user's turns. */
  const Me := "Me"

  /** A finished dialogue line: the speaker, " : ", the words, and a newline. */
  function Said(speaker: string, words: string): (line: string)
    ensures EndsWith(line, "\n")
    ensures speaker + " : " <= line
  {
    speaker + " : " + words + "\n"
  }

  /** Opening words of the first template line, before the persona's name. */
  const Intro := "The following is a conversation with "

  /** Line `k` of the few-shot template, with the persona's name filled in. */
  function TemplateLine(name: string, k: nat): (line: string)
    requires k < 13
    ensures EndsWith(line, "\n")
  {
    if k == 0 then
      Intro + (name + " as a chatbot.") + (" " + name + " is helpful, clever and knows all about himself.\n\n")
    else if k == 1 then Said(Me, "who are you?")
    else if k == 2 then Said(name, "I am " + name)
    else if k == 3 then "###\n"
    else if k == 4 then Said(Me, "how are you?")
    else if k == 5 then Said(name, "I'm fine. Thanks for asking.")
    else if k == 6 then "###\n"
    else if k == 7 then Said(Me, "It's funny to talk to you")
    else if k == 8 then "###\n"
    else if k == 9 then Said(name, "Thank you very much. I love chatting with you as well")
    else if k == 10 then "###\n"
    else if k == 11 then Said(Me, "I would like to talk about your life.")
    else Said(name, "Feel free to ask me a question.")
  }

  /**
   The thirteen-line few-shot template (`Person.get_context`), with the
   persona's name substituted verbatim wherever the dialogue mentions it.
   */
  function Template(name: string): (r: seq<string>)
    ensures |r| == 13
    ensures forall k :: 0 <= k < |r| ==> EndsWith(r[k], "\n")
  {
    seq(13, k requires 0 <= k < 13 => TemplateLine(name, k))
  }

  /** The first template line introduces the persona by name as a chatbot. */
  lemma TemplateIntroducesPersona(name: string)
    ensures Intro <= Template(name)[0]
    ensures Contains(Template(name)[0], name + " as a chatbot.")
    ensures Contains(Template(name)[0], "chatbot")
  {
    var intro := name + " as a chatbot.";
    var line := Template(name)[0];
    assert line == TemplateLine(name, 0);
    OccursInMiddle(Intro, intro, line[|Intro| + |intro|..]);
    assert intro == name + " as a " + "chatbot" + ".";
    OccursInMiddle(name + " as a ", "chatbot", ".");
    ContainsTransitive(line, intro, "chatbot");
  }

  /** The name is substituted verbatim: different names give different templates. */
  lemma TemplateInjective(a: string, b: string)
    requires Template(a) == Template(b)
    ensures a == b
  {
    var la, lb := Template(a)[2], Template(b)[2];
    assert la == TemplateLine(a, 2) && lb == TemplateLine(b, 2);
    assert |la| == 2 * |a| + 9;
    assert |lb| == 2 * |b| + 9;
    assert la[..|a|] == a;
    assert lb[..|b|] == b;
  }

  /** The three lines `Person.question` appends: separator, the question, and the persona's open turn. */
  function Turn(name: string, q: string): (r: seq<string>)
    ensures |r| == 3
    ensures Join("", r) == "###\nMe : " + q + "\n" + name + " : "
    ensures Join("", r) == ("###\n" + Said(Me, q)) + (name + " : ")
  {
    var r := ["###\n", Said(Me, q), name + " : "];
    assert Join("", r[1..][1..]) == name + " : " by {
      assert r[1..][1..] == [name + " : "];
    }
    assert Join("", r[1..]) == "Me : " + q + "\n" + name + " : ";
    r
  }

  /** The turns appended for the questions `qs`, in the order they were asked. */
  function Turns(name: string, qs: seq<string>): (r: seq<string>)
    ensures |r| == 3 * |qs|
    decreases |qs|
  {
    if |qs| == 0 then []
    else Turns(name, qs[..|qs| - 1]) + Turn(name, qs[|qs| - 1])
  }

  /** The context of a persona after it has been asked `qs`. */
  function Conversation(name: string, qs: seq<string>): (r: seq<string>)
    ensures |r| == 13 + 3 * |qs|
    ensures r[..13] == Template(name)
  {
    Template(name) + Turns(name, qs)
  }

  /** The prompt a persona sends after being asked `qs`: every context line, concatenated. */
  function PromptOf(name: string, qs: seq<string>): string
  {
    Join("", Conversation(name, qs))
  }

  /** Asking one more question appends exactly that question's turn to the context. */
  lemma ConversationExtends(name: string, qs: seq<string>, q: string)
    ensures Conversation(name, qs + [q]) == Conversation(name, qs) + Turn(name, q)
  {
    assert (qs + [q])[..|qs|] == qs;
  }

  /** Asking a question extends the prompt by the separator, the question and the open turn, nothing else. */
  lemma PromptExtends(name: string, qs: seq<string>, q: string)
    ensures PromptOf(name, qs + [q]) == PromptOf(name, qs) + "###\nMe : " + q + "\n" + name + " : "
    ensures EndsWith(PromptOf(name, qs + [q]), name + " : ")
  {
    ConversationExtends(name, qs, q);
    ConcatAppend(Conversation(name, qs), Turn(name, q));
    TurnRegroup(PromptOf(name, qs), name, q);
  }

  /**
   Appending a turn's text, grouped as the turn builds it or as it reads left
   to right.  A proof step for `PromptExtends` and `Person.Question`.
   */
  lemma TurnRegroup(before: string, name: string, q: string)
    ensures before + ("###\nMe : " + q + "\n" + name + " : ") == before + "###\nMe : " + q + "\n" + name + " : "
    ensures EndsWith(before + (("###\n" + Said(Me, q)) + (name + " : ")), name + " : ")
    ensures |before + ("###\nMe : " + q + "\n" + name + " : ")| > |before|
  {
    var mid := "###\n" + Said(Me, q);
    assert before + (mid + (name + " : ")) == (before + mid) + (name + " : ");
    EndsWithAppended(before + mid, name + " : ");
  }

  /** Once a question has been asked, the prompt ends with the persona's open turn and no newline after it. */
  lemma PromptEndsWithOpenTurn(name: string, qs: seq<string>)
    requires |qs| > 0
    ensures EndsWith(PromptOf(name, qs), name + " : ")
  {
    var init := qs[..|qs| - 1];
    assert init + [qs[|qs| - 1]] == qs;
    PromptExtends(name, init, qs[|qs| - 1]);
  }

  /**
   Nothing is ever removed: the prompt after `qs` is a proper prefix of the
   prompt after any further questions, and the context is three lines longer
   per question.
   */
  lemma {:induction false} PromptGrows(name: string, qs: seq<string>, more: seq<string>)
    requires |more| > 0
    ensures PromptOf(name, qs) < PromptOf(name, qs + more)
    ensures |Conversation(name, qs + more)| == |Conversation(name, qs)| + 3 * |more|
    decreases |more|
  {
    var init := more[..|more| - 1];
    var q := more[|more| - 1];
    assert qs + more == (qs + init) + [q];
    PromptExtends(name, qs + init, q);
    if |init| > 0 {
      PromptGrows(name, qs, init);
    } else {
      assert qs + init == qs;
    }
  }

  /** A persona (`Person`): its name and the dialogue lines accumulated so far. */
  class Person {
    var person: string
    var context: seq<string>
    /** The questions asked so far, in order. */
    ghost var questions: seq<string>

    /** The context is the template followed by one turn per question asked. */
    ghost predicate Valid()
      reads this
    {
      context == Conversation(person, questions)
    }

    /** `Person(person)`: the context starts as the template for that name. */
    constructor (person: string)
      ensures Valid()
      ensures this.person == person && questions == []
      ensures context == Template(person)
    {
      this.person := person;
      this.context := Template(person);
      this.questions := [];
    }

    /** `Person.prompt`: appends each line to the context, then returns all lines concatenated. */
    method Prompt(lines: seq<string>) returns (p: string)
      modifies this
      ensures person == old(person) && questions == old(questions)
      ensures context == old(context) + lines
      ensures p == Join("", context)
    {
      for i := 0 to |lines|
        invariant person == old(person) && questions == old(questions)
        invariant context == old(context) + lines[..i]
      {
        context := context + [lines[i]];
      }
      assert lines[..|lines|] == lines;
      p := Join("", context);
    }

    /** `Person.question`: appends the question's turn and returns the new prompt. */
    method Question(q: string) returns (p: string)
      modifies this
      ensures person == old(person) && questions == old(questions) + [q]
      ensures context == old(context) + Turn(person, q)
      ensures old(Valid()) ==> Valid() && p == PromptOf(person, questions)
      ensures p == Join("", context)
      ensures p == Join("", old(context)) + "###\nMe : " + q + "\n" + person + " : "
      ensures EndsWith(p, person + " : ")
      ensures |p| > |Join("", old(context))|
    {
      ghost var before := context;
      ghost var valid := Valid();
      var turn := Turn(person, q);
      p := Prompt(turn);
      questions := questions + [q];
      ConcatAppend(before, turn);
      TurnRegroup(Join("", before), person, q);
      if valid {
        ConversationExtends(person, old(questions), q);
      }
    }
  }
}
