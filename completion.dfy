/**
 The completion client's post-processing (`TextGen.query`): how the text
 returned by the generation endpoint becomes the answer relayed to the chat,
 and how an endpoint failure becomes an error string.  The HTTP round trip
 itself is not modelled; its decoded outcome is a `Response` value.
 */
module Completion {
  import opened PyStr

  /** The stop sequence the endpoint is configured with, also stripped from answers. */
  const StopMarker := "###"
  /** The start of a user turn; an answer is cut off at the first one. */
  const UserTurn := "Me :"
  /** The prefix of every error answer. */
  const ErrorPrefix := "Error:"

  /** The decoded `error` field of a failure body: a JSON list of strings or a JSON string. */
  datatype ErrorField = Messages(items: seq<string>) | Message(text: string)

  /** The decoded outcome of the endpoint call. */
  datatype Response =
    | Generated(text: string)      // success: the first element's `generated_text`
    | Failed(error: ErrorField)    // non-success status: the body's `error` field

  // ---------------------------------------------------------------------
  // answer cleaning

  /** `s.replace("###", "")` leaves no stop marker behind. */
  function RemoveStops(s: string): (r: string)
    ensures !Contains(r, StopMarker)
    ensures |r| <= |s|
  {
    NoStopAfterRemoval(s);
    RemoveShrinks(s, StopMarker);
    ReplaceAll(s, StopMarker, "")
  }

  /** Echo removal, stop-marker removal and the cut at the first user turn. */
  function Clean(generated: string, payload: string): (r: string)
    ensures !Contains(r, UserTurn)
    ensures !Contains(r, StopMarker)
    ensures |r| <= |generated|
  {
    var unechoed := ReplaceAll(generated, payload, "");
    var unstopped := RemoveStops(unechoed);
    var head := Partition(unstopped, UserTurn).0;
    RemoveShrinks(generated, payload);
    AbsentFromPrefix(unstopped, StopMarker, |head|);
    head
  }

  /**
   The cleaned answer is the stop-stripped text up to the first user turn:
   a prefix of it, and all of it exactly when no user turn occurs.
   */
  lemma CleanIsHeadOfStripped(generated: string, payload: string)
    ensures Clean(generated, payload) <= RemoveStops(ReplaceAll(generated, payload, ""))
    ensures var stripped := RemoveStops(ReplaceAll(generated, payload, ""));
            Clean(generated, payload) == stripped <==> !Contains(stripped, UserTurn)
  {
  }

  /** A first character that is a '#' survives stop removal only if the input also started with '#'. */
  lemma LeadingHash(u: string)
    requires |ReplaceAll(u, StopMarker, "")| > 0 && ReplaceAll(u, StopMarker, "")[0] == '#'
    ensures |u| > 0 && u[0] == '#'
  {
    if |u| >= 3 && u[..3] != StopMarker {
      assert ReplaceAll(u, StopMarker, "") == [u[0]] + ReplaceAll(u[1..], StopMarker, "");
    }
  }

  /** Two leading '#' survive stop removal only if the input also started with two. */
  lemma LeadingHashPair(u: string)
    requires |ReplaceAll(u, StopMarker, "")| > 1
    requires ReplaceAll(u, StopMarker, "")[0] == '#' && ReplaceAll(u, StopMarker, "")[1] == '#'
    ensures |u| > 1 && u[0] == '#' && u[1] == '#'
  {
    if |u| >= 3 && u[..3] != StopMarker {
      var tail := ReplaceAll(u[1..], StopMarker, "");
      assert ReplaceAll(u, StopMarker, "") == [u[0]] + tail;
      LeadingHash(u[1..]);
    }
  }

  /**
   Removing every "###" cannot create a new one.  This holds because the
   marker is one repeated character; it fails for patterns in general
   ("aabb".replace("ab", "") == "ab").
   */
  lemma {:induction false} NoStopAfterRemoval(s: string)
    ensures !Contains(ReplaceAll(s, StopMarker, ""), StopMarker)
    decreases |s|
  {
    var r := ReplaceAll(s, StopMarker, "");
    if |s| < 3 {
      assert r == s;
    } else if s[..3] == StopMarker {
      assert r == ReplaceAll(s[3..], StopMarker, "");
      NoStopAfterRemoval(s[3..]);
    } else {
      var tail := ReplaceAll(s[1..], StopMarker, "");
      assert r == [s[0]] + tail;
      NoStopAfterRemoval(s[1..]);
      OccursShift(r, StopMarker);
      assert r[1..] == tail;
      assert !OccursAt(r, StopMarker, 0) by {
        if |tail| > 1 && tail[0] == '#' && tail[1] == '#' {
          LeadingHashPair(s[1..]);
          assert s[..3] == [s[0], s[1], s[2]];
        }
      }
    }
  }

  /**
   When the endpoint echoes the prompt and the continuation does not repeat
   the prompt, the echo disappears and only the continuation is cleaned.
   */
  lemma EchoRemoved(payload: string, tail: string)
    requires !Contains(tail, payload)
    ensures Clean(payload + tail, payload) == Partition(RemoveStops(tail), UserTurn).0
  {
    assert |payload| > 0 by {
      if |payload| == 0 { assert OccursAt(tail, payload, 0); }
    }
    var s := payload + tail;
    assert s[..|payload|] == payload;
    assert s[|payload|..] == tail;
    assert ReplaceAll(s, payload, "") == ReplaceAll(tail, payload, "");
    ReplaceAbsent(tail, payload, "");
  }

  /** When the prompt is not echoed at all, the echo-removal step changes nothing. */
  lemma NoEcho(generated: string, payload: string)
    requires !Contains(generated, payload)
    ensures Clean(generated, payload) == Partition(RemoveStops(generated), UserTurn).0
  {
    ReplaceAbsent(generated, payload, "");
  }

  /** A user turn cannot start just before an 'M' that sits inside its first four characters. */
  lemma NoStraddle(st: string, a: nat, j: nat)
    requires a < |st| && st[a] == 'M' && j < a < j + |UserTurn|
    ensures !OccursAt(st, UserTurn, j)
  {
    if j + |UserTurn| <= |st| {
      assert st[j..j + |UserTurn|][a - j] == 'M';
      assert UserTurn[a - j] != 'M';
    }
  }

  /** A user turn cannot start at index `j` of an answer free of user turns when a user turn follows it. */
  lemma {:induction false} NoEarlyTurn(answer: string, rest: string, j: nat)
    requires !Contains(answer, UserTurn) && j < |answer|
    ensures !OccursAt(answer + (UserTurn + rest), UserTurn, j)
  {
    var s := answer + (UserTurn + rest);
    if j + |UserTurn| <= |answer| {
      assert s[j..j + |UserTurn|] == answer[j..j + |UserTurn|];
      assert !OccursAt(answer, UserTurn, j);
    } else {
      assert s[|answer|] == 'M';
      NoStraddle(s, |answer|, j);
    }
  }

  /** No user turn starts inside an answer free of user turns when a user turn follows it. */
  lemma {:induction false} NoTurnBefore(answer: string, rest: string)
    requires !Contains(answer, UserTurn)
    ensures forall j: nat :: j < |answer| ==> !OccursAt(answer + (UserTurn + rest), UserTurn, j)
  {
    forall j: nat | j < |answer|
      ensures !OccursAt(answer + (UserTurn + rest), UserTurn, j)
    {
      NoEarlyTurn(answer, rest, j);
    }
  }

  /** The first user turn is the one that follows an answer free of user turns. */
  lemma {:induction false} FindAtTurn(answer: string, rest: string)
    requires !Contains(answer, UserTurn)
    ensures Find(answer + (UserTurn + rest), UserTurn) == Some(|answer|)
  {
    var s := answer + (UserTurn + rest);
    assert OccursAt(s, UserTurn, |answer|) by {
      assert s[|answer|..|answer| + |UserTurn|] == UserTurn;
    }
    NoTurnBefore(answer, rest);
    FindFirst(s, UserTurn, |answer|);
  }

  /** Stop removal keeps a '#'-free answer, drops the marker after it and keeps the next user turn. */
  lemma StripTail(answer: string, next: string)
    requires '#' !in answer && UserTurn <= next
    ensures RemoveStops(answer + StopMarker + next)
         == answer + (UserTurn + ReplaceAll(next[|UserTurn|..], StopMarker, ""))
  {
    var tail := StopMarker + next;
    assert answer + tail == answer + StopMarker + next;
    ReplacePast(answer, tail, StopMarker, "");
    assert ReplaceAll(tail, StopMarker, "") == ReplaceAll(next, StopMarker, "") by {
      assert tail[..3] == StopMarker;
      assert tail[3..] == next;
    }
    assert next == UserTurn + next[|UserTurn|..];
    ReplacePast(UserTurn, next[|UserTurn|..], StopMarker, "");
  }

  /**
   An echoed prompt followed by one answer, the stop marker and a hallucinated
   user turn cleans to exactly that answer, provided the answer itself holds
   no '#' and no user turn.
   */
  lemma CleanEchoedAnswer(payload: string, answer: string, next: string)
    requires !Contains(answer + StopMarker + next, payload)
    requires '#' !in answer && !Contains(answer, UserTurn)
    requires UserTurn <= next
    ensures Clean(payload + (answer + StopMarker + next), payload) == answer
  {
    EchoRemoved(payload, answer + StopMarker + next);
    StripTail(answer, next);
    var rest := ReplaceAll(next[|UserTurn|..], StopMarker, "");
    FindAtTurn(answer, rest);
    assert (answer + (UserTurn + rest))[..|answer|] == answer;
  }

  /** An example: "I am fine." survives, the marker and the next turn do not. */
  lemma CleanExample(payload: string)
    requires !Contains("I am fine.###Me : what now?", payload)
    ensures Clean(payload + "I am fine.###Me : what now?", payload) == "I am fine."
  {
    assert "I am fine." + StopMarker + "Me : what now?" == "I am fine.###Me : what now?";
    FirstCharAbsent("I am fine.", UserTurn);
    CleanEchoedAnswer(payload, "I am fine.", "Me : what now?");
  }

  // ---------------------------------------------------------------------
  // error formatting

  /** One string per character: what `" ".join` iterates over when given a string. */
  function Chars(s: string): seq<string>
  {
    seq(|s|, k requires 0 <= k < |s| => [s[k]])
  }

  /** The strings `" ".join` receives for an error field. */
  function Items(e: ErrorField): seq<string>
  {
    match e
    case Messages(items) => items
    case Message(text) => Chars(text)
  }

  /** `"Error:" + " ".join(error)`. */
  function FormatError(e: ErrorField): (r: string)
    ensures |ErrorPrefix| <= |r| && r[..|ErrorPrefix|] == ErrorPrefix
  {
    ErrorPrefix + Join(" ", Items(e))
  }

  /** A single error message is reported verbatim after the prefix. */
  lemma SingleError(m: string)
    ensures FormatError(Messages([m])) == ErrorPrefix + m
  {
  }

  /**
   The messages can be read back from the error string by splitting at
   single spaces, provided there is at least one and none contains a space.
   */
  lemma ErrorMessagesRecoverable(e: ErrorField)
    requires |Items(e)| > 0
    requires forall k :: 0 <= k < |Items(e)| ==> ' ' !in Items(e)[k]
    ensures Split(FormatError(e)[|ErrorPrefix|..], " ") == Items(e)
  {
    assert FormatError(e)[|ErrorPrefix|..] == Join(" ", Items(e));
    SplitJoin(Items(e), ' ');
  }

  /** `" ".join` of a string puts a space between each pair of its characters. */
  lemma {:induction false} JoinCharsSpaced(s: string)
    requires |s| > 0
    ensures |Join(" ", Chars(s))| == 2 * |s| - 1
    ensures forall k :: 0 <= k < |s| ==> Join(" ", Chars(s))[2 * k] == s[k]
    ensures forall k :: 0 <= k < |s| - 1 ==> Join(" ", Chars(s))[2 * k + 1] == ' '
    decreases |s|
  {
    if |s| > 1 {
      JoinCharsSpaced(s[1..]);
      assert Chars(s)[1..] == Chars(s[1..]);
      var j := Join(" ", Chars(s));
      assert j == [s[0]] + " " + Join(" ", Chars(s[1..]));
      forall k | 0 < k < |s|
        ensures j[2 * k] == s[k]
      {
        assert j[2 * k] == Join(" ", Chars(s[1..]))[2 * (k - 1)];
      }
      forall k | 0 < k < |s| - 1
        ensures j[2 * k + 1] == ' '
      {
        assert j[2 * k + 1] == Join(" ", Chars(s[1..]))[2 * (k - 1) + 1];
      }
    }
  }

  /** A string-valued error field is reported with its characters spaced apart. */
  lemma TextErrorSpaced(text: string)
    requires |text| > 0
    ensures |FormatError(Message(text))| == |ErrorPrefix| + 2 * |text| - 1
    ensures forall k :: 0 <= k < |text| ==> FormatError(Message(text))[|ErrorPrefix| + 2 * k] == text[k]
    ensures forall k :: 0 <= k < |text| - 1 ==> FormatError(Message(text))[|ErrorPrefix| + 2 * k + 1] == ' '
  {
    JoinCharsSpaced(text);
  }

  // ---------------------------------------------------------------------
  // the query outcome

  /** `TextGen.query` after the HTTP call: a cleaned answer, or an error string. */
  function Answer(payload: string, response: Response): (r: string)
    ensures response.Generated? ==> !Contains(r, StopMarker) && !Contains(r, UserTurn)
    ensures response.Failed? ==> ErrorPrefix <= r
  {
    match response
    case Generated(text) => Clean(text, payload)
    case Failed(error) => FormatError(error)
  }

  /**
   Errors are signalled in-band: a generated text that looks like an error
   string, contains no '#' or 'M' and does not contain the prompt is relayed
   unchanged, so it cannot be told apart from a reported failure.
   */
  lemma ErrorIndistinguishable(payload: string, m: string)
    requires '#' !in m && 'M' !in m
    requires !Contains(ErrorPrefix + m, payload)
    ensures Answer(payload, Generated(ErrorPrefix + m)) == Answer(payload, Failed(Messages([m])))
  {
    var text := ErrorPrefix + m;
    assert '#' !in text && 'M' !in text;
    NoEcho(text, payload);
    ReplacePast(text, "", StopMarker, "");
    assert text + "" == text;
    FirstCharAbsent(text, UserTurn);
  }
}
