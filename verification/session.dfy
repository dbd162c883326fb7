/**
  `GeminiChat.ask` and the two input checks of the interactive loop. A question
  is sent; when that fails the answer is a fixed failure message, and
  otherwise the session waits for the answer to settle and extracts it.
 */
module Session {
  import opened Wrappers
  import opened Text
  import opened Classifier
  import opened CompletionDetector
  import opened Extractor
  import opened TableParser
  import opened TableRows

  /** The answer when the question could not be sent. */
  const FailedToSend: string := "\U{274C} Failed to send question"

  /** What `ask` answers, given the browser's behaviour at each of its three steps. */
  function Answer(question: string, deliver: string -> Delivery,
                  query: Fetch<Option<string>>, body: Fetch<string>): (r: string)
  {
    if SendQuestion(question, deliver) then ExtractedResponse(query, body) else FailedToSend
  }

  /**
    `ask`: send, then wait and extract only when the question went out.
    `waited` is the time the completion detector slept.
   */
  method Ask(question: string, deliver: string -> Delivery, samples: nat -> Option<nat>,
             query: Fetch<Option<string>>, body: Fetch<string>) returns (answer: string, waited: int)
    ensures answer == Answer(question, deliver, query, body)
    ensures !SendQuestion(question, deliver) ==> waited == 0
    ensures SendQuestion(question, deliver) ==> 6 <= waited <= DefaultTimeout
  {
    if SendQuestion(question, deliver) {
      var done, polls, elapsed, byStability := WaitForResponse(samples, DefaultTimeout);
      assert 6 <= elapsed <= DefaultTimeout by {
        assert polls <= 30 && (byStability ==> polls >= 3) && (!byStability ==> polls >= 30);
      }
      waited := elapsed;
      answer := GetResponse(query, body);
    } else {
      answer := FailedToSend;
      waited := 0;
    }
  }

  /** Every answer is more than 20 characters long, whichever way it was produced. */
  lemma AnswerIsLong(question: string, deliver: string -> Delivery,
                     query: Fetch<Option<string>>, body: Fetch<string>)
    ensures |Answer(question, deliver, query, body)| > 20
  {
    ExtractedResponseLong(query, body);
  }

  /** The failure message holds no `|`, so it is shown as plain text, never as a table. */
  lemma FailedAnswerShownAsText()
    ensures !ShowsAsTable(Parse(FailedToSend).header, Parse(FailedToSend).body)
  {
    assert forall i :: 0 <= i < |FailedToSend| ==> FailedToSend[i] in "\U{274C} Fadeilnoqstu";
    PlainTextNotTable(FailedToSend);
  }

  /** The interactive loop ends on `quit`, `exit` or `q`, in any ASCII case and without surrounding blanks. */
  predicate IsQuitCommand(input: string)
  {
    Lower(input) in ["quit", "exit", "q"]
  }

  /** The interactive loop asks again, sending nothing, when the input is only whitespace. */
  predicate IsBlankInput(input: string)
  {
    Strip(input) == ""
  }

  /** A quit command has no whitespace at either end, so it is never mistaken for blank input. */
  lemma QuitIsTrimmed(input: string)
    ensures IsQuitCommand(input) ==> Trimmed(input) && !IsBlankInput(input)
  {
    if IsQuitCommand(input) {
      var n := |input| - 1;
      assert Lower(input)[0] in "qeQE" && Lower(input)[n] in "qt";
      assert !IsSpace(input[0]) && !IsSpace(input[n]);
      StripEmptyIff(input);
    }
  }

  /** Surrounding blanks are not stripped before the quit check, so " quit" is sent as a question. */
  lemma PaddedQuitIsAQuestion()
    ensures !IsQuitCommand(" quit") && !IsBlankInput(" quit")
  {
    QuitIsTrimmed(" quit");
    assert IsSpace(" quit"[0]);
    PaddedQuitNotBlank();
  }

  /** " quit" has a non-blank character, so it is not blank input. */
  lemma PaddedQuitNotBlank()
    ensures !IsBlankInput(" quit")
  {
    assert !IsSpace(" quit"[1]);
    StripEmptyIff(" quit");
  }
}
