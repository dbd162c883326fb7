/**
  `GeminiChat.is_comparison_question` and the prompt built in `send_question`.
  A question is a comparison request when its lower-cased text contains one of
  fifteen keywords; such a question is sent with a directive asking for a
  markdown table appended to it.
 */
module Classifier {
  import opened Text

  /** The keywords that flag a comparison request, in the source's order. */
  const Keywords: seq<string> := [
    "difference", "compare", "comparison", "vs", "versus",
    "better", "contrast", "distinguish", "differentiate",
    "pros and cons", "advantages", "disadvantages", "benefits",
    "between", "differ"
  ]

  /** The directive appended to a comparison request: a markdown table template and a ban on prose. */
  const TableDirective: string :=
    "\n\nIMPORTANT: Provide your answer ONLY as a markdown table with clear side-by-side comparison. \n"
    + "Format like this:\n\n"
    + "| Feature/Aspect | First Item | Second Item |\n"
    + "|----------------|------------|-------------|\n"
    + "| Category 1     | Details    | Details     |\n"
    + "| Category 2     | Details    | Details     |\n"
    + "| Category 3     | Details    | Details     |\n\n"
    + "Do NOT write paragraphs. ONLY respond with the comparison table.\n"

  /** Python's `any(keyword in question.lower() for keyword in keywords)`. */
  predicate IsComparisonQuestion(question: string)
  {
    ContainsAny(Lower(question), Keywords)
  }

  /** A question is a comparison request exactly when its lower-cased text contains one of the keywords. */
  lemma ComparisonIff(question: string)
    ensures IsComparisonQuestion(question) <==> exists j :: 0 <= j < |Keywords| && Contains(Lower(question), Keywords[j])
  {
    ContainsAnyIff(Lower(question), Keywords);
  }

  /** The text actually sent: the question, followed by the table directive for a comparison request. */
  function Prompt(question: string): (p: string)
    ensures |p| >= |question| && p[..|question|] == question
    ensures IsComparisonQuestion(question) <==> p[|question|..] == TableDirective
    ensures !IsComparisonQuestion(question) <==> p == question
  {
    if IsComparisonQuestion(question) then question + TableDirective else question
  }

  /** A keyword appearing verbatim anywhere in the question makes it a comparison request. */
  lemma KeywordFlags(question: string, j: nat, i: nat)
    requires j < |Keywords|
    requires OccursAt(Keywords[j], question, i)
    ensures IsComparisonQuestion(question)
  {
    var k := Keywords[j];
    var lq := Lower(question);
    assert forall m :: 0 <= m < |k| ==> !('A' <= k[m] <= 'Z');
    assert lq[i..i + |k|] == k by {
      forall m | 0 <= m < |k| ensures lq[i + m] == k[m] {
        assert question[i + m] == k[m];
      }
    }
    assert OccursAt(k, lq, i);
    ContainsIff(lq, k);
    ComparisonIff(question);
  }

  /** Classification ignores the case of ASCII letters: questions that differ only there are classified alike. */
  lemma ClassificationIgnoresCase(q1: string, q2: string)
    requires |q1| == |q2|
    requires forall i :: 0 <= i < |q1| ==> SameIgnoringCase(q1[i], q2[i])
    ensures IsComparisonQuestion(q1) == IsComparisonQuestion(q2)
  {
    assert Lower(q1) == Lower(q2);
  }

  /** "What is the difference between A and B?" is flagged: "difference" occurs at index 12. */
  lemma DifferenceQuestionFlagged()
    ensures IsComparisonQuestion("What is the difference between A and B?")
  {
    var q := "What is the " + "difference" + " between A and B?";
    DifferenceQuestionText();
    assert q[12..22] == "difference";
    KeywordFlags(q, 0, 12);
  }

  /** The example question, written around its keyword. */
  lemma DifferenceQuestionText()
    ensures "What is the " + "difference" + " between A and B?" == "What is the difference between A and B?"
  {
  }

  /** A keyword with a character the text lacks does not occur in it. */
  lemma MissingCharNotContained(s: string, k: string, m: nat)
    requires m < |k| && k[m] !in s
    ensures !Contains(s, k)
  {
    ContainsIff(s, k);
  }

  /** "Summarize this article" is not flagged: every keyword has a letter the question lacks. */
  lemma SummaryQuestionNotFlagged()
    ensures !IsComparisonQuestion("Summarize this article")
  {
    SummaryLetters();
    ComparisonIff("Summarize this article");
    var lq := Lower("Summarize this article");
    forall j | 0 <= j < |Keywords| ensures !Contains(lq, Keywords[j]) {
      var k := Keywords[j];
      if j in {0, 3, 4, 5, 7, 8, 9, 11, 12, 13, 14} {
        MissingCharNotContained(lq, k, 0);
      } else {
        MissingCharNotContained(lq, k, 1);
      }
    }
  }

  /** The letters of the lower-cased example that rule out every keyword. */
  lemma SummaryLetters()
    ensures var lq := Lower("Summarize this article");
      'd' !in lq && 'v' !in lq && 'b' !in lq && 'p' !in lq && 'o' !in lq
  {
    SummaryLower();
    var lq := "summarize this article";
    assert forall i :: 0 <= i < |lq| ==> lq[i] in "sumarizethcl ";
  }

  lemma SummaryLower()
    ensures Lower("Summarize this article") == "summarize this article"
  {
  }

  /** The result of the call into the browser that types and submits the prompt. */
  datatype Delivery = Returned(found: bool) | Threw(message: string)

  /**
    `send_question` without the page script: the prompt goes to `deliver`, which
    stands for the browser; the question counts as sent only when the script
    reports it found an input element, and an exception counts as not sent.
   */
  function SendQuestion(question: string, deliver: string -> Delivery): (sent: bool)
    ensures sent <==> deliver(Prompt(question)) == Returned(true)
  {
    match deliver(Prompt(question))
    case Returned(found) => found
    case Threw(_) => false
  }
}
