/**
  `GeminiChat.get_response`: the in-page query tries four selector strategies
  for the latest answer; the Python side accepts that text when it is longer
  than 20 characters once stripped, and otherwise falls back to the last ten
  substantial lines of the page's body text, or to a fixed message. Exceptions
  raised by either browser call become an error string, so the operation
  always yields a string.
 */
module Extractor {
  import opened Wrappers
  import opened Text

  /** The returned text when neither the query nor the body text yields anything. */
  const CouldNotExtract: string := "\U{26A0}\U{FE0F} Could not extract response. The page may still be loading."

  /** The start of the returned text when a browser call raises; the exception's message follows. */
  const ErrorPrefix: string := "\U{26A0}\U{FE0F} Error extracting response: "

  /** Lines of the body text that mention one of these (case-insensitively) are page chrome. */
  const SkipKeywords: seq<string> := ["gemini", "google", "sign in", "menu", "settings", "new chat", "send", "type"]

  /** How many lines the fallback keeps, counted from the end. */
  const FallbackLines: nat := 10

  /** A page element as the query sees it. */
  datatype Element = Element(innerText: string, textContent: string)

  /** JavaScript's `e.innerText || e.textContent`: the rendered text unless it is empty. */
  function TextOf(e: Element): string
  {
    if e.innerText != "" then e.innerText else e.textContent
  }

  /** Index `i` holds the latest element of `window` whose text is longer than 30 characters. */
  predicate LatestLongAt(window: seq<Element>, i: int)
  {
    0 <= i < |window| && |TextOf(window[i])| > 30
    && forall j :: i < j < |window| ==> |TextOf(window[j])| <= 30
  }

  /**
    The backward scan of strategy 3: the index of the latest element whose text
    is longer than 30 characters, or -1 when there is none.
   */
  function LatestLong(window: seq<Element>): (k: int)
    ensures -1 <= k < |window|
    ensures k >= 0 ==> LatestLongAt(window, k)
    ensures k < 0 <==> forall i :: 0 <= i < |window| ==> |TextOf(window[i])| <= 30
  {
    if |window| == 0 then -1
    else if |TextOf(window[|window| - 1])| > 30 then |window| - 1
    else LatestLong(window[..|window| - 1])
  }

  /**
    The in-page query, given what each selector matches: message-content
    elements, model-response containers, message-like elements and markdown
    elements. Strategies 1, 2 and 4 answer with the last match whatever its
    length; strategy 3 looks at the last five matches only.
   */
  function QueryScript(messageContents: seq<Element>, modelResponses: seq<Element>,
                       messages: seq<Element>, markdown: seq<Element>): (r: Option<string>)
    ensures r.None? <==> messageContents == [] && modelResponses == [] && markdown == []
                         && forall e :: e in LastN(messages, 5) ==> |TextOf(e)| <= 30
    ensures r.Some? ==> exists e :: (e in messageContents || e in modelResponses || e in messages || e in markdown)
                                    && r.value == TextOf(e)
    ensures messageContents != [] ==> r == Some(TextOf(messageContents[|messageContents| - 1]))
    ensures messageContents == [] && modelResponses != [] ==> r == Some(TextOf(modelResponses[|modelResponses| - 1]))
    ensures messageContents == [] && modelResponses == [] && LatestLong(LastN(messages, 5)) >= 0
            ==> r == Some(TextOf(LastN(messages, 5)[LatestLong(LastN(messages, 5))]))
    ensures messageContents == [] && modelResponses == [] && LatestLong(LastN(messages, 5)) < 0 && markdown != []
            ==> r == Some(TextOf(markdown[|markdown| - 1]))
  {
    if |messageContents| > 0 then Some(TextOf(messageContents[|messageContents| - 1]))
    else if |modelResponses| > 0 then Some(TextOf(modelResponses[|modelResponses| - 1]))
    else
      var recent := LastN(messages, 5);
      var k := LatestLong(recent);
      if k >= 0 then
        assert recent[k] in messages;
        Some(TextOf(recent[k]))
      else if |markdown| > 0 then Some(TextOf(markdown[|markdown| - 1]))
      else None
  }

  /** A body line worth keeping once stripped: longer than 20 characters and free of every skip keyword. */
  predicate Substantive(line: string)
  {
    |line| > 20 && !ContainsAny(Lower(line), SkipKeywords)
  }

  /** What one body line contributes to the kept lines: its stripped form, if that is substantive. */
  function Keep(line: string): seq<string>
  {
    var l := Strip(line);
    if Substantive(l) then [l] else []
  }

  /** What a loop over `lines` appending `keep(line)` for each line collects, in order. */
  function Collect(lines: seq<string>, keep: string -> seq<string>): seq<string>
  {
    if |lines| == 0 then [] else Collect(lines[..|lines| - 1], keep) + keep(lines[|lines| - 1])
  }

  /** The stripped lines the fallback keeps, in page order. */
  function Substantial(lines: seq<string>): seq<string>
  {
    Collect(lines, Keep)
  }

  /** The whole-page fallback of `get_response`. */
  function Fallback(bodyText: string): string
  {
    var kept := Substantial(Split(bodyText, '\n'));
    if kept == [] then CouldNotExtract else Join(LastN(kept, FallbackLines), '\n')
  }

  /** What `get_response` returns once the query has yielded nothing acceptable: the fallback, or the error when reading the body text raises. */
  function FromBody(body: Fetch<string>): string
  {
    match body
    case Raised(e) => ErrorPrefix + e
    case Got(bodyText) => Fallback(bodyText)
  }

  /** What `get_response` returns for a query result and a body-text read, either of which may raise. */
  function ExtractedResponse(query: Fetch<Option<string>>, body: Fetch<string>): string
  {
    match query
    case Raised(e) => ErrorPrefix + e
    case Got(response) =>
      if response.Some? && |Strip(response.value)| > 20 then Strip(response.value) else FromBody(body)
  }

  /** `get_response` never fails and never answers with 20 characters or fewer, whatever the page does. */
  lemma ExtractedResponseLong(query: Fetch<Option<string>>, body: Fetch<string>)
    ensures |ExtractedResponse(query, body)| > 20
  {
    if body.Got? {
      FallbackLong(body.value);
    }
  }

  /** The fallback text is longer than 20 characters: its first line is. */
  lemma FallbackLong(bodyText: string)
    ensures |Fallback(bodyText)| > 20
  {
    var kept := Substantial(Split(bodyText, '\n'));
    if kept != [] {
      SplitAvoids(bodyText, '\n');
      SubstantialShape(Split(bodyText, '\n'));
      var last := LastN(kept, FallbackLines);
      assert last[0] in kept;
      JoinLength(last, '\n');
    }
  }

  /** One more line adds what it contributes at the end. */
  lemma CollectStep(lines: seq<string>, keep: string -> seq<string>, i: nat)
    requires i < |lines|
    ensures Collect(lines[..i + 1], keep) == Collect(lines[..i], keep) + keep(lines[i])
  {
    assert lines[..i + 1][..i] == lines[..i];
  }

  /** Everything collected was contributed by some line. */
  lemma {:induction false} CollectFrom(lines: seq<string>, keep: string -> seq<string>, x: string)
    requires x in Collect(lines, keep)
    ensures exists i :: 0 <= i < |lines| && x in keep(lines[i])
  {
    var n := |lines| - 1;
    var front := lines[..n];
    if x in Collect(front, keep) {
      CollectFrom(front, keep, x);
      var i :| 0 <= i < n && x in keep(front[i]);
      assert front[i] == lines[i];
    }
  }

  /** Everything any line contributes is collected. */
  lemma {:induction false} CollectIncludes(lines: seq<string>, keep: string -> seq<string>, i: nat, x: string)
    requires i < |lines| && x in keep(lines[i])
    ensures x in Collect(lines, keep)
  {
    var n := |lines| - 1;
    var front := lines[..n];
    if i < n {
      assert front[i] == lines[i];
      CollectIncludes(front, keep, i, x);
    }
  }

  /** Lines that contribute nothing collect nothing. */
  lemma {:induction false} CollectNothing(lines: seq<string>, keep: string -> seq<string>)
    requires forall i :: 0 <= i < |lines| ==> keep(lines[i]) == []
    ensures Collect(lines, keep) == []
  {
    if |lines| > 0 {
      var n := |lines| - 1;
      assert forall i :: 0 <= i < n ==> lines[..n][i] == lines[i];
      CollectNothing(lines[..n], keep);
    }
  }

  /** The fallback loop of `get_response`: strip each body line and append it when it is substantive. */
  method KeptLines(lines: seq<string>) returns (responseLines: seq<string>)
    ensures responseLines == Substantial(lines)
  {
    responseLines := [];
    for i := 0 to |lines|
      invariant responseLines == Substantial(lines[..i])
    {
      CollectStep(lines, Keep, i);
      var line := Strip(lines[i]);
      if Substantive(line) {
        responseLines := responseLines + [line];
      }
    }
    assert lines[..|lines|] == lines;
  }

  /** `get_response` with its fallback loop appending to the kept lines. */
  method GetResponse(query: Fetch<Option<string>>, body: Fetch<string>) returns (r: string)
    ensures r == ExtractedResponse(query, body)
  {
    if query.Raised? {
      return ErrorPrefix + query.message;
    }
    var response := query.value;
    if response.Some? && |Strip(response.value)| > 20 {
      return Strip(response.value);
    }
    if body.Raised? {
      return ErrorPrefix + body.message;
    }
    var responseLines := KeptLines(Split(body.value, '\n'));
    if |responseLines| > 0 {
      return Join(LastN(responseLines, FallbackLines), '\n');
    }
    return CouldNotExtract;
  }

  /** A line is kept exactly when it is the stripped form of some body line and is substantive. */
  lemma SubstantialMembers(lines: seq<string>, l: string)
    ensures l in Substantial(lines) <==> exists i :: 0 <= i < |lines| && l == Strip(lines[i]) && Substantive(l)
  {
    if l in Substantial(lines) {
      CollectFrom(lines, Keep, l);
      var i :| 0 <= i < |lines| && l in Keep(lines[i]);
      assert l == Strip(lines[i]);
    }
    forall i | 0 <= i < |lines| && l == Strip(lines[i]) && Substantive(l) ensures l in Substantial(lines) {
      assert l in Keep(lines[i]);
      CollectIncludes(lines, Keep, i, l);
    }
  }

  /** What a line contributes is its stripped form, substantive and free of any character the line lacks. */
  lemma KeepShape(line: string, l: string, x: char)
    requires l in Keep(line) && x !in line
    ensures l == Strip(line) && Substantive(l) && Trimmed(l) && x !in l
  {
    StripAvoids(line, x);
  }

  /** Every kept line is substantive, already stripped and free of line breaks. */
  lemma SubstantialShape(lines: seq<string>)
    requires forall i :: 0 <= i < |lines| ==> '\n' !in lines[i]
    ensures forall l :: l in Substantial(lines) ==> Substantive(l) && Trimmed(l) && '\n' !in l
  {
    forall l | l in Substantial(lines) ensures Substantive(l) && Trimmed(l) && '\n' !in l {
      CollectFrom(lines, Keep, l);
      var i :| 0 <= i < |lines| && l in Keep(lines[i]);
      KeepShape(lines[i], l, '\n');
    }
  }

  /** A join is at least as long as its first part. */
  lemma {:induction false} JoinLength(parts: seq<string>, sep: char)
    requires |parts| >= 1
    ensures |Join(parts, sep)| >= |parts[0]|
  {
  }

  /**
    The fallback text is the last ten (or fewer) kept lines, in page order,
    joined by line breaks: splitting it gives them back, and each is stripped,
    longer than 20 characters and free of skip keywords.
   */
  lemma FallbackShape(bodyText: string)
    requires Substantial(Split(bodyText, '\n')) != []
    ensures var kept := Substantial(Split(bodyText, '\n'));
      Split(Fallback(bodyText), '\n') == LastN(kept, FallbackLines)
    ensures 1 <= |Split(Fallback(bodyText), '\n')| <= FallbackLines
    ensures forall l :: l in Split(Fallback(bodyText), '\n') ==> Substantive(l) && Trimmed(l)
  {
    var kept := Substantial(Split(bodyText, '\n'));
    SplitAvoids(bodyText, '\n');
    SubstantialShape(Split(bodyText, '\n'));
    var last := LastN(kept, FallbackLines);
    assert forall i :: 0 <= i < |last| ==> last[i] in kept;
    SplitJoin(last, '\n');
  }

  /** When no body line is substantive the fallback is the fixed message. */
  lemma NoSubstantiveLineGivesMessage(bodyText: string)
    requires forall i :: 0 <= i < |Split(bodyText, '\n')| ==> !Substantive(Strip(Split(bodyText, '\n')[i]))
    ensures Fallback(bodyText) == CouldNotExtract
  {
    var lines := Split(bodyText, '\n');
    NothingKept(lines);
  }

  /** No substantive line, nothing kept. */
  lemma NothingKept(lines: seq<string>)
    requires forall i :: 0 <= i < |lines| ==> !Substantive(Strip(lines[i]))
    ensures Substantial(lines) == []
  {
    forall i | 0 <= i < |lines| ensures Keep(lines[i]) == [] {
    }
    CollectNothing(lines, Keep);
  }

  /** A first-strategy match too short to accept goes straight to the body-text fallback; strategy 2 is never consulted. */
  lemma ShortFirstMatchFallsBack(messageContents: seq<Element>, modelResponses: seq<Element>,
                                 messages: seq<Element>, markdown: seq<Element>, body: Fetch<string>)
    requires messageContents != []
    requires |Strip(TextOf(messageContents[|messageContents| - 1]))| <= 20
    ensures ExtractedResponse(Got(QueryScript(messageContents, modelResponses, messages, markdown)), body)
         == ExtractedResponse(Got(None), body)
  {
  }
}
