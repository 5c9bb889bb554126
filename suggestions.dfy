/**
 * `generateRecommendations`: one chat-completion request whose reply is
 * trimmed, parsed as a JSON array when it is one and otherwise split into
 * lines; any failure of the service yields a fixed one-line message.
 */
module Suggestions {
  import opened Wrappers
  import opened Text
  import opened Sequences

  /** The only suggestion returned when the service fails. */
  const FallbackMessage := "Unable to generate suggestions at this time."

  const ChatModel := "gpt-4o-mini"
  const ChatTemperature: real := 0.7

  /** Instruction text that precedes the resume in the prompt. */
  const PromptHead := "You are an expert career coach. Given the following resume text and a job description, provide 5-7 concise, actionable improvement suggestions to increase ATS compatibility and better align the resume with the job requirements. Return the suggestions as a JSON array of strings.\n\nResume:\n"

  /** Text between the resume and the job description in the prompt. */
  const PromptMiddle := "\n\nJob Description:\n"

  /** The prompt embeds both texts verbatim: the instruction, the resume, a heading, the job description. */
  function Prompt(resumeText: string, jobDescription: string): (p: string)
    ensures |p| == |PromptHead| + |resumeText| + |PromptMiddle| + |jobDescription|
    ensures p[..|PromptHead|] == PromptHead
    ensures p[|PromptHead|..|PromptHead| + |resumeText|] == resumeText
    ensures p[|p| - |jobDescription|..] == jobDescription
  {
    PromptHead + resumeText + PromptMiddle + jobDescription
  }

  /** What is sent to the chat-completion service. */
  datatype ChatRequest = ChatRequest(model: string, prompt: string, temperature: real)

  /**
   * What comes back: the content of the first choice's message, or a
   * failure (a network or service error, or a reply without that content).
   */
  datatype ChatReply = Replied(content: string) | ServiceFailed

  /** A separator of the split: a line feed together with the whitespace run that follows it. */
  predicate IsLineBreak(sep: string)
  {
    sep != [] && sep[0] == '\n' && AllSpace(sep)
  }

  /** The pieces interleaved with the separators: `pieces[0] + seps[0] + pieces[1] + ...`. */
  ghost function Rejoin(pieces: seq<string>, seps: seq<string>): string
    requires |pieces| == |seps| + 1
    decreases |seps|
  {
    if seps == [] then pieces[0] else pieces[0] + seps[0] + Rejoin(pieces[1..], seps[1..])
  }

  /** `s` is `pieces` joined by the line-break separators `seps`. */
  ghost predicate SplitsInto(s: string, pieces: seq<string>, seps: seq<string>)
  {
    && |pieces| == |seps| + 1
    && (forall i :: 0 <= i < |seps| ==> IsLineBreak(seps[i]))
    && Rejoin(pieces, seps) == s
  }

  /**
   * Pieces of a split whose separators are as long as they can be: no piece
   * holds a line feed, and a piece after a separator starts with
   * non-whitespace, or is empty and is the last one.
   */
  ghost predicate MaximalPieces(pieces: seq<string>)
  {
    && (forall i :: 0 <= i < |pieces| ==> '\n' !in pieces[i])
    && (forall i :: 1 <= i < |pieces| - 1 ==> pieces[i] != [])
    && (forall i :: 1 <= i < |pieces| && pieces[i] != [] ==> !IsJsSpace(pieces[i][0]))
  }

  /**
   * `s.split` on the pattern `\n\s*`: the pieces between separators, where a
   * separator is a line feed together with all the whitespace that follows it.
   */
  function SplitAtLineBreaks(s: string): (r: seq<string>)
    ensures |r| >= 1
    ensures |r[0]| <= |s| && r[0] == s[..|r[0]|]
    ensures |r[0]| < |s| ==> s[|r[0]|] == '\n'
    ensures |r| > 1 ==> '\n' in s
    ensures MaximalPieces(r)
    ensures exists seps :: SplitsInto(s, r, seps)
    decreases |s|
  {
    match IndexOf(s, '\n')
    case None =>
      assert SplitsInto(s, [s], []);
      [s]
    case Some(k) =>
      var after := s[k + 1..];
      var n := LeadingSpaces(after);
      var rest := SplitAtLineBreaks(after[n..]);
      assert after[n..] == s[k + 1 + n..];
      SplitCons(s, k, n, after[n..], rest);
      [s[..k]] + rest
  }

  /** One step of the split: the text before the first line feed, a separator, then the split of the remainder. */
  lemma SplitCons(s: string, k: nat, n: nat, t: string, rest: seq<string>)
    requires k < |s| && s[k] == '\n' && '\n' !in s[..k]
    requires k + 1 + n <= |s| && AllSpace(s[k + 1..][..n])
    requires t == s[k + 1 + n..]
    requires t != [] ==> !IsJsSpace(t[0])
    requires |rest| >= 1 && MaximalPieces(rest)
    requires |rest[0]| <= |t| && rest[0] == t[..|rest[0]|]
    requires |rest[0]| < |t| ==> t[|rest[0]|] == '\n'
    requires |rest| > 1 ==> '\n' in t
    requires exists seps :: SplitsInto(t, rest, seps)
    ensures MaximalPieces([s[..k]] + rest)
    ensures exists seps :: SplitsInto(s, [s[..k]] + rest, seps)
  {
    var seps :| SplitsInto(t, rest, seps);
    var sep := s[k..k + 1 + n];
    assert IsLineBreak(sep) by {
      assert forall i :: 1 <= i < |sep| ==> sep[i] == s[k + 1..][..n][i - 1];
    }
    var r := [s[..k]] + rest;
    assert r[1..] == rest;
    assert ([sep] + seps)[1..] == seps;
    assert Rejoin(r, [sep] + seps) == s[..k] + sep + t;
    assert s[..k] + sep + t == s;
    assert SplitsInto(s, r, [sep] + seps);
    if |rest| > 1 {
      assert t != [] && !IsJsSpace(t[0]);
      assert rest[0] != [];
    }
  }

  /** The first line feed of `p + q` is the first of `q` when `p` has none and `q` starts with one. */
  lemma FirstLineFeed(p: string, q: string)
    requires '\n' !in p && q != [] && q[0] == '\n'
    ensures IndexOf(p + q, '\n') == Some(|p|)
  {
    assert (p + q)[|p|] == '\n';
  }

  /** After a separator of maximal pieces, the rest of the text does not start with whitespace. */
  lemma RestStartsWithText(pieces: seq<string>, seps: seq<string>)
    requires |pieces| == |seps| + 1 && |seps| >= 1 && MaximalPieces(pieces)
    ensures var tail := Rejoin(pieces[1..], seps[1..]); tail == [] || !IsJsSpace(tail[0])
  {
    var tail := Rejoin(pieces[1..], seps[1..]);
    if |pieces| > 2 {
      assert pieces[1] != [];
      assert tail == pieces[1] + seps[1] + Rejoin(pieces[1..][1..], seps[1..][1..]);
    } else {
      assert tail == pieces[1];
    }
  }

  /** Dropping the first piece keeps the pieces maximal. */
  lemma MaximalPiecesTail(pieces: seq<string>)
    requires |pieces| >= 1 && MaximalPieces(pieces)
    ensures MaximalPieces(pieces[1..])
  {
    assert forall i :: 0 <= i < |pieces| - 1 ==> pieces[1..][i] == pieces[i + 1];
  }

  /** The split of a text with a line feed at `k`: the text before it, then the split after the separator. */
  lemma SplitStep(s: string, k: nat)
    requires IndexOf(s, '\n') == Some(k)
    ensures var after := s[k + 1..];
      SplitAtLineBreaks(s) == [s[..k]] + SplitAtLineBreaks(after[LeadingSpaces(after)..])
  {
  }

  /** A text without line feeds is one piece. */
  lemma SplitOfLine(s: string)
    requires '\n' !in s
    ensures SplitAtLineBreaks(s) == [s]
  {
  }

  /** `pieces` and `seps` describe a split of `s` at maximal separators. */
  ghost predicate DescribesSplit(s: string, pieces: seq<string>, seps: seq<string>)
  {
    SplitsInto(s, pieces, seps) && MaximalPieces(pieces)
  }

  /** The pieces after the first, with the separators after the first, still describe the rest of the text. */
  lemma SplitsIntoTail(s: string, pieces: seq<string>, seps: seq<string>)
    requires DescribesSplit(s, pieces, seps) && seps != []
    ensures DescribesSplit(Rejoin(pieces[1..], seps[1..]), pieces[1..], seps[1..])
  {
    MaximalPiecesTail(pieces);
    assert forall i :: 0 <= i < |seps| - 1 ==> seps[1..][i] == seps[i + 1];
  }

  /** Splitting maximal pieces peels off the first piece and its separator. */
  lemma SplitHead(s: string, pieces: seq<string>, seps: seq<string>)
    requires DescribesSplit(s, pieces, seps) && seps != []
    ensures SplitAtLineBreaks(s) == [pieces[0]] + SplitAtLineBreaks(Rejoin(pieces[1..], seps[1..]))
  {
    var p := pieces[0];
    var sep := seps[0];
    var tail := Rejoin(pieces[1..], seps[1..]);
    assert s == p + (sep + tail);
    FirstLineFeed(p, sep + tail);
    var k := |p|;
    assert s[..k] == p;
    RestStartsWithText(pieces, seps);
    var after := s[k + 1..];
    assert after == sep[1..] + tail;
    LeadingSpacesOfRun(sep[1..], tail);
    assert after[LeadingSpaces(after)..] == tail;
    SplitStep(s, k);
  }

  /**
   * The split is determined by its description: whenever `s` is some pieces
   * joined by line-break separators and the pieces are maximal, those
   * pieces are what the split returns.
   */
  lemma {:induction false} SplitIsUnique(s: string, pieces: seq<string>, seps: seq<string>)
    requires DescribesSplit(s, pieces, seps)
    ensures SplitAtLineBreaks(s) == pieces
    decreases |seps|
  {
    if seps == [] {
      SplitOfLine(pieces[0]);
    } else {
      var tail := Rejoin(pieces[1..], seps[1..]);
      SplitsIntoTail(s, pieces, seps);
      SplitIsUnique(tail, pieces[1..], seps[1..]);
      SplitHead(s, pieces, seps);
      ConsOfTail(pieces, SplitAtLineBreaks(s), SplitAtLineBreaks(tail));
    }
  }

  /** Clean lines with any line-break runs between them (blank lines, indentation) split back into exactly those lines. */
  lemma SplitRejoinRoundTrip(lines: seq<string>, seps: seq<string>)
    requires |lines| == |seps| + 1
    requires forall i :: 0 <= i < |lines| ==> IsCleanLine(lines[i])
    requires forall i :: 0 <= i < |seps| ==> IsLineBreak(seps[i])
    ensures SplitAtLineBreaks(Rejoin(lines, seps)) == lines
    ensures FallbackLines(Rejoin(lines, seps)) == lines
  {
    assert DescribesSplit(Rejoin(lines, seps), lines, seps);
    SplitIsUnique(Rejoin(lines, seps), lines, seps);
    FilterKeepsAll(lines, (p: string) => p != []);
  }

  /** Blank lines between two suggestions are dropped with the separator. */
  lemma BlankLinesCollapse()
    ensures FallbackLines("a\n\n\nb") == ["a", "b"]
  {
    assert Rejoin(["a", "b"], ["\n\n\n"]) == "a\n\n\nb";
    SplitRejoinRoundTrip(["a", "b"], ["\n\n\n"]);
  }

  /** Indentation after a line break is dropped with the separator. */
  lemma IndentationCollapses()
    ensures FallbackLines("a\n  b") == ["a", "b"]
  {
    assert Rejoin(["a", "b"], ["\n  "]) == "a\n  b";
    SplitRejoinRoundTrip(["a", "b"], ["\n  "]);
  }

  /** A line the service could have meant as one suggestion: non-empty, one line, not starting with whitespace. */
  predicate IsCleanLine(line: string)
  {
    line != [] && '\n' !in line && !IsJsSpace(line[0])
  }

  /**
   * The fallback parse: split at line breaks, then `filter(Boolean)` keeps
   * every non-empty piece, in order.
   */
  function FallbackLines(content: string): (r: seq<string>)
    ensures IsSubsequence(r, SplitAtLineBreaks(content))
    ensures forall x :: multiset(r)[x] == if x != [] then multiset(SplitAtLineBreaks(content))[x] else 0
    ensures forall i :: 0 <= i < |r| ==> r[i] != [] && '\n' !in r[i]
    ensures content == [] || !IsJsSpace(content[0]) ==> forall i :: 0 <= i < |r| ==> IsCleanLine(r[i])
  {
    var pieces := SplitAtLineBreaks(content);
    var r := Filter(pieces, (p: string) => p != []);
    forall i | 0 <= i < |r| ensures r[i] in pieces && r[i] != [] {
      assert r[i] in r;
    }
    assert content == [] || !IsJsSpace(content[0]) ==> pieces[0] == [] || !IsJsSpace(pieces[0][0]);
    r
  }

  /** Lines joined with single line feeds. */
  function JoinLines(lines: seq<string>): string
  {
    if lines == [] then [] else if |lines| == 1 then lines[0] else lines[0] + "\n" + JoinLines(lines[1..])
  }

  /** `n` one-character line-break separators. */
  function LineFeeds(n: nat): (r: seq<string>)
    ensures |r| == n
    ensures forall i :: 0 <= i < n ==> r[i] == "\n" && IsLineBreak(r[i])
  {
    if n == 0 then [] else ["\n"] + LineFeeds(n - 1)
  }

  /** Lines joined with single line feeds are the lines rejoined with one-character separators. */
  lemma {:induction false} JoinLinesRejoins(lines: seq<string>)
    requires lines != []
    ensures JoinLines(lines) == Rejoin(lines, LineFeeds(|lines| - 1))
  {
    if |lines| > 1 {
      JoinLinesRejoins(lines[1..]);
      assert LineFeeds(|lines| - 1)[1..] == LineFeeds(|lines| - 2);
    }
  }

  /** Splitting clean lines joined by line feeds gives back exactly those lines. */
  lemma SplitJoinRoundTrip(lines: seq<string>)
    requires lines != []
    requires forall i :: 0 <= i < |lines| ==> IsCleanLine(lines[i])
    ensures SplitAtLineBreaks(JoinLines(lines)) == lines
    ensures FallbackLines(JoinLines(lines)) == lines
  {
    JoinLinesRejoins(lines);
    SplitRejoinRoundTrip(lines, LineFeeds(|lines| - 1));
  }

  /** The suggestions that a reply yields, given the JSON parser. */
  function SuggestionsFrom(reply: ChatReply, parseJson: string -> Option<seq<string>>): (r: seq<string>)
    ensures reply.ServiceFailed? ==> r == [FallbackMessage]
    ensures reply.Replied? && parseJson(Trim(reply.content)).Some?
            ==> r == parseJson(Trim(reply.content)).value
    ensures reply.Replied? && parseJson(Trim(reply.content)).None?
            ==> r == FallbackLines(Trim(reply.content))
    ensures reply.Replied? && parseJson(Trim(reply.content)).None?
            ==> forall i :: 0 <= i < |r| ==> IsCleanLine(r[i])
  {
    match reply
    case ServiceFailed => [FallbackMessage]
    case Replied(raw) =>
      var content := Trim(raw);
      match parseJson(content)
      case Some(parsed) => parsed
      case None => FallbackLines(content)
  }

  /**
   * `generateRecommendations(resumeText, jobDescription)`: one request to the
   * chat service; the suggestion list is reassigned by the parse or by its
   * fallback, and a failure of the service is caught.
   */
  method GenerateRecommendations(
    resumeText: string, jobDescription: string,
    chat: ChatRequest -> ChatReply, parseJson: string -> Option<seq<string>>)
    returns (suggestions: seq<string>)
    ensures suggestions == SuggestionsFrom(chat(ChatRequest(ChatModel, Prompt(resumeText, jobDescription), ChatTemperature)), parseJson)
  {
    var reply := chat(ChatRequest(ChatModel, Prompt(resumeText, jobDescription), ChatTemperature));
    if reply.ServiceFailed? {
      return [FallbackMessage];
    }
    var content := Trim(reply.content);
    match parseJson(content) {
      case Some(parsed) =>
        suggestions := parsed;
      case None =>
        suggestions := FallbackLines(content);
    }
  }
}
