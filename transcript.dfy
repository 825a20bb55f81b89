/**
 * The content `write_messages_to_file` writes: for each message in order, the
 * author on one line and the text on the next.
 */
module Transcript {
  import opened Archive

  /** The lines of the transcript: author, then text, per message. */
  function TranscriptLines(messages: seq<NormalizedMessage>): (lines: seq<string>)
    ensures |lines| == 2 * |messages|
    ensures forall i :: 0 <= i < |messages| ==>
      lines[2 * i] == messages[i].author && lines[2 * i + 1] == messages[i].text
  {
    if messages == [] then []
    else [messages[0].author, messages[0].text] + TranscriptLines(messages[1..])
  }

  /** Each line followed by a newline. */
  function JoinLines(lines: seq<string>): string {
    if lines == [] then "" else lines[0] + "\n" + JoinLines(lines[1..])
  }

  /** The file content for `messages`. */
  function TranscriptText(messages: seq<NormalizedMessage>): string {
    JoinLines(TranscriptLines(messages))
  }

  /** The position of the first newline in `s`, or `|s|` if there is none. */
  function LineEnd(s: string): (k: nat)
    ensures k <= |s|
    ensures forall j :: 0 <= j < k ==> s[j] != '\n'
    ensures k < |s| ==> s[k] == '\n'
  {
    if s == [] || s[0] == '\n' then 0 else 1 + LineEnd(s[1..])
  }

  /** The lines of a text, split at each newline; a last line without a
      newline counts as a line. */
  function SplitLines(s: string): seq<string>
    decreases |s|
  {
    if s == [] then []
    else
      var k := LineEnd(s);
      if k == |s| then [s] else [s[..k]] + SplitLines(s[k + 1..])
  }

  lemma {:induction false} JoinLinesAppend(a: seq<string>, b: seq<string>)
    ensures JoinLines(a + b) == JoinLines(a) + JoinLines(b)
  {
    if a == [] {
      assert a + b == b;
    } else {
      assert (a + b)[1..] == a[1..] + b;
      JoinLinesAppend(a[1..], b);
    }
  }

  /** Splitting the joined lines gives them back when none holds a newline. */
  lemma {:induction false} SplitJoin(lines: seq<string>)
    requires forall i :: 0 <= i < |lines| ==> '\n' !in lines[i]
    ensures SplitLines(JoinLines(lines)) == lines
  {
    if lines != [] {
      var l := lines[0];
      var rest := JoinLines(lines[1..]);
      var s := JoinLines(lines);
      assert s == l + "\n" + rest;
      assert s[|l|] == '\n';
      LineEndIs(s, |l|);
      assert s[..|l|] == l;
      assert s[|l| + 1..] == rest;
      SplitJoin(lines[1..]);
    }
  }

  lemma LineEndIs(s: string, k: nat)
    requires k < |s| && s[k] == '\n'
    requires forall j :: 0 <= j < k ==> s[j] != '\n'
    ensures LineEnd(s) == k
  {
  }

  /** With authors and texts free of newlines, the file has exactly two lines
      per message: the author of message `i` on line `2i` and its text on line
      `2i + 1`, in message order. */
  lemma TranscriptRoundTrip(messages: seq<NormalizedMessage>)
    requires forall i :: 0 <= i < |messages| ==> '\n' !in messages[i].author && '\n' !in messages[i].text
    ensures |SplitLines(TranscriptText(messages))| == 2 * |messages|
    ensures forall i :: 0 <= i < |messages| ==>
      && SplitLines(TranscriptText(messages))[2 * i] == messages[i].author
      && SplitLines(TranscriptText(messages))[2 * i + 1] == messages[i].text
  {
    TranscriptLinesWithoutNewline(messages);
    SplitJoin(TranscriptLines(messages));
  }

  lemma {:induction false} TranscriptLinesWithoutNewline(messages: seq<NormalizedMessage>)
    requires forall i :: 0 <= i < |messages| ==> '\n' !in messages[i].author && '\n' !in messages[i].text
    ensures forall k :: 0 <= k < |TranscriptLines(messages)| ==> '\n' !in TranscriptLines(messages)[k]
  {
    if messages != [] {
      TranscriptLinesWithoutNewline(messages[1..]);
      var rest := TranscriptLines(messages[1..]);
      var lines := TranscriptLines(messages);
      assert lines == [messages[0].author, messages[0].text] + rest;
      forall k | 2 <= k < |lines|
        ensures lines[k] == rest[k - 2]
      {
      }
    }
  }

  /** `write_messages_to_file`, with the file as the text it receives. */
  method WriteMessages(messages: seq<NormalizedMessage>) returns (content: string)
    ensures content == TranscriptText(messages)
  {
    content := "";
    for i := 0 to |messages|
      invariant content == TranscriptText(messages[..i])
    {
      var message := messages[i];
      assert messages[..i + 1] == messages[..i] + [message];
      TranscriptLinesAppend(messages[..i], [message]);
      JoinLinesAppend(TranscriptLines(messages[..i]), TranscriptLines([message]));
      assert JoinLines(TranscriptLines([message])) == message.author + "\n" + message.text + "\n";
      content := content + message.author + "\n";
      content := content + message.text + "\n";
    }
    assert messages[..|messages|] == messages;
  }

  lemma {:induction false} TranscriptLinesAppend(a: seq<NormalizedMessage>, b: seq<NormalizedMessage>)
    ensures TranscriptLines(a + b) == TranscriptLines(a) + TranscriptLines(b)
  {
    if a == [] {
      assert a + b == b;
    } else {
      assert (a + b)[1..] == a[1..] + b;
      TranscriptLinesAppend(a[1..], b);
    }
  }
}
