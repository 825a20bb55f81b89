/**
 * Concrete archives and what the model proves about them: a two-message conversation, an
 * edited conversation with an abandoned branch, a "system" message without
 * the user-system flag, and a parent chain that loops.
 */
module Scenarios {
  import opened Wrappers
  import opened Archive
  import opened Messages
  import opened Walker
  import opened Transcript

  function TextMessage(role: string, text: string): Message {
    Message(Some(role), Some(Content(Some("text"), [text])), None, None, false)
  }

  function TwoMessageMapping(): map<NodeId, Node> {
    map["A" := Node(Some(TextMessage("user", "hi")), None),
        "B" := Node(Some(TextMessage("assistant", "hello")), Some("A"))]
  }

  /** User "hi" at A, the assistant's "hello" at B below it, `current_node` B:
      the transcript reads `user\nhi\nChatGPT\nhello\n`. */
  lemma TwoMessageTranscript()
    ensures TranscriptText(Walk(TwoMessageMapping(), Some("B"))) == "user\nhi\nChatGPT\nhello\n"
  {
    var w := TwoMessageWalk();
    TwoMessageText(w);
  }

  lemma TwoMessageText(w: seq<NormalizedMessage>)
    requires w == [NormalizedMessage("user", "hi", 0, 0), NormalizedMessage("ChatGPT", "hello", 0, 0)]
    ensures TranscriptText(w) == "user\nhi\nChatGPT\nhello\n"
  {
    var lines := ["user", "hi", "ChatGPT", "hello"];
    assert TranscriptLines(w[1..]) == lines[2..];
    assert TranscriptLines(w) == lines;
    JoinLinesAppend(lines[..2], lines[2..]);
    assert lines[..2] + lines[2..] == lines;
    assert JoinLines(lines[2..]) == "ChatGPT\nhello\n";
    assert JoinLines(lines[..2]) == "user\nhi\n";
  }

  lemma TwoMessageWalk() returns (w: seq<NormalizedMessage>)
    ensures w == [NormalizedMessage("user", "hi", 0, 0), NormalizedMessage("ChatGPT", "hello", 0, 0)]
    ensures Walk(TwoMessageMapping(), Some("B")) == w
  {
    var m := TwoMessageMapping();
    assert Halts(m, Some("B"), 2);
    HaltsWithinMappingSize(m, Some("B"), 2);
    WalkStep(m, "B");
    WalkStep(m, "A");
    w := [NormalizedMessage("user", "hi", 0, 0), NormalizedMessage("ChatGPT", "hello", 0, 0)];
  }

  function EditedMapping(): map<NodeId, Node> {
    map["S" := Node(Some(TextMessage("system", "be brief")), None),
        "A" := Node(Some(TextMessage("user", "q")), Some("S")),
        "B" := Node(Some(TextMessage("assistant", "old")), Some("A")),
        "C" := Node(Some(TextMessage("assistant", "new")), Some("A"))]
  }

  /** A regenerated reply: B and C both answer A, `current_node` is C, so the
      abandoned reply B does not appear; and a "system" message at the root,
      without the user-system flag, is still recorded, as "Custom user info". */
  lemma AbandonedBranchAndSystemMessage()
    ensures Walk(EditedMapping(), Some("C")) == [NormalizedMessage("Custom user info", "be brief", 0, 0),
                                                NormalizedMessage("user", "q", 0, 0),
                                                NormalizedMessage("ChatGPT", "new", 0, 0)]
  {
    var m := EditedMapping();
    assert Halts(m, Some("S"), 1);
    assert Halts(m, Some("A"), 2);
    assert Halts(m, Some("C"), 3);
    HaltsWithinMappingSize(m, Some("C"), 3);
    WalkStep(m, "C");
    WalkStep(m, "A");
    WalkStep(m, "S");
    var s := Walk(m, Some("S"));
    assert s == [NormalizedMessage("Custom user info", "be brief", 0, 0)];
    assert Walk(m, Some("A")) == s + [NormalizedMessage("user", "q", 0, 0)];
  }

  /** Two nodes that are each other's parent: the program's loop would never
      end, and no step budget is enough for the walk to stop. */
  lemma LoopingChainNeverHalts(n: nat)
    ensures var m := map["X" := Node(None, Some("Y")), "Y" := Node(None, Some("X"))];
            !Halts(m, Some("X"), n)
  {
    var m := map["X" := Node(None, Some("Y")), "Y" := Node(None, Some("X"))];
    assert Pos(m, Some("X"), 2) == Some("X");
    CycleNeverHalts(m, Some("X"), 2, n);
  }
}
