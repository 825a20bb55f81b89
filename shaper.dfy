/**
 * The record shaper: the two flat record lists built from the archive, one
 * conversation record per kept conversation and one message record per
 * message the walker returns for it. The source turns the two lists into
 * tables; here they stay sequences.
 */
module Shaper {
  import opened Wrappers
  import opened Archive
  import opened Walker

  datatype ConversationRecord = ConversationRecord(conversationId: string, title: string, createTime: int, updateTime: int)

  datatype MessageRecord = MessageRecord(conversationId: string, author: string, text: string, createTime: int, updateTime: int)

  /** `if not updated: continue`: an absent or zero `update_time` drops the conversation. */
  predicate Kept(c: Conversation) {
    c.updateTime.Some? && c.updateTime.value != 0
  }

  /** `conversation.get("id", "Unknown")`. */
  function ConversationId(c: Conversation): string {
    c.id.GetOr("Unknown")
  }

  /** The conversation record of a kept conversation; the title defaults to
      "Untitled" only when it is absent, so a present empty title stays empty. */
  function ConversationRow(c: Conversation): (r: ConversationRecord)
    requires Kept(c)
    ensures r.title == "Untitled" <==> c.title.None? || c.title == Some("Untitled")
    ensures r.conversationId == "Unknown" <==> c.id.None? || c.id == Some("Unknown")
    ensures c.title.Some? ==> r.title == c.title.value
    ensures c.title.None? ==> r.title == "Untitled"
    ensures c.id.Some? ==> r.conversationId == c.id.value
    ensures c.id.None? ==> r.conversationId == "Unknown"
    ensures r.createTime == c.createTime.GetOr(0)
    ensures r.updateTime == c.updateTime.value && r.updateTime != 0
  {
    ConversationRecord(ConversationId(c), c.title.GetOr("Untitled"), c.createTime.GetOr(0), c.updateTime.value)
  }

  /** The active transcript the walker produces for `c`. */
  function ConversationMessages(c: Conversation): seq<NormalizedMessage> {
    Walk(c.mapping, c.currentNode)
  }

  /** The walker's messages, each tagged with the conversation id. */
  function Tagged(id: string, messages: seq<NormalizedMessage>): seq<MessageRecord> {
    seq(|messages|, i requires 0 <= i < |messages| =>
      MessageRecord(id, messages[i].author, messages[i].text, messages[i].createTime, messages[i].updateTime))
  }

  /** What one conversation contributes to each list. */
  function OwnConversationRecords(c: Conversation): seq<ConversationRecord> {
    if Kept(c) then [ConversationRow(c)] else []
  }

  function OwnMessageRecords(c: Conversation): seq<MessageRecord> {
    if Kept(c) then Tagged(ConversationId(c), ConversationMessages(c)) else []
  }

  /** The conversation records of `convs`, in input order. */
  function ConversationRecords(convs: seq<Conversation>): seq<ConversationRecord> {
    if convs == [] then [] else OwnConversationRecords(convs[0]) + ConversationRecords(convs[1..])
  }

  /** The message records of `convs`, conversation by conversation. */
  function MessageRecords(convs: seq<Conversation>): seq<MessageRecord> {
    if convs == [] then [] else OwnMessageRecords(convs[0]) + MessageRecords(convs[1..])
  }

  /** Both record lists of a concatenation are the concatenations of the two
      parts' record lists: the shaper treats each conversation on its own and
      keeps their order. */
  lemma RecordsAppend(a: seq<Conversation>, b: seq<Conversation>)
    ensures ConversationRecords(a + b) == ConversationRecords(a) + ConversationRecords(b)
    ensures MessageRecords(a + b) == MessageRecords(a) + MessageRecords(b)
  {
    ConversationRecordsAppend(a, b);
    MessageRecordsAppend(a, b);
  }

  lemma {:induction false} ConversationRecordsAppend(a: seq<Conversation>, b: seq<Conversation>)
    ensures ConversationRecords(a + b) == ConversationRecords(a) + ConversationRecords(b)
  {
    if a == [] {
      assert a + b == b;
    } else {
      assert (a + b)[0] == a[0];
      assert (a + b)[1..] == a[1..] + b;
      ConversationRecordsAppend(a[1..], b);
    }
  }

  lemma {:induction false} MessageRecordsAppend(a: seq<Conversation>, b: seq<Conversation>)
    ensures MessageRecords(a + b) == MessageRecords(a) + MessageRecords(b)
  {
    if a == [] {
      assert a + b == b;
    } else {
      assert (a + b)[0] == a[0];
      assert (a + b)[1..] == a[1..] + b;
      MessageRecordsAppend(a[1..], b);
    }
  }

  /** What one conversation contributes, wherever it stands: nothing at all
      when its `update_time` is absent or zero; otherwise its record, after
      those of the conversations before it, and its walker output tagged with
      its id, after their messages and before those of the conversations after it. */
  lemma RecordsAround(a: seq<Conversation>, c: Conversation, b: seq<Conversation>)
    ensures !Kept(c) ==>
      && ConversationRecords(a + [c] + b) == ConversationRecords(a + b)
      && MessageRecords(a + [c] + b) == MessageRecords(a + b)
    ensures Kept(c) ==>
      && ConversationRecords(a + [c] + b) == ConversationRecords(a) + [ConversationRow(c)] + ConversationRecords(b)
      && MessageRecords(a + [c] + b) == MessageRecords(a) + Tagged(ConversationId(c), Walk(c.mapping, c.currentNode)) + MessageRecords(b)
  {
    ConversationRecordsAppend(a + [c], b);
    ConversationRecordsAppend(a, [c]);
    ConversationRecordsAppend(a, b);
    MessageRecordsAppend(a + [c], b);
    MessageRecordsAppend(a, [c]);
    MessageRecordsAppend(a, b);
    RecordsOfOne(c);
    if !Kept(c) {
      assert ConversationRecords(a + [c]) == ConversationRecords(a);
      assert MessageRecords(a + [c]) == MessageRecords(a);
    }
  }

  lemma RecordsOfOne(c: Conversation)
    ensures ConversationRecords([c]) == if Kept(c) then [ConversationRow(c)] else []
    ensures MessageRecords([c]) == if Kept(c) then Tagged(ConversationId(c), ConversationMessages(c)) else []
  {
    assert [c][1..] == [];
  }

  /** Every conversation record is the record of a kept input conversation. */
  lemma {:induction false} ConversationRecordsFromKept(convs: seq<Conversation>)
    ensures |ConversationRecords(convs)| <= |convs|
    ensures forall r :: r in ConversationRecords(convs) ==>
      exists i :: 0 <= i < |convs| && Kept(convs[i]) && r == ConversationRow(convs[i])
  {
    if convs != [] {
      ConversationRecordsFromKept(convs[1..]);
      forall r | r in ConversationRecords(convs)
        ensures exists i :: 0 <= i < |convs| && Kept(convs[i]) && r == ConversationRow(convs[i])
      {
        if r !in ConversationRecords(convs[1..]) {
          assert Kept(convs[0]) && r == ConversationRow(convs[0]);
        } else {
          var j :| 0 <= j < |convs[1..]| && Kept(convs[1..][j]) && r == ConversationRow(convs[1..][j]);
          assert convs[1..][j] == convs[j + 1];
        }
      }
    }
  }

  /** Every message record belongs to a kept input conversation: it carries
      that conversation's id and the author, text and timestamps of a message
      its walker returned. */
  lemma {:induction false} MessageRecordsFromKept(convs: seq<Conversation>)
    ensures forall r :: r in MessageRecords(convs) ==>
      exists i :: 0 <= i < |convs| && Kept(convs[i]) && r.conversationId == ConversationId(convs[i]) &&
                  NormalizedMessage(r.author, r.text, r.createTime, r.updateTime) in ConversationMessages(convs[i])
  {
    if convs != [] {
      MessageRecordsFromKept(convs[1..]);
      forall r | r in MessageRecords(convs)
        ensures exists i :: 0 <= i < |convs| && Kept(convs[i]) && r.conversationId == ConversationId(convs[i]) &&
                            NormalizedMessage(r.author, r.text, r.createTime, r.updateTime) in ConversationMessages(convs[i])
      {
        if r !in MessageRecords(convs[1..]) {
          var own := ConversationMessages(convs[0]);
          var tagged := Tagged(ConversationId(convs[0]), own);
          assert Kept(convs[0]) && r in tagged;
          var k :| 0 <= k < |tagged| && tagged[k] == r;
          assert NormalizedMessage(r.author, r.text, r.createTime, r.updateTime) == own[k];
        } else {
          var j :| 0 <= j < |convs[1..]| && Kept(convs[1..][j]) && r.conversationId == ConversationId(convs[1..][j]) &&
            NormalizedMessage(r.author, r.text, r.createTime, r.updateTime) in ConversationMessages(convs[1..][j]);
          assert convs[1..][j] == convs[j + 1];
        }
      }
    }
  }

  lemma Extend(convs: seq<Conversation>, i: nat)
    requires i < |convs|
    ensures ConversationRecords(convs[..i + 1]) == ConversationRecords(convs[..i]) + OwnConversationRecords(convs[i])
    ensures MessageRecords(convs[..i + 1]) == MessageRecords(convs[..i]) + OwnMessageRecords(convs[i])
  {
    assert convs[..i + 1] == convs[..i] + [convs[i]];
    RecordsAppend(convs[..i], [convs[i]]);
    RecordsOfOne(convs[i]);
  }

  lemma TaggedSnoc(id: string, messages: seq<NormalizedMessage>, j: nat)
    requires j < |messages|
    ensures Tagged(id, messages[..j + 1]) == Tagged(id, messages[..j]) +
      [MessageRecord(id, messages[j].author, messages[j].text, messages[j].createTime, messages[j].updateTime)]
  {
  }

  /** `extract_conversations_to_df`, up to the building of the two tables. */
  method ExtractConversations(convs: seq<Conversation>)
    returns (conversationRecords: seq<ConversationRecord>, messageRecords: seq<MessageRecord>)
    requires forall i :: 0 <= i < |convs| && Kept(convs[i]) ==>
      Halts(convs[i].mapping, convs[i].currentNode, Budget(convs[i].mapping))
    ensures conversationRecords == ConversationRecords(convs)
    ensures messageRecords == MessageRecords(convs)
  {
    conversationRecords, messageRecords := [], [];
    for i := 0 to |convs|
      invariant conversationRecords == ConversationRecords(convs[..i])
      invariant messageRecords == MessageRecords(convs[..i])
    {
      var conversation := convs[i];
      Extend(convs, i);
      var updated := conversation.updateTime;
      if updated.None? || updated.value == 0 {
        continue;
      }
      var title := conversation.title.GetOr("Untitled");
      var id := conversation.id.GetOr("Unknown");
      conversationRecords := conversationRecords + [ConversationRecord(id, title, conversation.createTime.GetOr(0), updated.value)];
      var messages := GetConversationMessages(conversation);
      ghost var done := messageRecords;
      for j := 0 to |messages|
        invariant messageRecords == done + Tagged(id, messages[..j])
      {
        var message := messages[j];
        TaggedSnoc(id, messages, j);
        messageRecords := messageRecords + [MessageRecord(id, message.author, message.text, message.createTime, message.updateTime)];
      }
      assert messages[..|messages|] == messages;
    }
    assert convs[..|convs|] == convs;
  }
}
