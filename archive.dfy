/**
 * The shape of an exported conversation archive, as far as the parser reads it.
 * Each datatype is one kind of JSON object; a key the parser reads with `.get`
 * and that may be missing is an `Option`, whose `None` means that the key is
 * absent. A key present with a null value has no counterpart here, except
 * where the program treats null like absence (`message`, `content`, `parts`,
 * `parent`, `current_node`, `update_time`).
 */
module Archive {
  import opened Wrappers

  /** The key of a node in a conversation's `mapping`. */
  type NodeId = string

  /** A message's `content` object: its `content_type` and its `parts`
      (an absent or null `parts` reads as no parts). */
  datatype Content = Content(contentType: Option<string>, parts: seq<string>)

  /** A message payload. `role` is `author.role`, `None` when either key is
      missing; `content` is `None` when the key is missing, null or `{}`;
      `isUserSystemMessage` is `metadata.is_user_system_message`, false when
      missing. Timestamps are epoch seconds, kept as opaque integers. */
  datatype Message = Message(
    role: Option<string>,
    content: Option<Content>,
    createTime: Option<int>,
    updateTime: Option<int>,
    isUserSystemMessage: bool)

  /** A node of the message graph: an optional payload (an absent, null or empty
      `message`) and an optional `parent` id (absent or null). */
  datatype Node = Node(message: Option<Message>, parent: Option<NodeId>)

  /** One conversation of the archive. `currentNode` is the leaf of the selected
      branch; an absent `mapping` is the empty map. */
  datatype Conversation = Conversation(
    id: Option<string>,
    title: Option<string>,
    createTime: Option<int>,
    updateTime: Option<int>,
    currentNode: Option<NodeId>,
    mapping: map<NodeId, Node>)

  /** A message as the walker records it: display author, first text part and
      the two timestamps (0 when absent). */
  datatype NormalizedMessage = NormalizedMessage(author: string, text: string, createTime: int, updateTime: int)
}
