/**
 * The message filter and normaliser: which text a message carries, under which
 * display name it appears, and whether the walker records it.
 */
module Messages {
  import opened Wrappers
  import opened Archive

  /** The parts of a message whose content is of type "text"; none otherwise. */
  function ExtractMessageParts(msg: Message): (parts: seq<string>)
    ensures parts != [] ==> msg.content.Some? && msg.content.value.contentType == Some("text")
    ensures msg.content.Some? && msg.content.value.contentType == Some("text") ==> parts == msg.content.value.parts
  {
    match msg.content
    case Some(c) => if c.contentType == Some("text") then c.parts else []
    case None => []
  }

  /** The raw role, `""` when the author or its role is missing. */
  function Role(msg: Message): string {
    msg.role.GetOr("")
  }

  /** The display name: a fixed two-entry table with pass-through default. */
  function AuthorName(msg: Message): (name: string)
    ensures Role(msg) == "assistant" ==> name == "ChatGPT"
    ensures Role(msg) == "system" ==> name == "Custom user info"
    ensures Role(msg) != "assistant" && Role(msg) != "system" ==> name == Role(msg)
  {
    var role := Role(msg);
    if role == "assistant" then "ChatGPT"
    else if role == "system" then "Custom user info"
    else role
  }

  /** The display name is never the raw role "system", whatever the role. */
  lemma AuthorNameNeverSystem(msg: Message)
    ensures AuthorName(msg) != "system"
  {
  }

  /** The inclusion test as the walker writes it: a non-empty first part, and
      a display author other than "system" or a user-system flag. */
  predicate Qualifies(msg: Message) {
    var parts := ExtractMessageParts(msg);
    |parts| > 0 && parts[0] != "" && (AuthorName(msg) != "system" || msg.isUserSystemMessage)
  }

  /** Because the test compares the mapped name, neither the role nor the
      metadata flag ever decides inclusion: only a non-empty first text part does. */
  lemma QualifiesIffFirstTextPart(msg: Message)
    ensures Qualifies(msg) <==>
      && msg.content.Some?
      && msg.content.value.contentType == Some("text")
      && |msg.content.value.parts| > 0
      && msg.content.value.parts[0] != ""
  {
    AuthorNameNeverSystem(msg);
  }

  /** A "system" message is included or not independently of its flag, and
      is displayed as "Custom user info" either way. */
  lemma SystemMessageFlagIgnored(msg: Message, flag: bool)
    requires msg.role == Some("system")
    ensures Qualifies(msg) <==> Qualifies(msg.(isUserSystemMessage := flag))
    ensures AuthorName(msg.(isUserSystemMessage := flag)) == "Custom user info"
  {
    QualifiesIffFirstTextPart(msg);
    QualifiesIffFirstTextPart(msg.(isUserSystemMessage := flag));
  }

  /** The record the walker appends for a qualifying message. */
  function Normalize(msg: Message): (r: NormalizedMessage)
    requires Qualifies(msg)
    ensures r.author == AuthorName(msg) && r.author != "system"
    ensures r.text == msg.content.value.parts[0] && r.text != ""
    ensures r.createTime == msg.createTime.GetOr(0) && r.updateTime == msg.updateTime.GetOr(0)
  {
    NormalizedMessage(AuthorName(msg), ExtractMessageParts(msg)[0], msg.createTime.GetOr(0), msg.updateTime.GetOr(0))
  }
}
