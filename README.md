# ChatGPT archive parser — a Dafny model of its core

The ChatGPT archive parser reads an exported ChatGPT archive. The archive is a
JSON list of conversations, and each conversation holds a message graph: a
mapping from node ids to nodes, where each node has an optional message and
a `parent` id. The parser turns the archive into one plain-text transcript
per conversation and two record lists (conversations, messages).

This project models the core of `ChatGPT-archive-parser.py`:

- `archive.dfy`, module `Archive`: the input objects as datatypes. A key that
  may be missing is an `Option`. Timestamps are opaque integers.
- `messages.dfy`, module `Messages`: `extract_message_parts`,
  `get_author_name` and the inclusion test.
- `walker.dfy`, module `Walker`: `get_conversation_messages`. It is a method
  with the source's `while` loop, which builds the list leaf first and then
  reverses it. It is proved equal to `Walk`, a recursive root-first
  definition. Lemmas then prove the order, the boundaries, where each message
  comes from, that abandoned branches are ignored, and termination.
- `shaper.dfy`, module `Shaper`: `extract_conversations_to_df`, up to the two
  record lists. It is a method with the source's loops, proved equal to
  recursive definitions of both lists.
- `naming.dfy`, module `Naming`: `sanitize_title`, the `%Y_%m_%d` and `%Y_%m`
  date stamps, and `create_file_name`, with a parser for file names as its
  inverse.
- `transcript.dfy`, module `Transcript`: the text `write_messages_to_file`
  writes. It is a method with the source's loop, proved equal to a function.
  The function's lines are read back by a line splitter.
- `scenarios.dfy`, module `Scenarios`: concrete archives and what the
  model proves about them.

Termination of the walk. The program's loop follows `parent` links until the
current id is absent or empty. On a parent chain that returns to a node it has
already visited, the loop never ends. The walk is therefore defined with a
step budget. `GetConversationMessages` requires the walk to stop within
`|mapping| + 1` steps. `Walker.HaltsWithinMappingSize` proves that every walk
that stops at all stops within that bound. So the precondition excludes only
the chains on which the program itself would loop forever
(`Scenarios.LoopingChainNeverHalts` is one of them).

System messages. The parser's design drops a "system" message unless its
metadata flags it as user-originated. The code does something else. At line
80 it compares the display name, which `get_author_name` has already mapped
from "system" to "Custom user info". So the comparison is
never true, and no message is ever dropped for its role. The model follows
the code: `Messages.QualifiesIffFirstTextPart` and
`Messages.SystemMessageFlagIgnored` state this behaviour.

## Model

| member | source | states |
|---|---|---|
| `Messages.AuthorName` | ChatGPT-archive-parser.py:47-51 | "assistant" is displayed as "ChatGPT" and "system" as "Custom user info". Every other role, including `""` for a missing author or role, passes through unchanged. |
| `Messages.AuthorNameNeverSystem` | ChatGPT-archive-parser.py:47-51 | No role is ever displayed as "system". |
| `Messages.QualifiesIffFirstTextPart` | ChatGPT-archive-parser.py:79-81 | A message passes the walker's test exactly when its content has type "text" and its first part is non-empty. Neither its role nor its metadata flag plays any part. |
| `Messages.SystemMessageFlagIgnored` | ChatGPT-archive-parser.py:77-81 | For a "system" message, setting or clearing the user-system flag changes neither inclusion nor the display name "Custom user info". |
| `Messages.ExtractMessageParts` | ChatGPT-archive-parser.py:31-34 | Parts come back only from content of type "text", and for such content they are exactly its `parts`. |
| `Messages.Normalize` | ChatGPT-archive-parser.py:83-91 | The record of a qualifying message has the display author (never "system"), the non-empty first text part, and the message's create and update times, 0 when absent. |
| `Walker.RecordedIff` | ChatGPT-archive-parser.py:69-90 | A visited id records a message exactly when it is in the mapping, its node has a message, and that message's first text part (from `extract_message_parts`) is non-empty. The record's text is that first part, its author is the display name, and its times are the message's `create_time` and `update_time`, 0 when absent. |
| `Walker.Reverse` | ChatGPT-archive-parser.py:95 | `[::-1]`: same length, with element `i` taken from position `len - 1 - i`. |
| `Walker.GetConversationMessages` | ChatGPT-archive-parser.py:55-95 | The loop's leaf-first list, once reversed, is exactly the root-first walk `Walk(mapping, current_node)`. |
| `Walker.WalkBoundaries` | ChatGPT-archive-parser.py:65-74 | An absent or empty `current_node` yields no messages. A `current_node` missing from the mapping yields none, and the walk visits only that one id. |
| `Walker.WalkStep` | ChatGPT-archive-parser.py:68-93 | For a terminating walk, the output from a node is the output from its parent, followed by that node's own message if it records one. A node with no message, or with a message that does not qualify, adds nothing, and the walk goes on to its parent. |
| `Walker.WalkFromChain` | ChatGPT-archive-parser.py:64-95 | Every output message is recorded at a node on the parent chain from `current_node`. The output has at most as many messages as the chain has nodes. |
| `Walker.OffChainIgnored` | ChatGPT-archive-parser.py:68-93 | The chain, the output and termination depend only on the mapping's entries at ids on the chain. |
| `Walker.AbandonedBranchIgnored` | ChatGPT-archive-parser.py:68-93 | Adding or replacing a node that is not on the chain (an abandoned branch) leaves the output unchanged. The walk still terminates. |
| `Walker.CycleNeverHalts` | ChatGPT-archive-parser.py:68-93 | A walk that comes back to the id it started from never stops, whatever the budget. |
| `Walker.HaltsShift` | ChatGPT-archive-parser.py:68-93 | Wherever a stopping walk has got to, the walk from there stops within the same budget. |
| `Walker.RevisitNeverHalts` | ChatGPT-archive-parser.py:68-93 | A walk that comes back to any id it has visited never stops, whatever the budget. |
| `Walker.HaltsWithinMappingSize` | ChatGPT-archive-parser.py:68-93 | A walk that stops within any number of steps stops within `len(mapping) + 1` steps. |
| `Shaper.ConversationRow` | ChatGPT-archive-parser.py:149-157 | A present title or id is copied into the record, even when empty. An absent title becomes "Untitled" and an absent id "Unknown", so the record shows the default only when the key is absent or holds the default itself. The create time is the conversation's `create_time`, 0 when absent. The update time is its non-zero `update_time`. |
| `Shaper.RecordsAppend` | ChatGPT-archive-parser.py:139-168 | Both record lists of a concatenation of conversations are the concatenations of the parts' lists, so order is kept and each conversation is handled on its own. |
| `Shaper.RecordsAround` | ChatGPT-archive-parser.py:143-168 | A conversation with an absent or zero `update_time` contributes nothing to either list. A kept conversation contributes its record, placed between those of its neighbours. It also contributes its walker output, tagged with its id and in walker order, placed between its neighbours' messages. |
| `Shaper.ConversationRecordsFromKept` | ChatGPT-archive-parser.py:143-157 | Every conversation record is the record of a kept input conversation. There are no more records than conversations. |
| `Shaper.MessageRecordsFromKept` | ChatGPT-archive-parser.py:159-168 | Every message record carries the id of a kept conversation and the fields of a message its walk returned. |
| `Shaper.ExtractConversations` | ChatGPT-archive-parser.py:139-173 | The loops build exactly the two record lists above. |
| `Naming.ReplaceAll` | ChatGPT-archive-parser.py:109 | The substitution is one-for-one. Each character of `< > : " / \ \| ? *`, U+0000–U+001F and Python's whitespace becomes `_`. Every other character stays. |
| `Naming.ReplaceAndTruncate` | ChatGPT-archive-parser.py:109-110 | The output has length min(len, 140), is the replaced input's prefix, and contains none of the replaced characters. |
| `Naming.SanitizeTitle` | ChatGPT-archive-parser.py:107-110 | The sanitised title has length min(len(normalised title), 140) and contains none of the replaced characters. |
| `Naming.ReplaceAndTruncateIdempotent` | ChatGPT-archive-parser.py:109-110 | Replacing and truncating twice is the same as doing it once. |
| `Naming.SanitizeTitleIdempotent` | ChatGPT-archive-parser.py:107-110 | Sanitising a sanitised title gives it back, whenever normalisation leaves that title as it is. |
| `Naming.PadDecimal` | ChatGPT-archive-parser.py:126 | The zero-padded number has exactly `width` characters, all of them digits, and they denote the number. |
| `Naming.DateStamp` | ChatGPT-archive-parser.py:126 | `%Y_%m_%d` is ten characters long, with underscores at positions 4 and 7. The four digits before the first underscore denote the year, the next two the month, and the last two the day. |
| `Naming.MonthDirectoryName` | ChatGPT-archive-parser.py:100 | `%Y_%m` is seven characters long: four digits that denote the year, an underscore, and two digits that denote the month. |
| `Naming.CreateFileName` | ChatGPT-archive-parser.py:114-127 | The file name is 15 characters longer than the sanitised title, and so at most 155 characters long. |
| `Naming.FileNameSlices` | ChatGPT-archive-parser.py:126 | A name of the form `YYYY_MM_DD_<title>.txt` has its year, month, day, separators, title and `.txt` suffix at fixed positions. |
| `Naming.FileNameRoundTrip` | ChatGPT-archive-parser.py:125-127 | Parsing a file name gives back the date and the sanitised title it was built from. |
| `Naming.FileNameCollision` | ChatGPT-archive-parser.py:125-127 | Two file names are equal exactly when the dates are equal and the sanitised titles are equal. |
| `Naming.FileNameInMonthDirectory` | ChatGPT-archive-parser.py:99-127 | A file name begins with the name of its month's directory. |
| `Transcript.TranscriptLines` | ChatGPT-archive-parser.py:133-135 | There are two lines per message: line `2i` is the author of message `i` and line `2i + 1` is its text. |
| `Transcript.SplitJoin` | ChatGPT-archive-parser.py:133-135 | Splitting newline-terminated lines that contain no newline gives the lines back. |
| `Transcript.TranscriptRoundTrip` | ChatGPT-archive-parser.py:131-135 | When no author or text contains a newline, the file splits into exactly 2N lines, author then text, in message order. |
| `Transcript.WriteMessages` | ChatGPT-archive-parser.py:131-135 | The loop's output is exactly the transcript text. |
| `Scenarios.TwoMessageTranscript` | ChatGPT-archive-parser.py:55-135 | User "hi" under assistant "hello", with `current_node` at the reply, renders as `user\nhi\nChatGPT\nhello\n`. |
| `Scenarios.AbandonedBranchAndSystemMessage` | ChatGPT-archive-parser.py:47-95 | A regenerated reply replaces the abandoned one in the output. An unflagged "system" root message is still recorded, as "Custom user info". |
| `Scenarios.LoopingChainNeverHalts` | ChatGPT-archive-parser.py:68-74 | Two nodes that are each other's parent make a walk that never stops. |

## Left out

- `load_json` (lines 11-18): file I/O and JSON parsing. The model starts from parsed datatypes.
- `save_to_database` (lines 177-202): the SQLAlchemy and pandas table writes are foreign library calls.
- `process_conversations` and `run_process` (lines 206-254), and the module-level call at line 259: orchestration, printing and a catch-all `except`. They also call `save_conversation_files`, which the file does not define. `save_conversation_files` is not part of this model.
- The two pandas DataFrames (lines 170-171): the model keeps the two record lists as sequences.
- `datetime.fromtimestamp` (lines 89-90, 148, 155): it depends on the local time zone and accepts floats. Timestamps are kept as the integers read from the archive, with 0 for a missing one. The file-name date is a `Naming.Date` value. The `else` branch at line 148 cannot run and is not modelled.
- `unicodedata.normalize("NFKC", ...)` (line 108): it needs the Unicode tables. It is the parameter `nfkc` of `SanitizeTitle` and `CreateFileName`.
- `mkdir` (line 102), joining the directory path (line 127) and the `open`/`write` calls (lines 132-135) are I/O. The model computes the directory name, the file name and the file content.
- `Naming.DateStamp`: it pads the year to four digits. Some platforms' `strftime` writes years below 1000 without padding. The month's actual number of days is not checked: any day from 1 to 31 is accepted.
- JSON values of unexpected types are not modelled: a null `title` (recorded as `None`), a null `author` (raises), non-string roles or parts, and float timestamps.
- Null values where the program does not treat null like absence are not modelled. A message's `create_time` or `update_time` that is present but null makes `datetime.fromtimestamp(None)` raise at lines 89-90 for a recorded message. A conversation's null `create_time` raises the same way at line 155. A conversation's null `id` is recorded as `None` at lines 153 and 163. In the model, `None` always means that the key is absent, so these inputs have no counterpart. An empty `message` object is treated as an absent one, and a null `parts` as no parts; the program behaves the same either way.
- `Walker.GetConversationMessages`: it requires the walk to terminate. On a parent chain that loops, the program runs forever. That behaviour is shown by `Walker.CycleNeverHalts` and is not modelled as a run.
