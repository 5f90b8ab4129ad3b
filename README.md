# Slack thread to Gemini contents: a Dafny model

This project models the core of a Slack bot that answers mentions with a
Gemini model. When the bot is mentioned, its handler picks the thread to answer
in. It fetches that thread's messages and turns each message into one
role-tagged content block. It calls the model once and posts the reply (or an
error text) back into the thread.

The modelled code is `app/main.py`:

- `_build_contents_from_thread` (the assembly). Each fetched message gets the
  role `"model"` if it has a truthy `bot_id` and `"user"` otherwise. Its parts
  are its text, when that is non-empty, followed by one byte part per attached
  file whose MIME type starts with `image/` and whose `url_private_download` is
  non-empty. A message becomes a block only when it has at least one part. If
  any of these downloads fails, the whole assembly fails.
- The thread-anchor choice `event.get("thread_ts") or event["ts"]`.
- The `"Error from Gemini: "` fallback used when the generation call raises.

Files:

- `wrappers.dfy`: `Option` (for absent dictionary keys) and `Result` (a value
  or the text of the exception that stopped the computation).
- `assembly.dfy`: the message, file, part and content datatypes, the
  specification functions `FileParts`, `MessageParts` and `BuildContents`, and
  the imperative loops `CollectParts` and `BuildContentsFromThread`, each proved
  equal to its specification function. It also holds `Selected`, the increasing
  list of indices of the elements that pass a filter, used to state order
  preservation, and `FirstFailure`, a reference definition of the error that
  aborts a sequence of downloads.
- `assembly_properties.dfy`: the lemmas. They cover the shape of a message's
  parts, the one-to-one and in-order link between blocks and the messages that
  yield parts, non-empty blocks, all-or-nothing failure with the first download
  error, and that only accepted URLs are downloaded.
- `mention.dfy`: `ThreadAnchor`, `ReplyText` and the handler `HandleMention`.

Python truthiness is modelled explicitly. `Truthy(o)` holds when the optional
string is present and not empty. A missing `mimetype` key reads as `""`. A
missing `files` key is the empty file list.

The lemma `NothingToSay` shows three cases. An empty content list gets no
placeholder. PDF and JSON attachments are dropped. A file without a MIME type
is dropped.

## Model

| member | source | states |
|---|---|---|
| Assembly.MimeType | app/main.py:39 | Reference definition of a file's MIME type: the `mimetype` value when the key is present, and `""` when it is absent. |
| Assembly.Accepted | app/main.py:40-42 | Reference definition of an accepted file: its MIME type starts with `image/` and its `url_private_download` is present and non-empty. |
| Assembly.RoleOf | app/main.py:33 | Reference definition of a message's role: `Model` exactly when its `bot_id` is present and non-empty, `User` otherwise. |
| Assembly.Yields | app/main.py:46 | Reference definition of a message that gets a block: its text is non-empty or at least one of its files is accepted. |
| Assembly.FileParts | app/main.py:38-45 | Reference definition of a file list's parts: one `Bytes(body, MIME type)` per accepted file in list order, or the error of the first failing download. |
| Assembly.MessageParts | app/main.py:34-45 | Reference definition of a message's parts: its text part, when the text is non-empty, followed by its file parts, or the file parts' error. |
| Assembly.BuildContents | app/main.py:30-48 | Reference definition of the assembly: one block per message with a non-empty part list, in thread order, tagged with `RoleOf` that message, or the first download error. |
| Assembly.BuildContentsFromThread | app/main.py:27-48 | The loop over the fetched messages returns exactly `BuildContents(messages, download)`. It appends a block only when the message's part list is non-empty. The first failing download aborts it with that download's error, and no partial list is returned. |
| Assembly.CollectParts | app/main.py:33-45 | The per-message loop returns exactly `MessageParts(msg, download)`. The text part, if any, is appended first. Then one byte part is appended per file whose MIME type (default `""`) starts with `image/` and whose download URL is non-empty. A failing download stops it. |
| Assembly.Selected | app/main.py:32 | The indices of the elements that pass the filter, strictly increasing, in range, and each one passing. `SelectedComplete` adds that every passing index is included. This is the order-preserving subsequence used to state that no block is reordered. |
| Assembly.FirstFailure | app/main.py:43-44 | The error of the first failing download in the given order. It is `None` exactly when every download succeeds. Otherwise it is the error at some position before which every download succeeded. |
| AssemblyProperties.FilePartsShape | app/main.py:38-45 | A successful file list gives exactly one part per accepted file, in file-list order. That part is `Bytes(downloaded body, the file's own MIME type)`. Every such part is a byte part whose MIME type starts with `image/`. |
| AssemblyProperties.MessagePartsShape | app/main.py:35-45 | A message's part count is 1 (if its text is truthy) plus the number of accepted files. When the text is truthy, the first part is `Text` of that exact text. No other part is a text part. The image parts follow in the order of the file list. |
| AssemblyProperties.MessagePartsNonEmpty | app/main.py:35-46 | A message has at least one part exactly when its text is non-empty or it has an accepted image file. |
| AssemblyProperties.BuildContentsShape | app/main.py:32-47 | A successful assembly has one block per yielding message, in thread order: block k belongs to the k-th yielding message, indexed through `Selected`. Its role is `RoleOf` that message, and its parts are that message's parts. |
| AssemblyProperties.BlocksNonEmpty | app/main.py:33-47 | Every output block has a non-empty part list. There are no more blocks than messages. A block's role string is `"model"` exactly when its message has a truthy `bot_id`, and `"user"` exactly when it does not. |
| AssemblyProperties.YieldingMessageHasBlock | app/main.py:46-47 | A message with text or an accepted image always gets a block. That block has the message's role and parts. |
| AssemblyProperties.FilePartsFailure | app/main.py:38-45 | A message's file list fails exactly when one of its accepted downloads fails. It fails with the error of the first such download. |
| AssemblyProperties.BuildContentsFailure | app/main.py:31-48 | All or nothing: the assembly fails exactly when some accepted download in the thread fails. It fails with the error of the first such download, in message order and then file order. Otherwise every download succeeded. |
| AssemblyProperties.FirstFailureAppend | app/main.py:32-44 | The first failure of a concatenation of URL lists is the first failure of the first list if it has one, otherwise the first failure of the second list. |
| AssemblyProperties.FilePartsDownloadsOnlyAccepted | app/main.py:38-43 | The parts of a file list depend only on the download results for its accepted URLs. |
| AssemblyProperties.DownloadsOnlyAccepted | app/main.py:32-43 | The assembly depends only on the download results for the thread's accepted image URLs. Non-image files and files without a URL are never fetched. |
| AssemblyProperties.NothingToSay | app/main.py:35-47 | Example: empty or missing text, PDF and JSON attachments, and a file without a MIME type all give an empty content list, with no placeholder block. |
| AssemblyProperties.ImageWithAndWithoutUrl | app/main.py:33-47 | Example: a bot message with text, an image with an empty URL, an image with no URL key and an image with a URL gives one `Model` block. Its parts are `[Text, Bytes(body, "image/png")]`. |
| Mention.ThreadAnchor | app/main.py:54 | The anchor is `thread_ts` when it is present and non-empty, and `ts` otherwise. |
| Mention.AnchorStable | app/main.py:54 | A later mention inside the thread that a reply went to resolves to the same anchor. |
| Mention.ReplyText | app/main.py:63-67 | A successful generation gives exactly its text. A failed generation gives `"Error from Gemini: "` followed by exactly the error text: the prefix is the first 19 characters and the error is the rest. |
| Mention.ErrorReplyInjective | app/main.py:67 | Two failed generations whose error replies are equal had the same error text, so the posted reply determines the error. |
| Mention.HandleMention | app/main.py:51-69 | The thread is fetched at `ThreadAnchor(e)` and assembled. If an attachment download fails, the handler ends with that error and posts nothing. Otherwise it posts exactly one reply into the anchor thread of the mention's own channel. The reply text is `ReplyText` of the generation outcome, so a failed generation still posts the error reply. |

## Left out

- The Slack `conversations_replies` call and its `limit=50` page cap (app/main.py:29): foreign SDK calls. The thread history is the parameter `replies(channel, anchor)`, which stands for the first page of at most 50 messages that the code reads; the code reads only `history["messages"]` and never follows a cursor to later pages.
- The `say` call (app/main.py:69): a foreign SDK call. The posted message is `HandleMention`'s result `Reply(channel, threadTs, text)`.
- The httpx client, the bearer-token header and the HTTP status check (app/main.py:31, 43-44): network I/O. They are the oracle `download: string -> Result<bytes, error>`, which is a function, so fetching the same URL twice is assumed to give the same answer.
- The `genai.Client` / `generate_content` call and `asyncio.to_thread` (app/main.py:58-64): a foreign model backend and thread offload. They are the oracle `generate(contents)`, which returns either the response text or the error text. The `logger.exception` log line is not modelled.
- ReplyText: does not model a response whose `text` is `None`; the model's `Generated` always carries a string.
- Assembly.MimeType: does not model a `mimetype` key whose value is `null` (the code would raise on `.startswith`). `None` in the model means the key is absent. Likewise, a `files` or `text` value of the wrong type is not modelled.
- The FastAPI routes, the health endpoint, the Bolt handler wiring, environment loading and uvicorn startup (app/main.py:13-25, 71-81): HTTP plumbing and configuration.
- Retry suppression, the challenge handshake, the workspace allow-list, timestamp sorting, mention stripping, non-image attachments and the empty-thread placeholder: the code does not implement them.
