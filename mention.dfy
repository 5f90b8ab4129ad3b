/** The mention handler: where the reply goes, how the model's answer or failure
    becomes the reply text, and the handler's sequence of steps. */
module Mention {
  import opened Wrappers
  import opened Assembly

  /** The fields of an `app_mention` event that the handler reads. `threadTs` is
      absent when the mention is not inside a thread. */
  datatype MentionEvent = MentionEvent(channel: string, ts: string, threadTs: Option<string>)

  /** What the generation call gives back: the response text, or the text of the
      exception it raised. */
  datatype Generation = Generated(text: string) | GenerationFailed(error: string)

  /** A message posted into a thread of a channel. */
  datatype Reply = Reply(channel: string, threadTs: string, text: string)

  const ErrorPrefix: string := "Error from Gemini: "

  /** The thread the handler reads and replies in: the event's thread when it has a
      non-empty one, otherwise the mention itself starts the thread. */
  function ThreadAnchor(e: MentionEvent): (anchor: string)
    ensures Truthy(e.threadTs) ==> anchor == e.threadTs.value
    ensures !Truthy(e.threadTs) ==> anchor == e.ts
  {
    if Truthy(e.threadTs) then e.threadTs.value else e.ts
  }

  /** The reply text: the model's text, or the fixed error prefix followed by the error. */
  function ReplyText(g: Generation): (text: string)
    ensures g.Generated? ==> text == g.text
    ensures g.GenerationFailed? ==> |text| == |ErrorPrefix| + |g.error|
    ensures g.GenerationFailed? ==> text[..|ErrorPrefix|] == ErrorPrefix && text[|ErrorPrefix|..] == g.error
  {
    match g
    case Generated(t) => t
    case GenerationFailed(e) => ErrorPrefix + e
  }

  /** A mention inside the thread that a reply went to is answered in that same thread. */
  lemma AnchorStable(e: MentionEvent, later: MentionEvent)
    requires e.ts != ""
    requires later.threadTs == Some(ThreadAnchor(e))
    ensures ThreadAnchor(later) == ThreadAnchor(e)
  {
  }

  /** Different errors give different error replies, so the posted reply determines
      the error text. */
  lemma ErrorReplyInjective(a: string, b: string)
    requires ReplyText(GenerationFailed(a)) == ReplyText(GenerationFailed(b))
    ensures a == b
  {
  }

  /** One `app_mention` event: fetch the anchor thread, assemble its contents, ask
      the model, and post the reply into the anchor thread of the mention's channel. `replies` is the thread
      history fetch, `download` the attachment download, `generate` the model call.
      A failing download aborts the handler before anything is posted; a failing
      generation still posts a reply, carrying the error text. */
  method HandleMention(e: MentionEvent, replies: (string, string) -> seq<Message>,
                       download: Download, generate: seq<Content> -> Generation)
    returns (posted: Result<Reply, string>)
    ensures var anchor := ThreadAnchor(e);
      match BuildContents(replies(e.channel, anchor), download)
      case Failure(err) => posted == Failure(err)
      case Success(cs) => posted == Success(Reply(e.channel, anchor, ReplyText(generate(cs))))
    ensures posted.Success? ==> posted.value.channel == e.channel
    ensures posted.Success? ==> posted.value.threadTs == ThreadAnchor(e)
  {
    var channel := e.channel;
    var threadTs := if e.threadTs.Some? && e.threadTs.value != "" then e.threadTs.value else e.ts;
    var contents := BuildContentsFromThread(replies(channel, threadTs), download);
    if contents.Failure? {
      return Failure(contents.error);
    }
    var replyText: string;
    var outcome := generate(contents.value);
    match outcome {
      case Generated(t) =>
        replyText := t;
      case GenerationFailed(err) =>
        replyText := ErrorPrefix + err;
    }
    return Success(Reply(channel, threadTs, replyText));
  }
}
