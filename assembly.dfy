/** The thread-to-content assembly: every message of a chat thread becomes (at most)
    one role-tagged content block for the generative model, made of the message's
    text and of its downloaded image attachments. */
module Assembly {
  import opened Wrappers

  newtype byte = b: int | 0 <= b < 256

  /** A file attachment. `mimetype` and `urlPrivateDownload` are absent when the
      record has no such key. */
  datatype File = File(mimetype: Option<string>, urlPrivateDownload: Option<string>)

  /** A message of the thread as the history fetch returns it. A record without
      a "files" key has `files == []`. */
  datatype Message = Message(text: Option<string>, botId: Option<string>, files: seq<File>)

  datatype Role = User | Model {
    /** The role string sent to the model backend. */
    function Name(): string {
      match this
      case User => "user"
      case Model => "model"
    }
  }

  datatype Part = Text(text: string) | Bytes(data: seq<byte>, mimeType: string)

  datatype Content = Content(role: Role, parts: seq<Part>)

  /** The authenticated HTTP download of a private URL: the response body, or the
      error raised by the request or by a non-success status. */
  type Download = string -> Result<seq<byte>, string>

  /** Truthiness of an optional string: present and not empty. */
  predicate Truthy(o: Option<string>) {
    o.Some? && o.value != ""
  }

  /** The file's MIME type, the empty string when the key is missing. */
  function MimeType(f: File): string {
    match f.mimetype
    case Some(m) => m
    case None => ""
  }

  /** A file is turned into a part: an image with a download URL. */
  predicate Accepted(f: File) {
    "image/" <= MimeType(f) && Truthy(f.urlPrivateDownload)
  }

  function Url(f: File): string
    requires Accepted(f)
  {
    f.urlPrivateDownload.value
  }

  function RoleOf(m: Message): Role {
    if Truthy(m.botId) then Model else User
  }

  /** A message that produces at least one part. */
  predicate Yields(m: Message) {
    Truthy(m.text) || exists i :: 0 <= i < |m.files| && Accepted(m.files[i])
  }

  /** Prefixes a successful sequence with `prefix`; a failure passes through. */
  function Prepend<T>(prefix: seq<T>, r: Result<seq<T>, string>): Result<seq<T>, string> {
    match r
    case Success(rest) => Success(prefix + rest)
    case Failure(e) => Failure(e)
  }

  /** Adds one to every index. */
  function Shift(idx: seq<nat>): (r: seq<nat>)
    ensures |r| == |idx|
    ensures forall k :: 0 <= k < |r| ==> r[k] == idx[k] + 1
  {
    seq(|idx|, k requires 0 <= k < |idx| => idx[k] + 1)
  }

  /** The indices of the elements of `s` that satisfy `keep`, in increasing order. */
  function Selected<T>(s: seq<T>, keep: T -> bool): (idx: seq<nat>)
    ensures |idx| <= |s|
    ensures forall k :: 0 <= k < |idx| ==> idx[k] < |s| && keep(s[idx[k]])
    ensures forall k, l :: 0 <= k < l < |idx| ==> idx[k] < idx[l]
  {
    if s == [] then []
    else
      var rest := Selected(s[1..], keep);
      SelectedStepSound(s, keep, rest);
      SelectedStepOrdered(s, keep, rest);
      (if keep(s[0]) then [0] else []) + Shift(rest)
  }

  lemma SelectedStepSound<T>(s: seq<T>, keep: T -> bool, rest: seq<nat>)
    requires |s| > 0
    requires forall k :: 0 <= k < |rest| ==> rest[k] < |s[1..]| && keep(s[1..][rest[k]])
    ensures var idx := (if keep(s[0]) then [0] else []) + Shift(rest);
      forall k :: 0 <= k < |idx| ==> idx[k] < |s| && keep(s[idx[k]])
  {
    var idx := (if keep(s[0]) then [0] else []) + Shift(rest);
    var d := |idx| - |rest|;
    forall k | 0 <= k < |idx| ensures idx[k] < |s| && keep(s[idx[k]]) {
      if k >= d {
        assert idx[k] == rest[k - d] + 1;
        assert s[1..][rest[k - d]] == s[idx[k]];
      }
    }
  }

  lemma SelectedStepOrdered<T>(s: seq<T>, keep: T -> bool, rest: seq<nat>)
    requires |s| > 0
    requires forall k, l :: 0 <= k < l < |rest| ==> rest[k] < rest[l]
    ensures var idx := (if keep(s[0]) then [0] else []) + Shift(rest);
      forall k, l :: 0 <= k < l < |idx| ==> idx[k] < idx[l]
  {
    var idx := (if keep(s[0]) then [0] else []) + Shift(rest);
    var d := |idx| - |rest|;
    forall k, l | 0 <= k < l < |idx| ensures idx[k] < idx[l] {
      assert idx[l] == rest[l - d] + 1;
      if k >= d {
        assert idx[k] == rest[k - d] + 1;
      }
    }
  }

  /** One step of the definition of `Selected`. */
  lemma SelectedUnfold<T>(s: seq<T>, keep: T -> bool)
    requires |s| > 0
    ensures Selected(s, keep) == (if keep(s[0]) then [0] else []) + Shift(Selected(s[1..], keep))
  {
  }

  /** The selection of a sequence whose first element is kept: index 0, then the
      tail's selection shifted by one. */
  lemma SelectedConsKept<T>(s: seq<T>, keep: T -> bool, k: nat)
    requires |s| > 0 && keep(s[0])
    requires 0 < k < |Selected(s, keep)|
    ensures Selected(s, keep)[0] == 0
    ensures k - 1 < |Selected(s[1..], keep)|
    ensures Selected(s, keep)[k] == Selected(s[1..], keep)[k - 1] + 1
    ensures s[Selected(s, keep)[k]] == s[1..][Selected(s[1..], keep)[k - 1]]
  {
    SelectedUnfold(s, keep);
  }

  /** The selection of a sequence whose first element is dropped: the tail's selection
      shifted by one. */
  lemma SelectedConsDropped<T>(s: seq<T>, keep: T -> bool, k: nat)
    requires |s| > 0 && !keep(s[0])
    requires k < |Selected(s, keep)|
    ensures k < |Selected(s[1..], keep)|
    ensures Selected(s, keep)[k] == Selected(s[1..], keep)[k] + 1
    ensures s[Selected(s, keep)[k]] == s[1..][Selected(s[1..], keep)[k]]
  {
    SelectedUnfold(s, keep);
  }

  /** The tail's k-th selected index, shifted by one, is selected in the whole sequence,
      after index 0 when the first element is kept. */
  lemma SelectedShifted<T>(s: seq<T>, keep: T -> bool, k: nat)
    requires |s| > 0
    requires k < |Selected(s[1..], keep)|
    ensures var d := if keep(s[0]) then 1 else 0;
      d + k < |Selected(s, keep)| && Selected(s, keep)[d + k] == Selected(s[1..], keep)[k] + 1
  {
    SelectedUnfold(s, keep);
  }

  /** Every index whose element satisfies `keep` is selected. */
  lemma {:induction false} SelectedComplete<T>(s: seq<T>, keep: T -> bool, i: nat)
    requires i < |s| && keep(s[i])
    ensures i in Selected(s, keep)
  {
    if i == 0 {
      assert Selected(s, keep)[0] == 0 by { SelectedUnfold(s, keep); }
    } else {
      assert keep(s[1..][i - 1]);
      SelectedComplete(s[1..], keep, i - 1);
      var rest := Selected(s[1..], keep);
      var k :| 0 <= k < |rest| && rest[k] == i - 1;
      SelectedShifted(s, keep, k);
    }
  }

  lemma PrependEmpty<T>(r: Result<seq<T>, string>)
    ensures Prepend([], r) == r
  {
    if r.Success? {
      assert [] + r.value == r.value;
    }
  }

  lemma PrependPrepend<T>(a: seq<T>, b: seq<T>, r: Result<seq<T>, string>)
    ensures Prepend(a, Prepend(b, r)) == Prepend(a + b, r)
  {
    if r.Success? {
      assert a + (b + r.value) == (a + b) + r.value;
    }
  }

  /** The byte parts of a file list: one per accepted file, downloaded in list order. */
  function FileParts(files: seq<File>, download: Download): Result<seq<Part>, string> {
    if files == [] then Success([])
    else
      var f := files[0];
      if Accepted(f) then
        match download(Url(f))
        case Failure(e) => Failure(e)
        case Success(body) => Prepend([Bytes(body, MimeType(f))], FileParts(files[1..], download))
      else
        FileParts(files[1..], download)
  }

  /** The parts of one message: its text, if any, then its image parts. */
  function MessageParts(m: Message, download: Download): Result<seq<Part>, string> {
    Prepend(if Truthy(m.text) then [Text(m.text.value)] else [], FileParts(m.files, download))
  }

  /** The content list of a thread: one block per message that has parts. */
  function BuildContents(messages: seq<Message>, download: Download): Result<seq<Content>, string> {
    if messages == [] then Success([])
    else
      match MessageParts(messages[0], download)
      case Failure(e) => Failure(e)
      case Success(parts) =>
        var block := if parts == [] then [] else [Content(RoleOf(messages[0]), parts)];
        Prepend(block, BuildContents(messages[1..], download))
  }

  /** The download URLs of all accepted files of the thread, in the order they are fetched. */
  function AcceptedUrls(messages: seq<Message>): seq<string> {
    if messages == [] then [] else FileUrls(messages[0].files) + AcceptedUrls(messages[1..])
  }

  function FileUrls(files: seq<File>): seq<string> {
    if files == [] then []
    else (if Accepted(files[0]) then [Url(files[0])] else []) + FileUrls(files[1..])
  }

  /** The error of the first download in `urls` that fails, if one does. */
  function FirstFailure(urls: seq<string>, download: Download): (r: Option<string>)
    ensures r.None? <==> forall k :: 0 <= k < |urls| ==> download(urls[k]).Success?
    ensures r.Some? ==> exists k :: 0 <= k < |urls| && download(urls[k]) == Failure(r.value)
                          && forall j :: 0 <= j < k ==> download(urls[j]).Success?
  {
    if urls == [] then None
    else if download(urls[0]).Failure? then Some(download(urls[0]).error)
    else
      var r := FirstFailure(urls[1..], download);
      assert forall k :: 1 <= k < |urls| ==> urls[1..][k - 1] == urls[k];
      if r.Some? then
        ghost var k :| 0 <= k < |urls[1..]| && download(urls[1..][k]) == Failure(r.value)
                     && forall j :: 0 <= j < k ==> download(urls[1..][j]).Success?;
        assert download(urls[k + 1]) == Failure(r.value);
        r
      else r
  }

  /** The parts of one message as the assembly loop collects them: the text first,
      then one byte part per accepted file in list order; a failing download stops it. */
  method CollectParts(msg: Message, download: Download) returns (r: Result<seq<Part>, string>)
    ensures r == MessageParts(msg, download)
  {
    var parts: seq<Part> := [];
    if Truthy(msg.text) {
      parts := parts + [Text(msg.text.value)];
    }
    assert parts == if Truthy(msg.text) then [Text(msg.text.value)] else [];
    var j := 0;
    assert msg.files[j..] == msg.files;
    while j < |msg.files|
      invariant 0 <= j <= |msg.files|
      invariant MessageParts(msg, download) == Prepend(parts, FileParts(msg.files[j..], download))
    {
      var f := msg.files[j];
      assert msg.files[j..][1..] == msg.files[j + 1..];
      var mimetype := if f.mimetype.Some? then f.mimetype.value else "";
      if "image/" <= mimetype {
        var url := f.urlPrivateDownload;
        if url.Some? && url.value != "" {
          var resp := download(url.value);
          if resp.Failure? {
            return Failure(resp.error);
          }
          PrependPrepend(parts, [Bytes(resp.value, mimetype)], FileParts(msg.files[j + 1..], download));
          parts := parts + [Bytes(resp.value, mimetype)];
        }
      }
      j := j + 1;
    }
    assert msg.files[j..] == [] && parts + [] == parts;
    return Success(parts);
  }

  /** The assembly loop: for each message, collect its parts and keep the block if it
      has any; the first failing download aborts the whole assembly. */
  method BuildContentsFromThread(messages: seq<Message>, download: Download)
    returns (r: Result<seq<Content>, string>)
    ensures r == BuildContents(messages, download)
  {
    var contents: seq<Content> := [];
    var i := 0;
    assert messages[i..] == messages;
    PrependEmpty(BuildContents(messages, download));
    while i < |messages|
      invariant 0 <= i <= |messages|
      invariant BuildContents(messages, download) == Prepend(contents, BuildContents(messages[i..], download))
    {
      var msg := messages[i];
      assert messages[i..][0] == msg && messages[i..][1..] == messages[i + 1..];
      var role := if Truthy(msg.botId) then Model else User;
      assert role == RoleOf(msg);
      var parts := CollectParts(msg, download);
      if parts.Failure? {
        return Failure(parts.error);
      }
      var block := if parts.value == [] then [] else [Content(role, parts.value)];
      assert BuildContents(messages[i..], download) == Prepend(block, BuildContents(messages[i + 1..], download));
      PrependPrepend(contents, block, BuildContents(messages[i + 1..], download));
      assert parts.value == [] ==> contents + block == contents;
      if parts.value != [] {
        contents := contents + [Content(role, parts.value)];
      }
      i := i + 1;
    }
    assert messages[i..] == [] && contents + [] == contents;
    return Success(contents);
  }
}
