/** What the assembly promises: part shapes, block correspondence with the thread's
    messages, all-or-nothing failure, and which URLs are downloaded. */
module AssemblyProperties {
  import opened Wrappers
  import opened Assembly

  /** `ps` holds one byte part per accepted file of `files`, in list order, with the
      downloaded body and the file's own MIME type. */
  ghost predicate ImagePartsOf(files: seq<File>, download: Download, ps: seq<Part>) {
    var img := Selected(files, Accepted);
    && |ps| == |img|
    && forall k :: 0 <= k < |img| ==>
         && download(Url(files[img[k]])).Success?
         && ps[k] == Bytes(download(Url(files[img[k]])).value, MimeType(files[img[k]]))
  }

  lemma ImagePartsKept(files: seq<File>, download: Download, body: seq<byte>, rest: seq<Part>)
    requires files != [] && Accepted(files[0]) && download(Url(files[0])) == Success(body)
    requires ImagePartsOf(files[1..], download, rest)
    ensures ImagePartsOf(files, download, [Bytes(body, MimeType(files[0]))] + rest)
  {
    var ps := [Bytes(body, MimeType(files[0]))] + rest;
    var img := Selected(files, Accepted);
    forall k | 0 < k < |img|
      ensures download(Url(files[img[k]])).Success?
      ensures ps[k] == Bytes(download(Url(files[img[k]])).value, MimeType(files[img[k]]))
    {
      SelectedConsKept(files, Accepted, k);
      assert ps[k] == rest[k - 1];
    }
    SelectedUnfold(files, Accepted);
  }

  lemma ImagePartsDropped(files: seq<File>, download: Download, rest: seq<Part>)
    requires files != [] && !Accepted(files[0])
    requires ImagePartsOf(files[1..], download, rest)
    ensures ImagePartsOf(files, download, rest)
  {
    var img := Selected(files, Accepted);
    forall k | 0 <= k < |img|
      ensures download(Url(files[img[k]])).Success?
      ensures rest[k] == Bytes(download(Url(files[img[k]])).value, MimeType(files[img[k]]))
    {
      SelectedConsDropped(files, Accepted, k);
    }
    SelectedUnfold(files, Accepted);
  }

  /** A successful file list yields exactly one byte part per accepted file, in list
      order, carrying the downloaded body and the file's own MIME type. */
  lemma {:induction false} FilePartsShape(files: seq<File>, download: Download, ps: seq<Part>)
    requires FileParts(files, download) == Success(ps)
    ensures var img := Selected(files, Accepted);
      && |ps| == |img|
      && forall k :: 0 <= k < |img| ==>
           && download(Url(files[img[k]])).Success?
           && ps[k] == Bytes(download(Url(files[img[k]])).value, MimeType(files[img[k]]))
    ensures forall k :: 0 <= k < |ps| ==> ps[k].Bytes? && "image/" <= ps[k].mimeType
  {
    if files != [] {
      var f := files[0];
      var rest := FileParts(files[1..], download).value;
      FilePartsShape(files[1..], download, rest);
      if Accepted(f) {
        var body := download(Url(f)).value;
        assert ps == [Bytes(body, MimeType(f))] + rest;
        ImagePartsKept(files, download, body, rest);
      } else {
        assert ps == rest;
        ImagePartsDropped(files, download, rest);
      }
    }
  }

  /** The parts of a message: the text first when it is present and non-empty, then
      the image parts in file-list order; no other part is a text part. */
  lemma {:induction false} MessagePartsShape(m: Message, download: Download, ps: seq<Part>)
    requires MessageParts(m, download) == Success(ps)
    ensures |ps| == (if Truthy(m.text) then 1 else 0) + |Selected(m.files, Accepted)|
    ensures Truthy(m.text) ==> ps[0] == Text(m.text.value)
    ensures forall k :: 0 <= k < |ps| && ps[k].Text? ==> Truthy(m.text) && k == 0
    ensures var img := Selected(m.files, Accepted);
      forall k :: 0 <= k < |img| ==>
        && download(Url(m.files[img[k]])).Success?
        && ps[|ps| - |img| + k] == Bytes(download(Url(m.files[img[k]])).value, MimeType(m.files[img[k]]))
  {
    var img := Selected(m.files, Accepted);
    var head := if Truthy(m.text) then [Text(m.text.value)] else [];
    var fps := FileParts(m.files, download).value;
    assert ps == head + fps;
    FilePartsShape(m.files, download, fps);
    assert |ps| - |img| == |head|;
    assert ps[|head|..] == fps;
  }

  /** A message has parts exactly when it has text or an accepted image file. */
  lemma {:induction false} MessagePartsNonEmpty(m: Message, download: Download, ps: seq<Part>)
    requires MessageParts(m, download) == Success(ps)
    ensures ps != [] <==> Yields(m)
  {
    var img := Selected(m.files, Accepted);
    MessagePartsShape(m, download, ps);
    if !Truthy(m.text) {
      if img != [] {
        assert Accepted(m.files[img[0]]);
      } else {
        forall i | 0 <= i < |m.files| ensures !Accepted(m.files[i]) {
          if Accepted(m.files[i]) {
            SelectedComplete(m.files, Accepted, i);
          }
        }
      }
    }
  }

  /** `cs` has one block for each message that yields a part, in thread order, with
      that message's role and parts. */
  ghost predicate Corresponds(messages: seq<Message>, download: Download, cs: seq<Content>) {
    var idx := Selected(messages, Yields);
    && |cs| == |idx|
    && forall k :: 0 <= k < |cs| ==>
         && cs[k].role == RoleOf(messages[idx[k]])
         && MessageParts(messages[idx[k]], download) == Success(cs[k].parts)
  }

  lemma CorrespondsKept(messages: seq<Message>, download: Download, ps: seq<Part>, rest: seq<Content>)
    requires messages != [] && Yields(messages[0])
    requires MessageParts(messages[0], download) == Success(ps)
    requires Corresponds(messages[1..], download, rest)
    ensures Corresponds(messages, download, [Content(RoleOf(messages[0]), ps)] + rest)
  {
    var cs := [Content(RoleOf(messages[0]), ps)] + rest;
    var idx := Selected(messages, Yields);
    forall k | 0 < k < |cs|
      ensures cs[k].role == RoleOf(messages[idx[k]])
      ensures MessageParts(messages[idx[k]], download) == Success(cs[k].parts)
    {
      SelectedConsKept(messages, Yields, k);
      assert cs[k] == rest[k - 1];
    }
    assert idx[0] == 0;
  }

  lemma CorrespondsDropped(messages: seq<Message>, download: Download, rest: seq<Content>)
    requires messages != [] && !Yields(messages[0])
    requires Corresponds(messages[1..], download, rest)
    ensures Corresponds(messages, download, rest)
  {
    var idx := Selected(messages, Yields);
    forall k | 0 <= k < |rest|
      ensures rest[k].role == RoleOf(messages[idx[k]])
      ensures MessageParts(messages[idx[k]], download) == Success(rest[k].parts)
    {
      SelectedConsDropped(messages, Yields, k);
    }
  }

  /** A successful assembly has one block for each message that yields a part, in
      thread order: the block's role is the message's and its parts are the message's. */
  lemma {:induction false} BuildContentsShape(messages: seq<Message>, download: Download, cs: seq<Content>)
    requires BuildContents(messages, download) == Success(cs)
    ensures var idx := Selected(messages, Yields);
      && |cs| == |idx|
      && forall k :: 0 <= k < |cs| ==>
           && cs[k].role == RoleOf(messages[idx[k]])
           && MessageParts(messages[idx[k]], download) == Success(cs[k].parts)
  {
    if messages != [] {
      var m := messages[0];
      var ps := MessageParts(m, download).value;
      var rest := BuildContents(messages[1..], download).value;
      BuildContentsShape(messages[1..], download, rest);
      assert Corresponds(messages[1..], download, rest);
      assert Corresponds(messages, download, cs) by {
        MessagePartsNonEmpty(m, download, ps);
        if Yields(m) {
          assert cs == [Content(RoleOf(m), ps)] + rest;
          CorrespondsKept(messages, download, ps, rest);
        } else {
          assert cs == rest;
          CorrespondsDropped(messages, download, rest);
        }
      }
    }
  }

  /** Every block of a successful assembly has parts, its role string is "model" exactly
      when its message has a bot id, and there are no more blocks than messages. */
  lemma BlocksNonEmpty(messages: seq<Message>, download: Download, cs: seq<Content>)
    requires BuildContents(messages, download) == Success(cs)
    ensures |cs| <= |messages|
    ensures forall c :: c in cs ==> c.parts != []
    ensures var idx := Selected(messages, Yields);
      |idx| == |cs| &&
      forall k :: 0 <= k < |cs| ==>
        && (cs[k].role.Name() == "model" <==> Truthy(messages[idx[k]].botId))
        && (cs[k].role.Name() == "user" <==> !Truthy(messages[idx[k]].botId))
  {
    var idx := Selected(messages, Yields);
    BuildContentsShape(messages, download, cs);
    forall c | c in cs ensures c.parts != [] {
      var k :| 0 <= k < |cs| && cs[k] == c;
      MessagePartsNonEmpty(messages[idx[k]], download, c.parts);
    }
  }

  /** No message that yields a part is left out: it has a block in the assembly. */
  lemma YieldingMessageHasBlock(messages: seq<Message>, download: Download, cs: seq<Content>, i: nat)
    requires BuildContents(messages, download) == Success(cs)
    requires i < |messages| && Yields(messages[i])
    ensures |cs| == |Selected(messages, Yields)|
    ensures exists k :: 0 <= k < |cs| && Selected(messages, Yields)[k] == i
                        && cs[k].role == RoleOf(messages[i])
                        && MessageParts(messages[i], download) == Success(cs[k].parts)
  {
    BuildContentsShape(messages, download, cs);
    SelectedComplete(messages, Yields, i);
    var idx := Selected(messages, Yields);
    var k :| 0 <= k < |idx| && idx[k] == i;
    assert cs[k].role == RoleOf(messages[i]);
  }

  /** The first failure among downloads of `a + b` is the first in `a`, else the first in `b`. */
  lemma {:induction false} FirstFailureAppend(a: seq<string>, b: seq<string>, download: Download)
    ensures FirstFailure(a + b, download) ==
      if FirstFailure(a, download).Some? then FirstFailure(a, download) else FirstFailure(b, download)
  {
    if a != [] {
      assert (a + b)[0] == a[0] && (a + b)[1..] == a[1..] + b;
      FirstFailureAppend(a[1..], b, download);
    } else {
      assert a + b == b;
    }
  }

  /** A file list fails exactly when one of its accepted downloads fails, and then
      with the error of the first such download. */
  lemma {:induction false} FilePartsFailure(files: seq<File>, download: Download)
    ensures match FileParts(files, download)
      case Failure(e) => FirstFailure(FileUrls(files), download) == Some(e)
      case Success(_) => FirstFailure(FileUrls(files), download) == None
  {
    if files != [] {
      var f := files[0];
      FilePartsFailure(files[1..], download);
      var head := if Accepted(f) then [Url(f)] else [];
      FirstFailureAppend(head, FileUrls(files[1..]), download);
      if Accepted(f) {
        assert head[1..] == [];
      }
    }
  }

  /** All or nothing: the assembly fails exactly when one accepted download of the thread
      fails, with the error of the first one in thread and file order; otherwise every
      download succeeded and a complete content list is returned. */
  lemma {:induction false} BuildContentsFailure(messages: seq<Message>, download: Download)
    ensures match BuildContents(messages, download)
      case Failure(e) => FirstFailure(AcceptedUrls(messages), download) == Some(e)
      case Success(_) => FirstFailure(AcceptedUrls(messages), download) == None
  {
    if messages != [] {
      FilePartsFailure(messages[0].files, download);
      BuildContentsFailure(messages[1..], download);
      FirstFailureAppend(FileUrls(messages[0].files), AcceptedUrls(messages[1..]), download);
    }
  }

  /** Only accepted image URLs are downloaded: downloads that agree on those give the
      same assembly, whatever they do on any other URL. */
  lemma {:induction false} FilePartsDownloadsOnlyAccepted(files: seq<File>, d1: Download, d2: Download)
    requires forall u :: u in FileUrls(files) ==> d1(u) == d2(u)
    ensures FileParts(files, d1) == FileParts(files, d2)
  {
    if files != [] {
      var head := if Accepted(files[0]) then [Url(files[0])] else [];
      assert FileUrls(files) == head + FileUrls(files[1..]);
      if Accepted(files[0]) {
        assert Url(files[0]) in FileUrls(files);
      }
      FilePartsDownloadsOnlyAccepted(files[1..], d1, d2);
    }
  }

  lemma {:induction false} DownloadsOnlyAccepted(messages: seq<Message>, d1: Download, d2: Download)
    requires forall u :: u in AcceptedUrls(messages) ==> d1(u) == d2(u)
    ensures BuildContents(messages, d1) == BuildContents(messages, d2)
  {
    if messages != [] {
      FilePartsDownloadsOnlyAccepted(messages[0].files, d1, d2);
      DownloadsOnlyAccepted(messages[1..], d1, d2);
    }
  }

  /** A thread in which no message has text or an image yields an empty content list:
      no placeholder block is inserted, PDF and JSON files are dropped, and a file
      without a MIME type is dropped. */
  lemma NothingToSay(download: Download)
    ensures var pdf := File(Some("application/pdf"), Some("https://files/a.pdf"));
      var json := File(Some("application/json"), Some("https://files/b.json"));
      var untyped := File(None, Some("https://files/c"));
      BuildContents([Message(Some(""), None, [pdf, json]), Message(None, Some("B1"), [untyped])], download)
        == Success([])
  {
    var pdf := File(Some("application/pdf"), Some("https://files/a.pdf"));
    var json := File(Some("application/json"), Some("https://files/b.json"));
    assert !("image/" <= "application/pdf") by { assert "application/pdf"[0] != "image/"[0]; }
    assert !("image/" <= "application/json") by { assert "application/json"[0] != "image/"[0]; }
    var untyped := File(None, Some("https://files/c"));
    assert !("image/" <= "");
    var m1 := Message(Some(""), None, [pdf, json]);
    var m2 := Message(None, Some("B1"), [untyped]);
    assert !Accepted(pdf) && !Accepted(json) && !Accepted(untyped);
    assert [pdf, json][1..] == [json] && [json][1..] == [] && [untyped][1..] == [];
    assert FileParts([json], download) == Success([]);
    assert FileParts([pdf, json], download) == Success([]);
    PrependEmpty(FileParts(m1.files, download));
    PrependEmpty(FileParts(m2.files, download));
    assert FileParts([untyped], download) == Success([]);
    assert MessageParts(m1, download) == Success([]);
    assert MessageParts(m2, download) == Success([]);
    assert [m1, m2][1..] == [m2] && [m2][1..] == [];
    assert BuildContents([m2], download) == Success([]);
  }

  /** Images with an empty or a missing download URL are dropped, one with a URL is downloaded; the
      bot's message becomes a "model" block whose text comes first. */
  lemma ImageWithAndWithoutUrl(download: Download, body: seq<byte>)
    requires download("https://files/p.png") == Success(body)
    ensures var emptyUrl := File(Some("image/png"), Some(""));
      var noUrl := File(Some("image/png"), None);
      var png := File(Some("image/png"), Some("https://files/p.png"));
      BuildContents([Message(Some("look"), Some("B1"), [emptyUrl, noUrl, png])], download)
        == Success([Content(Model, [Text("look"), Bytes(body, "image/png")])])
  {
    var emptyUrl := File(Some("image/png"), Some(""));
    var noUrl := File(Some("image/png"), None);
    var png := File(Some("image/png"), Some("https://files/p.png"));
    var m := Message(Some("look"), Some("B1"), [emptyUrl, noUrl, png]);
    assert "image/" <= "image/png";
    assert !Accepted(emptyUrl) && !Accepted(noUrl);
    assert Accepted(png) && Url(png) == "https://files/p.png";
    assert MimeType(png) == "image/png";
    assert [emptyUrl, noUrl, png][1..] == [noUrl, png];
    assert [noUrl, png][1..] == [png] && [png][1..] == [];
    assert [Bytes(body, "image/png")] + [] == [Bytes(body, "image/png")];
    assert [Text("look")] + [Bytes(body, "image/png")] == [Text("look"), Bytes(body, "image/png")];
    assert FileParts([png], download) == Success([Bytes(body, "image/png")]);
    assert FileParts([noUrl, png], download) == Success([Bytes(body, "image/png")]);
    assert FileParts([emptyUrl, noUrl, png], download) == Success([Bytes(body, "image/png")]);
    assert MessageParts(m, download) == Success([Text("look"), Bytes(body, "image/png")]);
    assert [m][1..] == [] && RoleOf(m) == Model;
    var c := Content(Model, [Text("look"), Bytes(body, "image/png")]);
    assert [c] + [] == [c];
  }
}
