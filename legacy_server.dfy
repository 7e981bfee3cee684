/**
 * The older server (`devserver_lib/src/lib.rs`), whose reload and TLS support
 * are compile-time features. Reading the header, resolving the path and
 * looking the file up are the same text as in the current server and are
 * modelled by `DevServer`; what differs is modelled here: the reload script is
 * injected only when the `reload` feature is compiled in, and without the
 * `https` feature every connection is plain.
 */
module LegacyServer {
  import opened Wrappers
  import opened Utf8
  import opened Streams
  import opened DevServer

  /** The cargo features the older server was compiled with. */
  datatype Features = Features(reload: bool, https: bool)

  /** The older response: as the current one, except that the script exists only under the `reload` feature. */
  function Respond(features: Features, fs: map<string, seq<Byte>>, path: string, reload: bool,
                   mime: Option<string> -> string, script: seq<Byte>): (resp: Response)
  {
    match LookupFile(fs, path)
    case None => NotFound404
    case Some(f) =>
      Ok200(mime(f.ext), f.contents + if features.reload && InjectsScript(f.ext, reload) then script else [])
  }

  /**
   * With the `reload` feature the older response is the current one; without
   * it, it is the current one with reloading off: the body is the file alone,
   * whatever `reload` says.
   */
  lemma RespondAgainstCurrent(features: Features, fs: map<string, seq<Byte>>, path: string, reload: bool,
                              mime: Option<string> -> string, script: seq<Byte>)
    ensures Respond(features, fs, path, reload, mime, script)
            == DevServer.Respond(fs, path, features.reload && reload, mime, script)
    ensures features.reload ==>
              Respond(features, fs, path, reload, mime, script) == DevServer.Respond(fs, path, reload, mime, script)
    ensures !features.reload ==>
              match LookupFile(fs, path)
              case None => Respond(features, fs, path, reload, mime, script) == NotFound404
              case Some(f) => Respond(features, fs, path, reload, mime, script) == Ok200(mime(f.ext), f.contents)
  {
  }

  /**
   * `handle_client` after the header has been read, in its older form: the
   * Content-Length grows by the script's length, and the script is written,
   * only under the `reload` feature. What reaches the client is a prefix of
   * the response, whose Content-Length is that of its body.
   */
  method HandleClient(stream: Socket, features: Features, input: seq<Byte>, request: string, root: string,
                      reload: bool, headers: string, fs: map<string, seq<Byte>>,
                      mime: Option<string> -> string, script: seq<Byte>)
    requires HeaderLength(input).Some?
    requires Encode(request) == input[..HeaderLength(input).value]
    modifies stream
    ensures match RequestTarget(request)
            case None => stream.sent == old(stream.sent)
            case Some(target) =>
              stream.sent == old(stream.sent) +
                Truncate(Serialize(Respond(features, fs, ResolvePath(root, target), reload, mime, script), headers),
                         old(stream.room))
  {
    var buffer := ReadHeader(input);
    var target := RequestTarget(request);
    if target.None? {
      return;
    }
    var path := ResolvePath(root, target.value);
    var lookup := LookupFile(fs, path);
    RespondAgainstCurrent(features, fs, path, reload, mime, script);
    if lookup.Some? {
      var f := lookup.value;
      var contentType := mime(f.ext);
      var contentLength := |f.contents|;
      var inject := false;
      if features.reload {
        inject := f.ext == Some("html") && reload;
        if inject {
          contentLength := contentLength + |script|;
        }
      }
      var head := Encode(OkHead(contentType, contentLength, headers));
      OkResponse(fs, path, features.reload && reload, headers, mime, script, f, contentType, contentLength);
      WriteFileAndScript(stream, head, f.contents, inject, script);
    } else {
      var ok := stream.WriteAll(NotFoundBytes);
    }
  }

  /** The older classification: the current test under the `https` feature, plain otherwise. */
  predicate IsHttps(features: Features, peeked: seq<Byte>)
    requires |peeked| <= 2
  {
    if features.https then DevServer.IsHttps(peeked) else false
  }

  /**
   * Without the `https` feature no connection is TLS, even a TLS handshake
   * record; with it, the classification is the current Latin-1 test.
   */
  lemma ClassifyUnderFeatures(features: Features, peeked: seq<Byte>)
    requires |peeked| <= 2
    ensures !features.https ==> !IsHttps(features, peeked)
    ensures features.https ==> (IsHttps(features, peeked) <==> DevServer.IsHttps(peeked))
    ensures features.https && |peeked| > 0 && peeked[0] == 0x16 ==> IsHttps(features, peeked)
    ensures !IsHttps(Features(true, false), [0x16, 0x03])
  {
    ClassifyConnections(peeked);
  }
}
