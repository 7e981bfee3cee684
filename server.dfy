/**
 * The static-file server of `src/lib.rs`: reading the request header, resolving
 * the request target to a file under the served root, the extension fallback,
 * the bytes of the 200 and 404 responses, and the plain/TLS classification of a
 * new connection from its first two bytes.
 */
module DevServer {
  import opened Wrappers
  import opened Text
  import opened Utf8
  import opened Paths
  import opened Streams

  // ---------------------------------------------------------------------------
  // read_header
  // ---------------------------------------------------------------------------

  /** The blank line `\r\n\r\n` that ends a request header. */
  const HeaderTerminator: seq<Byte> := [13, 10, 13, 10]

  const LineFeed: Byte := 10

  predicate Terminated(buffer: seq<Byte>) {
    EndsWith(buffer, HeaderTerminator)
  }

  /** The least length `k >= from` such that `input[..k]` ends with the terminator. */
  function HeaderLengthFrom(input: seq<Byte>, from: nat): (r: Option<nat>)
    ensures r.Some? ==> from <= r.value <= |input|
    decreases |input| + 1 - from
  {
    if from > |input| then None
    else if Terminated(input[..from]) then Some(from)
    else HeaderLengthFrom(input, from + 1)
  }

  /** The length of the shortest prefix of `input` that ends with `\r\n\r\n`, if any. */
  function HeaderLength(input: seq<Byte>): Option<nat> {
    HeaderLengthFrom(input, 0)
  }

  /** `HeaderLength` finds the shortest terminated prefix, and finds one whenever there is one. */
  lemma {:induction false} HeaderLengthFromMeaning(input: seq<Byte>, from: nat)
    requires from <= |input| + 1
    ensures HeaderLengthFrom(input, from).Some? ==>
              var k := HeaderLengthFrom(input, from).value;
              from <= k <= |input| && Terminated(input[..k]) &&
              forall j :: from <= j < k ==> !Terminated(input[..j])
    ensures HeaderLengthFrom(input, from).None? ==>
              forall j :: from <= j <= |input| ==> !Terminated(input[..j])
    decreases |input| + 1 - from
  {
    if from <= |input| && !Terminated(input[..from]) {
      assert HeaderLengthFrom(input, from) == HeaderLengthFrom(input, from + 1);
      HeaderLengthFromMeaning(input, from + 1);
    }
  }

  /**
   * `BufRead::read_until(b'\n', ..)` from position `pos`: the position just
   * after the next line feed, or the end of the input when there is none.
   */
  function ReadUntil(input: seq<Byte>, pos: nat, delim: Byte): (next: nat)
    requires pos <= |input|
    ensures pos <= next <= |input|
    ensures next == pos <==> pos == |input|
    ensures next < |input| ==> input[next - 1] == delim
    ensures forall j :: pos <= j < next - 1 ==> input[j] != delim
    decreases |input| - pos
  {
    if pos == |input| then pos
    else if input[pos] == delim then pos + 1
    else ReadUntil(input, pos + 1, delim)
  }

  /**
   * `read_header`: reads line-feed-terminated chunks until the buffer ends with
   * `\r\n\r\n`. The result is the shortest prefix of the input that ends with
   * the terminator. The source loops for ever at end of input, so the input
   * must hold a terminator.
   */
  method ReadHeader(input: seq<Byte>) returns (buffer: seq<Byte>)
    requires HeaderLength(input).Some?
    ensures |buffer| <= |input| && buffer == input[..|buffer|]
    ensures Terminated(buffer)
    ensures forall j :: 0 <= j < |buffer| ==> !Terminated(buffer[..j])
    ensures buffer == input[..HeaderLength(input).value]
  {
    ghost var k := HeaderLength(input).value;
    buffer := [];
    var pos := 0;
    while true
      invariant pos < k
      invariant buffer == input[..pos]
      invariant HeaderLengthFrom(input, pos) == Some(k)
      decreases k - pos
    {
      var next := ReadUntil(input, pos, LineFeed);
      ReadStaysWithinHeader(input, pos, k);
      buffer := buffer + input[pos..next];
      assert buffer == input[..next];
      pos := next;
      if Terminated(buffer) {
        ShortestHeader(input);
        return;
      }
    }
  }

  /** A chunk read before the end of the header stops at or before that end. */
  lemma ReadStaysWithinHeader(input: seq<Byte>, pos: nat, k: nat)
    requires pos < k && HeaderLengthFrom(input, pos) == Some(k)
    ensures var next := ReadUntil(input, pos, LineFeed);
            pos < next <= k && HeaderLengthFrom(input, next) == Some(k)
  {
    var next := ReadUntil(input, pos, LineFeed);
    assert input[k - 1] == LineFeed by {
      HeaderLengthFromMeaning(input, pos);
      assert input[..k][k - 4..] == HeaderTerminator;
    }
    HeaderLengthAdvance(input, pos, next, k);
  }

  /** Between a search start and the header end the search result does not change. */
  lemma {:induction false} HeaderLengthAdvance(input: seq<Byte>, a: nat, b: nat, k: nat)
    requires a <= b <= k && HeaderLengthFrom(input, a) == Some(k)
    ensures HeaderLengthFrom(input, b) == Some(k)
    decreases b - a
  {
    if a < b {
      HeaderLengthAdvance(input, a + 1, b, k);
    }
  }

  /** The header `HeaderLength` finds ends with the terminator and no shorter prefix does. */
  lemma ShortestHeader(input: seq<Byte>)
    requires HeaderLength(input).Some?
    ensures var k := HeaderLength(input).value;
            Terminated(input[..k]) &&
            forall j :: 0 <= j < k ==> !Terminated(input[..k][..j])
  {
    HeaderLengthFromMeaning(input, 0);
    var k := HeaderLength(input).value;
    assert forall j :: 0 <= j < k ==> input[..k][..j] == input[..j];
  }

  // ---------------------------------------------------------------------------
  // Request target and path resolution in handle_client
  // ---------------------------------------------------------------------------

  /**
   * The request target: the text between the first and the second space of
   * the whole request header, trimmed. The split on `' '` runs over the whole
   * header, not only the request line, so with fewer than two spaces in the
   * header the result is `None` (the source's `unwrap`s panic), and a request
   * line without spaces takes its target from a later header line.
   */
  function RequestTarget(request: string): (r: Option<string>)
  {
    var parts := SplitOn(request, " ");
    if |parts| < 3 then None else Some(Trim(parts[1]))
  }

  /**
   * Text before the first space, text up to the second, and the rest: the
   * target is the middle part, trimmed, wherever the two spaces fall.
   */
  lemma RequestTargetOfWords(first: string, second: string, rest: string)
    requires Avoids(first, ' ') && Avoids(second, ' ')
    ensures RequestTarget(first + " " + (second + " " + rest)) == Some(Trim(second))
  {
    var sp: string := " ";
    SplitOnJoined(first, sp, second + sp + rest);
    SplitOnJoined(second, sp, rest);
  }

  /**
   * A request line without a space takes its target from the header line
   * after it: here the `Host` line's value.
   */
  lemma TargetFromHostLine()
    ensures RequestTarget("GET\r\nHost:" + " " + ("x" + " " + "y\r\n\r\n")) == Some("x")
  {
    var line: string := "GET\r\nHost:";
    var target: string := "x";
    assert Avoids(line, ' ') && Avoids(target, ' ');
    RequestTargetOfWords(line, target, "y\r\n\r\n");
    assert Trim(target) == target;
  }

  /** Only the text before the first `?` of the target takes part in resolution. */
  function StripQuery(target: string): (r: string)
    ensures !Contains(r, "?")
    ensures |r| <= |target| && r == target[..|r|]
    ensures !Contains(target, "?") ==> r == target
    ensures Contains(target, "?") ==> |r| < |target| && target[|r|] == '?'
  {
    FindLeftmost(target, "?");
    match Find(target, "?")
    case None => target
    case Some(i) =>
      assert !Contains(target[..i], "?") by { NoQueryBefore(target, i); }
      target[..i]
  }

  lemma NoQueryBefore(target: string, i: nat)
    requires i <= |target|
    requires forall j :: 0 <= j < i ==> !StartsWith(target[j..], "?")
    ensures !Contains(target[..i], "?")
  {
    forall j | 0 <= j < i ensures target[..i][j] != '?' {
      assert target[j..][..1] == [target[j]];
    }
    NotContainsPlain(target[..i], "?");
  }

  /**
   * The sanitising step: one left-to-right pass deleting `../`, then `%20`
   * turned into a space.
   */
  function Sanitize(path: string): string {
    Replace(Replace(path, "../", ""), "%20", " ")
  }

  /**
   * The component joined to the root: a path ending in `/` names the
   * `index.html` inside it (leading `/` removed); any other path is used with
   * its leading and trailing `/` removed.
   */
  function RelativePath(path: string): (rel: string)
    ensures !StartsWith(rel, "/")
  {
    if EndsWith(path, "/") then
      var dir := TrimStartChar(path, '/');
      assert (dir + "index.html")[0] == if |dir| > 0 then dir[0] else 'i';
      dir + "index.html"
    else
      TrimChar(path, '/')
  }

  /** The file path a request target resolves to under `root`. */
  function ResolvePath(root: string, target: string): (path: string)
  {
    Join(root, RelativePath(Sanitize(StripQuery(target))))
  }

  /**
   * The joined component never starts with `/`, so `Path::join` never
   * discards the root: every resolved path is the root, at most one `/`, and
   * the relative path.
   */
  lemma ResolveKeepsRoot(root: string, target: string)
    ensures var rel := RelativePath(Sanitize(StripQuery(target)));
            var path := ResolvePath(root, target);
            path[..|root|] == root && path[|path| - |rel|..] == rel &&
            |path| <= |root| + 1 + |rel|
  {
  }

  /** Whatever follows the first `?` of the target does not change the resolved path. */
  lemma QueryIgnored(root: string, target: string, query: string)
    requires !Contains(target, "?")
    ensures ResolvePath(root, target + "?" + query) == ResolvePath(root, target)
  {
    forall i | 0 <= i < |target| ensures target[i] != '?' {
      if target[i] == '?' { ContainsAt(target, i); }
    }
    FindAfterPlainPrefix(target, "?", query);
    assert (target + "?" + query)[..|target|] == target;
  }

  lemma {:induction false} ContainsAt(s: string, i: nat)
    requires i < |s| && s[i] == '?'
    ensures Contains(s, "?")
    decreases i
  {
    if i == 0 {
      assert s[..1] == "?";
    } else {
      ContainsAt(s[1..], i - 1);
    }
  }

  /**
   * A target that ends in `/` and holds no `?`, `../` or `%20` is served from
   * the `index.html` of that directory.
   */
  lemma DirectoryIndex(root: string, target: string)
    requires EndsWith(target, "/")
    requires !Contains(target, "?") && !Contains(target, "../") && !Contains(target, "%20")
    ensures ResolvePath(root, target) == Join(root, TrimStartChar(target, '/') + "index.html")
  {
    ReplaceNotContained(target, "../", "");
    ReplaceNotContained(target, "%20", " ");
  }

  /**
   * A target that does not end in `/` and holds no `?`, `../` or `%20` is
   * joined to the root with its leading and trailing `/` trimmed.
   */
  lemma FileTarget(root: string, target: string)
    requires !EndsWith(target, "/")
    requires !Contains(target, "?") && !Contains(target, "../") && !Contains(target, "%20")
    ensures ResolvePath(root, target) == Join(root, TrimChar(target, '/'))
  {
    ReplaceNotContained(target, "../", "");
    ReplaceNotContained(target, "%20", " ");
  }

  /** So an ordinary file request `/name`, such as `/style.css` or `/blog-post`, names `name` under the root. */
  lemma PlainFile(root: string, name: string)
    requires |name| > 0 && name[0] != '/' && name[|name| - 1] != '/'
    requires !Contains(name, "?") && !Contains(name, "../") && !Contains(name, "%20")
    ensures ResolvePath(root, "/" + name) == Join(root, name)
  {
    var target := "/" + name;
    assert target[1..] == name;
    assert !EndsWith(target, "/") by {
      assert target[|target| - 1] == name[|name| - 1];
    }
    ContainsAfterSlash(name, "?");
    ContainsAfterSlash(name, "../");
    ContainsAfterSlash(name, "%20");
    FileTarget(root, target);
    assert TrimStartChar(target, '/') == name;
    assert TrimEndChar(name, '/') == name;
  }

  /** A pattern that does not start with `/` occurs in `/` + `s` only if it occurs in `s`. */
  lemma ContainsAfterSlash(s: string, pat: string)
    requires |pat| > 0 && pat[0] != '/'
    requires !Contains(s, pat)
    ensures !Contains("/" + s, pat)
  {
    var t := "/" + s;
    assert t[1..] == s;
    assert !StartsWith(t, pat) by {
      if |pat| <= |t| { assert t[..|pat|][0] == '/'; }
    }
  }

  /** The target `/` is served from the root's `index.html`. */
  lemma RootIndex(root: string, target: string)
    requires target == "/"
    ensures ResolvePath(root, target) == Join(root, "index.html")
  {
    RootTargetPlain(target);
    DirectoryIndex(root, target);
    assert TrimStartChar(target, '/') + "index.html" == "index.html" by {
      RootTrimmed(target);
    }
  }

  lemma RootTargetPlain(target: string)
    requires target == "/"
    ensures EndsWith(target, "/")
    ensures !Contains(target, "?") && !Contains(target, "../") && !Contains(target, "%20")
  {
    var empty: string := [];
    assert target == "/" + empty;
    ContainsAfterSlash(empty, "?");
    ContainsAfterSlash(empty, "../");
    ContainsAfterSlash(empty, "%20");
  }

  lemma RootTrimmed(target: string)
    requires target == "/"
    ensures TrimStartChar(target, '/') == []
  {
    assert TrimStartChar(target, '/') == TrimStartChar(target[1..], '/');
    assert |target[1..]| == 0;
  }

  lemma StripQueryPlain(target: string)
    requires forall i :: 0 <= i < |target| ==> target[i] != '?'
    ensures StripQuery(target) == target
  {
    NotContainsPlain(target, "?");
  }

  /** Replacing a pattern whose first character does not occur changes nothing. */
  lemma {:induction false} ReplaceAbsent(s: string, pat: string, rep: string)
    requires |pat| > 0
    requires forall i :: 0 <= i < |s| ==> s[i] != pat[0]
    ensures Replace(s, pat, rep) == s
    decreases |s|
  {
    if |s| > 0 {
      assert !StartsWith(s, pat) by {
        if |pat| <= |s| { assert s[..|pat|][0] == s[0]; }
      }
      ReplaceAbsent(s[1..], pat, rep);
    }
  }

  /** Replacing a pattern that does not occur changes nothing. */
  lemma {:induction false} ReplaceNotContained(s: string, pat: string, rep: string)
    requires |pat| > 0 && !Contains(s, pat)
    ensures Replace(s, pat, rep) == s
    decreases |s|
  {
    if |s| > 0 {
      ReplaceNotContained(s[1..], pat, rep);
    }
  }

  /** A character that cannot start the pattern is kept and the scan moves on. */
  lemma ReplaceKeep(c: char, rest: string, pat: string, rep: string)
    requires |pat| > 0 && c != pat[0]
    ensures Replace([c] + rest, pat, rep) == [c] + Replace(rest, pat, rep)
  {
    var s := [c] + rest;
    assert !StartsWith(s, pat) by {
      if |pat| <= |s| { assert s[..|pat|][0] == c; }
    }
    assert s[1..] == rest;
  }

  /** An occurrence at the scan position is replaced and the scan resumes after it. */
  lemma ReplaceHit(rest: string, pat: string, rep: string)
    requires |pat| > 0
    ensures Replace(pat + rest, pat, rep) == rep + Replace(rest, pat, rep)
  {
    var s := pat + rest;
    assert s[..|pat|] == pat;
    assert s[|pat|..] == rest;
  }

  /** `n` parent references in a row: `../../..`. */
  function Parents(n: nat): (r: string)
    ensures |r| == 3 * n
  {
    if n == 0 then "" else "../" + Parents(n - 1)
  }

  /**
   * Parent references between parts that hold no `.` are deleted: with
   * `pre = "/a/"`, two of them and `post = "etc/passwd"`, the target
   * `/a/../../etc/passwd` sanitises to `/a/etc/passwd`.
   */
  lemma ParentsDeleted(pre: string, n: nat, post: string)
    requires forall i :: 0 <= i < |pre| ==> pre[i] != '.' && pre[i] != '%'
    requires forall i :: 0 <= i < |post| ==> post[i] != '.' && post[i] != '%'
    ensures Sanitize(pre + Parents(n) + post) == pre + post
  {
    ParentsRemoved(n, post);
    KeepPlainPrefix(pre, Parents(n) + post, "../", "");
    assert pre + Parents(n) + post == pre + (Parents(n) + post);
    ReplaceAbsent(pre + post, "%20", " ");
  }

  lemma {:induction false} ParentsRemoved(n: nat, post: string)
    requires forall i :: 0 <= i < |post| ==> post[i] != '.'
    ensures Replace(Parents(n) + post, "../", "") == post
  {
    if n == 0 {
      assert Parents(n) + post == post;
      ReplaceAbsent(post, "../", "");
    } else {
      ParentsRemoved(n - 1, post);
      ReplaceHit(Parents(n - 1) + post, "../", "");
      assert Parents(n) + post == "../" + (Parents(n - 1) + post);
    }
  }

  /** A prefix without the pattern's first character passes through the scan unchanged. */
  lemma {:induction false} KeepPlainPrefix(pre: string, rest: string, pat: string, rep: string)
    requires |pat| > 0
    requires forall i :: 0 <= i < |pre| ==> pre[i] != pat[0]
    ensures Replace(pre + rest, pat, rep) == pre + Replace(rest, pat, rep)
    decreases |pre|
  {
    if |pre| > 0 {
      ReplaceKeep(pre[0], pre[1..] + rest, pat, rep);
      assert pre + rest == [pre[0]] + (pre[1..] + rest);
      KeepPlainPrefix(pre[1..], rest, pat, rep);
      assert pre == [pre[0]] + pre[1..];
    } else {
      assert pre + rest == rest;
    }
  }

  /**
   * The single pass does not remove every parent reference: deleting the
   * `../` inside `....//` splices a new `../` together out of the dots before
   * it and the `/` after it.
   */
  lemma ParentReferenceSurvives(pre: string, post: string)
    requires Avoids(pre, '.') && Avoids(pre, '%')
    requires Avoids(post, '.') && Avoids(post, '%')
    ensures Sanitize(pre + "....//" + post) == pre + "../" + post
  {
    SplicedDots(post);
    KeepPlainPrefix(pre, "." + ("." + ("../" + ("/" + post))), "../", "");
    DotsSplice(pre, post);
    assert Replace(pre + "....//" + post, "../", "") == pre + "../" + post;
    AvoidsConcat(pre, "../", '%');
    AvoidsConcat(pre + "../", post, '%');
    ReplaceAbsent(pre + "../" + post, "%20", " ");
  }

  /** The scan keeps the two dots, deletes the `../` after them and keeps the `/` that follows. */
  lemma SplicedDots(post: string)
    requires Avoids(post, '.')
    ensures Replace("." + ("." + ("../" + ("/" + post))), "../", "") == "../" + post
  {
    var tail := "/" + post;
    var s1 := "../" + tail;
    assert Replace(s1, "../", "") == tail by {
      AvoidsConcat("/", post, '.');
      ReplaceAbsent(tail, "../", "");
      ReplaceHit(tail, "../", "");
    }
    assert Replace("." + s1, "../", "") == "." + tail by {
      DotMiss(s1);
    }
    assert Replace("." + ("." + s1), "../", "") == "." + ("." + tail) by {
      DotMiss("." + s1);
    }
    assert "." + ("." + tail) == "../" + post;
  }

  /** A `.` followed by another `.` does not start `../`, so the scan keeps it. */
  lemma DotMiss(x: string)
    requires |x| >= 2 && x[1] == '.'
    ensures Replace("." + x, "../", "") == "." + Replace(x, "../", "")
  {
    var s := "." + x;
    assert !StartsWith(s, "../") by {
      if |s| >= 3 {
        assert s[..3][2] == x[1];
      }
    }
    assert s[1..] == x;
  }

  lemma DotsSplice(pre: string, post: string)
    ensures pre + "....//" + post == pre + ("." + ("." + ("../" + ("/" + post))))
  {
  }

  /** So the target `/....//` is served from `index.html` in the parent of the root. */
  lemma EscapesRoot(root: string, target: string)
    requires target == "/....//"
    ensures ResolvePath(root, target) == Join(root, "../index.html")
  {
    var path := "/../";
    EscapeSanitized(target, path);
    ParentIndex(path);
  }

  lemma EscapeSanitized(target: string, path: string)
    requires target == "/....//" && path == "/../"
    ensures Sanitize(StripQuery(target)) == path
  {
    var pre, post := target[..1], target[7..];
    assert target == pre + "....//" + post;
    ParentReferenceSurvives(pre, post);
    StripQueryPlain(target);
    assert pre + "../" + post == path;
  }

  lemma ParentIndex(path: string)
    requires path == "/../"
    ensures RelativePath(path) == "../index.html"
  {
    assert EndsWith(path, "/");
    var dir := TrimStartChar(path, '/');
    assert dir == "../" by {
      assert path[1..] == "../";
      assert dir == TrimStartChar(path[1..], '/');
    }
    assert dir + "index.html" == "../index.html";
  }

  // ---------------------------------------------------------------------------
  // Extension fallback and response bytes
  // ---------------------------------------------------------------------------

  /** A file the server found: the path it read, its bytes, and the extension that picks the media type. */
  datatype Found = Found(path: string, contents: seq<Byte>, ext: Option<string>)

  /**
   * The lookup of `handle_client`: a path with an extension is read as it is;
   * a path without one is read as it is (served with no extension) and, failing
   * that, with `.html` appended (served as `html`). `None` is the 404 case.
   */
  function LookupFile(fs: map<string, seq<Byte>>, path: string): (r: Option<Found>)
  {
    if Extension(path).Some? then
      if path in fs then Some(Found(path, fs[path], Extension(path))) else None
    else if path in fs then Some(Found(path, fs[path], None))
    else
      var sibling := WithExtension(path, "html");
      if sibling in fs then Some(Found(sibling, fs[sibling], Some("html"))) else None
  }

  /**
   * Whatever the lookup serves is the content of a file that exists, and the
   * extension that selects the media type is that file's own extension.
   * A path with an extension is served exactly when that file exists.
   */
  lemma LookupServesFileWithItsExtension(fs: map<string, seq<Byte>>, path: string)
    ensures var r := LookupFile(fs, path);
            r.Some? ==> r.value.path in fs && fs[r.value.path] == r.value.contents &&
                        Extension(r.value.path) == r.value.ext
    ensures Extension(path).Some? ==> (LookupFile(fs, path).Some? <==> path in fs)
    ensures path in fs ==> LookupFile(fs, path).Some? && LookupFile(fs, path).value.path == path
    ensures Extension(path).None? && path !in fs ==>
              var sibling := WithExtension(path, "html");
              (LookupFile(fs, path).Some? <==> sibling in fs) &&
              (sibling in fs ==> LookupFile(fs, path) == Some(Found(sibling, fs[sibling], Some("html"))))
    ensures LookupFile(fs, path).Some? ==>
              LookupFile(fs, path).value.path in {path, WithExtension(path, "html")}
  {
    if Extension(path).None? && path !in fs {
      if FileName(path).Some? {
        WithExtensionHasExtension(path, "html");
      }
    }
  }

  /** A response, as the client reads it. */
  datatype Response = Ok200(contentType: string, body: seq<Byte>) | NotFound404

  /** `HTTP/1.1 404 NOT FOUND\r\n\r\n`, as ASCII bytes. */
  const NotFoundBytes: seq<Byte> :=
    [72, 84, 84, 80, 47, 49, 46, 49, 32, 52, 48, 52, 32, 78, 79, 84, 32, 70, 79, 85, 78, 68, 13, 10, 13, 10]

  const StatusOk: string := "HTTP/1.1 200 OK"
  const ContentTypeName: string := "Content-type: "
  const ContentLengthName: string := "Content-Length: "

  /** The header block of a 200 response; `headers` holds the extra lines, each prefixed with `\r\n`. */
  function OkHead(contentType: string, contentLength: nat, headers: string): string {
    StatusOk + "\r\n" + (ContentTypeName + contentType + "\r\n"
      + (ContentLengthName + Decimal(contentLength) + (headers + "\r\n\r\n")))
  }

  /** The bytes of a response, with a Content-Length that is the length of its body. */
  function Serialize(resp: Response, headers: string): seq<Byte> {
    match resp
    case Ok200(contentType, body) => Encode(OkHead(contentType, |body|, headers)) + body
    case NotFound404 => NotFoundBytes
  }

  /** The reload script is appended exactly to `html` files when reloading is on (the comparison is case-sensitive). */
  predicate InjectsScript(ext: Option<string>, reload: bool) {
    ext == Some("html") && reload
  }

  /** The response to a request for `path`: the found file, plus the reload script when it is injected. */
  function Respond(fs: map<string, seq<Byte>>, path: string, reload: bool,
                   mime: Option<string> -> string, script: seq<Byte>): (resp: Response)
  {
    match LookupFile(fs, path)
    case None => NotFound404
    case Some(f) => Ok200(mime(f.ext), f.contents + if InjectsScript(f.ext, reload) then script else [])
  }

  /**
   * Everything `handle_client` writes for a request: nothing when the request
   * header holds fewer than two spaces (the thread panics), else the response
   * to the target `RequestTarget` finds.
   */
  function Reply(request: string, root: string, reload: bool, headers: string, fs: map<string, seq<Byte>>,
                 mime: Option<string> -> string, script: seq<Byte>): seq<Byte>
  {
    match RequestTarget(request)
    case None => []
    case Some(target) => Serialize(Respond(fs, ResolvePath(root, target), reload, mime, script), headers)
  }

  /**
   * `handle_client` after the header has been read: resolves the target,
   * looks the file up, computes the Content-Length, writes the head and file
   * in one write and the reload script in a second one. A failed write panics
   * the connection's thread, so what reaches the client is a prefix of the
   * response, and the whole response when the connection holds. The
   * Content-Length it computes is that of the body it writes.
   */
  method HandleClient(stream: Socket, input: seq<Byte>, request: string, root: string, reload: bool,
                      headers: string, fs: map<string, seq<Byte>>, mime: Option<string> -> string,
                      script: seq<Byte>)
    requires HeaderLength(input).Some?
    requires Encode(request) == input[..HeaderLength(input).value]
    modifies stream
    ensures stream.sent == old(stream.sent) + Truncate(Reply(request, root, reload, headers, fs, mime, script), old(stream.room))
  {
    var buffer := ReadHeader(input);
    var target := RequestTarget(request);
    if target.None? {
      return;
    }
    var path := ResolvePath(root, target.value);
    ServeFile(stream, fs, path, reload, headers, mime, script);
  }

  /**
   * The second half of `handle_client`: looks the resolved path up, computes
   * the Content-Length and writes the 200 response, or writes the 404 one.
   */
  method ServeFile(stream: Socket, fs: map<string, seq<Byte>>, path: string, reload: bool, headers: string,
                   mime: Option<string> -> string, script: seq<Byte>)
    modifies stream
    ensures stream.sent == old(stream.sent) + Truncate(Serialize(Respond(fs, path, reload, mime, script), headers), old(stream.room))
  {
    var lookup := LookupFile(fs, path);
    if lookup.Some? {
      var f := lookup.value;
      var contentType := mime(f.ext);
      var contentLength := |f.contents|;
      var inject := f.ext == Some("html") && reload;
      if inject {
        contentLength := contentLength + |script|;
      }
      var head := Encode(OkHead(contentType, contentLength, headers));
      OkResponse(fs, path, reload, headers, mime, script, f, contentType, contentLength);
      WriteFileAndScript(stream, head, f.contents, inject, script);
    } else {
      assert Respond(fs, path, reload, mime, script) == NotFound404;
      var ok := stream.WriteAll(NotFoundBytes);
    }
  }

  /**
   * The two writes of a 200 response: the head and the file together, then,
   * when it is injected and the first write went through, the reload script.
   */
  method WriteFileAndScript(stream: Socket, head: seq<Byte>, contents: seq<Byte>, inject: bool, script: seq<Byte>)
    modifies stream
    ensures stream.sent == old(stream.sent) + Truncate(head + (contents + (if inject then script else [])), old(stream.room))
  {
    ghost var first := head + contents;
    ghost var tail := if inject then script else [];
    assert head + (contents + tail) == first + tail;
    TruncateAppend(first, tail, stream.room);
    var ok := stream.WriteAll(head + contents);
    if !ok {
      return;
    }
    if inject {
      ok := stream.WriteAll(script);
    } else {
      assert first + Truncate(tail, old(stream.room) - |first|) == first;
    }
  }

  /**
   * The response for a file that exists, laid out as `ServeFile` writes it:
   * the head announces the length of the file plus, when it is injected, the
   * reload script; then come the file and the script.
   */
  lemma OkResponse(fs: map<string, seq<Byte>>, path: string, reload: bool, headers: string,
                   mime: Option<string> -> string, script: seq<Byte>, f: Found,
                   contentType: string, contentLength: nat)
    requires LookupFile(fs, path) == Some(f)
    requires contentType == mime(f.ext)
    requires contentLength == |f.contents| + (if InjectsScript(f.ext, reload) then |script| else 0)
    ensures Serialize(Respond(fs, path, reload, mime, script), headers)
            == Encode(OkHead(contentType, contentLength, headers))
               + (f.contents + (if InjectsScript(f.ext, reload) then script else []))
  {
    var body := f.contents + (if InjectsScript(f.ext, reload) then script else []);
    assert Respond(fs, path, reload, mime, script) == Ok200(contentType, body);
    assert |body| == contentLength;
  }

  // ---------------------------------------------------------------------------
  // Plain or TLS, from the two peeked bytes (run)
  // ---------------------------------------------------------------------------

  /** `(b as char).is_alphabetic()` for a byte read as U+0000..U+00FF. */
  predicate IsAlphabetic(b: Byte) {
    (0x41 <= b <= 0x5A) || (0x61 <= b <= 0x7A) || b == 0xAA || b == 0xB5 || b == 0xBA
    || (0xC0 <= b <= 0xD6) || (0xD8 <= b <= 0xF6) || (0xF8 <= b <= 0xFF)
  }

  /** The two-byte buffer after `peek`: it starts zeroed and `peek` overwrites only the bytes it got. */
  function PeekBuffer(peeked: seq<Byte>): (buf: seq<Byte>)
    requires |peeked| <= 2
    ensures |buf| == 2 && buf[..|peeked|] == peeked
    ensures forall i :: |peeked| <= i < 2 ==> buf[i] == 0
  {
    peeked + seq(2 - |peeked|, _ => 0)
  }

  /** The connection is treated as TLS unless both peeked bytes are alphabetic. */
  predicate IsHttps(peeked: seq<Byte>)
    requires |peeked| <= 2
  {
    var buf := PeekBuffer(peeked);
    !(IsAlphabetic(buf[0]) && IsAlphabetic(buf[1]))
  }

  /**
   * The classification on the inputs that matter: a TLS record (whose first
   * byte is a content type such as 0x16, handshake, in section 5.1 of RFC 8446)
   * or anything starting below `A` is TLS; a peek that returned fewer than two
   * bytes leaves a zero byte and is TLS; two ASCII letters, as in `GET`, are
   * plain; so are two Latin-1 letters such as 0xC0.
   */
  lemma ClassifyConnections(peeked: seq<Byte>)
    requires |peeked| <= 2
    ensures |peeked| > 0 && peeked[0] == 0x16 ==> IsHttps(peeked)
    ensures (exists i :: 0 <= i < |peeked| && peeked[i] < 0x41) ==> IsHttps(peeked)
    ensures |peeked| < 2 ==> IsHttps(peeked)
    ensures |peeked| == 2 && (forall i :: 0 <= i < 2 ==> (0x41 <= peeked[i] <= 0x5A || 0x61 <= peeked[i] <= 0x7A))
            ==> !IsHttps(peeked)
    ensures !IsHttps([0xC0, 0xE9])
  {
    var buf := PeekBuffer(peeked);
    if |peeked| == 2 {
      assert buf == peeked;
    }
    assert PeekBuffer([0xC0, 0xE9]) == [0xC0, 0xE9];
  }
}
