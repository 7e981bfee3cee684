/**
 * The `--header` option of the command line (`src/main.rs`): every extra
 * header is checked, then appended to the header block of 200 responses on a
 * line of its own.
 */
module Cli {
  import opened Wrappers
  import opened Text
  import opened Utf8
  import opened Streams
  import DevServer

  const MissingColon: string := "Header must contain ':'"
  const LineBreak: string := "Header cannot contain line breaks"
  const NotAscii: string := "Header must be ASCII"

  /** A header the checks accept: it has a `:`, no `\r` or `\n`, and only ASCII characters. */
  predicate Acceptable(h: string) {
    ':' in h && '\r' !in h && '\n' !in h && IsAscii(h)
  }

  /**
   * The checks on one header, in order: the `:`, then the line breaks, then
   * ASCII. The first that fails decides the message.
   */
  function ValidateHeader(h: string): (r: Result<string, string>)
    ensures r.Ok? <==> Acceptable(h)
    ensures r.Ok? ==> r.value == h
    ensures ':' !in h ==> r == Err(MissingColon)
    ensures ':' in h && ('\r' in h || '\n' in h) ==> r == Err(LineBreak)
    ensures ':' in h && '\r' !in h && '\n' !in h && !IsAscii(h) ==> r == Err(NotAscii)
  {
    if ':' !in h then Err(MissingColon)
    else if '\r' in h || '\n' in h then Err(LineBreak)
    else if !IsAscii(h) then Err(NotAscii)
    else Ok(h)
  }

  /** The header block: each header on a line of its own, introduced by `\r\n`. */
  function Block(hs: seq<string>): (block: string)
    decreases |hs|
  {
    if |hs| == 0 then "" else "\r\n" + hs[0] + Block(hs[1..])
  }

  lemma {:induction false} BlockSnoc(hs: seq<string>, h: string)
    ensures Block(hs + [h]) == Block(hs) + "\r\n" + h
    decreases |hs|
  {
    if |hs| == 0 {
      assert hs + [h] == [h];
      assert [h][1..] == [];
    } else {
      assert (hs + [h])[1..] == hs[1..] + [h];
      BlockSnoc(hs[1..], h);
    }
  }

  /**
   * The header loop: for each header, `\r\n` is pushed, then the checked
   * header, or the first error leaves through `?`. `examined` counts the
   * headers that were checked. The check is made here after the push, where
   * the source's lazy `map` makes it before; the pushed text is discarded on
   * an error either way.
   */
  method BuildHeaders(hs: seq<string>) returns (r: Result<string, string>, examined: nat)
    ensures examined <= |hs|
    ensures r.Ok? <==> forall j :: 0 <= j < |hs| ==> Acceptable(hs[j])
    ensures r.Ok? ==> r.value == Block(hs) && examined == |hs|
    ensures r.Err? ==> examined > 0 && ValidateHeader(hs[examined - 1]) == Err(r.error)
    ensures r.Err? ==> forall j :: 0 <= j < examined - 1 ==> Acceptable(hs[j])
  {
    var headers := "";
    var i := 0;
    while i < |hs|
      invariant 0 <= i <= |hs|
      invariant forall j :: 0 <= j < i ==> Acceptable(hs[j])
      invariant headers == Block(hs[..i])
    {
      headers := headers + "\r\n";
      var header := ValidateHeader(hs[i]);
      if header.Err? {
        return Err(header.error), i + 1;
      }
      assert hs[..i + 1] == hs[..i] + [hs[i]];
      BlockSnoc(hs[..i], hs[i]);
      headers := headers + header.value;
      i := i + 1;
    }
    assert hs[..i] == hs;
    return Ok(headers), i;
  }

  /** Lines without `\r`, then the blank line, split back into those lines and two empty pieces. */
  lemma {:induction false} LinesThenBlank(line: string, hs: seq<string>)
    requires Avoids(line, '\r')
    requires forall j :: 0 <= j < |hs| ==> '\r' !in hs[j]
    ensures SplitOn(line + (Block(hs) + "\r\n\r\n"), "\r\n") == [line] + hs + ["", ""]
    decreases |hs|
  {
    if |hs| == 0 {
      assert line + (Block(hs) + "\r\n\r\n") == line + "\r\n\r\n";
      BlankLineEnd(line);
    } else {
      var h := hs[0];
      var rest := h + (Block(hs[1..]) + "\r\n\r\n");
      assert line + (Block(hs) + "\r\n\r\n") == line + "\r\n" + rest;
      CrlfLine(line, rest);
      assert Avoids(h, '\r');
      LinesThenBlank(h, hs[1..]);
      assert [h] + hs[1..] == hs;
      AppendAssoc([line], hs, ["", ""]);
    }
  }

  /**
   * The head of every 200 response, split on `\r\n`: the status line, the
   * two content lines, one line per accepted header, then the blank line.
   * No header can add a line of its own.
   */
  lemma HeadLines(contentType: string, contentLength: nat, hs: seq<string>)
    requires Avoids(contentType, '\r')
    requires forall j :: 0 <= j < |hs| ==> Acceptable(hs[j])
    ensures SplitOn(DevServer.OkHead(contentType, contentLength, Block(hs)), "\r\n")
            == [DevServer.StatusOk, DevServer.ContentTypeName + contentType,
                DevServer.ContentLengthName + Decimal(contentLength)] + hs + ["", ""]
  {
    var typeLine := DevServer.ContentTypeName + contentType;
    var lengthLine := DevServer.ContentLengthName + Decimal(contentLength);
    assert Avoids(lengthLine, '\r') by {
      assert Avoids(DevServer.ContentLengthName, '\r');
      assert Avoids(Decimal(contentLength), '\r') by {
        DecimalRoundTrip(contentLength);
      }
      AvoidsConcat(DevServer.ContentLengthName, Decimal(contentLength), '\r');
    }
    assert Avoids(typeLine, '\r') by {
      assert Avoids(DevServer.ContentTypeName, '\r');
      AvoidsConcat(DevServer.ContentTypeName, contentType, '\r');
    }
    assert Avoids(DevServer.StatusOk, '\r');
    HeadSplit(DevServer.StatusOk, typeLine, lengthLine, hs);
  }

  /**
   * What a client reads from a 200 response: the bytes are the head followed
   * by exactly the body; the head's first empty line is its last line, so the
   * body starts right after the first `\r\n\r\n`; and the third line is
   * `Content-Length: ` followed by digits that read back as the body's length.
   */
  lemma ContentLengthAnnounced(contentType: string, body: seq<Byte>, hs: seq<string>)
    requires Avoids(contentType, '\r')
    requires forall j :: 0 <= j < |hs| ==> Acceptable(hs[j])
    ensures var head := DevServer.OkHead(contentType, |body|, Block(hs));
            DevServer.Serialize(DevServer.Ok200(contentType, body), Block(hs)) == Encode(head) + body
    ensures var lines := SplitOn(DevServer.OkHead(contentType, |body|, Block(hs)), "\r\n");
            var name := DevServer.ContentLengthName;
            |lines| == |hs| + 5 && lines[|lines| - 2..] == ["", ""] &&
            (forall j :: 0 <= j < |lines| - 2 ==> |lines[j]| > 0) &&
            |lines[2]| > |name| && lines[2][..|name|] == name &&
            AllDigits(lines[2][|name|..]) && DecimalValue(lines[2][|name|..]) == |body|
  {
    var name := DevServer.ContentLengthName;
    var digits := Decimal(|body|);
    var lengthLine := name + digits;
    HeadLines(contentType, |body|, hs);
    DecimalRoundTrip(|body|);
    var lines := SplitOn(DevServer.OkHead(contentType, |body|, Block(hs)), "\r\n");
    assert lines == [DevServer.StatusOk, DevServer.ContentTypeName + contentType, lengthLine] + hs + ["", ""];
    assert lines[2] == lengthLine;
    assert lengthLine[..|name|] == name && lengthLine[|name|..] == digits;
    forall j | 0 <= j < |lines| - 2
      ensures |lines[j]| > 0
    {
      if j >= 3 {
        assert lines[j] == hs[j - 3];
        assert ':' in hs[j - 3];
      } else if j == 0 {
        assert |DevServer.StatusOk| > 0;
      }
    }
  }

  /** Three lines without `\r`, the header block and the blank line, split on `\r\n`. */
  lemma HeadSplit(status: string, typeLine: string, lengthLine: string, hs: seq<string>)
    requires Avoids(status, '\r') && Avoids(typeLine, '\r') && Avoids(lengthLine, '\r')
    requires forall j :: 0 <= j < |hs| ==> '\r' !in hs[j]
    ensures SplitOn(status + "\r\n" + (typeLine + "\r\n" + (lengthLine + (Block(hs) + "\r\n\r\n"))), "\r\n")
            == [status, typeLine, lengthLine] + hs + ["", ""]
  {
    var tail := lengthLine + (Block(hs) + "\r\n\r\n");
    LinesThenBlank(lengthLine, hs);
    CrlfLine(typeLine, tail);
    CrlfLine(status, typeLine + "\r\n" + tail);
    ThreeLines(status, typeLine, lengthLine, hs, ["", ""]);
  }

  lemma ThreeLines<T>(a: T, b: T, c: T, xs: seq<T>, ys: seq<T>)
    ensures [a] + ([b] + ([c] + xs + ys)) == [a, b, c] + xs + ys
  {
  }
}
