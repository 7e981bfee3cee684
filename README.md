# devserver, modelled in Dafny

devserver is a small development web server. It serves the files under a root
directory over HTTP, or over TLS when a connection does not start with two
letters. It adds configured headers to every 200 response. When reloading is
on, it injects a script into HTML pages, and that script opens a WebSocket to
a side port. A file watcher runs the configured build actions on every data
change. It then wakes the browser sessions, and each session sends a text
frame. The frame carries the first build error, or nothing when the build
succeeded.

This project models that core:

- `DevServer` (`server.dfy`), from `src/lib.rs`:
  - reading the request header;
  - resolving a request target to a file path;
  - the extension fallback;
  - the bytes of the 200 and 404 responses, with the reload script injected;
  - the plain/TLS test on the two peeked bytes.
- `Reload` (`reload.dfy`), from `src/reload.rs`:
  - the key scan and the 101 response of the WebSocket handshake;
  - the frame writer and a reader of frames;
  - the watcher's build, notify and drain step, as a class over an event queue;
  - one browser session's send loop.
- `Cli` (`cli.dfy`), from `src/main.rs`: the `--header` validation and the header block it builds. It also proves how that block lands in the 200 response.
- `LegacyServer` and `LegacyReload` (`legacy_server.dfy`, `legacy_reload.dfy`), from the older copy in `devserver_lib/src/`:
  - the reload script and TLS are cargo features;
  - every WebSocket message is the empty frame;
  - any creation or modification wakes the sessions, with no coalescing.

The older `read_header` (`devserver_lib/src/lib.rs:22-33`) is the same text as the current one. So are the older path resolution and lookup (`devserver_lib/src/lib.rs:42-88`), `parse_websocket_handshake` (`devserver_lib/src/reload.rs:16-40`) and `handle_websocket_handshake` (`devserver_lib/src/reload.rs:55-60`). They are modelled once, by the `DevServer` and `Reload` members cited below. `LegacyServer.HandleClient` calls them.

Supporting modules:

- `Wrappers`: `Option` and `Result`.
- `Text`: the string operations of Rust's `str` that the code uses (`find`, `split`, `replace`, `trim`, `trim_matches`, decimal formatting).
- `Utf8`: UTF-8 encoding.
- `Paths`: `Path::join`, `file_name`, `extension` and `with_extension` on Unix.
- `Streams`: a TCP stream as a byte sink. Its `room` is the number of bytes the peer still takes before the connection breaks. `write_all` emits a prefix of its data and fails when the data does not fit.

A write that fails leaves a prefix of the intended bytes on the wire. Every method that writes is therefore specified as `sent == old(sent) + Truncate(intended, old(room))`.

Some behaviours of the code that are easy to misread:

- The plain/TLS test uses `char::is_alphabetic` on a byte read as U+0000..U+00FF. Its comment (`src/lib.rs:164-166`) speaks of HTTP verbs, but Latin-1 letters such as 0xC0 count as letters too, not only ASCII ones.
- When the key header appears twice, the last one wins, not the first.
- When the key is absent, the token is computed from `""` rather than failing.
- The current watcher builds only on `Modify(Data)` events, not on creations. The older one reacts to every creation and modification, renames and metadata changes included. It does not coalesce bursts.

## Model

| member | source | states |
|---|---|---|
| `DevServer.ReadUntil` | src/lib.rs:25 | `read_until(b'\n')` stops just after the next line feed, or at the end of the input; no earlier byte is a line feed |
| `DevServer.ReadHeader` | src/lib.rs:21-32 | the buffer is the shortest prefix of the input that ends with `\r\n\r\n`; the input must hold a terminator because the loop never ends at end of input |
| `DevServer.HeaderLengthFromMeaning` | src/lib.rs:24-30 | the header length found is terminated, no shorter prefix is, and none is found only when no prefix is terminated |
| `DevServer.ShortestHeader` | src/lib.rs:27-29 | the header read ends with the terminator, and no shorter prefix of it does |
| `DevServer.RequestTargetOfWords` | src/lib.rs:49-53 | the target is the trimmed text between the first and the second space of the request header |
| `DevServer.TargetFromHostLine` | src/lib.rs:49-53 | a request line without spaces takes its target from the next header line: `GET\r\nHost: x y\r\n\r\n` targets `x` |
| `DevServer.StripQuery` | src/lib.rs:55-58 | the result is a prefix of the target holding no `?`; when the target has a `?`, the character right after the result is `?`, so the cut is at the first one; a target without `?` is kept whole |
| `DevServer.QueryIgnored` | src/lib.rs:55-58 | anything after the first `?` does not change the resolved path |
| `DevServer.ParentsDeleted` | src/lib.rs:60-61 | a run of `../` between parts without `.` or `%` is deleted, e.g. `/a/../../etc/passwd` becomes `/a/etc/passwd` |
| `DevServer.ParentReferenceSurvives` | src/lib.rs:60-61 | the one-pass deletion does not remove every parent reference: `....//` becomes `../` |
| `DevServer.EscapesRoot` | src/lib.rs:60-70 | the target `/....//` resolves to `../index.html` under the root, outside the served directory |
| `DevServer.RelativePath` | src/lib.rs:62-70 | the component joined to the root never starts with `/` |
| `DevServer.ResolveKeepsRoot` | src/lib.rs:62-70 | every resolved path starts with the root and ends with the relative component, with at most one `/` added |
| `DevServer.ReplaceNotContained` | src/lib.rs:60-61 | `str::replace` leaves a string holding no occurrence of the pattern unchanged |
| `DevServer.DirectoryIndex` | src/lib.rs:60-67 | a target ending in `/` with no `?`, `../` or `%20` resolves to that directory's `index.html` under the root, dots and all |
| `DevServer.FileTarget` | src/lib.rs:60-70 | a target not ending in `/` with no `?`, `../` or `%20` resolves to the root joined with the target trimmed of `/` at both ends |
| `DevServer.PlainFile` | src/lib.rs:60-70 | an ordinary request `/name` (such as `/style.css` or `/blog-post`) resolves to `name` joined to the root |
| `DevServer.RootIndex` | src/lib.rs:62-67 | the target `/` resolves to the root's `index.html` |
| `Paths.Join` | src/lib.rs:63-70 | `Path::join` keeps the base and appends the component, inserting one `/` exactly when the base is non-empty and does not end with `/`; a component starting with `/` replaces the base |
| `Paths.ExtensionEdgeCases` | src/lib.rs:72 | `Path::extension` gives `""` for `foo.`, nothing for `.x`, `..` and `README`, and the part after the last dot otherwise |
| `Paths.ExtensionMeaning` | src/lib.rs:72 | an extension is the text after the last `.` of the final component, which is not that component's first character |
| `Paths.WithExtensionHasExtension` | src/lib.rs:84 | the `.html` sibling has the extension `html` |
| `DevServer.LookupServesFileWithItsExtension` | src/lib.rs:72-87 | what is served is an existing file's content, with that file's own extension; a path with an extension is served exactly when it exists; an existing path is served as itself; a missing path without extension is served exactly when its `.html` sibling exists, as that sibling with extension `html`; nothing but the path or that sibling is ever served |
| `DevServer.OkResponse` | src/lib.rs:93-109 | the 200 response is the head with the computed Content-Length, then the file, then the script when injected |
| `DevServer.WriteFileAndScript` | src/lib.rs:107-115 | the head and file go out in one write, the script in a second; a prefix of their concatenation reaches the client |
| `DevServer.ServeFile` | src/lib.rs:72-123 | the bytes written are a prefix of the serialised response for the resolved path, or of `HTTP/1.1 404 NOT FOUND\r\n\r\n` |
| `DevServer.HandleClient` | src/lib.rs:35-123 | reads the header, then writes a prefix of the reply to the request target; a header holding fewer than two spaces writes nothing, since the split on `' '` runs over the whole header and not only the request line |
| `DevServer.ClassifyConnections` | src/lib.rs:167-170 | a TLS record (0x16) or any byte below `A` is TLS; fewer than two peeked bytes is TLS; two ASCII letters are plain; so are two Latin-1 letters |
| `Text.FindLeftmost` | src/lib.rs:56-57 | `str::find` reports the leftmost occurrence, and nothing exactly when there is none |
| `Reload.ExtractKey` | src/reload.rs:16-26 | the key loop over the `\r\n`-separated lines computes the scan from `""`, or panics |
| `Reload.KeyAbsent` | src/reload.rs:19-26 | without a key line the key is the starting `""`, with no failure |
| `Reload.LastKeyWins` | src/reload.rs:21-26 | the last key line decides the key: its trimmed text between the first and second `:` |
| `Reload.KeyScanPanics` | src/reload.rs:22-24 | the scan panics exactly when some line is a key name with no `:` |
| `Reload.BareKeyHeader` | src/reload.rs:23-24 | the line `Sec-WebSocket-Key` alone makes `parts[1]` panic |
| `Reload.HandshakeLines` | src/reload.rs:28-39 | the 101 response is the status line, the Upgrade, Connection and Accept lines, then a blank line, following section 4.2.2 of RFC 6455 |
| `Reload.HandleHandshake` | src/reload.rs:63-68 | a panic in the scan writes nothing; otherwise a prefix of the 101 response with the token for the key reaches the client |
| `Reload.LowByte` | src/reload.rs:53 | `as u8` is at most the length |
| `Reload.LowByteIsRemainder` | src/reload.rs:53 | `as u8` is the length modulo 256 |
| `Reload.SendWebsocketMessage` | src/reload.rs:43-61 | three writes put a prefix of `[129, len as u8] ++ utf8(message)` on the wire, the whole frame exactly when the call succeeds |
| `Reload.WriteNext` | src/reload.rs:50-57 | after a failed write inside a frame, what was sent is the cut of the whole stream at the connection's room |
| `Reload.FrameRoundTrip` | src/reload.rs:43-61 | a message of at most 125 bytes reads back, per section 5.2 of RFC 6455, as a final unmasked text frame with exactly that payload; `None` as the empty frame |
| `Reload.LongFrameMisread` | src/reload.rs:47-54 | a longer message is refused by the reader, or read with a payload of another length |
| `Reload.FirstFailureIndex` | src/reload.rs:92-97 | the first failing action, with every earlier one succeeding |
| `Reload.FirstFailure` | src/reload.rs:91-97 | the outcome is `None` exactly when every action succeeds, else the text of the first failure |
| `Reload.ActionsRun` | src/reload.rs:92-97 | actions after the first failure are never invoked |
| `Reload.SecondActionFails` | src/reload.rs:92-97 | with the second of three actions failing, the outcome is its text and the third is not invoked |
| `Reload.Watcher.constructor` | src/reload.rs:74-75 | the shared outcome starts as `None`, with no wakes and an empty channel |
| `Reload.Watcher.Deliver` | src/reload.rs:79 | the watcher appends an event to the channel |
| `Reload.Watcher.Build` | src/reload.rs:89-97 | the outcome is reset, then the actions run in order until the first failure, whose text becomes the outcome |
| `Reload.Watcher.Step` | src/reload.rs:85-105 | a data change builds, wakes once and drains the queue; any other event or a watch error changes nothing but the queue |
| `Reload.Watcher.RunToIdle` | src/reload.rs:85-105 | a burst of queued events builds and wakes at most once: exactly once if it holds a data change, with one build's outcome and action log appended; otherwise outcome, wakes, builds and the action log are unchanged |
| `Reload.SessionLoop` | src/reload.rs:119-126 | a session sends a prefix of its frames, cut where the connection broke, and ends exactly when not all fit |
| `Cli.ValidateHeader` | src/main.rs:59-69 | a header is accepted exactly when it has `:`, no `\r` or `\n`, and only ASCII; the checks run in that order and the first failure decides the message |
| `Cli.BlockSnoc` | src/main.rs:71-72 | each accepted header adds `\r\n` and itself to the end of the block |
| `Cli.BuildHeaders` | src/main.rs:58-73 | succeeds exactly when every header is acceptable, with the in-order block; otherwise stops at the first invalid header, with its message, examining none after it |
| `Cli.LinesThenBlank` | src/main.rs:71-72 | the block of accepted headers followed by the blank line splits into one line per header |
| `Cli.ContentLengthAnnounced` | src/lib.rs:93-109 | the 200 response is the head followed by the body; the head splits into lines ending in the blank line, and its third line is `Content-Length: ` followed by digits that read back as the length of the body |
| `Cli.HeadLines` | src/lib.rs:102-105 | a 200 head splits on `\r\n` into the status line, the two content lines, exactly one line per accepted header, and the blank line, so no header can inject a line |
| `LegacyServer.RespondAgainstCurrent` | devserver_lib/src/lib.rs:94-123 | the older response is the current one with reloading off unless the `reload` feature is compiled in; without it the body is the file alone |
| `LegacyServer.HandleClient` | devserver_lib/src/lib.rs:36-131 | the older `handle_client` writes a prefix of its response, whose Content-Length counts the script only under the `reload` feature |
| `LegacyServer.ClassifyUnderFeatures` | devserver_lib/src/lib.rs:175-182 | without the `https` feature every connection is plain, even a TLS record; with it the test is the current Latin-1 one |
| `LegacyReload.SendWebsocketMessage` | devserver_lib/src/reload.rs:43-53 | two writes put a prefix of `[129, 0]` on the wire, all of it exactly when the call succeeds |
| `LegacyReload.EmptyFrameIsEmptyTextFrame` | devserver_lib/src/reload.rs:46-50 | `[129, 0]` is the current frame for `None`, and reads as a final text frame with no payload |
| `LegacyReload.FilterWiderThanCurrent` | devserver_lib/src/reload.rs:73-81 | creations and all modifications qualify, renames and metadata changes included; errors do not; every current trigger is one |
| `LegacyReload.QualifyingCount` | devserver_lib/src/reload.rs:75-78 | the number of qualifying events, at most the number of events |
| `LegacyReload.ErrorMessages` | devserver_lib/src/reload.rs:80 | the watch errors printed, at most one per event |
| `LegacyReload.Watcher.OnEvent` | devserver_lib/src/reload.rs:73-81 | a qualifying event wakes the sessions once; an error is printed; anything else does nothing |
| `LegacyReload.Watcher.OnEvents` | devserver_lib/src/reload.rs:73-81 | a run of events wakes the sessions once per qualifying event and prints every error, in order |
| `LegacyReload.NoCoalescing` | devserver_lib/src/reload.rs:75-78 | a burst of `n` qualifying events gives `n` wakes |
| `LegacyReload.EmptyFrames` | devserver_lib/src/reload.rs:96-102 | `n` wakes send `2n` bytes |
| `LegacyReload.EmptyFramesAreNoneFrames` | devserver_lib/src/reload.rs:96-102 | the older session sends what the current one sends when every wake observes `None` |
| `LegacyReload.SessionLoop` | devserver_lib/src/reload.rs:96-102 | a session sends a prefix of one empty frame per wake, and ends exactly when they do not all fit |

## Left out

- TCP listeners, threads, the `native_tls` acceptor and its identity: I/O and foreign TLS. Only the test on the two peeked bytes is modelled. A peek that fails (`expect`) is not modelled.
- The mutex and condition variable: lost and spurious wakeups, and the lock held across sends, are concurrency. A session is given the outcomes it observed, one per wake.
- The `notify` watcher setup, its poll interval, the channel's mechanics and the `todo!()` when the channel closes. Events are a datatype and the channel is a sequence.
- SHA-1, Base64, `mime::from_extension` and the bytes of `reload.html` are parameters (`sha1`, `base64`, `mime`, `script`); the mime module is not part of this model.
- `fs::read` is a map from path to bytes; a read error is a missing key. Path normalisation by the operating system is not modelled.
- `str::from_utf8(..).unwrap()`: requests are given as text whose UTF-8 encoding is the header read, so invalid UTF-8 is excluded by a precondition.
- `flush`, the `println!` warnings and the `unwrap` on writes: a failed write is modelled as ending the handler after the bytes that got out.
- `run`'s spawning of the reload watcher: unconditional in the current code, only under the `reload` feature and flag in the older one. This is thread setup and is not modelled.
- The `devserver::run` call in `src/main.rs` with seven arguments against six parameters, and the older `run`'s three-argument call to the two-argument `watch_for_reloads`, do not compile as shown and are not modelled. Neither is the rest of `src/main.rs`: argument parsing, the current directory and the `sh -c` actions.
- `Cli.BuildHeaders`: the model pushes `\r\n` before validating the header, while the source validates first (the `map` closure runs when the `for` loop takes the item, before `push_str`). No caller can tell, because an error aborts the program through `?` and the block is discarded.
- `Reload.ParseFrame`: the reader does not reject a 64-bit length whose top bit is set, nor a non-minimal length encoding. Neither occurs in a frame of at most 125 bytes.
- The payloads of the event sub-kinds (`Modify(Data(..))`, `Create(..)`) are not modelled; only the kinds are.
- The 404 text is the constant `NotFoundBytes`, its ASCII bytes written out.
