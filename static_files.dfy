/** Serving the web application from the SPIFFS partition: the file a URI names,
    its content type, and the chunked streaming of its gzip-compressed copy. */
module StaticFiles {
  import opened Common
  import opened Http

  /** ESP-IDF's longest VFS mount prefix. */
  const ESP_VFS_PATH_MAX: nat := 15

  /** Size of the path buffer, terminating NUL included. */
  const FILE_PATH_MAX: nat := ESP_VFS_PATH_MAX + 128

  // ---------------------------------------------------------------------------
  // Content type

  /** `CHECK_FILE_EXTENSION`: the path ends in `ext`, ignoring ASCII case. A path
      shorter than the extension does not match. */
  predicate HasExtension(path: string, ext: string)
  {
    |path| >= |ext| && EqualsIgnoreCase(path[|path| - |ext|..], ext)
  }

  datatype MimeEntry = MimeEntry(ext: string, mime: string)

  /** The extensions `set_content_type_from_file` tests, in its order. */
  const MIME_TABLE: seq<MimeEntry> := [
    MimeEntry(".html", "text/html"),
    MimeEntry(".js", "application/javascript"),
    MimeEntry(".css", "text/css"),
    MimeEntry(".png", "image/png"),
    MimeEntry(".ico", "image/x-icon"),
    MimeEntry(".svg", "image/svg+xml"),
    MimeEntry(".pdf", "application/pdf"),
    MimeEntry(".woff2", "font/woff2")
  ]

  const DEFAULT_TYPE: string := "text/plain"

  /** The position of the first entry whose extension the path has, or `|table|`. */
  function FirstMatch(path: string, table: seq<MimeEntry>): (k: nat)
    ensures k <= |table|
    ensures k < |table| ==> HasExtension(path, table[k].ext)
    ensures forall j :: 0 <= j < k ==> !HasExtension(path, table[j].ext)
    decreases |table|
  {
    if table == [] then 0
    else if HasExtension(path, table[0].ext) then 0
    else
      var k := FirstMatch(path, table[1..]);
      assert forall j :: 1 <= j < |table| ==> table[j] == table[1..][j - 1];
      k + 1
  }

  /** The type of the first entry of `table`, in order, whose extension the path
      has; `default` when there is none. */
  function TypeFromTable(path: string, table: seq<MimeEntry>, default: string): (t: string)
    ensures (forall k :: 0 <= k < |table| ==> !HasExtension(path, table[k].ext)) ==> t == default
    ensures forall k :: (0 <= k < |table| && HasExtension(path, table[k].ext)
      && (forall j :: 0 <= j < k ==> !HasExtension(path, table[j].ext))) ==> t == table[k].mime
  {
    var k := FirstMatch(path, table);
    if k < |table| then table[k].mime else default
  }

  /** `set_content_type_from_file`: the table above, then `text/plain`. */
  function ContentTypeFromFile(path: string): string
  {
    TypeFromTable(path, MIME_TABLE, DEFAULT_TYPE)
  }

  /** One differing character rules an extension out. */
  lemma Mismatch(path: string, ext: string, i: nat)
    requires |path| >= |ext| && i < |ext|
    requires ToLower(path[|path| - |ext| + i]) != ToLower(ext[i])
    ensures !HasExtension(path, ext)
  {
    assert path[|path| - |ext|..][i] == path[|path| - |ext| + i];
  }

  /** Paths that differ only in ASCII case have the same extensions. */
  lemma SameExtensions(p: string, q: string, ext: string)
    requires EqualsIgnoreCase(p, q)
    ensures HasExtension(p, ext) <==> HasExtension(q, ext)
  {
    if |p| >= |ext| {
      var ps, qs := p[|p| - |ext|..], q[|q| - |ext|..];
      forall i | 0 <= i < |ext|
        ensures ToLower(ps[i]) == ToLower(qs[i])
      {
        assert ps[i] == p[|p| - |ext| + i] && qs[i] == q[|q| - |ext| + i];
      }
    }
  }

  /** The test ignores case: paths that differ only in ASCII case are served with
      the same type. */
  lemma ContentTypeIgnoresCase(p: string, q: string)
    requires EqualsIgnoreCase(p, q)
    ensures ContentTypeFromFile(p) == ContentTypeFromFile(q)
  {
    forall k | 0 <= k < |MIME_TABLE|
      ensures HasExtension(p, MIME_TABLE[k].ext) <==> HasExtension(q, MIME_TABLE[k].ext)
    {
      SameExtensions(p, q, MIME_TABLE[k].ext);
    }
    var kp, kq := FirstMatch(p, MIME_TABLE), FirstMatch(q, MIME_TABLE);
    assert kp == kq;
  }

  /** "/assets/MAIN.JS" is a script. */
  lemma ContentTypeExample()
    ensures ContentTypeFromFile("/assets/MAIN.JS") == "application/javascript"
  {
    Mismatch("/assets/MAIN.JS", ".html", 0);
    assert HasExtension("/assets/MAIN.JS", ".js");
  }

  // ---------------------------------------------------------------------------
  // Paths

  predicate EndsInSlash(uri: string)
  {
    |uri| > 0 && uri[|uri| - 1] == '/'
  }

  /** The file a URI names, before ".gz" is added: every URI ending in '/' names the
      application's index page, whatever comes before the slash. */
  function ResolvedPath(base: string, uri: string): string
  {
    if EndsInSlash(uri) then base + "/index.html" else base + uri
  }

  /** The paths `strcat` can extend by ".gz" within the path buffer. */
  predicate FitsPathBuffer(base: string, uri: string)
  {
    |ResolvedPath(base, uri)| + |".gz"| < FILE_PATH_MAX
  }

  /** Directory URIs all lead to the same file, other URIs to distinct files. */
  lemma ResolvedPathCases(base: string, u1: string, u2: string)
    ensures EndsInSlash(u1) && EndsInSlash(u2) ==> ResolvedPath(base, u1) == ResolvedPath(base, u2)
    ensures !EndsInSlash(u1) && !EndsInSlash(u2) ==> (ResolvedPath(base, u1) == ResolvedPath(base, u2) <==> u1 == u2)
  {
    if !EndsInSlash(u1) && !EndsInSlash(u2) && ResolvedPath(base, u1) == ResolvedPath(base, u2) {
      assert u1 == ResolvedPath(base, u1)[|base|..];
    }
  }

  /** The headers of a file that was found: a month of caching for a named file,
      none for a directory index, and the gzip encoding in every case. */
  function FileHeaders(uri: string): (hs: seq<Event>)
    ensures SetHeader("Content-Encoding", "gzip") in hs
    ensures SetHeader("Cache-Control", "max-age=2592000") in hs <==> !EndsInSlash(uri)
    ensures forall i :: 0 <= i < |hs| ==> hs[i].SetHeader?
  {
    (if EndsInSlash(uri) then [] else [SetHeader("Cache-Control", "max-age=2592000")])
      + [SetHeader("Content-Encoding", "gzip")]
  }

  lemma ChunkedBodyAppend(events: seq<Event>, e: Event)
    ensures ChunkedBody(events + [e]) == ChunkedBody(events) + (if e.SendChunk? then e.data else [])
  {
    assert (events + [e])[..|events|] == events;
  }

  lemma {:induction false} ChunkedBodyConcat(a: seq<Event>, b: seq<Event>)
    ensures ChunkedBody(a + b) == ChunkedBody(a) + ChunkedBody(b)
    decreases |b|
  {
    if b == [] {
      assert a + b == a;
    } else {
      var b', last := b[..|b| - 1], b[|b| - 1];
      var tail := if last.SendChunk? then last.data else [];
      ChunkedBodyConcat(a, b');
      assert (a + b)[..|a + b| - 1] == a + b';
      assert (a + b)[|a + b| - 1] == last;
      calc {
        ChunkedBody(a + b);
        ChunkedBody(a + b') + tail;
        (ChunkedBody(a) + ChunkedBody(b')) + tail;
        ChunkedBody(a) + (ChunkedBody(b') + tail);
        ChunkedBody(a) + ChunkedBody(b);
      }
    }
  }

  lemma {:induction false} ChunkedBodyNoChunks(events: seq<Event>)
    requires forall i :: 0 <= i < |events| ==> !events[i].SendChunk?
    ensures ChunkedBody(events) == []
    decreases |events|
  {
    if events != [] {
      ChunkedBodyNoChunks(events[..|events| - 1]);
    }
  }

  // ---------------------------------------------------------------------------
  // The handler

  /** The read/send loop: `read` into the scratch buffer, send what was read as a
      chunk, until a read returns 0 or -1; then the empty chunk. Reads are numbered
      from 0: read `k` fails (returns -1) when `readFails(k)`, otherwise it returns
      the next min(10240, left) bytes. Chunk sends are numbered from 0: send `k`
      succeeds when `chunkOk(k)`, and a failed send delivers nothing. A failed send
      aborts the chunked body and answers 500. */
  method StreamFile(content: seq<byte>, readFails: nat -> bool, chunkOk: nat -> bool)
    returns (sent: seq<Event>)
    ensures ChunkedBody(sent) <= content
    ensures forall i :: 0 <= i < |sent| && sent[i].SendChunk? ==> |sent[i].data| <= SCRATCH_BUFSIZE
    ensures forall i :: 0 <= i < |sent| ==> sent[i].SendChunk? || sent[i] == SendErr(500, "Failed to send file")
    ensures (Complete(sent) && sent[|sent| - 1] == SendChunk([]))
      || (|sent| >= 2 && sent[|sent| - 2..] == [SendChunk([]), SendErr(500, "Failed to send file")])
    ensures (forall k :: !readFails(k)) && (forall k :: chunkOk(k)) ==>
      Complete(sent) && ChunkedBody(sent) == content
  {
    sent := [];
    var pos := 0;
    var readCalls := 0;
    var sends := 0;
    var readBytes := 1;
    while readBytes > 0
      invariant 0 <= pos <= |content|
      invariant ChunkedBody(sent) == content[..pos]
      invariant DataChunks(sent)
      invariant readBytes > 0 || pos == |content| || (readCalls > 0 && readFails(readCalls - 1))
      decreases |content| - pos, readBytes
    {
      if readFails(readCalls) {
        readBytes := -1;
      } else {
        readBytes := if |content| - pos < SCRATCH_BUFSIZE then |content| - pos else SCRATCH_BUFSIZE;
      }
      readCalls := readCalls + 1;
      if readBytes > 0 {
        var piece := content[pos..pos + readBytes];
        if !chunkOk(sends) {
          AbortedChunks(sent);
          sent := sent + [SendChunk([]), SendErr(500, "Failed to send file")];
          assert content[..pos] <= content;
          return;
        }
        ChunkedBodyAppend(sent, SendChunk(piece));
        assert content[..pos] + piece == content[..pos + readBytes];
        sent := sent + [SendChunk(piece)];
        sends := sends + 1;
        pos := pos + readBytes;
      }
    }
    EndChunked(sent);
    sent := sent + [SendChunk([])];
    assert content[..pos] <= content;
  }

  /** Chunks of data of at most 10240 bytes each. */
  predicate DataChunks(sent: seq<Event>)
  {
    forall i :: 0 <= i < |sent| ==> sent[i].SendChunk? && 0 < |sent[i].data| <= SCRATCH_BUFSIZE
  }

  /** Chunks of data followed by the empty chunk form a complete response with the
      same body. */
  lemma EndChunked(sent: seq<Event>)
    requires DataChunks(sent)
    ensures var all := sent + [SendChunk([])];
      Complete(all) && all[|all| - 1] == SendChunk([]) && ChunkedBody(all) == ChunkedBody(sent)
      && forall i :: 0 <= i < |all| ==> all[i].SendChunk? && |all[i].data| <= SCRATCH_BUFSIZE
  {
    var all := sent + [SendChunk([])];
    assert forall i :: 0 <= i < |sent| ==> all[i] == sent[i];
    ChunkedBodyAppend(sent, SendChunk([]));
  }

  /** Chunks of data cut short by the empty chunk and a 500 keep their body. */
  lemma AbortedChunks(sent: seq<Event>)
    requires DataChunks(sent)
    ensures var all := sent + [SendChunk([]), SendErr(500, "Failed to send file")];
      ChunkedBody(all) == ChunkedBody(sent)
      && all[|all| - 2..] == [SendChunk([]), SendErr(500, "Failed to send file")]
      && forall i :: 0 <= i < |all| ==>
        (all[i].SendChunk? && |all[i].data| <= SCRATCH_BUFSIZE) || all[i] == SendErr(500, "Failed to send file")
  {
    var all := sent + [SendChunk([]), SendErr(500, "Failed to send file")];
    assert forall i :: 0 <= i < |sent| ==> all[i] == sent[i];
    ChunkedBodyAppend(sent, SendChunk([]));
    ChunkedBodyAppend(sent + [SendChunk([])], SendErr(500, "Failed to send file"));
    assert all == (sent + [SendChunk([])]) + [SendErr(500, "Failed to send file")];
  }

  /** `rest_common_get_handler`. `files` is the file system: a path it lacks cannot be
      opened. The handler does not consult the network gate. */
  method RestCommonGetHandler(base: string, uri: string, files: map<string, seq<byte>>,
                              readFails: nat -> bool, chunkOk: nat -> bool)
    returns (events: seq<Event>)
    requires |uri| > 0 && FitsPathBuffer(base, uri)
    ensures |events| >= 2 && events[0] == SetType(ContentTypeFromFile(ResolvedPath(base, uri)))
    ensures ResolvedPath(base, uri) + ".gz" !in files ==>
      events == [SetType(ContentTypeFromFile(ResolvedPath(base, uri)))] + CAPTIVE_REDIRECT
    ensures ResolvedPath(base, uri) + ".gz" in files ==>
      |events| >= |FileHeaders(uri)| + 2 && events[1..1 + |FileHeaders(uri)|] == FileHeaders(uri)
    ensures ResolvedPath(base, uri) + ".gz" in files ==>
      ChunkedBody(events) <= files[ResolvedPath(base, uri) + ".gz"]
    ensures ResolvedPath(base, uri) + ".gz" in files ==>
      forall i :: 0 <= i < |events| && events[i].SendChunk? ==> |events[i].data| <= SCRATCH_BUFSIZE
    ensures ResolvedPath(base, uri) + ".gz" in files ==>
      (Complete(events) && events[|events| - 1] == SendChunk([]))
      || events[|events| - 2..] == [SendChunk([]), SendErr(500, "Failed to send file")]
    ensures var gz := ResolvedPath(base, uri) + ".gz";
      gz in files && (forall k :: !readFails(k)) && (forall k :: chunkOk(k)) ==>
        Complete(events) && ChunkedBody(events) == files[gz]
  {
    var path := ResolvedPath(base, uri);
    var gz := path + ".gz";
    if gz !in files {
      events := [SetType(ContentTypeFromFile(path))] + CAPTIVE_REDIRECT;
      return;
    }
    events := SendFile(ContentTypeFromFile(path), uri, files[gz], readFails, chunkOk);
  }

  /** The found-file branch of `rest_common_get_handler`: the content type, the
      file's headers, then the streamed file. */
  method SendFile(contentType: string, uri: string, content: seq<byte>,
                  readFails: nat -> bool, chunkOk: nat -> bool)
    returns (events: seq<Event>)
    ensures |events| >= |FileHeaders(uri)| + 2 && events[0] == SetType(contentType)
    ensures events[1..1 + |FileHeaders(uri)|] == FileHeaders(uri)
    ensures ChunkedBody(events) <= content
    ensures forall i :: 0 <= i < |events| && events[i].SendChunk? ==> |events[i].data| <= SCRATCH_BUFSIZE
    ensures (Complete(events) && events[|events| - 1] == SendChunk([]))
      || events[|events| - 2..] == [SendChunk([]), SendErr(500, "Failed to send file")]
    ensures (forall k :: !readFails(k)) && (forall k :: chunkOk(k)) ==>
      Complete(events) && ChunkedBody(events) == content
  {
    var head := [SetType(contentType)] + FileHeaders(uri);
    var sent := StreamFile(content, readFails, chunkOk);
    HeadThenStream(head, sent);
    events := head + sent;
    assert events[1..1 + |FileHeaders(uri)|] == FileHeaders(uri);
  }

  /** Headers in front of a streamed body change neither the bytes it sends nor how
      it ends. */
  lemma HeadThenStream(head: seq<Event>, sent: seq<Event>)
    requires forall i :: 0 <= i < |head| ==> head[i].SetType? || head[i].SetHeader?
    requires |sent| >= 1
    ensures ChunkedBody(head + sent) == ChunkedBody(sent)
    ensures Complete(sent) ==> Complete(head + sent)
    ensures (head + sent)[|head + sent| - 1] == sent[|sent| - 1]
    ensures |sent| >= 2 ==> (head + sent)[|head + sent| - 2..] == sent[|sent| - 2..]
    ensures (forall i :: 0 <= i < |sent| && sent[i].SendChunk? ==> |sent[i].data| <= SCRATCH_BUFSIZE) ==>
      forall i :: 0 <= i < |head + sent| && (head + sent)[i].SendChunk? ==> |(head + sent)[i].data| <= SCRATCH_BUFSIZE
  {
    assert forall i :: |head| <= i < |head + sent| ==> (head + sent)[i] == sent[i - |head|];
    ChunkedBodyNoChunks(head);
    ChunkedBodyConcat(head, sent);
  }
}
