/** One transaction of tinyserver.c: doit reads the request line, answers
    501 to any method but GET, skips the request headers with
    read_requesthdrs, and then answers with an error page, the static file,
    or the start of a CGI response.

    The stack buffers doit and read_requesthdrs leave uninitialised are
    parameters holding their initial contents, and the model follows the
    code over whatever they hold: a line read that meets end of file or an
    error leaves the buffer as it was, and sscanf and strcmp then read
    those contents. The outcome is Unspecified only where sscanf leaves
    `method` or `uri` unwritten, or the line buffer holds no NUL. */
module Server {
  import opened CStrings
  import opened Rio
  import opened RioFacts
  import opened Request
  import opened Response

  /** strcmp(buf, "\r\n") == 0. */
  predicate IsBlankLine(buf: seq<char>)
    requires |buf| >= 3
  {
    buf[0] == '\r' && buf[1] == '\n' && buf[2] == NUL
  }

  /** How read_requesthdrs ends: with the reader state and its buffer, or
      never, once the connection is drained and the buffer is no blank line. */
  datatype Headers = HeadersDone(after: RioState, last: seq<char>) | Hangs

  /** The while loop of read_requesthdrs, at its test, with `buf` holding
      the last line read. It returns only with the blank line "\r\n" in
      its buffer. */
  function HeadersLoop(st: RioState, buf: seq<char>): (h: Headers)
    requires |buf| == MAXLINE
    ensures h.HeadersDone? ==> |h.last| == MAXLINE && IsBlankLine(h.last)
    decreases |Flat(st)|, if st == RioState([], []) then 0 else 1
  {
    if IsBlankLine(buf) then HeadersDone(st, buf)
    else if st == RioState([], []) then Hangs
    else
      var (res, after) := Line(st, MAXLINE);
      LineProgress(st, MAXLINE);
      HeadersLoop(after, Stored(buf, res))
  }

  /** read_requesthdrs(rp), its line buffer starting as `buf0`. */
  function ReadHeaders(st: RioState, buf0: seq<char>): (h: Headers)
    requires |buf0| == MAXLINE
    ensures h.HeadersDone? ==> |h.last| == MAXLINE && IsBlankLine(h.last)
  {
    var (res, after) := Line(st, MAXLINE);
    HeadersLoop(after, Stored(buf0, res))
  }

  /** Hangs is a loop that never ends: on a drained connection every line
      read meets end of file, leaves the buffer as it was and the reader
      drained, so the test fails again and again. */
  lemma DrainedRepeats(buf: seq<char>)
    requires |buf| == MAXLINE
    ensures Line(RioState([], []), MAXLINE) == (LineEof, RioState([], []))
    ensures Stored(buf, LineEof) == buf
  {
    assert NextByte(RioState([], [])) == GotEof(RioState([], []));
  }

  /** A header line as a client sends it: one newline, at its end, and
      shorter than a line buffer. */
  predicate HeaderLine(l: seq<char>)
  {
    EndsWithNewline(l) && '\n' !in l[..|l| - 1] && |l| < MAXLINE
  }

  function Concat(ls: seq<seq<char>>): seq<char>
  {
    if ls == [] then [] else ls[0] + Concat(ls[1..])
  }

  /** A header line other than "\r\n", stored by rio_readlineb, is not the blank line. */
  lemma StoredNotBlank(buf: seq<char>, l: seq<char>)
    requires |buf| == MAXLINE && HeaderLine(l) && l != "\r\n"
    ensures !IsBlankLine(Stored(buf, LineOk(l, |l|)))
  {
    var s := Stored(buf, LineOk(l, |l|));
    assert s[..|l|] == l && s[|l|] == NUL;
    if |l| == 1 {
      assert s[0] == '\n';
    } else if |l| == 2 {
      assert l == [l[0], '\n'];
      assert s[0] == l[0];
    } else {
      assert l[..|l| - 1][1] == l[1];
      assert s[1] == l[1];
    }
  }

  /** The blank line, stored by rio_readlineb, is the blank line. */
  lemma StoredBlank(buf: seq<char>)
    requires |buf| == MAXLINE
    ensures IsBlankLine(Stored(buf, LineOk("\r\n", 2)))
  {
  }

  /** Header lines followed by the blank line, as they arrive. */
  predicate HeaderBlock(hs: seq<seq<char>>)
  {
    forall i :: 0 <= i < |hs| ==> HeaderLine(hs[i]) && hs[i] != "\r\n"
  }

  /** The bytes of header lines and the blank line, split off their first line. */
  lemma BlockHead(hs: seq<seq<char>>, rest: seq<Item>)
    requires hs != []
    ensures Bytes(Concat(hs) + "\r\n") + rest == Bytes(hs[0]) + (Bytes(Concat(hs[1..]) + "\r\n") + rest)
  {
    assert Concat(hs) + "\r\n" == hs[0] + (Concat(hs[1..]) + "\r\n");
    BytesAppend(hs[0], Concat(hs[1..]) + "\r\n");
  }

  /** One rio_readlineb of read_requesthdrs over header lines and the blank
      line: it stores the first of them, which is the blank line exactly
      when no header line is left. */
  lemma HeaderStep(st: RioState, buf: seq<char>, hs: seq<seq<char>>, rest: seq<Item>)
    requires |buf| == MAXLINE && HeaderBlock(hs)
    requires Flat(st) == Bytes(Concat(hs) + "\r\n") + rest
    ensures st != RioState([], [])
    ensures var (res, after) := Line(st, MAXLINE);
      res.LineOk? && |res.line| < MAXLINE &&
      (hs == [] ==> IsBlankLine(Stored(buf, res)) && Flat(after) == rest) &&
      (hs != [] ==> !IsBlankLine(Stored(buf, res)) && Flat(after) == Bytes(Concat(hs[1..]) + "\r\n") + rest)
  {
    if hs == [] {
      assert Bytes(Concat(hs) + "\r\n") == Bytes("\r\n");
      assert "\r\n"[..1] == "\r";
      LineReadsLine(st, MAXLINE, "\r\n", rest);
      StoredBlank(buf);
    } else {
      BlockHead(hs, rest);
      assert HeaderLine(hs[0]) && hs[0] != "\r\n";
      LineReadsLine(st, MAXLINE, hs[0], Bytes(Concat(hs[1..]) + "\r\n") + rest);
      StoredNotBlank(buf, hs[0]);
    }
    assert |Flat(st)| > 0;
  }

  /** read_requesthdrs reads header lines up to and including the blank
      line and not one byte further. */
  lemma {:induction false} HeadersSkipped(st: RioState, buf: seq<char>, hs: seq<seq<char>>, rest: seq<Item>)
    requires |buf| == MAXLINE && !IsBlankLine(buf) && HeaderBlock(hs)
    requires Flat(st) == Bytes(Concat(hs) + "\r\n") + rest
    ensures HeadersLoop(st, buf).HeadersDone? && Flat(HeadersLoop(st, buf).after) == rest
    decreases |hs|
  {
    HeaderStep(st, buf, hs, rest);
    var (res, after) := Line(st, MAXLINE);
    if hs != [] {
      assert HeaderBlock(hs[1..]) by {
        assert forall i :: 0 <= i < |hs[1..]| ==> hs[1..][i] == hs[i + 1];
      }
      HeadersSkipped(after, Stored(buf, res), hs[1..], rest);
    }
  }

  /** What doit sends, and how. */
  datatype Served =
    | Replied(decision: Decision, response: seq<char>)  // the bytes handed to rio_writen, in order
    | Stalled                                           // read_requesthdrs never returns
    | Unspecified                                       // method or uri unwritten, or no NUL in the line buffer

  /** The status code each decision answers with. */
  function StatusCode(d: Decision): seq<char>
  {
    match d
    case NotImplemented(_) => "501"
    case NotFound(_) => "404"
    case Forbidden(_, _) => "403"
    case _ => "200"
  }

  /** The response doit writes for a decision: an HTTP/1.0 status line with
      the decision's code, and for a file, the file's bytes at its end. */
  function ResponseFor(d: Decision): (r: seq<char>)
    ensures var status := "HTTP/1.0 " + StatusCode(d) + " ";
      |status| <= |r| && r[..|status|] == status
    ensures d.ServeStatic? ==> |d.content| <= |r| && r[|r| - |d.content|..] == d.content
  {
    match d
    case NotImplemented(m) => ClientError(m, StatusCode(d), "Not Implemented", "Tiny does not implement this method")
    case NotFound(f) => ClientError(f, StatusCode(d), "Not found", "Tiny coundn't find this file")
    case Forbidden(f, isStatic) =>
      if isStatic then ClientError(f, StatusCode(d), "Forbidden", "Tiny coundn't read the file")
      else ClientError(f, StatusCode(d), "Forbidden", "Tiny coundn't run the CGI program")
    case ServeStatic(f, content) => OkStatus(StaticResponse(f, content)); StaticResponse(f, content)
    case ServeDynamic(_, _) => OkStatus(DynamicPrefix()); DynamicPrefix()
  }

  /** A response that starts with "HTTP/1.0 200 OK" and CR LF carries code 200. */
  lemma OkStatus(r: seq<char>)
    requires |r| >= 17 && r[..17] == "HTTP/1.0 200 OK\r\n"
    ensures var status := "HTTP/1.0 " + "200" + " ";
      |status| <= |r| && r[..|status|] == status
  {
    assert r[..13] == r[..17][..13];
  }

  /** doit(fd) on a connection whose read() calls answer `source`: what it
      serves, and the reader state it leaves. */
  function Handle(source: seq<Chunk>, lineBuf0: seq<char>, hdrBuf0: seq<char>, fs: FileSystem): (r: (Served, RioState))
    requires |lineBuf0| == MAXLINE && |hdrBuf0| == MAXLINE
    ensures r.0.Replied? ==> r.0.response == ResponseFor(r.0.decision)
    ensures r.0.Replied? && r.0.decision.NotImplemented? ==> !IsGet(r.0.decision.requestMethod)
  {
    var (res, st1) := Line(RioState([], source), MAXLINE);
    var buf := Stored(lineBuf0, res);
    if NUL !in buf then (Unspecified, st1)
    else
      var ws := Words(CString(buf), 3);
      if |ws| == 0 then (Unspecified, st1)
      else if !IsGet(ws[0]) then (Replied(NotImplemented(ws[0]), ResponseFor(NotImplemented(ws[0]))), st1)
      else match ReadHeaders(st1, hdrBuf0)
        case Hangs => (Stalled, st1)
        case HeadersDone(st2, _) =>
          if |ws| < 2 then (Unspecified, st2)
          else
            var d := Route(ws[1], fs);
            (Replied(d, ResponseFor(d)), st2)
  }

  /** A request line as a client sends it: method, URI and version
      separated by single spaces and ended by CR LF. */
  function RequestLine(m: seq<char>, uri: seq<char>, version: seq<char>): seq<char>
  {
    m + " " + uri + " " + version + "\r\n"
  }

  /** Tokens sscanf's %s reads back whole: not empty, without white space or NUL. */
  predicate Token(w: seq<char>)
  {
    w != [] && NoSpace(w) && NUL !in w
  }

  /** A token and a space: %s reads the token, and the next conversion skips the space. */
  lemma TokenThenSpace(w: seq<char>, s: seq<char>, k: nat)
    requires Token(w)
    ensures Words(w + (" " + s), k + 1) == [w] + Words(s, k)
  {
    WordsOfToken(w, " " + s, k);
    WordsAfterSpace(' ', s, k);
  }

  lemma ThreeItems<T>(a: seq<T>, b: seq<T>, c: seq<T>, x: T, y: T, z: T)
    requires a == [x] + b && b == [y] + c && c == [z]
    ensures a == [x, y, z]
  {
  }

  /** The request line, grouped from the right. */
  lemma RequestLineNested(m: seq<char>, uri: seq<char>, version: seq<char>)
    ensures RequestLine(m, uri, version) == m + (" " + (uri + (" " + (version + "\r\n"))))
  {
  }

  /** The version token ends the line: the third %s reads it. */
  lemma LastWord(version: seq<char>)
    requires Token(version)
    ensures Words(version + "\r\n", 1) == [version]
  {
    WordsOfToken(version, "\r\n", 0);
    assert Words(version + "\r\n", 1) == [version] + [];
  }

  /** sscanf's three %s conversions read the three tokens of a request line. */
  lemma RequestLineWords(m: seq<char>, uri: seq<char>, version: seq<char>)
    requires Token(m) && Token(uri) && Token(version)
    ensures Words(RequestLine(m, uri, version), 3) == [m, uri, version]
  {
    var t3 := version + "\r\n";
    var t2 := uri + (" " + t3);
    RequestLineNested(m, uri, version);
    TokenThenSpace(m, t2, 2);
    TokenThenSpace(uri, t3, 1);
    LastWord(version);
    ThreeItems(Words(RequestLine(m, uri, version), 3), Words(t2, 2), Words(t3, 1), m, uri, version);
  }

  /** A request line holds no NUL, and its only newline ends it. */
  lemma RequestLineIsLine(m: seq<char>, uri: seq<char>, version: seq<char>)
    requires Token(m) && Token(uri) && Token(version)
    ensures var l := RequestLine(m, uri, version);
      NUL !in l && EndsWithNewline(l) && '\n' !in l[..|l| - 1]
  {
    var l := RequestLine(m, uri, version);
    assert l[..|l| - 1] == m + " " + uri + " " + version + "\r";
    assert '\n' !in m && '\n' !in uri && '\n' !in version by {
      assert forall i :: 0 <= i < |m| ==> !IsSpace(m[i]);
      assert forall i :: 0 <= i < |uri| ==> !IsSpace(uri[i]);
      assert forall i :: 0 <= i < |version| ==> !IsSpace(version[i]);
    }
  }

  /** doit's first rio_readlineb and sscanf on a request line: the line is
      consumed and its three tokens are read. */
  lemma RequestRead(m: seq<char>, uri: seq<char>, version: seq<char>, rest: seq<Item>,
                    st: RioState, buf0: seq<char>)
    requires Token(m) && Token(uri) && Token(version)
    requires |buf0| == MAXLINE && |RequestLine(m, uri, version)| < MAXLINE
    requires Flat(st) == Bytes(RequestLine(m, uri, version)) + rest
    ensures var (res, after) := Line(st, MAXLINE);
      res.LineOk? && |res.line| < MAXLINE && Flat(after) == rest &&
      NUL in Stored(buf0, res) && Words(CString(Stored(buf0, res)), 3) == [m, uri, version]
  {
    var l := RequestLine(m, uri, version);
    RequestLineIsLine(m, uri, version);
    LineReadsLine(st, MAXLINE, l, rest);
    StoredCString(buf0, l, |l|);
    RequestLineWords(m, uri, version);
  }

  /** A request line whose first token is not GET, in any case, gets the
      501 page naming that token, whatever else the line holds, and doit
      reads nothing past the line. */
  lemma NotGetIs501(l: seq<char>, rest: seq<Item>,
                    source: seq<Chunk>, lineBuf0: seq<char>, hdrBuf0: seq<char>, fs: FileSystem)
    requires NUL !in l && EndsWithNewline(l) && '\n' !in l[..|l| - 1] && |l| < MAXLINE
    requires Words(l, 3) != [] && !IsGet(Words(l, 3)[0])
    requires |lineBuf0| == MAXLINE && |hdrBuf0| == MAXLINE
    requires Flat(RioState([], source)) == Bytes(l) + rest
    ensures var m := Words(l, 3)[0];
      var (served, left) := Handle(source, lineBuf0, hdrBuf0, fs);
      served == Replied(NotImplemented(m), ClientError(m, "501", "Not Implemented", "Tiny does not implement this method")) &&
      Flat(left) == rest
  {
    LineReadsLine(RioState([], source), MAXLINE, l, rest);
    StoredCString(lineBuf0, l, |l|);
  }

  /** A line holding a method alone, such as "FOO\r\n", is such a line:
      its one token is the method. */
  lemma MethodAlone(m: seq<char>)
    requires Token(m)
    ensures var l := m + "\r\n";
      NUL !in l && EndsWithNewline(l) && '\n' !in l[..|l| - 1] && Words(l, 3) == [m]
  {
    MethodLineIsLine(m);
    WordsOfToken(m, "\r\n", 2);
    CrlfHasNoWords(2);
  }

  lemma MethodLineIsLine(m: seq<char>)
    requires Token(m)
    ensures var l := m + "\r\n";
      NUL !in l && EndsWithNewline(l) && '\n' !in l[..|l| - 1]
  {
    var l := m + "\r\n";
    assert l[..|l| - 1] == m + "\r";
    assert '\n' !in m by {
      assert forall i :: 0 <= i < |m| ==> !IsSpace(m[i]);
    }
  }

  /** The line end holds no token. */
  lemma CrlfHasNoWords(k: nat)
    ensures Words("\r\n", k) == []
  {
    assert "\r\n"[1..] == "\n" && "\n"[1..] == [];
    assert SkipSpace("\r\n") == [];
  }

  /** read_requesthdrs on a connection that holds header lines and the blank line. */
  lemma HeadersFrom(st: RioState, buf0: seq<char>, hs: seq<seq<char>>, rest: seq<Item>)
    requires |buf0| == MAXLINE && HeaderBlock(hs)
    requires Flat(st) == Bytes(Concat(hs) + "\r\n") + rest
    ensures ReadHeaders(st, buf0).HeadersDone? && Flat(ReadHeaders(st, buf0).after) == rest
  {
    HeaderStep(st, buf0, hs, rest);
    var (res, after) := Line(st, MAXLINE);
    if hs != [] {
      assert HeaderBlock(hs[1..]) by {
        assert forall i :: 0 <= i < |hs[1..]| ==> hs[1..][i] == hs[i + 1];
      }
      HeadersSkipped(after, Stored(buf0, res), hs[1..], rest);
    }
  }

  /** The bytes of a request, split after its request line. */
  lemma SplitRequest(l: seq<char>, headers: seq<char>, rest: seq<Item>)
    ensures Bytes(l + headers + "\r\n") + rest == Bytes(l) + (Bytes(headers + "\r\n") + rest)
  {
    assert l + headers + "\r\n" == l + (headers + "\r\n");
    BytesAppend(l, headers + "\r\n");
  }

  /** A GET request followed by header lines and the blank line gets the
      response of the dispatch on its URI, and doit reads exactly the
      request line and the headers. */
  lemma GetIsDispatched(m: seq<char>, uri: seq<char>, version: seq<char>, hs: seq<seq<char>>, rest: seq<Item>,
                        source: seq<Chunk>, lineBuf0: seq<char>, hdrBuf0: seq<char>, fs: FileSystem)
    requires Token(m) && Token(uri) && Token(version) && IsGet(m)
    requires |lineBuf0| == MAXLINE && |hdrBuf0| == MAXLINE
    requires |RequestLine(m, uri, version)| < MAXLINE && HeaderBlock(hs)
    requires Flat(RioState([], source)) == Bytes(RequestLine(m, uri, version) + Concat(hs) + "\r\n") + rest
    ensures var (served, left) := Handle(source, lineBuf0, hdrBuf0, fs);
      served == Replied(Dispatch(m, uri, fs), ResponseFor(Dispatch(m, uri, fs))) &&
      Flat(left) == rest
  {
    var more := Bytes(Concat(hs) + "\r\n") + rest;
    SplitRequest(RequestLine(m, uri, version), Concat(hs), rest);
    var st0 := RioState([], source);
    RequestRead(m, uri, version, more, st0, lineBuf0);
    var (res1, st1) := Line(st0, MAXLINE);
    HeadersFrom(st1, hdrBuf0, hs, rest);
  }

  /** The request of HomePage: a request line and the blank line, in one read(). */
  lemma HomeRequest(source: seq<Chunk>)
    requires source == [Data("GET / HTTP/1.0\r\n\r\n")]
    ensures Flat(RioState([], source)) == Bytes(RequestLine("GET", "/", "HTTP/1.0") + Concat([]) + "\r\n") + []
  {
    var d := "GET / HTTP/1.0\r\n\r\n";
    assert FlatSource(source) == Bytes(d) + FlatSource([]) by {
      assert source[1..] == [];
    }
    assert Flat(RioState([], source)) == Bytes([]) + Bytes(d);
    assert RequestLine("GET", "/", "HTTP/1.0") + Concat([]) + "\r\n" == d;
  }

  /** The tokens of HomePage's request line. */
  lemma HomeTokens()
    ensures Token("GET") && Token("/") && Token("HTTP/1.0") && IsGet("GET")
  {
    GetIgnoresCase();
  }

  /** HomePage's file is found, readable and static. */
  lemma HomeRoute(fs: FileSystem, content: seq<char>)
    requires fs == map["./home.html" := FileInfo(0x81A4, content)]
    ensures Route("/", fs) == ServeStatic("./home.html", content)
  {
    ParseUriRoot("/");
    ModeExamples();
  }

  /** The header fields of HomePage's response when home.html is
      "<html>hi</html>": a length of 15 and the HTML type. */
  lemma HomeFields(content: seq<char>)
    requires content == "<html>hi</html>"
    ensures Decimal(|content|) == "15" && FileType("./home.html") == "text/html"
  {
    HomeLength(|content|);
    HomeType("./home", "./home.html");
  }

  /** Fifteen is printed as "15". */
  lemma HomeLength(n: nat)
    requires n == 15
    ensures Decimal(n) == "15"
  {
    assert Decimal(1) == "1";
  }

  /** A name that is a stem followed by ".html" has the HTML type. */
  lemma HomeType(stem: seq<char>, name: seq<char>)
    requires name == stem + ".html"
    ensures FileType(name) == "text/html"
  {
    FileTypeBySuffix(stem);
  }

  /** GET / on a server whose only file is home.html, a regular file its
      owner can read: the page is served, with the header of serve_static. */
  lemma HomePage(source: seq<Chunk>, lineBuf0: seq<char>, hdrBuf0: seq<char>, fs: FileSystem, content: seq<char>)
    requires |lineBuf0| == MAXLINE && |hdrBuf0| == MAXLINE
    requires fs == map["./home.html" := FileInfo(0x81A4, content)]
    requires source == [Data("GET / HTTP/1.0\r\n\r\n")]
    ensures Handle(source, lineBuf0, hdrBuf0, fs).0 ==
      Replied(ServeStatic("./home.html", content), StaticResponse("./home.html", content))
  {
    HomeTokens();
    HomeRequest(source);
    GetIsDispatched("GET", "/", "HTTP/1.0", [], [], source, lineBuf0, hdrBuf0, fs);
    HomeRoute(fs, content);
    StaticReply("./home.html", content);
  }

  /** A static decision is answered with the serve_static text. */
  lemma StaticReply(filename: seq<char>, content: seq<char>)
    ensures ResponseFor(ServeStatic(filename, content)) == StaticResponse(filename, content)
  {
  }

  /** read_requesthdrs(rp). The loop of the source never ends once the
      connection is drained and the buffer holds no blank line; the model
      then stops and reports it. */
  method ReadRequestHdrs(rp: Reader, hdrBuf0: seq<char>) returns (hangs: bool)
    requires rp.Valid() && |hdrBuf0| == MAXLINE
    modifies rp, rp.buf
    ensures rp.Valid()
    ensures var h := ReadHeaders(old(rp.State()), hdrBuf0);
      hangs == h.Hangs? && (h.HeadersDone? ==> rp.State() == h.after)
  {
    ghost var target := ReadHeaders(rp.State(), hdrBuf0);
    var buf := new char[MAXLINE](i requires 0 <= i < |hdrBuf0| => hdrBuf0[i]);
    assert buf[..] == hdrBuf0;
    var _ := rp.ReadLineCounted(buf, MAXLINE);
    while !(buf[0] == '\r' && buf[1] == '\n' && buf[2] == NUL)
      invariant rp.Valid() && buf.Length == MAXLINE && buf != rp.buf
      invariant HeadersLoop(rp.State(), buf[..]) == target
      decreases |Flat(rp.State())|, if rp.State() == RioState([], []) then 0 else 1
    {
      if rp.Drained() {
        return true;
      }
      LineProgress(rp.State(), MAXLINE);
      var _ := rp.ReadLineCounted(buf, MAXLINE);
    }
    hangs := false;
  }

  /** doit(fd): serve one request on a connection whose read() calls answer `source`. */
  method Doit(fd: int, source: seq<Chunk>, lineBuf0: seq<char>, hdrBuf0: seq<char>, fs: FileSystem)
    returns (served: Served, ghost left: RioState)
    requires |lineBuf0| == MAXLINE && |hdrBuf0| == MAXLINE
    ensures (served, left) == Handle(source, lineBuf0, hdrBuf0, fs)
  {
    var rio := new Reader();
    rio.InitB(fd, source);
    var buf := new char[MAXLINE](i requires 0 <= i < |lineBuf0| => lineBuf0[i]);
    assert buf[..] == lineBuf0;
    var _ := rio.ReadLineCounted(buf, MAXLINE);
    left := rio.State();
    var line := buf[..];
    if NUL !in line {
      return Unspecified, left;
    }
    var ws := Words(CString(line), 3);
    if |ws| == 0 {
      return Unspecified, left;
    }
    if !IsGet(ws[0]) {
      var d := NotImplemented(ws[0]);
      return Replied(d, ResponseFor(d)), left;
    }
    var hangs := ReadRequestHdrs(rio, hdrBuf0);
    if hangs {
      return Stalled, left;
    }
    left := rio.State();
    if |ws| < 2 {
      return Unspecified, left;
    }
    var d := Route(ws[1], fs);
    served := Replied(d, ResponseFor(d));
  }
}
