/** The response text tinyserver.c writes: the error page of clienterror,
    the header serve_static sends before the file, and the two header lines
    serve_dynamic sends before the CGI program takes over. A client-side
    reader of header lines states what a client finds in them. */
module Response {
  import opened CStrings
  import opened Request

  /** Header lines, each ended by CR LF. */
  function Crlf(lines: seq<seq<char>>): seq<char>
  {
    if lines == [] then [] else lines[0] + "\r\n" + Crlf(lines[1..])
  }

  /** A header: its lines, then the empty line. */
  function Head(lines: seq<seq<char>>): seq<char>
  {
    Crlf(lines) + "\r\n"
  }

  /** The body clienterror builds with sprintf: 94 characters of fixed
      text around the four strings, ending with CR LF. */
  function ErrorBody(cause: seq<char>, errnum: seq<char>, shortmsg: seq<char>, longmsg: seq<char>): (r: seq<char>)
    ensures |r| == 94 + |errnum| + |shortmsg| + |longmsg| + |cause|
    ensures r[|r| - 2..] == "\r\n"
  {
    "<html><title>Tiny Error</title>" + "<body bgcolor=ffffff>\r\n" +
    errnum + ": " + shortmsg + "\r\n" +
    "<p>" + longmsg + ": " + cause + "\r\n" +
    "<hr><em>The Web server</em>\r\n"
  }

  /** The header lines clienterror writes: the status line carries the long
      message, and the length field is spelled "sContent-length". */
  function ErrorHeadLines(errnum: seq<char>, longmsg: seq<char>, bodyLength: nat): seq<seq<char>>
  {
    ["HTTP/1.0 " + errnum + " " + longmsg, "Content-type: text/html", "sContent-length: " + Decimal(bodyLength)]
  }

  /** clienterror(fd, cause, errnum, shortmsg, longmsg): everything its four
      rio_writen calls hand over, in order. */
  function ClientError(cause: seq<char>, errnum: seq<char>, shortmsg: seq<char>, longmsg: seq<char>): (r: seq<char>)
    ensures var status := "HTTP/1.0 " + errnum + " ";
      |status| <= |r| && r[..|status|] == status
    ensures var body := ErrorBody(cause, errnum, shortmsg, longmsg);
      |body| <= |r| && r[|r| - |body|..] == body
  {
    var body := ErrorBody(cause, errnum, shortmsg, longmsg);
    var lines := ErrorHeadLines(errnum, longmsg, |body|);
    HeadStartsWith(lines, "HTTP/1.0 " + errnum + " ", longmsg);
    Head(lines) + body
  }

  /** The header lines serve_static builds. */
  function StaticHeadLines(filename: seq<char>, filesize: nat): seq<seq<char>>
  {
    ["HTTP/1.0 200 OK", "Server:Tiny Web Server", "Content-length:" + Decimal(filesize), "Content-type:" + FileType(filename)]
  }

  /** serve_static(fd, filename, filesize): the header, then the mapped file. */
  function StaticResponse(filename: seq<char>, content: seq<char>): (r: seq<char>)
    ensures |r| >= 17 && r[..17] == "HTTP/1.0 200 OK\r\n"
    ensures |content| <= |r| && r[|r| - |content|..] == content
  {
    var lines := StaticHeadLines(filename, |content|);
    HeadStartsWith(lines, "HTTP/1.0 200 OK\r\n", []);
    Head(lines) + content
  }

  /** What serve_dynamic writes itself; the CGI program's output follows it.
      It is two header lines and no empty line: the header ends only when
      the CGI program writes one. */
  function DynamicPrefix(): (r: seq<char>)
    ensures r == "HTTP/1.0 200 OK" + "\r\n" + "Server:Tiny Web Server" + "\r\n"
    ensures |r| >= 17 && r[..17] == "HTTP/1.0 200 OK\r\n"
  {
    CrlfTwo("HTTP/1.0 200 OK", "Server:Tiny Web Server");
    Crlf(["HTTP/1.0 200 OK", "Server:Tiny Web Server"])
  }

  /** Two lines, each ended by CR LF. */
  lemma CrlfTwo(a: seq<char>, b: seq<char>)
    ensures Crlf([a, b]) == a + "\r\n" + b + "\r\n"
  {
    assert [a, b][1..] == [b];
    assert Crlf([b]) == b + "\r\n" + Crlf([]);
  }

  /** A header starts with a prefix of its first line. */
  lemma HeadStartsWith(lines: seq<seq<char>>, p: seq<char>, q: seq<char>)
    requires lines != [] && (lines[0] == p + q || lines[0] + "\r\n" == p + q)
    ensures |p| <= |Head(lines)| && Head(lines)[..|p|] == p
  {
    assert Head(lines) == (lines[0] + "\r\n") + (Crlf(lines[1..]) + "\r\n");
  }

  /** The first CR LF in `s`. */
  function FindCrlf(s: seq<char>): (r: Option<nat>)
    ensures r.Some? ==> r.value + 2 <= |s| && s[r.value] == '\r' && s[r.value + 1] == '\n'
    ensures r.None? ==> |s| < 2 || s[0] != '\r' || s[1] != '\n'
  {
    if |s| < 2 then None
    else if s[0] == '\r' && s[1] == '\n' then Some(0)
    else match FindCrlf(s[1..])
      case None => None
      case Some(i) => Some(i + 1)
  }

  /** How a client reads a response: header lines up to the empty line,
      and the body after it; None when the text has no complete header. */
  function SplitHead(s: seq<char>): (r: Option<(seq<seq<char>>, seq<char>)>)
    decreases |s|
  {
    if |s| >= 2 && s[0] == '\r' && s[1] == '\n' then Some(([], s[2..]))
    else match FindCrlf(s)
      case None => None
      case Some(i) =>
        match SplitHead(s[i + 2..])
        case None => None
        case Some(p) => Some(([s[..i]] + p.0, p.1))
  }

  predicate StartsWith(line: seq<char>, name: seq<char>)
  {
    |name| <= |line| && line[..|name|] == name
  }

  /** The value of the first header line that starts with `name`. */
  function FieldValue(lines: seq<seq<char>>, name: seq<char>): (r: Option<seq<char>>)
    ensures r.Some? ==> exists i :: 0 <= i < |lines| && lines[i] == name + r.value
  {
    if lines == [] then None
    else if StartsWith(lines[0], name) then
      assert lines[0] == name + lines[0][|name|..];
      Some(lines[0][|name|..])
    else FieldValue(lines[1..], name)
  }

  /** The field found is the first line that starts with the name. */
  lemma {:induction false} FieldValueAt(lines: seq<seq<char>>, name: seq<char>, k: nat)
    requires k < |lines| && StartsWith(lines[k], name)
    requires forall j :: 0 <= j < k ==> !StartsWith(lines[j], name)
    ensures FieldValue(lines, name) == Some(lines[k][|name|..])
    decreases k
  {
    if k > 0 {
      FieldValueAt(lines[1..], name, k - 1);
    }
  }

  /** No line starts with the name: no field. */
  lemma {:induction false} FieldValueNone(lines: seq<seq<char>>, name: seq<char>)
    requires forall j :: 0 <= j < |lines| ==> !StartsWith(lines[j], name)
    ensures FieldValue(lines, name) == None
    decreases |lines|
  {
    if lines != [] {
      FieldValueNone(lines[1..], name);
    }
  }

  /** A line that differs from the name at some position does not start with it. */
  lemma DiffersAt(line: seq<char>, name: seq<char>, k: nat)
    requires k < |line| && k < |name| && line[k] != name[k]
    ensures !StartsWith(line, name)
  {
    if |name| <= |line| {
      assert line[..|name|][k] == line[k];
    }
  }

  /** A name followed by a value starts with the name. */
  lemma Prefixed(name: seq<char>, v: seq<char>)
    ensures StartsWith(name + v, name) && (name + v)[|name|..] == v
  {
    assert (name + v)[..|name|] == name;
  }

  /** Lines a client can tell apart: not empty and free of CR. */
  predicate PlainLines(lines: seq<seq<char>>)
  {
    forall i :: 0 <= i < |lines| ==> lines[i] != [] && '\r' !in lines[i]
  }

  /** In a line without CR the first CR LF is the one after it. */
  lemma {:induction false} FindCrlfAfter(l: seq<char>, rest: seq<char>)
    requires '\r' !in l
    ensures FindCrlf(l + "\r\n" + rest) == Some(|l|)
    decreases |l|
  {
    if l != [] {
      assert (l + "\r\n" + rest)[1..] == l[1..] + "\r\n" + rest;
      FindCrlfAfter(l[1..], rest);
    }
  }

  /** A client reads back exactly the header lines that were written, and
      the body after them. */
  lemma {:induction false} HeadRoundTrip(lines: seq<seq<char>>, body: seq<char>)
    requires PlainLines(lines)
    ensures SplitHead(Head(lines) + body) == Some((lines, body))
    decreases |lines|
  {
    var s := Head(lines) + body;
    if lines == [] {
      assert s == "\r\n" + body;
      assert s[2..] == body;
    } else {
      var l, tail := lines[0], Head(lines[1..]) + body;
      assert s == l + "\r\n" + tail;
      assert s[0] == l[0] && l[0] != '\r';
      FindCrlfAfter(l, tail);
      assert s[|l| + 2..] == tail && s[..|l|] == l;
      HeadRoundTrip(lines[1..], body);
      assert [l] + lines[1..] == lines;
    }
  }

  predicate NoCr(s: seq<char>)
  {
    '\r' !in s
  }

  /** Decimal numbers contain no CR. */
  lemma DecimalNoCr(n: nat)
    ensures NoCr(Decimal(n))
  {
    var d := Decimal(n);
    assert forall i :: 0 <= i < |d| ==> IsDigit(d[i]);
  }

  /** CR-free pieces join into CR-free text. */
  lemma NoCrJoin(a: seq<char>, b: seq<char>)
    requires NoCr(a) && NoCr(b)
    ensures NoCr(a + b)
  {
  }

  /** The header lines of serve_static hold no CR and none is empty. */
  lemma StaticLinesPlain(filename: seq<char>, filesize: nat)
    ensures PlainLines(StaticHeadLines(filename, filesize))
  {
    FixedLinesPlain();
    DecimalNoCr(filesize);
    NoCrJoin("Content-length:", Decimal(filesize));
    TypeNoCr(filename);
    NoCrJoin("Content-type:", FileType(filename));
    FourPlain("HTTP/1.0 200 OK", "Server:Tiny Web Server",
      "Content-length:" + Decimal(filesize), "Content-type:" + FileType(filename));
  }

  /** The fixed header lines of serve_static hold no CR. */
  lemma FixedLinesPlain()
    ensures NoCr("HTTP/1.0 200 OK") && NoCr("Server:Tiny Web Server")
    ensures NoCr("Content-length:") && NoCr("Content-type:")
  {
  }

  /** No MIME type of the table holds a CR. */
  lemma TypeNoCr(filename: seq<char>)
    ensures NoCr(FileType(filename))
  {
    var ty := FileType(filename);
    assert ty in {"text/html", "image/gif", "image/jpg", "text/plain"};
  }

  /** Four non-empty lines without CR are plain. */
  lemma FourPlain(a: seq<char>, b: seq<char>, c: seq<char>, d: seq<char>)
    requires a != [] && b != [] && c != [] && d != []
    requires NoCr(a) && NoCr(b) && NoCr(c) && NoCr(d)
    ensures PlainLines([a, b, c, d])
  {
  }

  /** A client of a static response finds a Content-length field holding
      filesize in decimal, the type get_filetype chose, and exactly the
      file's bytes as the body. */
  lemma StaticFraming(filename: seq<char>, content: seq<char>)
    ensures var r := SplitHead(StaticResponse(filename, content));
      r.Some? && r.value.1 == content &&
      FieldValue(r.value.0, "Content-length:") == Some(Decimal(|content|)) &&
      ParseDecimal(Decimal(|content|)) == |content| &&
      FieldValue(r.value.0, "Content-type:") == Some(FileType(filename))
  {
    var lines := StaticHeadLines(filename, |content|);
    StaticLinesPlain(filename, |content|);
    HeadRoundTrip(lines, content);
    DecimalRoundTrip(|content|);
    StaticFields(filename, |content|);
  }

  /** The fields of the serve_static header. */
  lemma StaticFields(filename: seq<char>, filesize: nat)
    ensures var lines := StaticHeadLines(filename, filesize);
      FieldValue(lines, "Content-length:") == Some(Decimal(filesize)) &&
      FieldValue(lines, "Content-type:") == Some(FileType(filename))
  {
    var lines := StaticHeadLines(filename, filesize);
    StaticLengthField(lines, Decimal(filesize), FileType(filename));
    StaticTypeField(lines, Decimal(filesize), FileType(filename));
  }

  lemma StaticLengthField(lines: seq<seq<char>>, size: seq<char>, ty: seq<char>)
    requires lines == ["HTTP/1.0 200 OK", "Server:Tiny Web Server", "Content-length:" + size, "Content-type:" + ty]
    ensures FieldValue(lines, "Content-length:") == Some(size)
  {
    var name := "Content-length:";
    DiffersAt(lines[0], name, 0);
    DiffersAt(lines[1], name, 0);
    Prefixed(name, size);
    FieldValueAt(lines, name, 2);
  }

  lemma StaticTypeField(lines: seq<seq<char>>, size: seq<char>, ty: seq<char>)
    requires lines == ["HTTP/1.0 200 OK", "Server:Tiny Web Server", "Content-length:" + size, "Content-type:" + ty]
    ensures FieldValue(lines, "Content-type:") == Some(ty)
  {
    var name := "Content-type:";
    DiffersAt(lines[0], name, 0);
    DiffersAt(lines[1], name, 0);
    DiffersAt(lines[2], name, 8);
    Prefixed(name, ty);
    FieldValueAt(lines, name, 3);
  }

  /** The header lines of clienterror hold no CR and none is empty. */
  lemma ErrorLinesPlain(errnum: seq<char>, longmsg: seq<char>, bodyLength: nat)
    requires NoCr(errnum) && NoCr(longmsg)
    ensures PlainLines(ErrorHeadLines(errnum, longmsg, bodyLength))
  {
    DecimalNoCr(bodyLength);
    var lines := ErrorHeadLines(errnum, longmsg, bodyLength);
    assert '\r' !in lines[0] by {
      assert lines[0] == "HTTP/1.0 " + errnum + " " + longmsg;
    }
    assert '\r' !in lines[2] by {
      assert lines[2] == "sContent-length: " + Decimal(bodyLength);
    }
  }

  /** The fields of the clienterror header. */
  lemma ErrorFields(errnum: seq<char>, longmsg: seq<char>, bodyLength: nat)
    ensures var lines := ErrorHeadLines(errnum, longmsg, bodyLength);
      FieldValue(lines, "sContent-length: ") == Some(Decimal(bodyLength)) &&
      FieldValue(lines, "Content-length:") == None
  {
    var lines := ErrorHeadLines(errnum, longmsg, bodyLength);
    var slen, len := "sContent-length: ", "Content-length:";
    DiffersAt(lines[0], slen, 0);
    DiffersAt(lines[1], slen, 0);
    Prefixed(slen, Decimal(bodyLength));
    FieldValueAt(lines, slen, 2);
    DiffersAt(lines[0], len, 0);
    DiffersAt(lines[1], len, 8);
    DiffersAt(lines[2], len, 0);
    FieldValueNone(lines, len);
  }

  /** The error page announces its length only as "sContent-length", whose
      value is the length of the body that follows; a client looking for
      Content-length finds none. The status line carries the long message. */
  lemma ErrorFraming(cause: seq<char>, errnum: seq<char>, shortmsg: seq<char>, longmsg: seq<char>)
    requires NoCr(errnum) && NoCr(longmsg)
    ensures var body := ErrorBody(cause, errnum, shortmsg, longmsg);
      var r := SplitHead(ClientError(cause, errnum, shortmsg, longmsg));
      r.Some? && r.value.1 == body &&
      r.value.0[0] == "HTTP/1.0 " + errnum + " " + longmsg &&
      FieldValue(r.value.0, "sContent-length: ") == Some(Decimal(|body|)) &&
      ParseDecimal(Decimal(|body|)) == |body| &&
      FieldValue(r.value.0, "Content-length:") == None
  {
    var body := ErrorBody(cause, errnum, shortmsg, longmsg);
    var lines := ErrorHeadLines(errnum, longmsg, |body|);
    ErrorLinesPlain(errnum, longmsg, |body|);
    HeadRoundTrip(lines, body);
    DecimalRoundTrip(|body|);
    ErrorFields(errnum, longmsg, |body|);
  }
}
