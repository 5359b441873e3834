/** The request decisions of tinyserver.c: parse_uri, get_filetype, the
    file status that stat() reports, and the dispatch of doit from the
    method, the status and the static/dynamic flag to an error or a service. */
module Request {
  import opened CStrings

  /** What parse_uri produces: its return value (1 for static content) and
      the strings it writes into filename and cgiargs. */
  datatype Target = Target(isStatic: bool, filename: seq<char>, cgiargs: seq<char>)

  /** parse_uri(uri, filename, cgiargs). A URI with "cgi-bin" anywhere in it
      names a CGI program, split at its first '?' into path and arguments;
      any other URI names a file under the current directory, '?' text
      included, with home.html appended when the URI ends in '/'. */
  function ParseUri(uri: seq<char>): (t: Target)
    requires |uri| > 0
    ensures t.isStatic <==> !Contains(uri, "cgi-bin")
    ensures |t.filename| > 0 && t.filename[0] == '.'
  {
    if !Contains(uri, "cgi-bin") then
      Target(true, "." + uri + (if uri[|uri| - 1] == '/' then "home.html" else ""), "")
    else
      match IndexOf(uri, '?')
      case Some(i) => Target(false, "." + uri[..i], uri[i + 1..])
      case None => Target(false, "." + uri, "")
  }

  /** A static target keeps the whole URI after the leading "." and has no
      arguments; exactly the URIs ending in '/' get home.html. */
  lemma StaticTarget(uri: seq<char>)
    requires |uri| > 0 && !Contains(uri, "cgi-bin")
    ensures var t := ParseUri(uri);
      t.cgiargs == [] &&
      t.filename[..|uri| + 1] == "." + uri &&
      (|t.filename| > |uri| + 1 <==> uri[|uri| - 1] == '/') &&
      (uri[|uri| - 1] == '/' ==> t.filename[|uri| + 1..] == "home.html")
  {
    var t := ParseUri(uri);
    assert ("." + uri)[..|uri| + 1] == "." + uri;
    if uri[|uri| - 1] == '/' {
      assert t.filename == ("." + uri) + "home.html";
      assert t.filename[|uri| + 1..] == "home.html";
    } else {
      assert t.filename == ("." + uri) + "";
    }
  }

  /** A CGI target is the URI split at its first '?': the path holds no '?',
      and path and arguments put back together give the URI again. */
  lemma DynamicTarget(uri: seq<char>)
    requires |uri| > 0 && Contains(uri, "cgi-bin")
    ensures var t := ParseUri(uri);
      '?' !in t.filename[1..] &&
      ('?' in uri ==> t.filename[1..] + "?" + t.cgiargs == uri) &&
      ('?' !in uri ==> t.filename[1..] == uri && t.cgiargs == [])
  {
    var t := ParseUri(uri);
    match IndexOf(uri, '?')
    case Some(i) =>
      assert t.filename[1..] == uri[..i];
      SplitAt(uri, i);
    case None =>
      assert t.filename[1..] == uri;
  }

  /** A string is what comes before index `i`, the character there, and the rest. */
  lemma SplitAt(s: seq<char>, i: nat)
    requires i < |s|
    ensures s[..i] + [s[i]] + s[i + 1..] == s
  {
  }

  /** A CGI URI whose first '?' is at `i` names the program before it and
      passes the text after it. */
  lemma ParseUriSplitAt(uri: seq<char>, i: nat)
    requires Contains(uri, "cgi-bin") && i < |uri| && uri[i] == '?' && '?' !in uri[..i]
    ensures ParseUri(uri) == Target(false, "." + uri[..i], uri[i + 1..])
  {
  }

  /** The root directory is served from home.html. */
  lemma ParseUriRoot(uri: seq<char>)
    requires uri == "/"
    ensures ParseUri(uri) == Target(true, "./home.html", "")
  {
    assert !Contains(uri, "cgi-bin");
  }

  /** A query on a static file stays in the file name. */
  lemma ParseUriStaticQuery(uri: seq<char>)
    requires uri == "/index.html?x=1"
    ensures ParseUri(uri) == Target(true, "." + uri, "")
  {
    NotContainsCgi(uri);
    assert uri[|uri| - 1] == '1';
    assert "." + uri + "" == "." + uri;
  }

  /** A CGI request is split at its '?'. */
  lemma ParseUriCgi(uri: seq<char>)
    requires uri == "/cgi-bin/adder?15&2"
    ensures ParseUri(uri) == Target(false, "." + uri[..14], uri[15..])
    ensures uri[..14] == "/cgi-bin/adder" && uri[15..] == "15&2"
  {
    assert uri[1..8] == "cgi-bin";
    OccursContains(uri, "cgi-bin", 1);
    assert uri[..14] == "/cgi-bin/adder";
    ParseUriSplitAt(uri, 14);
  }

  /** An occurrence anywhere makes strstr succeed. */
  lemma OccursContains(s: seq<char>, p: seq<char>, i: nat)
    requires OccursAt(s, p, i)
    ensures Contains(s, p)
  {
    ContainsIff(s, p);
  }

  /** "cgi-bin" counts anywhere in the URI, even inside a longer name, and
      then no home.html is added. */
  lemma ParseUriCgiAnywhere(uri: seq<char>)
    requires uri == "/docs/cgi-binder/"
    ensures uri[|uri| - 1] == '/' && ParseUri(uri) == Target(false, "." + uri, "")
  {
    assert uri[6..13] == "cgi-bin";
    OccursContains(uri, "cgi-bin", 6);
    assert '?' !in uri;
    CgiWithoutQuery(uri);
  }

  /** A CGI URI without '?' names the program at the whole URI, with no arguments. */
  lemma CgiWithoutQuery(uri: seq<char>)
    requires |uri| > 0 && Contains(uri, "cgi-bin") && '?' !in uri
    ensures ParseUri(uri) == Target(false, "." + uri, "")
  {
  }

  /** "/index.html?x=1" holds no "cgi-bin": it has no 'c' followed by "gi-". */
  lemma NotContainsCgi(uri: seq<char>)
    requires uri == "/index.html?x=1"
    ensures !Contains(uri, "cgi-bin")
  {
    ContainsIff(uri, "cgi-bin");
    forall i: nat | i + 7 <= |uri|
      ensures !OccursAt(uri, "cgi-bin", i)
    {
      assert uri[i..i + 7][0] == uri[i];
    }
  }

  /** get_filetype(filename, filetype): the MIME type of the first entry of
      the table .html, .gif, .jpg that occurs in the name, else text/plain. */
  function FileType(filename: seq<char>): (ft: seq<char>)
    ensures ft in {"text/html", "image/gif", "image/jpg", "text/plain"}
  {
    if Contains(filename, ".html") then "text/html"
    else if Contains(filename, ".gif") then "image/gif"
    else if Contains(filename, ".jpg") then "image/jpg"
    else "text/plain"
  }

  /** Each type is chosen exactly when its extension is the first of the
      table to occur somewhere in the name. */
  lemma FileTypeFirstMatch(f: seq<char>)
    ensures FileType(f) == "text/html" <==> (exists i: nat :: OccursAt(f, ".html", i))
    ensures FileType(f) == "image/gif" <==>
      (!(exists i: nat :: OccursAt(f, ".html", i)) && exists i: nat :: OccursAt(f, ".gif", i))
    ensures FileType(f) == "image/jpg" <==>
      (!(exists i: nat :: OccursAt(f, ".html", i)) && !(exists i: nat :: OccursAt(f, ".gif", i)) &&
       exists i: nat :: OccursAt(f, ".jpg", i))
    ensures FileType(f) == "text/plain" <==>
      (!(exists i: nat :: OccursAt(f, ".html", i)) && !(exists i: nat :: OccursAt(f, ".gif", i)) &&
       !(exists i: nat :: OccursAt(f, ".jpg", i)))
  {
    ContainsIff(f, ".html");
    ContainsIff(f, ".gif");
    ContainsIff(f, ".jpg");
  }

  /** A name ending in an extension gets that extension's type unless an
      earlier entry of the table occurs elsewhere in it. */
  lemma FileTypeBySuffix(stem: seq<char>)
    ensures !Contains(stem + ".gif", ".html") ==> FileType(stem + ".gif") == "image/gif"
    ensures FileType(stem + ".html") == "text/html"
  {
    assert OccursAt(stem + ".gif", ".gif", |stem|);
    ContainsIff(stem + ".gif", ".gif");
    assert OccursAt(stem + ".html", ".html", |stem|);
    ContainsIff(stem + ".html", ".html");
  }

  /** The st_mode bits doit tests. */
  const S_IFMT: bv32 := 0xF000
  const S_IFREG: bv32 := 0x8000
  const S_IRUSR: bv32 := 0x100
  const S_IXUSR: bv32 := 0x40

  predicate IsRegular(mode: bv32)
  {
    mode & S_IFMT == S_IFREG
  }

  /** What stat() reports about a file, with the bytes that serve_static
      maps: st_size is their number. */
  datatype FileInfo = FileInfo(mode: bv32, content: seq<char>)

  /** The files the server can stat(), by the name it passes. */
  type FileSystem = map<seq<char>, FileInfo>

  /** What doit decides once the request line is known. */
  datatype Decision =
    | NotImplemented(requestMethod: seq<char>)            // 501, with the method as cause
    | NotFound(filename: seq<char>)                  // 404
    | Forbidden(filename: seq<char>, isStatic: bool) // 403
    | ServeStatic(filename: seq<char>, content: seq<char>)  // the file's st_size bytes
    | ServeDynamic(filename: seq<char>, cgiargs: seq<char>)

  /** strcasecmp(method, "GET") == 0: exactly the eight spellings of GET
      in upper and lower case pass. */
  predicate IsGet(requestMethod: seq<char>)
    ensures IsGet(requestMethod) <==>
      |requestMethod| == 3 && requestMethod[0] in "gG" && requestMethod[1] in "eE" && requestMethod[2] in "tT"
  {
    EqualsIgnoreCase(requestMethod, "GET")
  }

  /** The permission a target needs: owner read for a file, owner execute
      for a program. In octal digits of st_mode: the file-type digit is 10
      (regular file), and the owner's read (bit 8) or execute (bit 6) is set. */
  predicate Permitted(isStatic: bool, mode: bv32)
    ensures Permitted(isStatic, mode) <==>
      (mode >> 12) & 0xF == 8 && (if isStatic then (mode >> 8) & 1 == 1 else (mode >> 6) & 1 == 1)
  {
    ModeFields(mode);
    IsRegular(mode) && (if isStatic then mode & S_IRUSR != 0 else mode & S_IXUSR != 0)
  }

  /** The masks doit applies pick out the file-type digit and the owner's
      read and execute bits of st_mode. */
  lemma ModeFields(mode: bv32)
    ensures mode & S_IFMT == S_IFREG <==> (mode >> 12) & 0xF == 8
    ensures mode & S_IRUSR != 0 <==> (mode >> 8) & 1 == 1
    ensures mode & S_IXUSR != 0 <==> (mode >> 6) & 1 == 1
  {
  }

  /** doit after the request headers are read: parse_uri, stat, then the
      permission test for the kind of target. */
  function Route(uri: seq<char>, fs: FileSystem): (d: Decision)
    requires |uri| > 0
    ensures !d.NotImplemented?
    ensures var t := ParseUri(uri);
      (d.NotFound? <==> t.filename !in fs) &&
      (d.Forbidden? <==> t.filename in fs && !Permitted(t.isStatic, fs[t.filename].mode)) &&
      (d.ServeStatic? ==> t.isStatic && d.filename == t.filename && d.content == fs[t.filename].content) &&
      (d.ServeDynamic? ==> !t.isStatic && d.filename == t.filename && d.cgiargs == t.cgiargs)
  {
    var t := ParseUri(uri);
    if t.filename !in fs then NotFound(t.filename)
    else
      var info := fs[t.filename];
      if !Permitted(t.isStatic, info.mode) then Forbidden(t.filename, t.isStatic)
      else if t.isStatic then ServeStatic(t.filename, info.content)
      else ServeDynamic(t.filename, t.cgiargs)
  }

  /** doit's decision for a request line whose method and URI were read. */
  function Dispatch(requestMethod: seq<char>, uri: seq<char>, fs: FileSystem): (d: Decision)
    requires |uri| > 0
    ensures d.NotImplemented? <==> !IsGet(requestMethod)
    ensures d.NotImplemented? ==> d.requestMethod == requestMethod
  {
    if !IsGet(requestMethod) then NotImplemented(requestMethod) else Route(uri, fs)
  }

  /** The order of the tests: 501 for any method but GET, whatever the
      file; 404 when stat() fails; 403 when the file is not regular or
      lacks the permission its kind needs; service only past all three. */
  lemma DispatchCases(requestMethod: seq<char>, uri: seq<char>, fs: FileSystem)
    requires |uri| > 0
    ensures var d := Dispatch(requestMethod, uri, fs);
      var t := ParseUri(uri);
      (d.NotImplemented? <==> !IsGet(requestMethod)) &&
      (d.NotImplemented? ==> d.requestMethod == requestMethod) &&
      (d.NotFound? <==> IsGet(requestMethod) && t.filename !in fs) &&
      (d.Forbidden? <==> IsGet(requestMethod) && t.filename in fs && !Permitted(t.isStatic, fs[t.filename].mode)) &&
      ((d.ServeStatic? || d.ServeDynamic?) <==>
        IsGet(requestMethod) && t.filename in fs && Permitted(t.isStatic, fs[t.filename].mode)) &&
      (d.ServeStatic? ==> t.isStatic && d.filename == t.filename && d.content == fs[t.filename].content) &&
      (d.ServeDynamic? ==> !t.isStatic && d.filename == t.filename && d.cgiargs == t.cgiargs)
  {
  }

  /** The method test ignores case: exactly the eight spellings of GET pass. */
  lemma GetIgnoresCase()
    ensures IsGet("GET") && IsGet("get") && IsGet("GeT") && IsGet("Get")
    ensures !IsGet("POST") && !IsGet("GETS") && !IsGet("")
  {
    assert ToLower('g') == 'g' && ToLower('G') == 'g';
    assert ToLower('P') != ToLower('G');
  }

  /** A regular file readable by its owner is served, and a directory is not. */
  lemma ModeExamples()
    ensures Permitted(true, 0x81A4) && !Permitted(false, 0x81A4)
    ensures Permitted(false, 0x81ED)
    ensures !Permitted(true, 0x41ED)
  {
  }
}
