# Tiny web server: a verified model of its request handling

Tiny (`tinyserver.c`) is an iterative HTTP/1.0 server. It handles one connection at a time.
For each connection, `doit` does the following:

1. It reads the request line through the robust buffered reader (`rio_t`, `rio_readinitb`, `rio_read`, `rio_readlineb`).
2. It splits that line with `sscanf` into method, URI and version.
3. It answers 501 to any method that is not `GET` in some letter case.
4. It skips the request headers up to the blank line (`read_requesthdrs`).
5. It maps the URI to a file name and CGI arguments (`parse_uri`).
6. It `stat`s the file and applies the permission test.
7. It answers with one of:
   - a 404 or 403 page built by `clienterror`;
   - the static file, behind the header of `serve_static`, whose type comes from `get_filetype`;
   - the two header lines `serve_dynamic` writes before the CGI program takes over.

Every write goes through `rio_writen`, which retries short counts and `EINTR`.

The model is split into six modules.

- `CStrings` (`cstrings.dfy`) covers the C string operations the code relies on:
  - the C string held in a buffer;
  - `strstr` and `index`;
  - `strcasecmp`;
  - the `%s` conversions of `sscanf`;
  - the `%d` conversion of `sprintf`.
- `Rio` (`rio.dfy`) is the buffered reader.
  - The connection is a script of the answers the kernel gives to successive `read()` calls: data, `EINTR`, another error, or end of file.
  - Specification functions describe one `read()` (`ReadCall`), the refill loop (`Refill`, `Ready`), `rio_read` (`ReadSpec`) and the line loop of `rio_readlineb` (`LineFrom`, `Line`). They work on the abstract state `RioState`: the unread buffered bytes, then the rest of the script.
  - The class `Reader` has the fields of `rio_t`, with its 8192-byte buffer as an array. Its methods are proved against those functions.
- `RioFacts` (`rio_facts.dfy`) states what the reader consumes.
  - `Flat` lists everything a reader will still hand out. The reader loses and invents no byte.
  - A line read takes exactly the bytes it stores, plus the end-of-file or error mark it meets.
  - It also states the shape of a stored line and the value `rio_readlineb` returns.
- `RioWrite` (`writen.dfy`) is `rio_writen`, over a script of `write()` answers and the `errno` value left by earlier calls.
- `Request` (`request.dfy`) covers `parse_uri`, `get_filetype`, the `st_mode` tests, and the decision `doit` takes: 501, 404, 403, static or dynamic.
- `Response` (`response.dfy`) is the text of the error page, of the static header and of the dynamic prefix. A client-side reader of header lines (`SplitHead`, `FieldValue`) states what a client finds in that text.
- `Server` (`server.dfy`) is `read_requesthdrs` and `doit`.
  - It has a method over the `Reader` class, proved equal to the specification function `Handle`.
  - Lemmas follow a well-formed request end to end.

`Handle` is a function of the connection script, the file system and the initial contents of the two stack line buffers. Those contents matter only when the request line read, or the first header line read, meets end of file or an error: the buffer then keeps them, and `sscanf` or `strcmp` reads them. For a well-formed request the answer does not depend on them: `Server.GetIsDispatched` and `Server.NotGetIs501` hold for every initial content. So a well-formed request served twice on the same files gets byte-identical answers.

## Model

| member | source | states |
|---|---|---|
| CStrings.CString | tinyserver.c:117 | the string `sscanf` reads from a buffer is a NUL-free prefix of it, ended by the first NUL when there is one |
| CStrings.CStringTerminated | tinyserver.c:333 | a NUL written right after the stored bytes ends the C string there, whatever the buffer holds after it |
| CStrings.Contains | tinyserver.c:191 | `strstr` (here and in get_filetype) finds the empty pattern in every string, never a pattern longer than the string, and a pattern as long as the string only when the two are equal |
| CStrings.ContainsIff | tinyserver.c:191 | `strstr` succeeds exactly when the pattern occurs at some offset of the string |
| CStrings.IndexOf | tinyserver.c:201 | `index` finds nothing exactly when the character is absent; otherwise it finds its first occurrence |
| CStrings.Words | tinyserver.c:117 | the `%s` conversions read at most three tokens, each non-empty and free of white space |
| CStrings.WordsOfToken | tinyserver.c:117 | a token followed by white space or by the end of the string is read back whole as the next token |
| CStrings.WordsAfterSpace | tinyserver.c:117 | white space before a token is skipped |
| CStrings.Decimal | tinyserver.c:223 | `%d` of a size prints a non-empty string of digits with no leading zero |
| CStrings.DecimalRoundTrip | tinyserver.c:223 | parsing the printed digits of a size gives the size back |
| Rio.ReadCall | tinyserver.c:291 | one `read()` returns -1 to RIO_BUFSIZE; a count comes with that many bytes and no EINTR; a failure stores nothing and uses up its answer; a closed connection reads 0 |
| Rio.Refill | tinyserver.c:290-300 | the refill loop retries EINTR and, when it fills the buffer, stores 1 to RIO_BUFSIZE bytes |
| Rio.Ready | tinyserver.c:290-300 | rio_read refills only an empty buffer; after it there are bytes buffered, or it yields 0 or -1 with the buffer empty; the buffer never exceeds RIO_BUFSIZE |
| Rio.ReadSpec | tinyserver.c:287-309 | rio_read returns at least -1; a count of at most n comes with exactly that many bytes; an error or end of file copies nothing |
| Rio.NextByte | tinyserver.c:321 | a buffered byte is handed out without a `read()`; end of file and errors leave nothing buffered; the script only shrinks; a drained connection reads end of file (`NextByteIsRead` and `NextByteFlat` tie it to rio_read and to the bytes left) |
| Rio.Stored | tinyserver.c:322-333 | the buffer keeps its size; the bytes after the NUL that ends a line are untouched; an error keeps the bytes stored before it and writes no NUL; end of file before any byte leaves the buffer as it was |
| Rio.StoredCString | tinyserver.c:333 | a NUL-free line read whole is the C string the buffer then holds, whatever the buffer held before |
| Rio.NextByteIsRead | tinyserver.c:321 | the byte the line loop reads is what rio_read with n = 1 returns |
| Rio.LineFrom | tinyserver.c:320-332 | from any iteration, the loop stores fewer than maxlen bytes and keeps what it already stored |
| Rio.Line | tinyserver.c:316-335 | rio_readlineb stores at most maxlen - 1 bytes |
| Rio.Reader.constructor | tinyserver.c:31-36 | a fresh rio_t with its own RIO_BUFSIZE buffer satisfies the reader invariant |
| Rio.Reader.InitB | tinyserver.c:310-315 | rio_readinitb binds the descriptor and leaves the reader empty: count 0, cursor at the start, nothing buffered |
| Rio.Reader.ReadFd | tinyserver.c:291 | the `read()` call stores its bytes at the start of rio_buf and advances the script as `ReadCall` says |
| Rio.Reader.FillBuffer | tinyserver.c:290-300 | the refill loop keeps the reader invariant, reads only when rio_cnt <= 0, and ends as Ready says |
| Rio.Reader.Read | tinyserver.c:287-309 | rio_read is ReadSpec on the reader state and copies exactly its bytes; with bytes buffered it returns min(n, rio_cnt) and does not call `read()` |
| Rio.Reader.CopyOut | tinyserver.c:302-308 | copies min(n, rio_cnt) buffered bytes, advances rio_bufptr by that many and decreases rio_cnt by that many |
| Rio.Reader.ReadByte | tinyserver.c:321 | rio_read(rp, &c, 1) yields the next byte of the state, or end of file, or an error, as NextByte says |
| Rio.Reader.LineStep | tinyserver.c:321-331 | one iteration of the line loop stores the byte read after those already stored and takes the first step of LineFrom |
| Rio.Reader.ReadLine | tinyserver.c:316-335 | rio_readlineb as written: the new state, the returned loop counter and the buffer contents are those of Line |
| Rio.Reader.ReadLineCounted | tinyserver.c:316-335 | rio_readlineb returning the number of bytes stored, with the same state and buffer as ReadLine |
| Rio.Terminate | tinyserver.c:333 | the terminating NUL goes right after the stored bytes and the rest of the buffer is untouched, which is the buffer `Stored` gives for a line read whole |
| Rio.Memcpy | tinyserver.c:305 | memcpy copies k bytes and changes nothing else in the destination |
| RioFacts.ReadCallFlat | tinyserver.c:291 | one `read()` hands out exactly the head of the connection: its bytes, its end-of-file or error mark, or nothing for EINTR |
| RioFacts.RefillFlat | tinyserver.c:290-300 | the refill loop takes its bytes or its mark from the head of the connection; a closed connection stays closed |
| RioFacts.ReadyFlat | tinyserver.c:290-300 | moving bytes from the connection into the buffer changes nothing that the reader will still hand out |
| RioFacts.ReadSpecFlat | tinyserver.c:287-309 | rio_read loses and invents no byte: what it copies, or the mark it meets, is exactly the head of what was left |
| RioFacts.TakeFlat | tinyserver.c:302-308 | copying buffered bytes out removes exactly those bytes from the front |
| RioFacts.ReadSpecBuffered | tinyserver.c:302-308 | with bytes buffered, rio_read copies min(n, rio_cnt) of them and leaves the connection alone |
| RioFacts.NextByteFlat | tinyserver.c:321 | reading one byte takes exactly the head of what was left |
| RioFacts.LineFromShape | tinyserver.c:320-332 | from any iteration, the stored line has a newline only at its end, and the counter is its length, or its length + 1 when it does not end in a newline |
| RioFacts.LineShape | tinyserver.c:316-335 | a stored line is shorter than maxlen, has a newline only at its end, and is returned as its length (newline) or its length + 1 (otherwise); a read error stores no newline |
| RioFacts.LineFromNonEmpty | tinyserver.c:320-332 | a line the loop ends normally before reaching maxlen is never empty: end of file at the first iteration gives end of file, not an empty line |
| RioFacts.LineFromFlat | tinyserver.c:320-332 | from any iteration, the loop consumes exactly the bytes it stores, then the mark it stopped at |
| RioFacts.LineConsumes | tinyserver.c:316-335 | rio_readlineb consumes exactly the stored bytes: nothing more after a newline or at maxlen, the end-of-file mark after a short line, the error mark after an error |
| RioFacts.LineFromReadsLine | tinyserver.c:320-332 | a connection that starts with a whole line yields that line, with the counter at its end, and leaves the rest |
| RioFacts.LineReadsLine | tinyserver.c:316-335 | a whole line shorter than maxlen is read, returned as its length and consumed exactly |
| RioFacts.LineProgress | tinyserver.c:316-335 | each line read consumes something, unless nothing is left, in which case the reader ends empty |
| RioFacts.ReturnValueOffByOne | tinyserver.c:334 | the value returned is the bytes stored exactly when the line ends in a newline; otherwise it is one more |
| RioFacts.ReturnValueCounterexample | tinyserver.c:325-334 | "ab" and then end of file stores "ab" but returns 3 |
| RioFacts.CountedIsStored | tinyserver.c:316-335 | the corrected count equals the source's value after a newline, at end of file and on error, is one less than it after end of file in mid-line or a cut at maxlen - 1, and stays below maxlen |
| RioWrite.WriteFrom | tinyserver.c:275-284 | the loop never writes more than n bytes, has written all n when it succeeds, and uses up no more answers than the script holds |
| RioWrite.WriteFromTail | tinyserver.c:275-284 | the loop uses up answers from the front: the answers it leaves are a tail of the script |
| RioWrite.WriteN | tinyserver.c:270-286 | rio_writen returns n or -1 as WriteFrom says; the peer receives a prefix of the buffer of the length WriteFrom gives |
| RioWrite.AllToleratedWritesAll | tinyserver.c:275-285 | when every `write()` writes something or is interrupted, rio_writen returns n and all n bytes are written |
| RioWrite.FailureHasCause | tinyserver.c:276-280 | -1 comes only after a fatal `write()` (an error other than EINTR, or 0 while errno is not EINTR), with bytes still unwritten |
| RioWrite.SuccessHadNoHardFailure | tinyserver.c:276-280 | rio_writen returns n only if none of the `write()` calls it made failed with an error other than EINTR |
| RioWrite.StaleErrnoRetries | tinyserver.c:276-278 | errno is not cleared: a 0 from `write()` after an interrupted call is retried, while the same 0 first fails |
| Request.ParseUri | tinyserver.c:187-213 | static exactly when "cgi-bin" does not occur; the file name always starts with "." |
| Request.StaticTarget | tinyserver.c:191-198 | a static target has no arguments; its name is "." + uri, followed by home.html exactly when the URI ends in '/' |
| Request.DynamicTarget | tinyserver.c:200-212 | a CGI name holds no '?'; with a '?' the name and the arguments joined by '?' give back the URI; without one, the arguments are empty |
| Request.ParseUriSplitAt | tinyserver.c:201-210 | a CGI URI whose first '?' is at i is split there |
| Request.ParseUriRoot | tinyserver.c:195-196 | "/" is served from ./home.html |
| Request.ParseUriStaticQuery | tinyserver.c:193-194 | the query of a static URI stays in the file name |
| Request.ParseUriCgi | tinyserver.c:201-210 | "/cgi-bin/adder?15&2" runs ./cgi-bin/adder with arguments "15&2" |
| Request.ParseUriCgiAnywhere | tinyserver.c:191 | "cgi-bin" counts anywhere, even inside a longer name, and then no home.html is added |
| Request.FileType | tinyserver.c:234-244 | the type is one of the four of the table |
| Request.FileTypeFirstMatch | tinyserver.c:234-244 | each type is chosen exactly when its extension is the first of the table that occurs in the name |
| Request.FileTypeBySuffix | tinyserver.c:236-239 | a name ending in .html is text/html; one ending in .gif is image/gif unless ".html" occurs in it |
| Request.ModeFields | tinyserver.c:131-138 | the S_IFMT, S_IRUSR and S_IXUSR masks select the file-type field (bits 12-15) and the owner's read (bit 8) and execute (bit 6) bits |
| Request.IsGet | tinyserver.c:118 | strcasecmp(method, "GET") == 0 holds exactly for the three-letter strings spelling GET in any mix of upper and lower case |
| Request.Permitted | tinyserver.c:131-138 | the test passes exactly when the file-type field of st_mode (bits 12-15) says regular file and the owner's read bit (static) or execute bit (CGI) is set |
| Request.Route | tinyserver.c:124-143 | never 501; 404 exactly when stat fails on parse_uri's file name; 403 exactly when the file is there but fails the permission test; a static file is served with its own bytes, a program with parse_uri's arguments |
| Request.Dispatch | tinyserver.c:118-143 | 501, naming the method, exactly when the method is not GET in some letter case |
| Request.DispatchCases | tinyserver.c:118-143 | 501 exactly for a method other than GET; 404 exactly when stat fails; 403 exactly when the file is not regular or lacks owner read (static) or execute (CGI); service otherwise, with the file's bytes or the CGI arguments |
| Request.GetIgnoresCase | tinyserver.c:118 | "GET", "get", "GeT" and "Get" pass the method test; "POST", "GETS" and the empty string do not |
| Request.ModeExamples | tinyserver.c:131-138 | a readable regular file is served but not run; a directory is not served |
| Response.ErrorBody | tinyserver.c:161-165 | the error body is 94 characters of fixed text plus the four strings, and ends with CR LF |
| Response.ClientError | tinyserver.c:157-174 | clienterror's output starts with the status line "HTTP/1.0 " and the error number, and ends with the whole error body |
| Response.StaticResponse | tinyserver.c:215-232 | serve_static's output starts with "HTTP/1.0 200 OK" and CR LF, and ends with the file's bytes |
| Response.DynamicPrefix | tinyserver.c:250-253 | serve_dynamic writes exactly the status line and the Server line, and no empty line: the CGI program must end the header |
| Response.HeadRoundTrip | tinyserver.c:221-224 | a client splits header lines ended by CR LF and the empty line back into the same lines and the body |
| Response.StaticFields | tinyserver.c:221-224 | the Content-length field of serve_static holds the size in decimal, and Content-type holds the type get_filetype chose |
| Response.StaticFraming | tinyserver.c:215-230 | a client of a static response reads the exact file bytes as the body, a Content-length that parses back to their number, and the type |
| Response.ErrorFields | tinyserver.c:167-171 | the error header announces its length only as "sContent-length" and has no Content-length field |
| Response.ErrorFraming | tinyserver.c:161-173 | a client of an error page reads the body clienterror built, a status line with the long message, and an sContent-length that parses back to the body's length |
| Server.HeadersLoop | tinyserver.c:180-183 | the header loop returns only with "\r\n" and a NUL at the start of its MAXLINE buffer |
| Server.ReadHeaders | tinyserver.c:176-185 | read_requesthdrs returns only with "\r\n" and a NUL at the start of its MAXLINE buffer |
| Server.DrainedRepeats | tinyserver.c:179-181 | on a drained connection a line read meets end of file, leaves the buffer as it was and the reader drained, so the loop test never changes |
| Server.HeaderStep | tinyserver.c:181 | one line read over header lines stores the first of them, which is the blank line exactly when no header line is left |
| Server.HeadersSkipped | tinyserver.c:180-183 | the loop reads header lines up to and including the blank line and not one byte further |
| Server.HeadersFrom | tinyserver.c:176-185 | read_requesthdrs returns on a connection holding header lines and the blank line, and leaves exactly what follows them |
| Server.ReadRequestHdrs | tinyserver.c:176-185 | the method ends in the state ReadHeaders gives, and reports a hang exactly when the source loops forever |
| Server.RequestLineWords | tinyserver.c:117 | the three `%s` conversions read method, URI and version of a request line |
| Server.RequestRead | tinyserver.c:116-117 | the first line read consumes exactly the request line, and its three tokens are read |
| Server.NotGetIs501 | tinyserver.c:116-121 | any request line whose first token is not GET, in any letter case, gets the 501 page naming that token, whatever else the line holds; nothing after the line is read |
| Server.MethodAlone | tinyserver.c:117 | a line holding only a method and CR LF, such as "FOO\r\n", is a line whose one token is the method, so NotGetIs501 covers it |
| Server.GetIsDispatched | tinyserver.c:115-143 | a GET request with headers gets the response for Dispatch on its URI, and doit reads exactly the request line and the headers |
| Server.HomeRoute | tinyserver.c:124-135 | with only a readable regular ./home.html, the URI "/" is served from it |
| Server.HomePage | tinyserver.c:115-135 | "GET / HTTP/1.0" and a blank line get the serve_static response for ./home.html |
| Server.HomeFields | tinyserver.c:220-224 | a 15-byte home.html is announced with Content-length 15 and type text/html |
| Server.ResponseFor | tinyserver.c:119-142 | every response starts with "HTTP/1.0 " and the decision's status code (501, 404, 403 or 200); a static file's response ends with its bytes |
| Server.Handle | tinyserver.c:107-144 | a reply is always the response for its decision, and a 501 reply names a method that is not GET in any case (`GetIsDispatched`, `NotGetIs501` and `HomePage` characterise it on well-formed requests) |
| Server.Doit | tinyserver.c:107-144 | doit over the Reader class serves what Handle gives and leaves the reader in Handle's state |

## Behaviour kept as the code has it

- A static URI keeps its query text in the file name (`/index.html?x=1` names `./index.html?x=1`). The code does not strip it.
- "cgi-bin" is found anywhere in the URI, not only as a path segment.
- The status line of an error page carries the long message ("HTTP/1.0 404 Tiny coundn't find this file"), not the reason phrase. The short message appears only in the body.
- The length header of an error page is spelled `sContent-length`, so a client finds no `Content-length` field (`Response.ErrorFields`).
- The reason texts and their misspellings ("Not found", "coundn't") are the code's.
- The server header is `Server:Tiny Web Server`, with no space after the colon.
- A request line with fewer than two tokens does not make the code use empty strings. `method` and `uri` keep whatever the stack held. The model calls that outcome `Unspecified`.
- A connection closed before the blank line that ends the headers makes `read_requesthdrs` loop forever. The model reports this as `Stalled`.

## Left out

- `main`, `open_listenfd`, `open_clientfd` and the accept loop: socket plumbing with no logic beyond system calls.
- `serve_dynamic`'s `fork`, `setenv("QUERY_STRING")`, `dup2`, `execve` and `wait`: process control. Only the two header lines it writes are modelled (`DynamicPrefix`). The CGI arguments are kept in the decision.
- `serve_static`'s `open`, `mmap`, `close` and `munmap`: the mapped bytes are the `content` of the file's `FileInfo`.
- `stat`: it is a lookup in a map from file name to mode and content. `st_size` is the length of the content.
- `Request.Route`: `st_size` is passed to `serve_static` as an `int`. The truncation of sizes of 2^31 bytes and more is not modelled.
- Request.ParseUri: the file name "." + uri + "home.html" is unbounded, while the code builds it with `strcpy`/`strcat` in `char filename[MAXLINE]` (tinyserver.c:112, 193-196). A URI of 8182 characters or more that ends in '/' overflows that buffer. The model does not capture the overflow.
- `printf("%s", buf)` in `read_requesthdrs`: debug output, not modelled.
- `Server.ReadRequestHdrs`: where the source loops forever on a drained connection, the method returns `true` instead. `Server.DrainedRepeats` shows that each further iteration would change nothing.
- `Server.Doit`: each response is the text handed to `rio_writen`, in order. Its delivery is `RioWrite.WriteN`, which is not composed into `Doit`, because `doit` ignores what `rio_writen` returns.
- Uninitialised stack buffers (`buf` in `doit` and in `read_requesthdrs`) are parameters that hold their initial contents. The model follows the code over whatever they hold. If the first line read meets end of file or an error, the buffer keeps those contents, and `sscanf` or `strcmp` reads them. The outcome is `Unspecified` only where `sscanf` leaves `method` or `uri` unwritten, or the line buffer holds no NUL. The stack bytes `method` and `uri` would then hold are not modelled.
- `clienterror`'s fixed buffers: a `cause` long enough to overflow `body[MAXBUF]`, or `buf[MAXLINE]` in `sprintf`, is not modelled. `sprintf(body, "%s...", body)`, which reads the buffer it writes, is modelled as plain concatenation.
- `Rio.ReadCall`: an exhausted read script reads as end of file, like a peer that closed the connection.
- `RioWrite.WriteFrom`: an exhausted write script accepts everything that is left.
- `errno` is modelled only as "EINTR or not". Signals are modelled only as interrupted calls.
- `rio_bufptr` is an offset into `rio_buf`, not a pointer. Likewise `Reader.Read` copies to `usrbuf + off`. Its one caller, the byte read in `rio_readlineb` (`Reader.ReadByte`), passes a one-byte array at offset 0.
- The `DEF_MODE` and `DEF_UMASK` macros are unused by the code.

## Findings

| source | as written | input that shows it | evidently intended | confidence | as-written member | corrected member |
|---|---|---|---|---|---|---|
| tinyserver.c:320-334 | `rio_readlineb` returns the loop counter `n`. After a newline that is the number of bytes stored. After end of file in mid-line, or when the line is cut at maxlen - 1 bytes, it is one more. | a connection that sends "ab" and closes: "ab" is stored and 3 is returned | the number of bytes stored (2), as in the newline case | not executed; no caller in the file uses the value | RioFacts.ReturnValueCounterexample | Rio.Reader.ReadLineCounted |

`Rio.Reader.ReadLine` models the code as written. `RioFacts.ReturnValueOffByOne` states the discrepancy for every input.

`Rio.Reader.ReadLineCounted` advances the counter past the newline and returns `n - 1`. `RioFacts.CountedIsStored` proves that its value is the number of bytes stored. The server model (`Server.ReadRequestHdrs`, `Server.Doit`) reads lines with it.
