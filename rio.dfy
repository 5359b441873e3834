/** The robust buffered reader of tinyserver.c: the rio_t structure, whose
    fixed RIO_BUFSIZE buffer is refilled by read() on the connection only when
    it is empty, and the routines rio_readinitb, rio_read and rio_readlineb.

    The connection itself is a script: the answers the kernel gives to the
    successive read() calls. Spec functions (ReadCall, Refill, ReadSpec,
    LineFrom, Line) describe each routine on the abstract state RioState; the
    class Reader implements them over the real buffer and is proved against
    them. What a read consumes from the connection is stated in RioFacts. */
module Rio {
  import opened CStrings

  const RIO_BUFSIZE: nat := 8192
  const MAXLINE: nat := 8192

  /** The kernel's answer to one read(fd, buf, n) call. */
  datatype Chunk =
    | Data(bytes: seq<char>)   // the bytes that are available; none at all is end of file
    | Interrupted              // -1 with errno EINTR
    | Failed                   // -1 with any other errno

  /** What one read(rio_fd, rio_buf, RIO_BUFSIZE) returns, whether errno is
      EINTR, the bytes it stores, and the stream left after it. */
  datatype SysRead = SysRead(ret: int, eintr: bool, bytes: seq<char>, rest: seq<Chunk>)

  /** One read() of at most RIO_BUFSIZE bytes. An exhausted script reads as end of
      file; bytes beyond RIO_BUFSIZE stay at the head of the stream. */
  function ReadCall(source: seq<Chunk>): (r: SysRead)
    ensures -1 <= r.ret <= RIO_BUFSIZE
    ensures r.ret >= 0 ==> |r.bytes| == r.ret && !r.eintr
    ensures r.ret < 0 ==> r.bytes == [] && |r.rest| < |source|
    ensures source == [] ==> r.ret == 0 && r.rest == []
  {
    if source == [] then SysRead(0, false, [], [])
    else match source[0]
      case Interrupted => SysRead(-1, true, [], source[1..])
      case Failed => SysRead(-1, false, [], source[1..])
      case Data(d) =>
        if |d| <= RIO_BUFSIZE then SysRead(|d|, false, d, source[1..])
        else SysRead(RIO_BUFSIZE, false, d[..RIO_BUFSIZE], [Data(d[RIO_BUFSIZE..])] + source[1..])
  }

  /** How the refill loop of rio_read ends. */
  datatype Fill =
    | Filled(bytes: seq<char>, rest: seq<Chunk>)
    | AtEof(rest: seq<Chunk>)
    | ReadError(rest: seq<Chunk>)

  /** The refill loop of rio_read: read() again after every EINTR, stop at the
      first answer that is data, end of file or another error. */
  function Refill(source: seq<Chunk>): (f: Fill)
    ensures f.Filled? ==> 0 < |f.bytes| <= RIO_BUFSIZE
    decreases |source|
  {
    var r := ReadCall(source);
    if r.ret < 0 then (if r.eintr then Refill(r.rest) else ReadError(r.rest))
    else if r.ret == 0 then AtEof(r.rest)
    else Filled(r.bytes, r.rest)
  }

  /** A reader as its users see it: the unread bytes in its buffer, then the
      rest of the connection. */
  datatype RioState = RioState(buffered: seq<char>, source: seq<Chunk>)

  /** The result of rio_read: its return value, the bytes it copied out, the new state. */
  datatype Copied = Copied(rc: int, data: seq<char>, after: RioState)

  function Max(a: int, b: int): int
  {
    if a < b then b else a
  }

  /** Copy min(n, |b|) bytes out of the buffered bytes `b`. */
  function Take(b: seq<char>, source: seq<Chunk>, n: nat): (r: Copied)
  {
    var k := Min(n, |b|);
    Copied(k, b[..k], RioState(b[k..], source))
  }

  /** The refill loop at the head of rio_read: 1 with bytes in the buffer,
      0 at end of file, -1 on a read error. */
  function Ready(st: RioState): (r: (int, RioState))
    ensures r.0 == 1 ==> r.1.buffered != []
    ensures r.0 != 1 ==> r.0 in {0, -1} && r.1.buffered == []
    ensures |st.buffered| <= RIO_BUFSIZE ==> |r.1.buffered| <= RIO_BUFSIZE
  {
    if st.buffered != [] then (1, st)
    else match Refill(st.source)
      case Filled(b, rest) => (1, RioState(b, rest))
      case AtEof(rest) => (0, RioState([], rest))
      case ReadError(rest) => (-1, RioState([], rest))
  }

  /** rio_read(rp, usrbuf, n): refill only when the buffer is empty, then copy
      min(n, rio_cnt) bytes; 0 at end of file, -1 on a read error. */
  function ReadSpec(st: RioState, n: nat): (r: Copied)
    ensures -1 <= r.rc
    ensures r.rc >= 0 ==> |r.data| == r.rc <= n
    ensures r.rc < 0 ==> r.data == []
    ensures |st.buffered| <= RIO_BUFSIZE ==> |r.after.buffered| <= RIO_BUFSIZE
  {
    var (status, ready) := Ready(st);
    if status == 1 then Take(ready.buffered, ready.source, n)
    else Copied(status, [], ready)
  }

  /** How rio_readlineb ends. */
  datatype LineResult =
    | LineOk(line: seq<char>, count: nat)   // `line` stored, then a NUL; `count` returned
    | LineEof                               // end of file before any byte: 0 returned, buffer untouched
    | LineErr(line: seq<char>)              // read error: -1 returned after storing `line`, no NUL

  /** The value rio_readlineb returns, as the source computes it. */
  function LineReturn(res: LineResult): int
  {
    match res
    case LineOk(_, count) => count
    case LineEof => 0
    case LineErr(_) => -1
  }

  /** The user buffer after rio_readlineb, given its contents before: a
      line read whole is the C string the buffer then holds; an error keeps
      the bytes stored before it and no NUL is written; the rest of the
      buffer keeps what it held. */
  function Stored(buf: seq<char>, res: LineResult): (r: seq<char>)
    requires res.LineOk? ==> |res.line| < |buf|
    requires res.LineErr? ==> |res.line| <= |buf|
    ensures |r| == |buf|
    ensures res.LineOk? ==> r[|res.line| + 1..] == buf[|res.line| + 1..]
    ensures res.LineErr? ==> r[..|res.line|] == res.line && r[|res.line|..] == buf[|res.line|..]
    ensures res.LineEof? ==> r == buf
  {
    match res
    case LineOk(g, _) =>
      var r := g + [NUL] + buf[|g| + 1..];
      assert r[|g| + 1..] == buf[|g| + 1..];
      r
    case LineEof => buf
    case LineErr(g) => g + buf[|g|..]
  }

  /** A NUL-free line read whole is the C string the buffer then holds. */
  lemma StoredCString(buf: seq<char>, l: seq<char>, count: nat)
    requires NUL !in l && |l| < |buf|
    ensures NUL in Stored(buf, LineOk(l, count)) && CString(Stored(buf, LineOk(l, count))) == l
  {
    CStringTerminated(l, buf[|l| + 1..]);
    assert Stored(buf, LineOk(l, count))[|l|] == NUL;
  }

  /** What rio_read(rp, &c, 1) yields. */
  datatype Got =
    | GotByte(c: char, after: RioState)
    | GotEof(after: RioState)
    | GotErr(after: RioState)

  /** rio_read(rp, &c, 1): the next buffered byte, or the first byte of the next refill. */
  function NextByte(st: RioState): (g: Got)
    ensures st.buffered != [] ==> g == GotByte(st.buffered[0], RioState(st.buffered[1..], st.source))
    ensures !g.GotByte? ==> g.after.buffered == []
    ensures |g.after.source| <= |st.source|
    ensures st == RioState([], []) ==> g == GotEof(st)
    decreases |st.source|
  {
    if st.buffered != [] then GotByte(st.buffered[0], RioState(st.buffered[1..], st.source))
    else
      var r := ReadCall(st.source);
      if r.ret < 0 then (if r.eintr then NextByte(RioState([], r.rest)) else GotErr(RioState([], r.rest)))
      else if r.ret == 0 then GotEof(RioState([], r.rest))
      else GotByte(r.bytes[0], RioState(r.bytes[1..], r.rest))
  }

  /** Reading one byte is rio_read with n == 1. */
  lemma {:induction false} NextByteIsRead(st: RioState)
    ensures var r := ReadSpec(st, 1);
      NextByte(st) == if r.rc == 1 then GotByte(r.data[0], r.after) else if r.rc == 0 then GotEof(r.after) else GotErr(r.after)
    decreases |st.source|
  {
    if st.buffered == [] {
      var r := ReadCall(st.source);
      if r.ret < 0 && r.eintr {
        NextByteIsRead(RioState([], r.rest));
      }
    }
  }

  /** The loop of rio_readlineb from the iteration with counter `n`, having
      stored `got` so far: read one byte at a time with rio_read, stop after a
      newline, at end of file, on an error, or when `n` reaches `maxlen`. */
  function LineFrom(st: RioState, got: seq<char>, n: nat, maxlen: nat): (r: (LineResult, RioState))
    requires 1 <= n && |got| == n - 1
    ensures r.0.LineOk? ==> |got| <= |r.0.line| < Max(n, maxlen)
    ensures r.0.LineErr? ==> |r.0.line| < Max(n, maxlen)
    decreases maxlen - n
  {
    if n >= maxlen then (LineOk(got, n), st)
    else match NextByte(st)
      case GotByte(c, after) =>
        if c == '\n' then (LineOk(got + [c], n), after)
        else LineFrom(after, got + [c], n + 1, maxlen)
      case GotEof(after) => if n == 1 then (LineEof, after) else (LineOk(got, n), after)
      case GotErr(after) => (LineErr(got), after)
  }

  /** rio_readlineb(rp, usrbuf, maxlen) on a reader in state `st`. */
  function Line(st: RioState, maxlen: nat): (r: (LineResult, RioState))
    ensures r.0.LineOk? ==> |r.0.line| < Max(1, maxlen)
    ensures r.0.LineErr? ==> |r.0.line| < Max(1, maxlen)
  {
    LineFrom(st, [], 1, maxlen)
  }

  /** The line reader's buffer: rio_t, with rio_bufptr kept as an offset into rio_buf. */
  class Reader {
    var fd: int                // rio_fd
    var cnt: int               // rio_cnt: unread bytes in buf (-1 after a failed read)
    var bufptr: nat            // rio_bufptr - rio_buf: the next unread byte
    const buf: array<char>     // rio_buf
    var source: seq<Chunk>     // what read() on fd answers next, call by call
    ghost var buffered: seq<char>  // the unread bytes, buf[bufptr..bufptr + cnt]

    /** The cursor and the unread count stay inside the buffer. */
    ghost predicate Valid()
      reads this, buf
    {
      buf.Length == RIO_BUFSIZE && -1 <= cnt && bufptr <= RIO_BUFSIZE && bufptr + cnt <= RIO_BUFSIZE &&
      |buffered| == Max(cnt, 0) && forall i :: 0 <= i < |buffered| ==> buffered[i] == buf[bufptr + i]
    }

    ghost function State(): RioState
      reads this
    {
      RioState(buffered, source)
    }

    /** Nothing is buffered and read() has nothing left but end of file. */
    predicate Drained()
      reads this
    {
      cnt <= 0 && source == []
    }

    /** Storage for a rio_t; rio_readinitb gives its fields their meaning. */
    constructor ()
      ensures Valid() && fresh(buf)
    {
      buf := new char[RIO_BUFSIZE];
      fd, cnt, bufptr, source := -1, 0, 0, [];
      buffered := [];
    }

    /** rio_readinitb(rp, fd): bind the reader to `fd`, whose read() calls answer
        `source`, with nothing buffered and the cursor at the start of the buffer. */
    method InitB(fd: int, source: seq<Chunk>)
      requires buf.Length == RIO_BUFSIZE
      modifies this
      ensures Valid() && this.fd == fd && cnt == 0 && bufptr == 0 && this.source == source
      ensures State() == RioState([], source)
    {
      this.fd := fd;
      cnt := 0;
      bufptr := 0;
      this.source := source;
      buffered := [];
    }

    /** read(rio_fd, rio_buf, sizeof(rio_buf)). */
    method ReadFd() returns (ret: int, eintr: bool)
      requires buf.Length == RIO_BUFSIZE
      modifies this`source, buf
      ensures var r := ReadCall(old(source));
        ret == r.ret && eintr == r.eintr && source == r.rest &&
        (ret > 0 ==> buf[..ret] == r.bytes)
    {
      var r := ReadCall(source);
      ret, eintr := r.ret, r.eintr;
      if ret > 0 {
        forall i | 0 <= i < ret {
          buf[i] := r.bytes[i];
        }
      }
      source := r.rest;
    }

    /** The loop at the head of rio_read: while the buffer is empty, read()
        into it, again after EINTR; 0 at end of file, -1 on another error. */
    method FillBuffer() returns (status: int)
      requires Valid()
      modifies this`cnt, this`bufptr, this`source, this`buffered, buf
      ensures Valid()
      ensures (status, State()) == Ready(old(State()))
      ensures status == 1 ==> cnt > 0
      ensures old(cnt) > 0 ==> cnt == old(cnt) && bufptr == old(bufptr) && source == old(source)
    {
      while cnt <= 0
        invariant Valid()
        invariant Ready(State()) == Ready(old(State()))
        invariant old(cnt) > 0 ==> cnt == old(cnt) && bufptr == old(bufptr) && source == old(source)
        decreases |source|, if cnt <= 0 then 1 else 0
      {
        var ret, eintr := ReadFd();
        cnt := ret;
        if cnt < 0 {
          if !eintr {
            buffered := [];
            return -1;
          }
        } else if cnt == 0 {
          buffered := [];
          return 0;
        } else {
          bufptr := 0;
        }
        buffered := if cnt > 0 then buf[bufptr..bufptr + cnt] else [];
      }
      status := 1;
    }

    /** rio_read(rp, usrbuf + off, n). */
    method Read(usrbuf: array<char>, off: nat, n: nat) returns (rc: int)
      requires Valid() && usrbuf != buf && off + n <= usrbuf.Length
      modifies this, buf, usrbuf
      ensures Valid() && fd == old(fd)
      ensures var r := ReadSpec(old(State()), n);
        rc == r.rc && State() == r.after && usrbuf[off..off + |r.data|] == r.data &&
        usrbuf[..off] == old(usrbuf[..off]) && usrbuf[off + |r.data|..] == old(usrbuf[off + |r.data|..])
      ensures old(cnt) > 0 ==> rc == Min(n, old(cnt)) && source == old(source)
    {
      rc := FillBuffer();
      if rc <= 0 {
        return;
      }
      rc := CopyOut(usrbuf, off, n);
    }

    /** The tail of rio_read: copy min(n, rio_cnt) buffered bytes to usrbuf + off
        and advance the cursor past them. */
    method CopyOut(usrbuf: array<char>, off: nat, n: nat) returns (k: int)
      requires Valid() && cnt > 0 && usrbuf != buf && off + n <= usrbuf.Length
      modifies this`bufptr, this`cnt, this`buffered, usrbuf
      ensures Valid()
      ensures k == Min(n, old(cnt)) && bufptr == old(bufptr) + k && cnt == old(cnt) - k
      ensures buffered == old(buffered)[k..]
      ensures usrbuf[off..off + k] == old(buffered)[..k]
      ensures usrbuf[..off] == old(usrbuf[..off]) && usrbuf[off + k..] == old(usrbuf[off + k..])
    {
      k := if cnt < n then cnt else n;
      Memcpy(usrbuf, off, buf, bufptr, k);
      assert buf[bufptr..bufptr + k] == buffered[..k];
      bufptr := bufptr + k;
      cnt := cnt - k;
      buffered := buffered[k..];
    }

    /** rio_read(rp, &c, 1). */
    method ReadByte() returns (rc: int, c: char)
      requires Valid()
      modifies this, buf
      ensures Valid() && fd == old(fd)
      ensures NextByte(old(State())) ==
        if rc == 1 then GotByte(c, State()) else if rc == 0 then GotEof(State()) else GotErr(State())
    {
      var cell := new char[1];
      rc := Read(cell, 0, 1);
      c := cell[0];
      NextByteIsRead(old(State()));
    }

    /** One iteration of the loop of rio_readlineb, at counter `n`:
        rio_read(rp, &c, 1), and on success *bufp++ = c, with `bufp` the
        offset of the next byte. Its outcome is the first step of LineFrom. */
    method LineStep(usrbuf: array<char>, bufp: nat, ghost got: seq<char>, ghost u0: seq<char>, n: nat, maxlen: nat)
      returns (rc: int, c: char)
      requires Valid() && usrbuf != buf && bufp < usrbuf.Length == |u0| && |got| == bufp
      requires usrbuf[..bufp] == got && usrbuf[bufp..] == u0[bufp..]
      requires 1 <= n < maxlen && bufp == n - 1
      modifies this, buf, usrbuf
      ensures Valid() && fd == old(fd)
      ensures rc == 1 && c != '\n' ==> LineFrom(old(State()), got, n, maxlen) == LineFrom(State(), got + [c], n + 1, maxlen)
      ensures rc == 1 && c == '\n' ==> LineFrom(old(State()), got, n, maxlen) == (LineOk(got + [c], n), State())
      ensures rc == 0 ==> LineFrom(old(State()), got, n, maxlen) == (if n == 1 then LineEof else LineOk(got, n), State())
      ensures rc != 0 && rc != 1 ==> LineFrom(old(State()), got, n, maxlen) == (LineErr(got), State())
      ensures rc == 1 ==> usrbuf[..bufp + 1] == got + [c] && usrbuf[bufp + 1..] == u0[bufp + 1..]
      ensures rc != 1 ==> usrbuf[..] == got + u0[bufp..]
    {
      rc, c := ReadByte();
      if rc == 1 {
        StoreByte(usrbuf[..], got, u0, c);
        usrbuf[bufp] := c;
      } else {
        Assemble(usrbuf[..], got, u0);
      }
    }

    /** rio_readlineb(rp, usrbuf, maxlen), as the source writes it: the value
        returned is the loop counter, one more than the bytes stored unless the
        line ended with a newline. */
    method ReadLine(usrbuf: array<char>, maxlen: nat) returns (rc: int)
      requires Valid() && usrbuf != buf && Max(1, maxlen) <= usrbuf.Length
      modifies this, buf, usrbuf
      ensures Valid() && fd == old(fd)
      ensures var (res, st) := Line(old(State()), maxlen);
        State() == st && rc == LineReturn(res) && usrbuf[..] == Stored(old(usrbuf[..]), res)
    {
      ghost var target := Line(State(), maxlen);
      ghost var u0 := usrbuf[..];
      var n := 1;
      var bufp: nat := 0;
      ghost var got: seq<char> := [];
      while n < maxlen
        invariant Valid() && fd == old(fd)
        invariant 1 <= n <= Max(1, maxlen) && bufp == n - 1 && |got| == bufp
        invariant usrbuf[..bufp] == got && usrbuf[bufp..] == u0[bufp..]
        invariant LineFrom(State(), got, n, maxlen) == target
        decreases maxlen - n
      {
        var c;
        rc, c := LineStep(usrbuf, bufp, got, u0, n, maxlen);
        if rc == 1 {
          bufp := bufp + 1;
          got := got + [c];
          if c == '\n' {
            break;
          }
        } else if rc == 0 {
          if n == 1 {
            return 0;
          }
          break;
        } else {
          return -1;
        }
        n := n + 1;
      }
      Terminate(usrbuf, bufp, got, u0, n);
      rc := n;
    }

    /** rio_readlineb with the loop counter advanced past a newline and one
        subtracted on return, so that it returns the number of bytes stored. */
    method ReadLineCounted(usrbuf: array<char>, maxlen: nat) returns (rc: int)
      requires Valid() && usrbuf != buf && Max(1, maxlen) <= usrbuf.Length
      modifies this, buf, usrbuf
      ensures Valid() && fd == old(fd)
      ensures var (res, st) := Line(old(State()), maxlen);
        State() == st && rc == LineCount(res) && usrbuf[..] == Stored(old(usrbuf[..]), res)
    {
      ghost var target := Line(State(), maxlen);
      ghost var u0 := usrbuf[..];
      var n := 1;
      var bufp: nat := 0;
      ghost var got: seq<char> := [];
      while n < maxlen
        invariant Valid() && fd == old(fd)
        invariant 1 <= n <= Max(1, maxlen) && bufp == n - 1 && |got| == bufp
        invariant usrbuf[..bufp] == got && usrbuf[bufp..] == u0[bufp..]
        invariant LineFrom(State(), got, n, maxlen) == target
        decreases maxlen - n
      {
        var c;
        rc, c := LineStep(usrbuf, bufp, got, u0, n, maxlen);
        if rc == 1 {
          bufp := bufp + 1;
          got := got + [c];
          if c == '\n' {
            assert target == (LineOk(got, n), State());
            n := n + 1;
            break;
          }
        } else if rc == 0 {
          if n == 1 {
            return 0;
          }
          break;
        } else {
          return -1;
        }
        n := n + 1;
      }
      Terminate(usrbuf, bufp, got, u0, target.0.count);
      rc := n - 1;
    }
  }

  /** *bufp = 0 after the `got` bytes stored so far. */
  method Terminate(usrbuf: array<char>, bufp: nat, ghost got: seq<char>, ghost u0: seq<char>, ghost count: nat)
    requires bufp == |got| < usrbuf.Length == |u0| && usrbuf[..bufp] == got && usrbuf[bufp..] == u0[bufp..]
    modifies usrbuf
    ensures usrbuf[..] == got + [NUL] + u0[bufp + 1..]
    ensures usrbuf[..] == Stored(u0, LineOk(got, count))
  {
    StoreByte(usrbuf[..], got, u0, NUL);
    usrbuf[bufp] := NUL;
    Assemble(usrbuf[..], got + [NUL], u0);
  }

  /** A buffer that holds `got` and then what it held before. */
  lemma Assemble(a: seq<char>, got: seq<char>, u: seq<char>)
    requires |got| <= |a| == |u| && a[..|got|] == got && a[|got|..] == u[|got|..]
    ensures a == got + u[|got|..]
  {
    assert a == a[..|got|] + a[|got|..];
  }

  /** Storing one more byte right after the ones stored so far. */
  lemma StoreByte(a: seq<char>, got: seq<char>, u: seq<char>, c: char)
    requires |got| < |a| == |u| && a[..|got|] == got && a[|got|..] == u[|got|..]
    ensures a[|got| := c][..|got| + 1] == got + [c]
    ensures a[|got| := c][|got| + 1..] == u[|got| + 1..]
  {
    assert a[|got| := c][|got| + 1..] == a[|got| + 1..] == a[|got|..][1..];
  }

  /** memcpy(dst + doff, src + soff, k) between two distinct arrays. */
  method Memcpy(dst: array<char>, doff: nat, src: array<char>, soff: nat, k: nat)
    requires dst != src && doff + k <= dst.Length && soff + k <= src.Length
    modifies dst
    ensures dst[doff..doff + k] == src[soff..soff + k]
    ensures dst[..doff] == old(dst[..doff]) && dst[doff + k..] == old(dst[doff + k..])
  {
    forall i | 0 <= i < k {
      dst[doff + i] := src[soff + i];
    }
  }

  /** The value the corrected rio_readlineb returns: the bytes stored. */
  function LineCount(res: LineResult): int
  {
    match res
    case LineOk(g, _) => |g|
    case LineEof => 0
    case LineErr(_) => -1
  }
}
