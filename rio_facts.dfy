/** What the buffered reader of tinyserver.c consumes from its connection.

    Flat(st) lists, in order, everything a reader in state `st` will still
    hand out: its buffered bytes, then the bytes of every later read(), with
    an end-of-file mark for each read() that returns 0 and an error mark for
    each read() that fails. EINTR answers are retried and leave no mark. */
module RioFacts {
  import opened CStrings
  import opened Rio

  datatype Item = Byte(c: char) | EofMark | ErrMark

  function Bytes(s: seq<char>): (r: seq<Item>)
  {
    seq(|s|, i requires 0 <= i < |s| => Byte(s[i]))
  }

  lemma BytesAppend(a: seq<char>, b: seq<char>)
    ensures Bytes(a + b) == Bytes(a) + Bytes(b)
  {
  }

  /** The items of a byte string start with its first byte. */
  lemma BytesHead(l: seq<char>, rest: seq<Item>, c: char, next: seq<Item>)
    requires l != [] && Bytes(l) + rest == [Byte(c)] + next
    ensures c == l[0] && next == Bytes(l[1..]) + rest
  {
    assert Bytes(l) == [Byte(l[0])] + Bytes(l[1..]);
    assert ([Byte(c)] + next)[0] == Byte(c) && ([Byte(c)] + next)[1..] == next;
    assert (Bytes(l) + rest)[1..] == Bytes(l[1..]) + rest;
  }

  /** Items that start with a byte string start with its first byte. */
  lemma FirstItem(l: seq<char>, rest: seq<Item>)
    ensures l != [] ==> (Bytes(l) + rest)[0] == Byte(l[0])
  {
  }

  /** One more byte in front of what was consumed. */
  lemma ConsBytes(c: char, got: seq<char>, g: seq<char>, tail: seq<Item>, next: seq<Item>)
    requires got + [c] <= g
    requires Bytes(g[|got| + 1..]) + tail == next
    ensures got <= g && Bytes(g[|got|..]) + tail == [Byte(c)] + next
  {
    assert g[|got|] == c;
    assert g[|got|..] == [c] + g[|got| + 1..];
    assert Bytes(g[|got|..]) == [Byte(c)] + Bytes(g[|got| + 1..]);
  }

  /** The marks one read() answer leaves. */
  function ChunkItems(c: Chunk): seq<Item>
  {
    match c
    case Data(d) => if d == [] then [EofMark] else Bytes(d)
    case Interrupted => []
    case Failed => [ErrMark]
  }

  function FlatSource(source: seq<Chunk>): seq<Item>
  {
    if source == [] then [] else ChunkItems(source[0]) + FlatSource(source[1..])
  }

  function Flat(st: RioState): seq<Item>
  {
    Bytes(st.buffered) + FlatSource(st.source)
  }

  /** One read() hands out its bytes (or its mark) and leaves the rest, in
      order, also when it splits a chunk longer than the buffer. */
  lemma ReadCallFlat(source: seq<Chunk>)
    requires source != []
    ensures var r := ReadCall(source);
      if r.ret > 0 then FlatSource(source) == Bytes(r.bytes) + FlatSource(r.rest)
      else if r.ret == 0 then FlatSource(source) == [EofMark] + FlatSource(r.rest)
      else if r.eintr then FlatSource(source) == FlatSource(r.rest)
      else FlatSource(source) == [ErrMark] + FlatSource(r.rest)
  {
    var r := ReadCall(source);
    assert FlatSource(source) == ChunkItems(source[0]) + FlatSource(source[1..]);
    match source[0]
    case Data(d) =>
      if |d| > RIO_BUFSIZE {
        var d1, d2 := d[..RIO_BUFSIZE], d[RIO_BUFSIZE..];
        assert d == d1 + d2;
        BytesAppend(d1, d2);
        assert r.rest == [Data(d2)] + source[1..];
        assert r.rest[0] == Data(d2) && r.rest[1..] == source[1..];
        assert FlatSource(r.rest) == Bytes(d2) + FlatSource(source[1..]);
      }
    case Interrupted =>
    case Failed =>
  }

  /** The refill loop: bytes, end of file or error, all taken from the head
      of the stream; an exhausted script reads as end of file and stays exhausted. */
  lemma {:induction false} RefillFlat(source: seq<Chunk>)
    ensures match Refill(source)
      case Filled(b, rest) => FlatSource(source) == Bytes(b) + FlatSource(rest)
      case AtEof(rest) =>
        FlatSource(source) == [EofMark] + FlatSource(rest) || (FlatSource(source) == [] && rest == [])
      case ReadError(rest) => FlatSource(source) == [ErrMark] + FlatSource(rest)
    decreases |source|
  {
    if source != [] {
      ReadCallFlat(source);
      var r := ReadCall(source);
      if r.ret < 0 && r.eintr {
        RefillFlat(r.rest);
      }
    }
  }

  /** rio_read(rp, usrbuf, n) for n > 0 loses and invents no byte: what it
      copies out, or the mark it meets, is exactly the head of Flat. */
  lemma ReadSpecFlat(st: RioState, n: nat)
    requires n > 0
    ensures var r := ReadSpec(st, n);
      if r.rc > 0 then Flat(st) == Bytes(r.data) + Flat(r.after)
      else if r.rc == 0 then
        Flat(st) == [EofMark] + Flat(r.after) || (Flat(st) == [] && r.after == RioState([], []))
      else Flat(st) == [ErrMark] + Flat(r.after)
  {
    ReadyFlat(st);
    var ready := Ready(st);
    if ready.0 == 1 {
      TakeFlat(ready.1, n);
    }
  }

  /** The refill at the head of rio_read moves bytes from the stream to the
      buffer without changing Flat, or meets a mark. */
  lemma ReadyFlat(st: RioState)
    ensures var (status, ready) := Ready(st);
      if status == 1 then Flat(st) == Flat(ready)
      else if status == 0 then
        Flat(st) == [EofMark] + Flat(ready) || (Flat(st) == [] && ready == RioState([], []))
      else Flat(st) == [ErrMark] + Flat(ready)
  {
    if st.buffered == [] {
      RefillFlat(st.source);
      assert Flat(st) == FlatSource(st.source);
      match Refill(st.source)
      case Filled(b, rest) =>
        assert Flat(RioState(b, rest)) == Bytes(b) + FlatSource(rest);
      case AtEof(rest) =>
        assert Flat(RioState([], rest)) == FlatSource(rest);
      case ReadError(rest) =>
        assert Flat(RioState([], rest)) == FlatSource(rest);
    }
  }

  /** Copying k buffered bytes out. */
  lemma TakeFlat(st: RioState, n: nat)
    ensures var r := Take(st.buffered, st.source, n);
      Flat(st) == Bytes(r.data) + Flat(r.after)
  {
    var k := Min(n, |st.buffered|);
    assert st.buffered == st.buffered[..k] + st.buffered[k..];
    BytesAppend(st.buffered[..k], st.buffered[k..]);
  }

  /** With bytes buffered, rio_read does not call read(): it copies
      min(n, rio_cnt) of them and leaves the stream alone. */
  lemma ReadSpecBuffered(st: RioState, n: nat)
    requires st.buffered != []
    ensures var r := ReadSpec(st, n);
      r.rc == Min(n, |st.buffered|) && r.data == st.buffered[..r.rc] &&
      r.after == RioState(st.buffered[r.rc..], st.source)
  {
  }

  /** Reading one byte takes exactly the head of Flat. */
  lemma NextByteFlat(st: RioState)
    ensures match NextByte(st)
      case GotByte(c, after) => Flat(st) == [Byte(c)] + Flat(after)
      case GotEof(after) => Flat(st) == [EofMark] + Flat(after) || (Flat(st) == [] && after == RioState([], []))
      case GotErr(after) => Flat(st) == [ErrMark] + Flat(after)
  {
    NextByteIsRead(st);
    ReadSpecFlat(st, 1);
  }

  /** No newline before the end of `s`. */
  predicate NewlineFreeBefore(s: seq<char>)
  {
    forall i :: 0 <= i < |s| - 1 ==> s[i] != '\n'
  }

  predicate EndsWithNewline(s: seq<char>)
  {
    s != [] && s[|s| - 1] == '\n'
  }

  /** The shape of what the line loop stores and returns, from any iteration. */
  lemma {:induction false} LineFromShape(st: RioState, got: seq<char>, n: nat, maxlen: nat)
    requires 1 <= n && |got| == n - 1 && '\n' !in got
    ensures var (res, _) := LineFrom(st, got, n, maxlen);
      match res
      case LineOk(g, count) =>
        got <= g && NewlineFreeBefore(g) && count == (if EndsWithNewline(g) then |g| else |g| + 1)
      case LineEof => n == 1
      case LineErr(g) => got <= g && '\n' !in g
    decreases maxlen - n
  {
    if n < maxlen {
      match NextByte(st)
      case GotByte(c, after) =>
        if c != '\n' {
          LineFromShape(after, got + [c], n + 1, maxlen);
        }
      case GotEof(_) =>
      case GotErr(_) =>
    }
  }

  /** rio_readlineb stores a line with at most one newline, at its end, and
      never more than maxlen - 1 bytes; it returns the bytes stored when the
      line ends with a newline and one more than that otherwise; after a read
      error it has stored no newline. */
  lemma LineShape(st: RioState, maxlen: nat)
    ensures var (res, _) := Line(st, maxlen);
      match res
      case LineOk(g, count) =>
        |g| < Max(1, maxlen) && NewlineFreeBefore(g) &&
        count == (if EndsWithNewline(g) then |g| else |g| + 1) &&
        (!EndsWithNewline(g) && maxlen > 1 ==> g != [])
      case LineEof => true
      case LineErr(g) => '\n' !in g
  {
    LineFromShape(st, [], 1, maxlen);
    LineFromNonEmpty(st, [], 1, maxlen);
  }

  /** Past the first iteration the loop has stored a byte, so a line that
      is not cut by maxlen and did not end in a newline is not empty. */
  lemma {:induction false} LineFromNonEmpty(st: RioState, got: seq<char>, n: nat, maxlen: nat)
    requires 1 <= n && |got| == n - 1
    ensures var (res, _) := LineFrom(st, got, n, maxlen);
      res.LineOk? && n < maxlen ==> res.line != []
    decreases maxlen - n
  {
    if n < maxlen {
      match NextByte(st)
      case GotByte(c, after) =>
        if c != '\n' {
          LineFromNonEmpty(after, got + [c], n + 1, maxlen);
        }
      case GotEof(_) =>
      case GotErr(_) =>
    }
  }

  /** What a line loop that started with `got` stored, at counter `n`, has
      taken from the connection when it ends with `res` in state `after`:
      the bytes it stored, then the end-of-file mark it met (none when the
      script ran out) or the error mark. */
  predicate Consumed(res: LineResult, got: seq<char>, n: nat, maxlen: nat, before: seq<Item>, after: RioState)
  {
    match res
    case LineOk(g, count) =>
      got <= g &&
      if count == |g| || count >= maxlen then Bytes(g[|got|..]) + Flat(after) == before
      else Bytes(g[|got|..]) + [EofMark] + Flat(after) == before ||
           (Bytes(g[|got|..]) + [] == before && after == RioState([], []))
    case LineEof =>
      n == 1 && ([EofMark] + Flat(after) == before || ([] == before && after == RioState([], [])))
    case LineErr(g) => got <= g && Bytes(g[|got|..]) + [ErrMark] + Flat(after) == before
  }

  /** A byte read before a loop iteration joins what that iteration consumed. */
  lemma ConsumedStep(res: LineResult, got: seq<char>, c: char, n: nat, maxlen: nat, next: seq<Item>, after: RioState)
    requires n >= 1
    requires Consumed(res, got + [c], n + 1, maxlen, next, after)
    ensures Consumed(res, got, n, maxlen, [Byte(c)] + next, after)
  {
    match res
    case LineOk(g, count) =>
      if count == |g| || count >= maxlen {
        ConsBytes(c, got, g, Flat(after), next);
      } else if Bytes(g[|got| + 1..]) + [EofMark] + Flat(after) == next {
        assert Bytes(g[|got| + 1..]) + ([EofMark] + Flat(after)) == next;
        ConsBytes(c, got, g, [EofMark] + Flat(after), next);
        assert Bytes(g[|got|..]) + ([EofMark] + Flat(after)) == Bytes(g[|got|..]) + [EofMark] + Flat(after);
      } else {
        ConsBytes(c, got, g, [], next);
      }
    case LineEof =>
    case LineErr(g) =>
      assert Bytes(g[|got| + 1..]) + ([ErrMark] + Flat(after)) == next;
      ConsBytes(c, got, g, [ErrMark] + Flat(after), next);
      assert Bytes(g[|got|..]) + ([ErrMark] + Flat(after)) == Bytes(g[|got|..]) + [ErrMark] + Flat(after);
  }

  /** The loop stops at maxlen having consumed nothing more. */
  lemma ConsumedNothing(got: seq<char>, n: nat, maxlen: nat, st: RioState)
    requires |got| == n - 1 && n >= maxlen
    ensures Consumed(LineOk(got, n), got, n, maxlen, Flat(st), st)
  {
    assert got[|got|..] == [] && Bytes([]) == [];
  }

  /** The loop stops right after a newline. */
  lemma ConsumedNewline(got: seq<char>, n: nat, maxlen: nat, before: seq<Item>, after: RioState)
    requires |got| == n - 1 && before == [Byte('\n')] + Flat(after)
    ensures Consumed(LineOk(got + ['\n'], n), got, n, maxlen, before, after)
  {
    assert (got + ['\n'])[|got|..] == ['\n'];
    assert Bytes(['\n']) == [Byte('\n')];
  }

  /** The loop stops at end of file. */
  lemma ConsumedEof(got: seq<char>, n: nat, maxlen: nat, before: seq<Item>, after: RioState)
    requires 1 <= n < maxlen && |got| == n - 1
    requires before == [EofMark] + Flat(after) || (before == [] && after == RioState([], []))
    ensures Consumed(if n == 1 then LineEof else LineOk(got, n), got, n, maxlen, before, after)
  {
    assert got[|got|..] == [] && Bytes([]) == [];
  }

  /** The loop stops on a read error. */
  lemma ConsumedErr(got: seq<char>, n: nat, maxlen: nat, before: seq<Item>, after: RioState)
    requires before == [ErrMark] + Flat(after)
    ensures Consumed(LineErr(got), got, n, maxlen, before, after)
  {
    assert got[|got|..] == [] && Bytes([]) == [];
  }

  /** What the line loop takes from the connection, from any iteration. */
  lemma {:induction false} LineFromFlat(st: RioState, got: seq<char>, n: nat, maxlen: nat)
    requires 1 <= n && |got| == n - 1
    ensures var (res, after) := LineFrom(st, got, n, maxlen);
      Consumed(res, got, n, maxlen, Flat(st), after)
    decreases maxlen - n
  {
    if n >= maxlen {
      ConsumedNothing(got, n, maxlen, st);
    } else {
      NextByteFlat(st);
      match NextByte(st)
      case GotByte(c, next) =>
        if c == '\n' {
          ConsumedNewline(got, n, maxlen, Flat(st), next);
        } else {
          LineFromFlat(next, got + [c], n + 1, maxlen);
          var (res, after) := LineFrom(next, got + [c], n + 1, maxlen);
          ConsumedStep(res, got, c, n, maxlen, Flat(next), after);
        }
      case GotEof(next) =>
        ConsumedEof(got, n, maxlen, Flat(st), next);
      case GotErr(next) =>
        ConsumedErr(got, n, maxlen, Flat(st), next);
    }
  }

  /** rio_readlineb consumes exactly the bytes it stores: a line ended by a
      newline or cut at maxlen - 1 bytes is followed directly by what remains;
      one ended by end of file has also consumed that end-of-file mark; a read
      error consumes the error mark. */
  lemma LineConsumes(st: RioState, maxlen: nat)
    ensures var (res, after) := Line(st, maxlen);
      match res
      case LineOk(g, count) =>
        if EndsWithNewline(g) || |g| + 1 >= maxlen then Flat(st) == Bytes(g) + Flat(after)
        else (Flat(st) == Bytes(g) + [EofMark] + Flat(after) || (Flat(st) == Bytes(g) && after == RioState([], [])))
      case LineEof => Flat(st) == [EofMark] + Flat(after) || (Flat(st) == [] && after == RioState([], []))
      case LineErr(g) => Flat(st) == Bytes(g) + [ErrMark] + Flat(after)
  {
    LineFromFlat(st, [], 1, maxlen);
    LineShape(st, maxlen);
    var (res, after) := Line(st, maxlen);
    match res
    case LineOk(g, _) =>
      assert g[0..] == g && Bytes(g) + [] == Bytes(g);
    case LineEof =>
    case LineErr(g) =>
      assert g[0..] == g;
  }

  /** A connection that starts with a whole line shorter than maxlen yields
      exactly that line, returns its length, and leaves the rest unread. */
  lemma {:induction false} LineFromReadsLine(st: RioState, got: seq<char>, n: nat, maxlen: nat, l: seq<char>, rest: seq<Item>)
    requires 1 <= n && |got| == n - 1
    requires Flat(st) == Bytes(l) + rest
    requires EndsWithNewline(l) && '\n' !in l[..|l| - 1] && |got| + |l| < maxlen
    ensures var (res, after) := LineFrom(st, got, n, maxlen);
      res == LineOk(got + l, |got| + |l|) && Flat(after) == rest
    decreases |l|
  {
    NextByteFlat(st);
    FirstItem(l, rest);
    match NextByte(st)
    case GotByte(c, after) =>
      BytesHead(l, rest, c, Flat(after));
      if c == '\n' {
        assert l == [c];
        assert LineFrom(st, got, n, maxlen) == (LineOk(got + l, n), after);
      } else {
        assert LineFrom(st, got, n, maxlen) == LineFrom(after, got + [c], n + 1, maxlen);
        assert l[1..][..|l[1..]| - 1] == l[..|l| - 1][1..];
        LineFromReadsLine(after, got + [c], n + 1, maxlen, l[1..], rest);
        assert got + [c] + l[1..] == got + l;
      }
    case GotEof(after) =>
    case GotErr(after) =>
  }

  lemma LineReadsLine(st: RioState, maxlen: nat, l: seq<char>, rest: seq<Item>)
    requires Flat(st) == Bytes(l) + rest
    requires EndsWithNewline(l) && '\n' !in l[..|l| - 1] && |l| < maxlen
    ensures var (res, after) := Line(st, maxlen);
      res == LineOk(l, |l|) && Flat(after) == rest
  {
    LineFromReadsLine(st, [], 1, maxlen, l, rest);
  }

  /** Every line read of at least two bytes of room consumes something,
      unless the connection has nothing left, in which case it ends drained. */
  lemma LineProgress(st: RioState, maxlen: nat)
    requires maxlen > 1
    ensures var after := Line(st, maxlen).1;
      |Flat(after)| < |Flat(st)| || (Flat(st) == [] && after == RioState([], []))
  {
    LineConsumes(st, maxlen);
    LineShape(st, maxlen);
  }

  /** The source's rio_readlineb returns the loop counter: right after a
      newline that is the number of bytes stored, but after end of file in
      mid-line, or when the line is cut at maxlen - 1 bytes, it is one more. */
  lemma ReturnValueOffByOne(st: RioState, maxlen: nat)
    ensures var (res, _) := Line(st, maxlen);
      res.LineOk? ==>
        (LineReturn(res) == |res.line| <==> EndsWithNewline(res.line)) &&
        (!EndsWithNewline(res.line) ==> LineReturn(res) == |res.line| + 1)
  {
    LineShape(st, maxlen);
  }

  /** The input that shows it: "ab" and then end of file stores "ab" but
      returns 3. */
  lemma ReturnValueCounterexample()
    ensures Line(RioState([], [Data("ab")]), MAXLINE) == (LineOk("ab", 3), RioState([], []))
    ensures LineReturn(Line(RioState([], [Data("ab")]), MAXLINE).0) == 3
  {
    var s0 := RioState([], [Data("ab")]);
    var s1 := RioState("b", []);
    var s2 := RioState([], []);
    assert ReadCall(s0.source) == SysRead(2, false, "ab", []);
    assert "ab"[1..] == "b" && "b"[1..] == [];
    assert NextByte(s0) == GotByte('a', s1);
    assert NextByte(s1) == GotByte('b', s2);
    assert NextByte(s2) == GotEof(s2);
    assert [] + ['a'] == "a" && "a" + ['b'] == "ab";
    assert LineFrom(s2, "ab", 3, MAXLINE) == (LineOk("ab", 3), s2);
    assert LineFrom(s1, "a", 2, MAXLINE) == (LineOk("ab", 3), s2);
    assert LineFrom(s0, [], 1, MAXLINE) == (LineOk("ab", 3), s2);
  }

  /** The corrected count differs from the source's value only where the
      source overcounts: it is one less after end of file in mid-line or a
      cut at maxlen - 1 bytes, equal otherwise, and below maxlen. */
  lemma CountedIsStored(st: RioState, maxlen: nat)
    ensures var (res, _) := Line(st, maxlen);
      (res.LineOk? && EndsWithNewline(res.line) ==> LineCount(res) == LineReturn(res)) &&
      (res.LineOk? && !EndsWithNewline(res.line) ==> LineCount(res) == LineReturn(res) - 1) &&
      (!res.LineOk? ==> LineCount(res) == LineReturn(res)) &&
      LineCount(res) < Max(1, maxlen)
  {
    LineShape(st, maxlen);
  }
}
