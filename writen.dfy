/** rio_writen of tinyserver.c: write n bytes to a descriptor, calling
    write() again after every short count and after every EINTR.

    The descriptor is a script of the answers the kernel gives to the
    successive write() calls. errno is part of the state, because the source
    tests it also after a write() that returned 0, when it still holds
    whatever an earlier call left there. */
module RioWrite {
  import opened CStrings

  /** The kernel's answer to one write(fd, bufp, nleft) call. */
  datatype WriteAnswer =
    | Wrote(k: nat)            // k bytes accepted (at most nleft are); 0 leaves errno as it was
    | WriteFailed(eintr: bool) // -1, setting errno to EINTR or to another error

  /** How the loop ends: whether rio_writen returns n, how many bytes the
      peer has received, the unused answers and the final errno. */
  datatype Written = Written(ok: bool, written: nat, rest: seq<WriteAnswer>, errnoEintr: bool)

  /** The loop of rio_writen from the point where `bufp` of the `n` bytes have
      been written. An exhausted script accepts everything that is left. */
  function WriteFrom(n: nat, bufp: nat, answers: seq<WriteAnswer>, errnoEintr: bool): (r: Written)
    requires bufp <= n
    ensures bufp <= r.written <= n
    ensures r.ok ==> r.written == n
    ensures |r.rest| <= |answers|
    decreases |answers|, n - bufp
  {
    if bufp == n then Written(true, n, answers, errnoEintr)
    else if answers == [] then Written(true, n, [], errnoEintr)
    else match answers[0]
      case Wrote(k) =>
        var m := Min(k, n - bufp);
        if m > 0 then WriteFrom(n, bufp + m, answers[1..], errnoEintr)
        else if errnoEintr then WriteFrom(n, bufp, answers[1..], errnoEintr)
        else Written(false, bufp, answers[1..], errnoEintr)
      case WriteFailed(eintr) =>
        if eintr then WriteFrom(n, bufp, answers[1..], true)
        else Written(false, bufp, answers[1..], false)
  }

  /** The value rio_writen returns. */
  function WriteReturn(n: nat, r: Written): int
  {
    if r.ok then n else -1
  }

  /** rio_writen(fd, usrbuf, n): returns n or -1, and `sent` is what the
      peer has received, always a prefix of the n bytes. */
  method WriteN(usrbuf: seq<char>, n: nat, answers: seq<WriteAnswer>, errnoEintr: bool)
    returns (rc: int, sent: seq<char>, rest: seq<WriteAnswer>, errno: bool)
    requires n <= |usrbuf|
    ensures var r := WriteFrom(n, 0, answers, errnoEintr);
      rc == WriteReturn(n, r) && sent == usrbuf[..r.written] && rest == r.rest && errno == r.errnoEintr
  {
    var nleft: nat := n;
    var bufp: nat := 0;
    rest, errno := answers, errnoEintr;
    sent := [];
    while nleft > 0
      invariant bufp + nleft == n && sent == usrbuf[..bufp]
      invariant WriteFrom(n, bufp, rest, errno) == WriteFrom(n, 0, answers, errnoEintr)
      decreases |rest|, nleft
    {
      var nwritten: int;
      if rest == [] {
        nwritten := nleft;
      } else {
        match rest[0] {
          case Wrote(k) =>
            nwritten := Min(k, nleft);
          case WriteFailed(eintr) =>
            nwritten := -1;
            errno := eintr;
        }
        rest := rest[1..];
      }
      if nwritten <= 0 {
        if errno {
          nwritten := 0;
        } else {
          return -1, sent, rest, errno;
        }
      }
      sent := sent + usrbuf[bufp..bufp + nwritten];
      nleft := nleft - nwritten;
      bufp := bufp + nwritten;
    }
    rc := n;
  }

  /** A write() answer rio_writen gives up on, given errno before the call:
      a failure other than EINTR, or a return of 0 while errno is not EINTR. */
  predicate Fatal(a: WriteAnswer, errnoEintr: bool)
  {
    match a
    case Wrote(k) => k == 0 && !errnoEintr
    case WriteFailed(eintr) => !eintr
  }

  /** A write() answer that can never make rio_writen give up. */
  predicate Tolerated(a: WriteAnswer)
  {
    (a.Wrote? && a.k > 0) || a == WriteFailed(true)
  }

  /** When every write() succeeds or is interrupted, rio_writen returns n
      and the peer has received all n bytes. */
  lemma {:induction false} AllToleratedWritesAll(n: nat, bufp: nat, answers: seq<WriteAnswer>, errnoEintr: bool)
    requires bufp <= n
    requires forall i :: 0 <= i < |answers| ==> Tolerated(answers[i])
    ensures var r := WriteFrom(n, bufp, answers, errnoEintr);
      r.ok && r.written == n && WriteReturn(n, r) == n
    decreases |answers|
  {
    if bufp < n && answers != [] {
      assert Tolerated(answers[0]);
      match answers[0]
      case Wrote(k) =>
        AllToleratedWritesAll(n, bufp + Min(k, n - bufp), answers[1..], errnoEintr);
      case WriteFailed(_) =>
        AllToleratedWritesAll(n, bufp, answers[1..], true);
    }
  }

  /** The loop uses up answers from the front: what is left is always a
      tail of the script. */
  lemma {:induction false} WriteFromTail(n: nat, bufp: nat, answers: seq<WriteAnswer>, errnoEintr: bool)
    requires bufp <= n
    ensures var r := WriteFrom(n, bufp, answers, errnoEintr);
      r.rest == answers[|answers| - |r.rest|..]
    decreases |answers|, n - bufp
  {
    if bufp < n && answers != [] {
      var tail := answers[1..];
      var (bufp', errno') := match answers[0]
        case Wrote(k) => (bufp + Min(k, n - bufp), errnoEintr)
        case WriteFailed(_) => (bufp, true);
      if WriteFrom(n, bufp, answers, errnoEintr) == WriteFrom(n, bufp', tail, errno') {
        WriteFromTail(n, bufp', tail, errno');
        TailOfTail(answers, WriteFrom(n, bufp', tail, errno').rest);
      } else {
        assert WriteFrom(n, bufp, answers, errnoEintr).rest == tail;
      }
    }
  }

  /** rio_writen returns n only if no write() it made failed with an error
      other than EINTR: such a failure ends the loop with -1 at once. */
  lemma {:induction false} SuccessHadNoHardFailure(n: nat, bufp: nat, answers: seq<WriteAnswer>, errnoEintr: bool)
    requires bufp <= n
    ensures var r := WriteFrom(n, bufp, answers, errnoEintr);
      r.ok ==> WriteFailed(false) !in answers[..|answers| - |r.rest|]
    decreases |answers|, n - bufp
  {
    var r := WriteFrom(n, bufp, answers, errnoEintr);
    if bufp < n && answers != [] {
      var tail := answers[1..];
      var (bufp', errno') := match answers[0]
        case Wrote(k) => (bufp + Min(k, n - bufp), errnoEintr)
        case WriteFailed(_) => (bufp, true);
      if r.ok {
        assert answers[0] != WriteFailed(false);
        assert r == WriteFrom(n, bufp', tail, errno');
        SuccessHadNoHardFailure(n, bufp', tail, errno');
        assert answers[..|answers| - |r.rest|] == [answers[0]] + tail[..|tail| - |r.rest|];
      }
    } else {
      assert answers[..|answers| - |r.rest|] == [];
    }
  }

  /** A tail of the script past its head is a tail of the whole script. */
  lemma TailOfTail(answers: seq<WriteAnswer>, rest: seq<WriteAnswer>)
    requires answers != [] && |rest| <= |answers| - 1 && rest == answers[1..][|answers| - 1 - |rest|..]
    ensures rest == answers[|answers| - |rest|..]
  {
  }

  /** rio_writen returns -1 only after a write() it cannot tolerate: the
      last answer it used up is fatal, and some of the n bytes never reached
      the peer. */
  lemma {:induction false} FailureHasCause(n: nat, bufp: nat, answers: seq<WriteAnswer>, errnoEintr: bool)
    requires bufp <= n
    ensures var r := WriteFrom(n, bufp, answers, errnoEintr);
      !r.ok ==>
        (|r.rest| < |answers| && Fatal(answers[|answers| - |r.rest| - 1], r.errnoEintr) && r.written < n)
    decreases |answers|, n - bufp
  {
    if bufp < n && answers != [] {
      var r := WriteFrom(n, bufp, answers, errnoEintr);
      match answers[0]
      case Wrote(k) =>
        var m := Min(k, n - bufp);
        if m > 0 {
          FailureHasCause(n, bufp + m, answers[1..], errnoEintr);
          if !r.ok { AfterHead(answers, r.rest); }
        } else if errnoEintr {
          FailureHasCause(n, bufp, answers[1..], errnoEintr);
          if !r.ok { AfterHead(answers, r.rest); }
        }
      case WriteFailed(eintr) =>
        if eintr {
          FailureHasCause(n, bufp, answers[1..], true);
          if !r.ok { AfterHead(answers, r.rest); }
        }
    }
  }

  /** An answer counted from the end of the tail is the same answer in the whole script. */
  lemma AfterHead(answers: seq<WriteAnswer>, rest: seq<WriteAnswer>)
    requires answers != [] && |rest| < |answers| - 1
    ensures answers[1..][|answers[1..]| - |rest| - 1] == answers[|answers| - |rest| - 1]
  {
  }

  /** errno is not reset before write(): a write() that returns 0 right
      after an interrupted one is retried, while the same 0 as the first
      answer makes rio_writen fail. */
  lemma StaleErrnoRetries()
    ensures WriteFrom(2, 0, [WriteFailed(true), Wrote(0), Wrote(2)], false) == Written(true, 2, [], true)
    ensures WriteFrom(2, 0, [Wrote(0), Wrote(2)], false) == Written(false, 0, [Wrote(2)], false)
  {
    assert [WriteFailed(true), Wrote(0), Wrote(2)][1..] == [Wrote(0), Wrote(2)];
    assert [Wrote(0), Wrote(2)][1..] == [Wrote(2)];
    assert [Wrote(2)][1..] == [];
  }
}
