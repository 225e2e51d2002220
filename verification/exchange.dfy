/** The write-then-maybe-read rule every LNP command follows: write a report,
    and, when strict reply confirmation is on, read one reply and accept it
    only if its byte 0 is 0. A multi-packet operation stops at the first
    rejected reply. */
module Exchange {
  import opened Bytes

  /** The exceptions an LNP command can raise. */
  datatype Fault = IndexOutOfRange | NullReference

  /** How a command ends: it returns a boolean or throws. */
  datatype Outcome = Returned(ok: bool) | Threw(fault: Fault)

  /** What one operation does on the wire: how it ends, the reports it
      writes in order, and how many replies it reads. */
  datatype Run = Run(outcome: Outcome, packets: seq<seq<byte>>, repliesRead: nat)

  /** Byte 0 of the device's k-th reply (counting every read of the session). */
  type Replies = nat -> bv8

  /** The reads one write costs: one under strict confirmation, none otherwise. */
  function ReadsPerWrite(confirm: bool): nat
  {
    if confirm then 1 else 0
  }

  /** The confirmation rule for one write whose reply (if read) is the k-th. */
  predicate Accepted(confirm: bool, replies: Replies, k: nat)
  {
    !confirm || replies(k) == 0
  }

  /** Writes `ps` in order, confirming each one, starting with reply number k;
      stops with false right after the first rejected packet. */
  function SendAll(ps: seq<seq<byte>>, confirm: bool, replies: Replies, k: nat): Run
    decreases |ps|
  {
    if ps == [] then Run(Returned(true), [], 0)
    else if !Accepted(confirm, replies, k) then Run(Returned(false), [ps[0]], 1)
    else After([ps[0]], ReadsPerWrite(confirm), SendAll(ps[1..], confirm, replies, k + ReadsPerWrite(confirm)))
  }

  /** `run` preceded by packets already written and replies already read. */
  function After(sent: seq<seq<byte>>, used: nat, run: Run): Run
  {
    Run(run.outcome, sent + run.packets, used + run.repliesRead)
  }

  /** What any sequence of confirmed writes does: it never throws; it writes
      a prefix of the packets, all of them when it returns true; it reads one
      reply per written packet under confirmation and none otherwise; every
      reply but the last is 0, the last too when it returns true, and false
      comes only from a non-zero last reply. */
  lemma {:induction false} SendAllShape(ps: seq<seq<byte>>, confirm: bool, replies: Replies, k: nat)
    ensures var run := SendAll(ps, confirm, replies, k);
      && run.outcome.Returned?
      && |run.packets| <= |ps| && run.packets == ps[..|run.packets|]
      && run.repliesRead == (if confirm then |run.packets| else 0)
      && (run.outcome.ok ==> run.packets == ps)
      && (!run.outcome.ok ==> confirm && |run.packets| > 0 && replies(k + |run.packets| - 1) != 0)
      && (confirm ==> forall m :: k <= m < k + |run.packets| - 1 ==> replies(m) == 0)
      && (confirm && run.outcome.ok ==> forall m :: k <= m < k + |run.packets| ==> replies(m) == 0)
    decreases |ps|
  {
    if ps != [] && Accepted(confirm, replies, k) {
      var k' := k + ReadsPerWrite(confirm);
      SendAllShape(ps[1..], confirm, replies, k');
      var rest := SendAll(ps[1..], confirm, replies, k');
      assert SendAll(ps, confirm, replies, k) == After([ps[0]], ReadsPerWrite(confirm), rest);
      assert [ps[0]] + ps[1..][..|rest.packets|] == ps[..1 + |rest.packets|];
    } else if ps != [] {
      assert ps[..1] == [ps[0]];
    }
  }

  /** When every reply is accepted, all packets go out and the result is
      true, with one reply read per packet under confirmation. */
  lemma {:induction false} SendAllAccepted(ps: seq<seq<byte>>, confirm: bool, replies: Replies, k: nat)
    requires confirm ==> forall m :: k <= m < k + |ps| ==> replies(m) == 0
    ensures SendAll(ps, confirm, replies, k) == Run(Returned(true), ps, if confirm then |ps| else 0)
    decreases |ps|
  {
    if ps != [] {
      SendAllAccepted(ps[1..], confirm, replies, k + ReadsPerWrite(confirm));
      assert [ps[0]] + ps[1..] == ps;
    }
  }

  /** Under confirmation, if the replies to packets 0 .. i-1 are 0 and the
      reply to packet i is not, exactly packets 0 .. i go out and the result
      is false. */
  lemma {:induction false} SendAllRejectedAt(ps: seq<seq<byte>>, i: nat, replies: Replies, k: nat)
    requires i < |ps|
    requires forall m :: k <= m < k + i ==> replies(m) == 0
    requires replies(k + i) != 0
    ensures SendAll(ps, true, replies, k) == Run(Returned(false), ps[..i + 1], i + 1)
    decreases i
  {
    if i > 0 {
      SendAllRejectedAt(ps[1..], i - 1, replies, k + 1);
      assert [ps[0]] + ps[1..][..i] == ps[..i + 1];
    }
  }

  /** Prefixing twice is prefixing once with both parts. */
  lemma AfterAfter(a: seq<seq<byte>>, u: nat, b: seq<seq<byte>>, v: nat, run: Run)
    ensures After(a, u, After(b, v, run)) == After(a + b, u + v, run)
  {
    assert a + (b + run.packets) == (a + b) + run.packets;
  }

  /** Sending `a + b` sends `a` first; unless that stops early (a rejected
      reply), it goes on with `b` from the next reply, and the result is
      then that of `b`. */
  lemma {:induction false} SendAllAppend(a: seq<seq<byte>>, b: seq<seq<byte>>, confirm: bool, replies: Replies, k: nat)
    ensures var first := SendAll(a, confirm, replies, k);
            SendAll(a + b, confirm, replies, k)
            == if first.outcome != Returned(true) then first
               else After(first.packets, first.repliesRead, SendAll(b, confirm, replies, k + first.repliesRead))
    decreases |a|
  {
    if a == [] {
      assert a + b == b;
      assert After([], 0, SendAll(b, confirm, replies, k)) == SendAll(b, confirm, replies, k);
    } else {
      assert (a + b)[0] == a[0] && (a + b)[1..] == a[1..] + b;
      if Accepted(confirm, replies, k) {
        var k' := k + ReadsPerWrite(confirm);
        SendAllAppend(a[1..], b, confirm, replies, k');
        var first' := SendAll(a[1..], confirm, replies, k');
        if first'.outcome == Returned(true) {
          AfterAfter([a[0]], ReadsPerWrite(confirm), first'.packets, first'.repliesRead,
                     SendAll(b, confirm, replies, k' + first'.repliesRead));
        }
      }
    }
  }

  /** A run that sends `a` and, unless that stops early, goes on as `rest`,
      where `rest` sends `b`, is the run that sends `a + b`. */
  lemma SendAllThen(run: Run, rest: Run, a: seq<seq<byte>>, b: seq<seq<byte>>, confirm: bool, replies: Replies, k: nat)
    requires var first := SendAll(a, confirm, replies, k);
             run == if first.outcome != Returned(true) then first else After(first.packets, first.repliesRead, rest)
    requires var first := SendAll(a, confirm, replies, k);
             first.outcome == Returned(true) ==> rest == SendAll(b, confirm, replies, k + first.repliesRead)
    ensures run == SendAll(a + b, confirm, replies, k)
  {
    SendAllAppend(a, b, confirm, replies, k);
  }

  /** The reply facts of a run under confirmation whose first reply is the
      k-th: it returns false only right after a non-zero reply, and every
      earlier reply was 0 (all of them when it returns true). */
  ghost predicate RepliesConfirmed(run: Run, replies: Replies, k: nat)
  {
    && (run.outcome == Returned(false) ==> |run.packets| > 0 && replies(k + |run.packets| - 1) != 0)
    && (forall m :: k <= m < k + |run.packets| - 1 ==> replies(m) == 0)
    && (run.outcome == Returned(true) ==> forall m :: k <= m < k + |run.packets| ==> replies(m) == 0)
  }

  /** A run that either stops with `first` or, when `first` returned true
      after reading one reply per packet, goes on with `rest` from the next
      reply keeps the reply facts of its parts. */
  lemma RepliesConfirmedStep(run: Run, first: Run, rest: Run, replies: Replies, k: nat)
    requires run == if first.outcome != Returned(true) then first else After(first.packets, first.repliesRead, rest)
    requires first.repliesRead == |first.packets| && RepliesConfirmed(first, replies, k)
    requires first.outcome == Returned(true) ==> RepliesConfirmed(rest, replies, k + first.repliesRead)
    ensures RepliesConfirmed(run, replies, k)
  {
    if first.outcome == Returned(true) {
      assert |run.packets| == |first.packets| + |rest.packets|;
    }
  }

  /** A single-packet command: one write, one read under confirmation, and
      true exactly when confirmation is off or the reply's byte 0 is 0. */
  function Single(p: seq<byte>, confirm: bool, replies: Replies, k: nat): (run: Run)
    ensures run.packets == [p]
    ensures run.repliesRead == ReadsPerWrite(confirm)
    ensures run.outcome == Returned(!confirm || replies(k) == 0)
  {
    assert [p][1..] == [] && [p] + [] == [p];
    assert Accepted(confirm, replies, k) ==> SendAll([p], confirm, replies, k) == After([p], ReadsPerWrite(confirm), Run(Returned(true), [], 0));
    SendAll([p], confirm, replies, k)
  }

  /** The index of the first non-zero reply among the n replies from k on,
      or n when all of them are 0. */
  function FirstRejected(replies: Replies, k: nat, n: nat): (m: nat)
    ensures m <= n
    ensures forall i :: k <= i < k + m ==> replies(i) == 0
    ensures m < n ==> replies(k + m) != 0
    decreases n
  {
    if n == 0 then 0
    else if replies(k) != 0 then 0
    else 1 + FirstRejected(replies, k + 1, n - 1)
  }

  /** With confirmation off every packet is written, nothing is read, and the
      result is true whatever the device would have replied. */
  lemma {:induction false} SendAllUnconfirmed(ps: seq<seq<byte>>, replies: Replies, k: nat)
    ensures SendAll(ps, false, replies, k) == Run(Returned(true), ps, 0)
    decreases |ps|
  {
    if ps != [] {
      SendAllUnconfirmed(ps[1..], replies, k);
    }
  }

  /** With confirmation on, the packets up to and including the first
      rejected one are written and no packet after it; the result is true
      exactly when every reply is 0. */
  lemma SendAllConfirmed(ps: seq<seq<byte>>, replies: Replies, k: nat)
    ensures var m := FirstRejected(replies, k, |ps|);
            SendAll(ps, true, replies, k) ==
              if m < |ps| then Run(Returned(false), ps[..m + 1], m + 1)
              else Run(Returned(true), ps, |ps|)
  {
    var m := FirstRejected(replies, k, |ps|);
    if m < |ps| {
      SendAllRejectedAt(ps, m, replies, k);
    } else {
      SendAllAccepted(ps, true, replies, k);
    }
  }
}
