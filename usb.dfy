/** The USB endpoint pair of the projector, reduced to what the framer uses:
    writes to endpoint 1 are recorded in order, and reads from endpoint 0x81
    yield the controller's replies in order. A reply that does not arrive
    (the `USBError` case) is `None`. */
module Usb {
  import opened Options
  import opened BitCodec

  /** A reply as the controller sends it: 64 byte values. */
  predicate IsReply(r: seq<int>)
  {
    |r| == 64 && AreBytes(r)
  }

  predicate AllReplies(q: seq<Option<seq<int>>>)
  {
    forall i :: 0 <= i < |q| ==> q[i].Some? ==> IsReply(q[i].value)
  }

  /** What the next read yields: the head of the queue, or nothing once the
      controller has nothing more to say. */
  function NextReply(q: seq<Option<seq<int>>>): Option<seq<int>>
  {
    if q == [] then None else q[0]
  }

  /** The reply queue after n reads. */
  function Consumed(q: seq<Option<seq<int>>>, n: nat): (r: seq<Option<seq<int>>>)
    ensures n <= |q| ==> r == q[n..]
    ensures n >= |q| ==> r == []
  {
    if n <= |q| then q[n..] else []
  }

  /** The answer held after n reads that start from answer a: the last reply
      that arrived, or a when none did. */
  function LastAnswer(q: seq<Option<seq<int>>>, n: nat, a: Option<seq<int>>): Option<seq<int>>
    decreases n
  {
    if n == 0 then a
    else LastAnswer(Consumed(q, 1), n - 1, if NextReply(q).Some? then NextReply(q) else a)
  }

  lemma {:induction false} ConsumedAdd(q: seq<Option<seq<int>>>, m: nat, n: nat)
    ensures Consumed(Consumed(q, m), n) == Consumed(q, m + n)
  {
  }

  /** Reading m and then n replies holds the same answer as reading m + n. */
  lemma {:induction false} LastAnswerAdd(q: seq<Option<seq<int>>>, m: nat, n: nat, a: Option<seq<int>>)
    ensures LastAnswer(q, m + n, a) == LastAnswer(Consumed(q, m), n, LastAnswer(q, m, a))
    decreases m
  {
    if m > 0 {
      var a' := if NextReply(q).Some? then NextReply(q) else a;
      LastAnswerAdd(Consumed(q, 1), m - 1, n, a');
      ConsumedAdd(q, 1, m - 1);
      assert m + n - 1 == (m - 1) + n;
    }
  }

  /** Every answer that reads of well-formed replies leave behind is a reply. */
  lemma {:induction false} LastAnswerIsReply(q: seq<Option<seq<int>>>, n: nat, a: Option<seq<int>>)
    requires AllReplies(q)
    requires a.Some? ==> IsReply(a.value)
    ensures LastAnswer(q, n, a).Some? ==> IsReply(LastAnswer(q, n, a).value)
    decreases n
  {
    if n > 0 {
      var a' := if NextReply(q).Some? then NextReply(q) else a;
      LastAnswerIsReply(Consumed(q, 1), n - 1, a');
    }
  }

  class Device {
    /** The buffers written to endpoint 1, oldest first. */
    var log: seq<seq<int>>
    /** The replies still to be read from endpoint 0x81. */
    var replies: seq<Option<seq<int>>>

    ghost predicate Valid()
      reads this
    {
      AllReplies(replies)
    }

    constructor (replies: seq<Option<seq<int>>>)
      requires AllReplies(replies)
      ensures Valid()
      ensures log == [] && this.replies == replies
    {
      log := [];
      this.replies := replies;
    }

    method Write(buffer: seq<int>)
      requires Valid()
      modifies this
      ensures Valid()
      ensures log == old(log) + [buffer] && replies == old(replies)
    {
      log := log + [buffer];
    }

    method Read() returns (r: Option<seq<int>>)
      requires Valid()
      modifies this
      ensures Valid()
      ensures r == NextReply(old(replies)) && (r.Some? ==> IsReply(r.value))
      ensures replies == Consumed(old(replies), 1) && log == old(log)
    {
      if replies == [] {
        r := None;
      } else {
        r := replies[0];
        replies := replies[1..];
      }
    }
  }
}
