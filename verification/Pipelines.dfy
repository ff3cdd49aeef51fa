/** Which calls of one received buffer are answered. */
module Pipelines {
  import opened Wire
  import opened Rpc

  ghost predicate IsGarbage(isStream: bool, reply: Bytes) {
    exists h :: reply == Garbage(isStream, h)
  }

  /** The replies SocketReceived sends for the input: one per call, up to the first call that fails;
      a datagram gets at most one. Every call finds the state the one before it left. */
  ghost predicate Answers<S>(t: Table<S>, state: S, isStream: bool, input: Bytes, replies: seq<Bytes>)
    decreases |input|
  {
    if input == [] then replies == []
    else
      match DecCall(isStream, input)
      case Fail => |replies| == 1 && IsGarbage(isStream, replies[0])
      case Got(h, args) =>
        && |replies| >= 1
        && replies[0] == Reply(t, state, isStream, h, args, Room(isStream))
        && if isStream && ResultOf(t, state, h, args) == PRC_OK
           then Answers(t, After(t, state, h, args), isStream, Unread(t, state, h, args), replies[1..])
           else |replies| == 1
  }

  /** The state behind the last call that was answered, and the input behind it. */
  function Left<S>(t: Table<S>, state: S, isStream: bool, input: Bytes): (S, Bytes)
    decreases |input|
  {
    if input == [] then (state, [])
    else
      match DecCall(isStream, input)
      case Fail => (state, [])
      case Got(h, args) =>
        var next := (After(t, state, h, args), Unread(t, state, h, args));
        if isStream && ResultOf(t, state, h, args) == PRC_OK then Left(t, next.0, isStream, next.1) else next
  }

  /** Some replies answer the front of the input, and the rest is still to be answered. */
  ghost predicate Continues<S>(t: Table<S>, state: S, isStream: bool, input: Bytes, replies: seq<Bytes>, now: S, rest: Bytes) {
    && (forall more {:trigger replies + more} ::
          Answers(t, now, isStream, rest, more) ==> Answers(t, state, isStream, input, replies + more))
    && Left(t, state, isStream, input) == Left(t, now, isStream, rest)
  }

  lemma NothingAnswered<S>(t: Table<S>, state: S, isStream: bool, input: Bytes)
    ensures Continues(t, state, isStream, input, [], state, input)
  {
    forall more {:trigger [] + more} | Answers(t, state, isStream, input, more)
      ensures Answers(t, state, isStream, input, [] + more)
    {
      assert [] + more == more;
    }
  }

  lemma OneMoreAnswered<S>(t: Table<S>, state: S, input: Bytes, replies: seq<Bytes>, now: S, rest: Bytes, h: Header, args: Bytes)
    requires Continues(t, state, true, input, replies, now, rest) && rest != []
    requires DecCall(true, rest) == Got(h, args) && ResultOf(t, now, h, args) == PRC_OK
    ensures Continues(t, state, true, input, replies + [Reply(t, now, true, h, args, Room(true))],
                      After(t, now, h, args), Unread(t, now, h, args))
  {
    var reply := Reply(t, now, true, h, args, Room(true));
    forall more {:trigger replies + [reply] + more} | Answers(t, After(t, now, h, args), true, Unread(t, now, h, args), more)
      ensures Answers(t, state, true, input, replies + [reply] + more)
    {
      assert ([reply] + more)[1..] == more;
      assert Answers(t, now, true, rest, [reply] + more);
      assert replies + [reply] + more == replies + ([reply] + more);
    }
  }

  lemma AllInputAnswered<S>(t: Table<S>, state: S, isStream: bool, input: Bytes, replies: seq<Bytes>, now: S)
    requires Continues(t, state, isStream, input, replies, now, [])
    ensures Answers(t, state, isStream, input, replies) && Left(t, state, isStream, input) == (now, [])
  {
    assert Answers(t, now, isStream, [], []);
    assert replies + [] == replies;
  }

  /** A record that starts with a call gets one reply exactly when the call fails or is read to the end
      of the record. */
  lemma OneReplyExactly<S>(t: Table<S>, state: S, record: Bytes, h: Header, args: Bytes, replies: seq<Bytes>)
    requires DecCall(true, record) == Got(h, args) && Answers(t, state, true, record, replies)
    ensures |replies| == 1 <==> ResultOf(t, state, h, args) != PRC_OK || Unread(t, state, h, args) == []
  {
  }

  /** A record that is one call. */
  lemma WholeRecord<S>(t: Table<S>, state: S, record: Bytes, h: Header, args: Bytes)
    requires DecCall(true, record) == Got(h, args)
    requires ResultOf(t, state, h, args) == PRC_OK && Unread(t, state, h, args) == []
    ensures Left(t, state, true, record) == (After(t, state, h, args), [])
    ensures Answers(t, state, true, record, [Reply(t, state, true, h, args, Room(true))])
  {
    hide Reply, ResultOf, After, Unread;
    assert [Reply(t, state, true, h, args, Room(true))][1..] == [];
  }

  /** What Process does with the next call. */
  ghost predicate Processed<S>(t: Table<S>, state: S, isStream: bool, input: Bytes, room: nat,
                               result: Prc, reply: Bytes, now: S, left: Bytes) {
    match DecCall(isStream, input)
    case Fail => result == PRC_FAIL && now == state && left == [] && IsGarbage(isStream, reply)
    case Got(h, args) =>
      && result == ResultOf(t, state, h, args) && now == After(t, state, h, args)
      && left == Unread(t, state, h, args) && reply == Reply(t, state, isStream, h, args, room)
  }

  /** The call behind which SocketReceived stops. */
  lemma LastAnswered<S>(t: Table<S>, state: S, isStream: bool, input: Bytes, replies: seq<Bytes>, now: S, rest: Bytes,
                        result: Prc, reply: Bytes, next: S, left: Bytes)
    requires Continues(t, state, isStream, input, replies, now, rest) && rest != []
    requires Processed(t, now, isStream, rest, Room(isStream), result, reply, next, left)
    requires !(isStream && result == PRC_OK)
    ensures Answers(t, state, isStream, input, replies + [reply]) && Left(t, state, isStream, input) == (next, left)
  {
    assert Answers(t, now, isStream, rest, [reply]);
  }

  lemma CallAnswered<S>(t: Table<S>, state: S, isStream: bool, input: Bytes, replies: seq<Bytes>, now: S, rest: Bytes,
                        result: Prc, reply: Bytes, next: S, left: Bytes)
    requires Continues(t, state, isStream, input, replies, now, rest) && rest != []
    requires Processed(t, now, isStream, rest, Room(isStream), result, reply, next, left)
    ensures |left| < |rest|
    ensures result == PRC_OK && isStream ==> Continues(t, state, isStream, input, replies + [reply], next, left)
    ensures !(result == PRC_OK && isStream) ==>
              Answers(t, state, isStream, input, replies + [reply]) && Left(t, state, isStream, input) == (next, left)
  {
    if result == PRC_OK && isStream {
      OneMoreAnswered(t, state, input, replies, now, rest, DecCall(true, rest).value, DecCall(true, rest).rest);
    } else {
      LastAnswered(t, state, isStream, input, replies, now, rest, result, reply, next, left);
    }
  }

  /** A call on a stream: its bytes, and what the server does with it. */
  datatype Exchange<S> = Exchange(call: Bytes, header: Header, args: Bytes, reply: Bytes, result: Prc, after: S)

  /** The call is complete: whatever follows it, the server does the same, and a call that succeeds
      is read to its end and no further. */
  ghost predicate SelfContained<S>(t: Table<S>, state: S, x: Exchange<S>) {
    && DecCall(true, x.call) == Got(x.header, x.args)
    && forall more {:trigger x.args + more} ::
         && Reply(t, state, true, x.header, x.args + more, Room(true)) == x.reply
         && ResultOf(t, state, x.header, x.args + more) == x.result
         && After(t, state, x.header, x.args + more) == x.after
         && (x.result == PRC_OK ==> Unread(t, state, x.header, x.args + more) == more)
  }

  /** Every call of the batch is complete in the state the calls before it leave. */
  ghost predicate Linked<S>(t: Table<S>, state: S, xs: seq<Exchange<S>>)
    decreases |xs|
  {
    xs == [] || (SelfContained(t, state, xs[0]) && Linked(t, xs[0].after, xs[1..]))
  }

  function Sent<S>(xs: seq<Exchange<S>>): Bytes {
    if xs == [] then [] else xs[0].call + Sent(xs[1..])
  }

  /** The exchanges up to the first whose call fails. */
  function UpToFailure<S>(xs: seq<Exchange<S>>): (ys: seq<Exchange<S>>)
    ensures |ys| <= |xs| && ys == xs[..|ys|]
  {
    if xs == [] then []
    else if xs[0].result == PRC_OK then [xs[0]] + UpToFailure(xs[1..])
    else [xs[0]]
  }

  function LastState<S>(state: S, xs: seq<Exchange<S>>): S {
    if xs == [] then state else xs[|xs| - 1].after
  }

  function Replies<S>(xs: seq<Exchange<S>>): (rs: seq<Bytes>)
    ensures |rs| == |xs|
  {
    seq(|xs|, i requires 0 <= i < |xs| => xs[i].reply)
  }

  /** Calls received together are answered in order, up to the first that fails, and leave the state
      that the calls answered leave one after the other. */
  lemma {:induction false} AnswersInOrder<S>(t: Table<S>, state: S, xs: seq<Exchange<S>>, replies: seq<Bytes>)
    requires Linked(t, state, xs)
    ensures Answers(t, state, true, Sent(xs), replies) <==> replies == Replies(UpToFailure(xs))
    ensures Left(t, state, true, Sent(xs)).0 == LastState(state, UpToFailure(xs))
    ensures (forall i :: 0 <= i < |xs| ==> xs[i].result == PRC_OK) ==> Left(t, state, true, Sent(xs)).1 == []
    decreases |xs|
  {
    if xs != [] {
      var x, more := xs[0], Sent(xs[1..]);
      CallStable(true, x.call, more);
      assert DecCall(true, Sent(xs)) == Got(x.header, x.args + more);
      if x.result == PRC_OK {
        var tail := if replies == [] then [] else replies[1..];
        AnswersInOrder(t, x.after, xs[1..], tail);
        FirstReply(x, xs[1..], replies);
      } else {
        OneReply(x, xs[1..], replies);
      }
    }
  }

  lemma ReplyList<S>(x: Exchange<S>, xs: seq<Exchange<S>>)
    ensures Replies([x] + xs) == [x.reply] + Replies(xs)
  {
  }

  lemma FrontAndRest(s: seq<Bytes>, a: Bytes, t: seq<Bytes>)
    ensures s == [a] + t <==> |s| >= 1 && s[0] == a && s[1..] == t
  {
    if |s| >= 1 { assert s == [s[0]] + s[1..]; }
  }

  lemma FirstReply<S>(x: Exchange<S>, xs: seq<Exchange<S>>, replies: seq<Bytes>)
    requires x.result == PRC_OK
    ensures replies == Replies(UpToFailure([x] + xs)) <==>
            |replies| >= 1 && replies[0] == x.reply && replies[1..] == Replies(UpToFailure(xs))
  {
    assert ([x] + xs)[1..] == xs;
    ReplyList(x, UpToFailure(xs));
    FrontAndRest(replies, x.reply, Replies(UpToFailure(xs)));
  }

  lemma OneReply<S>(x: Exchange<S>, xs: seq<Exchange<S>>, replies: seq<Bytes>)
    requires x.result != PRC_OK
    ensures replies == Replies(UpToFailure([x] + xs)) <==> |replies| == 1 && replies[0] == x.reply
  {
    assert Replies([x]) == [x.reply];
  }

  /** Every call is answered exactly when no call but the last fails. */
  lemma {:induction false} AllAnswered<S>(xs: seq<Exchange<S>>)
    ensures UpToFailure(xs) == xs <==> forall i :: 0 <= i < |xs| - 1 ==> xs[i].result == PRC_OK
  {
    if |xs| > 1 {
      AllAnswered(xs[1..]);
      if xs[0].result == PRC_OK {
        assert xs == [xs[0]] + xs[1..];
        if UpToFailure(xs[1..]) != xs[1..] {
          var i :| 0 <= i < |xs[1..]| - 1 && xs[1..][i].result != PRC_OK;
          assert xs[i + 1].result != PRC_OK;
        } else {
          forall i | 0 <= i < |xs| - 1
            ensures xs[i].result == PRC_OK
          {
            if i > 0 { assert xs[1..][i - 1].result == PRC_OK; }
          }
        }
      }
    }
  }
}
