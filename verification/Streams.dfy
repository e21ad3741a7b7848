/**
 Which frames of a client's stream the connection loop serves, for every stream, and what a
 client may rely on: its requests are served in order, each read sees the last write.
 */
module Streams {
  import opened Bytes
  import opened Dtypes
  import opened Replay
  import opened Protocol
  import opened Layouts
  import opened Server
  import Appending

  /** Parsing from a position is parsing what is left. */
  lemma {:induction false} ParseLater(lib: Lib, input: Bytes, pos: nat)
    requires pos <= |input|
    ensures ParseStream(lib, input, pos) == ParseStream(lib, input[pos..], 0)
    decreases |input| - pos
  {
    hide FromBE, DecodeRequest, ReadExact;
    var rest := input[pos..];
    assert input == input[..pos] + rest;
    forall p: nat, n: nat
      ensures ReadExact(input, pos + p, n) == ReadExact(rest, p, n)
    {
      Appending.ReadsLater(input[..pos], rest, p, n);
    }
    Reads(rest, 0, 4);
    assert ReadExact(input, pos + 0, 4) == ReadExact(rest, 0, 4);
    if |rest| >= 4 {
      var n := FromBE(rest[0..4]);
      Reads(rest, 4, n);
      assert ReadExact(input, pos + 4, n) == ReadExact(rest, 4, n);
      if 4 + n <= |rest| {
        ParseLater(lib, input, pos + 4 + n);
        ParseLater(lib, rest, 4 + n);
        assert rest[4 + n..] == input[pos + 4 + n..];
      }
    }
  }

  /**
   One turn of the loop, for every stream: fewer than four bytes end it quietly, an announced
   message that is not all there cuts it, one that cannot be decoded without panic stops it;
   any other message is served, well-formed or not, and the loop goes on right behind it.
   */
  lemma StreamByBytes(lib: Lib, input: Bytes)
    ensures
      var r := ParseStream(lib, input, 0);
      if |input| < 4 then r == ([], Closed)
      else
        var end := 4 + FromBE(input[0..4]);
        if end > |input| then r == ([], CutBody)
        else
          var req, rest := DecodeRequest(lib, input[4..end]), ParseStream(lib, input[end..], 0);
          if req.Panic? then r == ([], Panicked)
          else r == ([if req.Ok? then Valid(req.value) else Malformed] + rest.0, rest.1)
  {
    hide FromBE, DecodeRequest, ReadExact;
    Reads(input, 0, 4);
    if |input| >= 4 {
      var end := 4 + FromBE(input[0..4]);
      Reads(input, 4, end - 4);
      if end <= |input| { ParseLater(lib, input, end); }
    }
  }

  // ---------------------------------------------------------------------------
  // Streams of frames

  /** What one message is to the loop. */
  function ItemOf(lib: Lib, msg: Bytes): Item {
    var req := DecodeRequest(lib, msg);
    if req.Ok? then Valid(req.value) else Malformed
  }

  function ItemsOf(lib: Lib, msgs: seq<Bytes>): seq<Item> {
    seq(|msgs|, i requires 0 <= i < |msgs| => ItemOf(lib, msgs[i]))
  }

  predicate Harmless(lib: Lib, msgs: seq<Bytes>) {
    forall i :: 0 <= i < |msgs| ==> !DecodeRequest(lib, msgs[i]).Panic?
  }

  lemma FrameFirst(lib: Lib, msg: Bytes, tail: Bytes)
    requires |msg| < U32
    ensures
      var r, rest := ParseStream(lib, Frame(msg) + tail, 0), ParseStream(lib, tail, 0);
      if DecodeRequest(lib, msg).Panic? then r == ([], Panicked)
      else r == ([ItemOf(lib, msg)] + rest.0, rest.1)
  {
    hide FromBE, BE, DecodeRequest, ParseStream;
    var input := Frame(msg) + tail;
    BEWidths(|msg|);
    assert input[0..4] == BE(4, |msg|);
    assert input[4..4 + |msg|] == msg && input[4 + |msg|..] == tail;
    StreamByBytes(lib, input);
  }

  /** Every message of a concatenation of frames is served, in order, before what follows them. */
  lemma {:induction false} StreamOfFrames(lib: Lib, msgs: seq<Bytes>, tail: Bytes)
    requires Sendable(msgs) && Harmless(lib, msgs)
    ensures
      var r, rest := ParseStream(lib, FramesBytes(msgs) + tail, 0), ParseStream(lib, tail, 0);
      r == (ItemsOf(lib, msgs) + rest.0, rest.1)
    decreases |msgs|
  {
    hide DecodeRequest, ParseStream, Frame, ItemOf;
    var rest := ParseStream(lib, tail, 0);
    if msgs == [] {
      assert FramesBytes(msgs) + tail == tail;
      assert ItemsOf(lib, msgs) + rest.0 == rest.0;
    } else {
      var init, m := msgs[..|msgs| - 1], msgs[|msgs| - 1];
      StreamOfFrames(lib, init, Frame(m) + tail);
      FrameFirst(lib, m, tail);
      assert FramesBytes(msgs) + tail == FramesBytes(init) + (Frame(m) + tail);
      assert ItemsOf(lib, msgs) == ItemsOf(lib, init) + [ItemOf(lib, m)];
      assert ItemsOf(lib, msgs) + rest.0 == ItemsOf(lib, init) + ([ItemOf(lib, m)] + rest.0);
    }
  }

  /**
   The four ways a stream of frames can end: exactly there or with up to three stray bytes;
   with a message announced and cut short; or with a message whose decoding panics, behind
   which nothing is served.
   */
  lemma StreamEnds(lib: Lib, msgs: seq<Bytes>, tail: Bytes, bad: Bytes)
    requires Sendable(msgs) && Harmless(lib, msgs) && |bad| < U32
    ensures ParseStream(lib, FramesBytes(msgs), 0) == (ItemsOf(lib, msgs), Closed)
    ensures |tail| < 4 ==> ParseStream(lib, FramesBytes(msgs) + tail, 0) == (ItemsOf(lib, msgs), Closed)
    ensures |tail| >= 4 && 4 + FromBE(tail[0..4]) > |tail| ==>
              ParseStream(lib, FramesBytes(msgs) + tail, 0) == (ItemsOf(lib, msgs), CutBody)
    ensures DecodeRequest(lib, bad).Panic? ==>
              ParseStream(lib, FramesBytes(msgs) + (Frame(bad) + tail), 0) == (ItemsOf(lib, msgs), Panicked)
  {
    hide DecodeRequest, ParseStream, FramesBytes, ItemsOf, Sendable, Harmless, Frame;
    assert FramesBytes(msgs) + [] == FramesBytes(msgs);
    assert ItemsOf(lib, msgs) + [] == ItemsOf(lib, msgs);
    StreamOfFrames(lib, msgs, []);
    StreamByBytes(lib, []);
    StreamOfFrames(lib, msgs, tail);
    StreamByBytes(lib, tail);
    if DecodeRequest(lib, bad).Panic? {
      StreamOfFrames(lib, msgs, Frame(bad) + tail);
      FrameFirst(lib, bad, tail);
    }
  }

  // ---------------------------------------------------------------------------
  // What a client may rely on

  function Encodings(reqs: seq<Request>): seq<Bytes> {
    seq(|reqs|, i requires 0 <= i < |reqs| => RequestBytes(reqs[i]))
  }

  /** Requests sent one after the other are all served, in that order, one reply each. */
  lemma ClientServed(lib: Lib, reqs: seq<Request>, m: Fields, replies: seq<Response>)
    requires forall i :: 0 <= i < |reqs| ==> WfRequest(lib, reqs[i]) && |RequestBytes(reqs[i])| < U32
    requires
      var (items, ending) := ParseStream(lib, FramesBytes(Encodings(reqs)), 0);
      Conversation(items, ending, m, replies)
    ensures
      var (items, ending) := ParseStream(lib, FramesBytes(Encodings(reqs)), 0);
      && ending == Closed && |items| == |reqs| == |replies|
      && forall i :: 0 <= i < |reqs| ==>
           items[i] == Valid(reqs[i]) && Answers(Valid(reqs[i]), MapAfter(items[..i], m), replies[i])
  {
    hide DecodeRequest, RequestBytes, ParseStream, FramesBytes, WfRequest, Answers, MapAfter;
    var msgs := Encodings(reqs);
    forall i | 0 <= i < |msgs|
      ensures DecodeRequest(lib, msgs[i]) == Ok(reqs[i])
    {
      RequestRoundTrip(lib, reqs[i]);
    }
    StreamEnds(lib, msgs, [], []);
  }

  /** The last request among these that sets or deletes `k`. */
  function LastWrite(items: seq<Item>, k: Key): Option<Request> {
    if items == [] then None
    else
      match items[|items| - 1]
      case Valid(SetKey(key, f)) => if key == k then Some(SetKey(k, f)) else LastWrite(items[..|items| - 1], k)
      case Valid(DelKey(key)) => if key == k then Some(DelKey(k)) else LastWrite(items[..|items| - 1], k)
      case _ => LastWrite(items[..|items| - 1], k)
  }

  /** What a read of `k` must answer then, if the map was `m` at first. */
  function ReadAnswer(items: seq<Item>, k: Key, m: Fields): Response {
    match LastWrite(items, k)
    case Some(SetKey(_, f)) => Done(Some(f))
    case Some(_) => NotFound
    case None => if k in m then Done(Some(m[k])) else NotFound
  }

  lemma {:induction false} MapShowsLastWrite(items: seq<Item>, k: Key, m: Fields)
    ensures (if k in MapAfter(items, m) then Done(Some(MapAfter(items, m)[k])) else NotFound) == ReadAnswer(items, k, m)
    decreases |items|
  {
    if items != [] {
      var init := items[..|items| - 1];
      MapShowsLastWrite(init, k, m);
    }
  }

  /**
   In every conversation: a read answers with the last value written to its key by an earlier
   request, NotFound if that was a deletion, and otherwise what was stored before; writes and
   pings answer Ok without a value, also deletions of absent keys; a key list names exactly
   the keys a read would find; a malformed message answers InvalidRequest.
   */
  lemma LastWriteWins(items: seq<Item>, ending: Ending, m: Fields, replies: seq<Response>, i: nat)
    requires Conversation(items, ending, m, replies) && i < |items|
    ensures
      match items[i]
      case Valid(GetKey(k)) => replies[i] == ReadAnswer(items[..i], k, m)
      case Valid(ListKeys) =>
        && replies[i].KeyList?
        && (forall x, y :: 0 <= x < y < |replies[i].keys| ==> replies[i].keys[x] != replies[i].keys[y])
        && (forall k :: k in replies[i].keys <==> ReadAnswer(items[..i], k, m) != NotFound)
      case Valid(_) => replies[i] == Done(None)
      case Malformed => replies[i] == InvalidRequest
  {
    hide MapAfter, ReadAnswer;
    var now := MapAfter(items[..i], m);
    assert Answers(items[i], now, replies[i]);
    match items[i]
    case Valid(GetKey(k)) => MapShowsLastWrite(items[..i], k, m);
    case Valid(ListKeys) =>
      var keys := replies[i].keys;
      NoRepeats(keys);
      forall k
        ensures k in keys <==> ReadAnswer(items[..i], k, m) != NotFound
      {
        MapShowsLastWrite(items[..i], k, m);
        assert k in (set x | x in keys) <==> k in now.Keys;
      }
    case _ =>
  }

  lemma {:induction false} NoRepeats(keys: seq<Key>)
    ensures |set k | k in keys| <= |keys|
    ensures |set k | k in keys| == |keys| ==>
              forall x, y :: 0 <= x < y < |keys| ==> keys[x] != keys[y]
    decreases |keys|
  {
    if keys != [] {
      var init, k := keys[..|keys| - 1], keys[|keys| - 1];
      var rest := set x | x in init;
      NoRepeats(init);
      assert keys == init + [k];
      assert (set x | x in keys) == rest + {k};
      if k in rest {
        assert rest + {k} == rest;
      } else {
        forall x | 0 <= x < |init|
          ensures keys[x] != k
        {
          assert init[x] in rest;
        }
      }
    }
  }

  /** The one message that is not a reply: a cut body is answered with this text. */
  lemma CutBodyReply(items: seq<Item>, m: Fields, replies: seq<Response>)
    requires Conversation(items, CutBody, m, replies)
    ensures |replies| == |items| + 1 && replies[|items|] == ServerError(Ascii("failed to read message"))
  {
    assert READ_FAILED == Ascii("failed to read message");
  }
}
