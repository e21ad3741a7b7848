/**
 The connection loop and request dispatch (src/server/server.rs), over one client's byte
 stream and the database: they refine a plain map that answers requests in order.
 */
module Server {
  import opened Bytes
  import opened Dtypes
  import opened Format
  import opened FileImage
  import opened Replay
  import opened Engine
  import opened Protocol
  import Database
  import Recovery
  import FlushLaw
  import Journals
  import EngineSteps

  /** A complete frame holds a request or something that does not decode. */
  datatype Item = Valid(req: Request) | Malformed

  /** How the loop ends: no complete length prefix is left, a body is cut short, or decoding panics. */
  datatype Ending = Closed | CutBody | Panicked

  /** "failed to read message" */
  const READ_FAILED: Bytes := [0x66, 0x61, 0x69, 0x6C, 0x65, 0x64, 0x20, 0x74, 0x6F, 0x20, 0x72,
                               0x65, 0x61, 0x64, 0x20, 0x6D, 0x65, 0x73, 0x73, 0x61, 0x67, 0x65]

  /** The frames of the client's stream up to the point where the loop ends. */
  function ParseStream(lib: Lib, input: Bytes, pos: nat): (seq<Item>, Ending)
    decreases |input| - pos
  {
    match ReadExact(input, pos, 4)
    case Ok(len) =>
      (match ReadExact(input, pos + 4, FromBE(len))
       case Ok(msg) =>
         (match DecodeRequest(lib, msg)
          case Ok(req) => var (items, e) := ParseStream(lib, input, pos + 4 + |msg|); ([Valid(req)] + items, e)
          case Err(_) => var (items, e) := ParseStream(lib, input, pos + 4 + |msg|); ([Malformed] + items, e)
          case Panic => ([], Panicked))
       case _ => ([], CutBody))
    case _ => ([], Closed)
  }

  // ---------------------------------------------------------------------------
  // The plain map machine

  function ApplyRequest(req: Request, m: Fields): Fields {
    match req
    case SetKey(key, field) => m[key := field]
    case DelKey(key) => m - {key}
    case _ => m
  }

  function ApplyItem(item: Item, m: Fields): Fields {
    if item.Valid? then ApplyRequest(item.req, m) else m
  }

  function MapAfter(items: seq<Item>, m: Fields): Fields {
    if items == [] then m else ApplyItem(items[|items| - 1], MapAfter(items[..|items| - 1], m))
  }

  /** The answers a map `m` allows to one frame; keys may come in any order. */
  predicate Answers(item: Item, m: Fields, res: Response) {
    match item
    case Malformed => res == InvalidRequest
    case Valid(req) =>
      match req
      case Ping => res == Done(None)
      case GetKey(key) => res == if key in m then Done(Some(m[key])) else NotFound
      case SetKey(_, _) => res == Done(None)
      case DelKey(_) => res == Done(None)
      case ListKeys => res.KeyList? && (set k | k in res.keys) == m.Keys && |res.keys| == |m|
  }

  /** One response per complete frame, in order, and a final error for a cut body. */
  predicate Conversation(items: seq<Item>, ending: Ending, m: Fields, replies: seq<Response>) {
    && |replies| == |items| + (if ending.CutBody? then 1 else 0)
    && (forall i :: 0 <= i < |items| ==> Answers(items[i], MapAfter(items[..i], m), replies[i]))
    && (ending.CutBody? ==> replies[|items|] == ServerError(READ_FAILED))
  }

  function ReplyBytes(replies: seq<Response>): (msgs: seq<Bytes>)
    ensures |msgs| == |replies|
    ensures forall i :: 0 <= i < |replies| ==> msgs[i] == ResponseBytes(replies[i])
  {
    if replies == [] then [] else ReplyBytes(replies[..|replies| - 1]) + [ResponseBytes(replies[|replies| - 1])]
  }

  lemma ReplyAppend(replies: seq<Response>, r: Response)
    ensures FramesBytes(ReplyBytes(replies + [r])) == FramesBytes(ReplyBytes(replies)) + Frame(ResponseBytes(r))
  {
    hide ResponseBytes, Frame;
    assert (replies + [r])[..|replies|] == replies;
    FramesAppend(ReplyBytes(replies), ResponseBytes(r));
  }

  /** The engine steps a request takes. */
  function RequestActs(req: Request): seq<Action> {
    match req
    case SetKey(key, field) => [Log(Set(key, field)), Apply]
    case DelKey(key) => [Log(Delete(key)), Apply]
    case _ => []
  }

  function ItemActs(item: Item): seq<Action> {
    if item.Valid? then RequestActs(item.req) else []
  }

  function ConnectionActs(items: seq<Item>): seq<Action> {
    if items == [] then [] else ConnectionActs(items[..|items| - 1]) + ItemActs(items[|items| - 1])
  }

  /** What decoding guarantees: lengths fit, and a stored value will fit a response frame. */
  predicate InBounds(lib: Lib, item: Item) {
    item.Valid? ==>
      && WfRequest(lib, item.req)
      && (item.req.SetKey? ==> |FieldBytes(item.req.field)| + 8 < U32)
  }

  predicate AllInBounds(lib: Lib, items: seq<Item>) {
    forall i :: 0 <= i < |items| ==> InBounds(lib, items[i])
  }

  lemma InBoundsCons(lib: Lib, item: Item, items: seq<Item>)
    requires InBounds(lib, item) && AllInBounds(lib, items)
    ensures AllInBounds(lib, [item] + items)
  {
    hide InBounds;
  }

  lemma {:induction false} StreamInBounds(lib: Lib, input: Bytes, pos: nat)
    ensures AllInBounds(lib, ParseStream(lib, input, pos).0)
    decreases |input| - pos
  {
    hide FromBE, DecodeRequest, AllInBounds, InBounds;
    assert AllInBounds(lib, []) by { NoneInBounds(lib); }
    var len := ReadExact(input, pos, 4);
    if len.Ok? {
      var msg := ReadExact(input, pos + 4, FromBE(len.value));
      if msg.Ok? && !DecodeRequest(lib, msg.value).Panic? {
        var next := pos + 4 + |msg.value|;
        StreamInBounds(lib, input, next);
        FrameInBounds(lib, len.value, msg.value);
        var item := if DecodeRequest(lib, msg.value).Ok? then Valid(DecodeRequest(lib, msg.value).value) else Malformed;
        InBoundsCons(lib, item, ParseStream(lib, input, next).0);
      }
    }
  }

  lemma NoneInBounds(lib: Lib)
    ensures AllInBounds(lib, [])
  {
  }

  lemma FrameInBounds(lib: Lib, len: Bytes, msg: Bytes)
    requires |len| == 4 && |msg| == FromBE(len)
    ensures DecodeRequest(lib, msg).Ok? ==> InBounds(lib, Valid(DecodeRequest(lib, msg).value))
    ensures InBounds(lib, Malformed)
  {
    hide FromBE, DecodeRequest, FieldBytes;
    PowValues();
    if DecodeRequest(lib, msg).Ok? { DecodedRequest(lib, msg); }
  }

  lemma ItemLegal(lib: Lib, s: State, item: Item)
    requires s.phase.Idle? && InBounds(lib, item)
    ensures Legal(lib, s, ItemActs(item)) && Exec(lib, s, ItemActs(item)).phase.Idle?
  {
    hide FieldBytes, WfField, EntryBytes;
    if item.Valid? {
      match item.req
      case SetKey(key, field) => Recovery.OneOperation(lib, s, Set(key, field));
      case DelKey(key) => Recovery.OneOperation(lib, s, Delete(key));
      case _ =>
    }
  }

  /** Every connection is a legal run of the engine. */
  lemma {:induction false} ConnectionLegal(lib: Lib, s: State, items: seq<Item>)
    requires s.phase.Idle? && AllInBounds(lib, items)
    ensures Legal(lib, s, ConnectionActs(items)) && Exec(lib, s, ConnectionActs(items)).phase.Idle?
    decreases |items|
  {
    hide Exec, Legal, InBounds, ItemActs;
    if items == [] {
      assert Exec(lib, s, []) == s && Legal(lib, s, []) by { Recovery.NoActs(lib, s); }
    } else {
      var init, item := items[..|items| - 1], items[|items| - 1];
      ConnectionLegal(lib, s, init);
      ItemLegal(lib, Exec(lib, s, ConnectionActs(init)), item);
      Recovery.RunsCompose(lib, s, ConnectionActs(init), ItemActs(item));
    }
  }

  /** The operations a connection logs build the map its requests build. */
  lemma {:induction false} ConnectionLogs(items: seq<Item>, m: Fields)
    ensures Recovery.Logged(m, ConnectionActs(items)) == MapAfter(items, m)
    decreases |items|
  {
    if items != [] {
      var init, item := items[..|items| - 1], items[|items| - 1];
      ConnectionLogs(init, m);
      ItemLogs(item, m, ConnectionActs(init));
    }
  }

  lemma ItemLogs(item: Item, m: Fields, acts: seq<Action>)
    ensures Recovery.Logged(m, acts + ItemActs(item)) == ApplyItem(item, Recovery.Logged(m, acts))
  {
    hide Recovery.Logged;
    if item.Valid? && (item.req.SetKey? || item.req.DelKey?) {
      var e := if item.req.SetKey? then Set(item.req.key, item.req.field) else Delete(item.req.key);
      assert ItemActs(item) == [Log(e), Apply];
      Recovery.LoggedOperation(m, acts, e);
    } else {
      assert acts + ItemActs(item) == acts;
    }
  }

  // ---------------------------------------------------------------------------
  // Dispatch and loop

  /** `handle_request`. */
  method HandleRequest(lib: Lib, db: Database.Database, req: Request) returns (res: Response)
    requires db.Valid()
    modifies db, db.wal, db.wal.file, db.journal
    ensures db.Valid()
    ensures Answers(Valid(req), old(db.fields), res)
    ensures db.fields == ApplyRequest(req, old(db.fields))
    ensures db.Snapshot() == Exec(lib, old(db.Snapshot()), RequestActs(req))
    ensures db.journal.traces == old(db.journal.traces) + RunTraces(lib, old(db.Snapshot()), RequestActs(req))
  {
    match req
    case Ping => res := Done(None);
    case GetKey(key) =>
      var r := db.Get(key);
      match r {
        case Ok(field) => res := Done(Some(field));
        case _ => res := NotFound;
      }
    case SetKey(key, field) =>
      db.SetKey(lib, key, field);
      res := Done(None);
    case DelKey(key) =>
      db.DeleteKey(lib, key);
      res := Done(None);
    case ListKeys =>
      var keys := db.Keys();
      res := KeyList(keys);
  }

  method Encoded(r: Response) returns (bytes: Bytes)
    ensures bytes == Frame(ResponseBytes(r))
  {
    hide ResponseBytes, Frame;
    var enc := new ProtocolEncoder();
    enc.EncodeResponse(r);
    assert enc.buffer == ResponseBytes(r);
    bytes := enc.Framed();
  }

  /** Decodes one message: the request, an error, or a panic. */
  method DecodeMessage(lib: Lib, msg: Bytes) returns (r: Outcome<Request>)
    ensures r == DecodeRequest(lib, msg)
  {
    hide DecodeRequest;
    var decoder := new ProtocolDecoder(msg);
    r := decoder.DecodeRequestBytes(lib);
  }

  /** What the loop has done so far: `items` frames are behind `pos`, answered by `replies`. */
  ghost predicate Progress(lib: Lib, input: Bytes, pos: nat, items: seq<Item>, m: Fields, replies: seq<Response>) {
    && ParseStream(lib, input, 0)
       == (items + ParseStream(lib, input, pos).0, ParseStream(lib, input, pos).1)
    && Conversation(items, Closed, m, replies)
  }

  lemma ProgressStarts(lib: Lib, input: Bytes, m: Fields)
    ensures Progress(lib, input, 0, [], m, [])
  {
    hide FromBE, ReadExact, DecodeRequest;
    assert [] + ParseStream(lib, input, 0).0 == ParseStream(lib, input, 0).0;
  }

  lemma ProgressStep(lib: Lib, input: Bytes, pos: nat, items: seq<Item>, m: Fields, replies: seq<Response>,
                     item: Item, next: nat, res: Response)
    requires Progress(lib, input, pos, items, m, replies)
    requires ParseStream(lib, input, pos)
             == ([item] + ParseStream(lib, input, next).0, ParseStream(lib, input, next).1)
    requires Answers(item, MapAfter(items, m), res)
    ensures Progress(lib, input, next, items + [item], m, replies + [res])
    ensures MapAfter(items + [item], m) == ApplyItem(item, MapAfter(items, m))
    ensures ConnectionActs(items + [item]) == ConnectionActs(items) + ItemActs(item)
  {
    hide ParseStream, Answers, ApplyItem, ItemActs, Conversation, MapAfter, ConnectionActs;
    var rest := ParseStream(lib, input, next).0;
    assert items + ([item] + rest) == items + [item] + rest;
    ConversationGrows(items, m, replies, item, res);
    ItemAppended(items, m, item);
  }

  lemma ConversationGrows(items: seq<Item>, m: Fields, replies: seq<Response>, item: Item, res: Response)
    requires Conversation(items, Closed, m, replies) && Answers(item, MapAfter(items, m), res)
    ensures Conversation(items + [item], Closed, m, replies + [res])
  {
    hide Answers, MapAfter;
    var items' := items + [item];
    assert items'[..|items|] == items;
    forall i | 0 <= i < |items'|
      ensures Answers(items'[i], MapAfter(items'[..i], m), (replies + [res])[i])
    {
      if i < |items| { assert items'[..i] == items[..i]; }
    }
  }

  lemma ItemAppended(items: seq<Item>, m: Fields, item: Item)
    ensures MapAfter(items + [item], m) == ApplyItem(item, MapAfter(items, m))
    ensures ConnectionActs(items + [item]) == ConnectionActs(items) + ItemActs(item)
  {
    hide ApplyItem, ItemActs;
    assert (items + [item])[..|items|] == items;
  }

  lemma ProgressEnds(lib: Lib, input: Bytes, pos: nat, items: seq<Item>, m: Fields, replies: seq<Response>,
                     ending: Ending)
    requires Progress(lib, input, pos, items, m, replies) && ParseStream(lib, input, pos) == ([], ending)
    ensures ParseStream(lib, input, 0) == (items, ending)
    ensures Conversation(items, ending, m, if ending.CutBody? then replies + [ServerError(READ_FAILED)] else replies)
  {
    hide ParseStream, Answers, MapAfter;
    assert items + [] == items;
  }

  /**
   `handle_connection`: reads frames until the stream ends, answers each, and leaves the
   database as the plain map machine would, every change having gone through the engine.
   */
  method HandleConnection(lib: Lib, db: Database.Database, input: Bytes)
    returns (output: Bytes, ghost items: seq<Item>, ghost ending: Ending, ghost replies: seq<Response>)
    requires db.Valid()
    modifies db, db.wal, db.wal.file, db.journal
    ensures db.Valid()
    ensures ParseStream(lib, input, 0) == (items, ending)
    ensures Conversation(items, ending, old(db.fields), replies)
    ensures output == FramesBytes(ReplyBytes(replies))
    ensures db.fields == MapAfter(items, old(db.fields))
    ensures db.Snapshot() == Exec(lib, old(db.Snapshot()), ConnectionActs(items))
    ensures db.journal.traces == old(db.journal.traces) + RunTraces(lib, old(db.Snapshot()), ConnectionActs(items))
  {
    hide FromBE, DecodeRequest, ResponseBytes, Frame, FramesBytes, ReplyBytes, Progress, Answers, Exec, RunTraces,
      MapAfter, ConnectionActs, Conversation;
    ghost var m, s, traces := db.fields, db.Snapshot(), db.journal.traces;
    var pos := 0;
    output, items, replies := [], [], [];
    ProgressStarts(lib, input, m);
    LoopStarts(lib, s, m);
    while true
      invariant db.Valid() && pos <= |input|
      invariant Progress(lib, input, pos, items, m, replies)
      invariant output == FramesBytes(ReplyBytes(replies))
      invariant db.fields == MapAfter(items, m)
      invariant db.Snapshot() == Exec(lib, s, ConnectionActs(items))
      invariant db.journal.traces == traces + RunTraces(lib, s, ConnectionActs(items))
      decreases |input| - pos
    {
      var lenBuf := ReadExact(input, pos, 4);
      if !lenBuf.Ok? {
        ending := Closed;
        ProgressEnds(lib, input, pos, items, m, replies, ending);
        break;
      }
      var body := ReadExact(input, pos + 4, FromBE(lenBuf.value));
      if !body.Ok? {
        ending := CutBody;
        ProgressEnds(lib, input, pos, items, m, replies, ending);
        var framed := Encoded(ServerError(READ_FAILED));
        ReplyAppend(replies, ServerError(READ_FAILED));
        output := output + framed;
        replies := replies + [ServerError(READ_FAILED)];
        break;
      }
      var next := pos + 4 + |body.value|;
      var decoded := DecodeMessage(lib, body.value);
      var res: Response;
      ghost var item: Item;
      match decoded {
        case Panic =>
          ending := Panicked;
          ProgressEnds(lib, input, pos, items, m, replies, ending);
          break;
        case Err(_) =>
          res := InvalidRequest;
          item := Malformed;
          MalformedAnswer(lib, s, db.fields, items);
        case Ok(req) =>
          res := HandleRequest(lib, db, req);
          item := Valid(req);
      }
      assert Answers(item, MapAfter(items, m), res);
      ProgressStep(lib, input, pos, items, m, replies, item, next, res);
      Recovery.RunsCompose(lib, s, ConnectionActs(items), ItemActs(item));
      Journals.TracesCompose(lib, s, ConnectionActs(items), ItemActs(item));
      var framed := Encoded(res);
      ReplyAppend(replies, res);
      output := output + framed;
      items, replies, pos := items + [item], replies + [res], next;
    }
  }

  lemma LoopStarts(lib: Lib, s: State, m: Fields)
    ensures Exec(lib, s, ConnectionActs([])) == s && RunTraces(lib, s, ConnectionActs([])) == []
    ensures MapAfter([], m) == m && FramesBytes(ReplyBytes([])) == []
  {
  }

  lemma MalformedAnswer(lib: Lib, s: State, m: Fields, items: seq<Item>)
    ensures Answers(Malformed, m, InvalidRequest)
    ensures Exec(lib, Exec(lib, s, ConnectionActs(items)), ItemActs(Malformed)) == Exec(lib, s, ConnectionActs(items))
    ensures RunTraces(lib, Exec(lib, s, ConnectionActs(items)), ItemActs(Malformed)) == []
  {
    Recovery.NoActs(lib, Exec(lib, s, ConnectionActs(items)));
  }

  // ---------------------------------------------------------------------------
  // What the client reads

  /** Stored keys and values that fit a response frame. */
  predicate Fits(lib: Lib, m: Fields) {
    forall k :: k in m ==> |k| < U16 && WfField(lib, m[k]) && |FieldBytes(m[k])| + 5 < U32
  }

  lemma {:induction false} AlwaysFits(lib: Lib, items: seq<Item>, m: Fields)
    requires Fits(lib, m) && AllInBounds(lib, items)
    ensures Fits(lib, MapAfter(items, m))
    decreases |items|
  {
    hide FieldBytes, WfField;
    if items != [] {
      AlwaysFits(lib, items[..|items| - 1], m);
      assert InBounds(lib, items[|items| - 1]);
    }
  }

  /** The bytes a list of these keys takes, in any order. */
  ghost function KeysSize(keys: set<Key>): nat {
    if keys == {} then 0
    else
      var k :| k in keys;
      2 + |k| + KeysSize(keys - {k})
  }

  lemma {:induction false} KeysSizeLess(keys: set<Key>, k: Key)
    requires k in keys
    ensures KeysSize(keys) == 2 + |k| + KeysSize(keys - {k})
    decreases |keys|
  {
    var first :| first in keys && KeysSize(keys) == 2 + |first| + KeysSize(keys - {first});
    if first != k {
      KeysSizeLess(keys - {first}, k);
      assert keys - {first} - {k} == keys - {k} - {first};
      KeysSizeLess(keys - {k}, first);
    }
  }

  lemma {:induction false} ListedKeys(keys: seq<Key>)
    ensures |set k | k in keys| <= |keys|
    ensures |set k | k in keys| == |keys| ==> |KeyListBytes(keys)| == KeysSize(set k | k in keys)
    decreases |keys|
  {
    hide BE;
    if keys == [] {
    } else {
      var init, k := keys[..|keys| - 1], keys[|keys| - 1];
      var rest, all := set x | x in init, set x | x in keys;
      ListedKeys(init);
      assert keys == init + [k];
      assert all == rest + {k};
      if k in rest {
        assert all == rest;
      } else {
        assert all - {k} == rest;
        KeysSizeLess(all, k);
        KeyBytesSize(k);
      }
    }
  }

  /** Whenever the client asks for the keys, their lengths add up to less than a frame. */
  ghost predicate KeyListsFit(items: seq<Item>, m: Fields) {
    forall i :: 0 <= i < |items| && items[i] == Valid(ListKeys) ==> KeysSize(MapAfter(items[..i], m).Keys) + 5 < U32
  }

  lemma ReplyFits(lib: Lib, item: Item, m: Fields, res: Response)
    requires Fits(lib, m) && Answers(item, m, res)
    requires item == Valid(ListKeys) ==> KeysSize(m.Keys) + 5 < U32
    ensures WfResponse(lib, res) && |ResponseBytes(res)| < U32
  {
    hide FieldBytes, WfField, KeyListBytes, BE, KeysSize;
    if res.KeyList? {
      assert |set k | k in res.keys| == |m|;
      ListedKeys(res.keys);
      forall i | 0 <= i < |res.keys|
        ensures |res.keys[i]| < U16
      {
        assert res.keys[i] in (set k | k in res.keys);
      }
    }
  }

  /**
   For every input stream, the bytes the server sends split into exactly one message per
   complete frame, in order, plus one final error if a body was cut, and each decodes to
   the response the plain map machine gives. Stored values must fit a frame at the start;
   requests keep it so. The keys of the map must fit a frame whenever they are asked for.
   */
  lemma ClientReads(lib: Lib, input: Bytes, m: Fields, replies: seq<Response>)
    requires
      var (items, ending) := ParseStream(lib, input, 0);
      Conversation(items, ending, m, replies) && KeyListsFit(items, m)
    requires Fits(lib, m) && lib.utf8(READ_FAILED)
    ensures
      var output := FramesBytes(ReplyBytes(replies));
      && Split(output, 0, []) == Some(ReplyBytes(replies))
      && forall i :: 0 <= i < |replies| ==> DecodeResponse(lib, ReplyBytes(replies)[i]) == Ok(replies[i])
  {
    hide ParseStream, ResponseBytes, DecodeResponse, FramesBytes, Split, Fits, AllInBounds, Conversation, ReplyBytes,
      KeyListsFit;
    var (items, ending) := ParseStream(lib, input, 0);
    StreamInBounds(lib, input, 0);
    forall i | 0 <= i < |replies|
      ensures |ReplyBytes(replies)[i]| < U32
      ensures DecodeResponse(lib, ReplyBytes(replies)[i]) == Ok(replies[i])
    {
      ReplyReads(lib, items, ending, m, replies, i);
    }
    FramesSplit(ReplyBytes(replies));
  }

  lemma ReplyReads(lib: Lib, items: seq<Item>, ending: Ending, m: Fields, replies: seq<Response>, i: nat)
    requires Conversation(items, ending, m, replies) && AllInBounds(lib, items)
    requires Fits(lib, m) && KeyListsFit(items, m) && lib.utf8(READ_FAILED)
    requires i < |replies|
    ensures |ResponseBytes(replies[i])| < U32 && DecodeResponse(lib, ResponseBytes(replies[i])) == Ok(replies[i])
  {
    hide Answers, MapAfter, ResponseBytes, DecodeResponse, Fits, InBounds, WfResponse, KeysSize;
    if i < |items| {
      AlwaysFits(lib, items[..i], m);
      ReplyFits(lib, items[i], MapAfter(items[..i], m), replies[i]);
    } else {
      FinalErrorFits(lib);
    }
    ResponseRoundTrip(lib, replies[i]);
  }

  lemma FinalErrorFits(lib: Lib)
    requires lib.utf8(READ_FAILED)
    ensures WfResponse(lib, ServerError(READ_FAILED)) && |ResponseBytes(ServerError(READ_FAILED))| < U32
  {
    hide BE;
  }

  /**
   Connection and engine together. From a sound state in which memory and files agree and
   whose files open, a connection is a legal engine run, whatever keys it names. If the
   process dies after any of its steps, also between logging an operation and applying it,
   the files open to the operations logged so far, which is what memory shows; after the
   last step that is the map the client's requests built.
   */
  lemma ConnectionSurvivesCrash(lib: Lib, s: State, input: Bytes, n: nat, name: Bytes)
    requires Inv(lib, s) && Synced(lib, s) && s.phase.Idle? && Opens(lib, s.disk) && |name| <= NAME_LEN
    requires n <= |ConnectionActs(ParseStream(lib, input, 0).0)|
    ensures
      var items := ParseStream(lib, input, 0).0;
      var acts := ConnectionActs(items);
      var t := Exec(lib, s, acts[..n]);
      && Legal(lib, s, acts) && Inv(lib, t) && Synced(lib, t)
      && OpenDb(lib, name, t.disk).Ok?
      && OpenDb(lib, name, t.disk).value.0.fields == Visible(t) == Recovery.Logged(s.mem.fields, acts[..n])
      && Recovery.Logged(s.mem.fields, acts) == MapAfter(items, s.mem.fields)
  {
    hide ParseStream, Exec, Legal, AllInBounds, OpenDb, Inv, Durable, MapAfter, DiskOk, MemOk, NoEmptyKey;
    var items := ParseStream(lib, input, 0).0;
    var acts := ConnectionActs(items);
    StreamInBounds(lib, input, 0);
    ConnectionLegal(lib, s, items);
    ConnectionLogs(items, s.mem.fields);
    OnlyLogging(items);
    FlushLaw.LegalTake(lib, s, acts, n);
    TakenLogging(acts, n);
    Recovery.LoggingRun(lib, s, acts[..n]);
    SoundOpens(lib, Exec(lib, s, acts[..n]), name);
  }

  lemma {:induction false} OnlyLogging(items: seq<Item>)
    ensures forall i :: 0 <= i < |ConnectionActs(items)| ==>
              ConnectionActs(items)[i].Log? || ConnectionActs(items)[i].Apply?
    decreases |items|
  {
    if items != [] { OnlyLogging(items[..|items| - 1]); }
  }

  lemma TakenLogging(acts: seq<Action>, n: nat)
    requires n <= |acts| && forall i :: 0 <= i < |acts| ==> acts[i].Log? || acts[i].Apply?
    ensures forall i :: 0 <= i < n ==> acts[..n][i].Log? || acts[..n][i].Apply?
  {
  }

  lemma SoundOpens(lib: Lib, t: State, name: Bytes)
    requires Inv(lib, t) && t != START && |name| <= NAME_LEN && Opens(lib, t.disk)
    ensures OpenDb(lib, name, t.disk).Ok? && OpenDb(lib, name, t.disk).value.0.fields == Durable(lib, t.disk)
  {
    hide DiskOk, MemOk, OpenDb, Durable, Opens;
    EngineSteps.OpenRecovers(lib, name, t.disk);
  }
}
