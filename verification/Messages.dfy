/**
 The wire format in plain bytes: what the decoders make of every message, whoever wrote it.
 */
module Messages {
  import opened Bytes
  import opened Dtypes
  import opened Protocol
  import opened Layouts

  /** A key stands at `pos`: two length bytes, most significant first, and as many bytes. */
  predicate KeyStands(buf: Bytes, pos: nat) {
    pos + 2 <= |buf| && pos + 2 + FromBE(buf[pos..pos + 2]) <= |buf|
  }

  function KeyEnd(buf: Bytes, pos: nat): nat
    requires KeyStands(buf, pos)
  {
    pos + 2 + FromBE(buf[pos..pos + 2])
  }

  lemma KeyByBytes(buf: Bytes, pos: nat)
    requires pos <= |buf|
    ensures ReadKeyAt(buf, pos)
            == if KeyStands(buf, pos) then Ok((buf[pos + 2..KeyEnd(buf, pos)], KeyEnd(buf, pos))) else Err(Io)
  {
    hide FromBE, ReadExact;
    Reads(buf, pos, 2);
    if pos + 2 <= |buf| { Reads(buf, pos + 2, FromBE(buf[pos..pos + 2])); }
  }

  /** A sized payload stands at `pos`: four length bytes and as many bytes. */
  predicate PayloadStands(buf: Bytes, pos: nat) {
    pos + 4 <= |buf| && pos + 4 + FromBE(buf[pos..pos + 4]) <= |buf|
  }

  function PayloadEnd(buf: Bytes, pos: nat): nat
    requires PayloadStands(buf, pos)
  {
    pos + 4 + FromBE(buf[pos..pos + 4])
  }

  /**
   Requests, for every message: byte 0 is the version and must be 1, byte 1 the command. 1 is
   Ping and 5 lists the keys, whatever follows; 2 gets and 4 deletes the key at byte 2; 3 sets
   it to the field in the sized payload behind it; any other command is unknown.
   */
  lemma RequestByBytes(lib: Lib, buf: Bytes)
    ensures
      var r := DecodeRequest(lib, buf);
      if buf == [] then r == Err(Io)
      else if buf[0] != 1 then r == Err(InvalidRequestFormat)
      else if |buf| == 1 then r == Err(Io)
      else if buf[1] == 1 then r == Ok(Ping)
      else if buf[1] == 5 then r == Ok(ListKeys)
      else if buf[1] != 2 && buf[1] != 3 && buf[1] != 4 then r == Err(UnknownCommand(buf[1]))
      else if !KeyStands(buf, 2) then r == Err(Io)
      else
        var end := KeyEnd(buf, 2);
        var key := buf[4..end];
        if buf[1] == 2 then r == Ok(GetKey(key))
        else if buf[1] == 4 then r == Ok(DelKey(key))
        else if !PayloadStands(buf, end) then r == Err(Io)
        else
          var f := FieldFrom(lib, buf[end + 4..PayloadEnd(buf, end)]);
          if f.Ok? then r == Ok(SetKey(key, f.value.0)) else FailsAs(r, f)
  {
    hide FromBE, ReadExact, FieldFrom, ReadKeyAt;
    Reads(buf, 0, 1);
    if |buf| >= 1 { Reads(buf, 1, 1); }
    if |buf| >= 2 {
      KeyByBytes(buf, 2);
      if KeyStands(buf, 2) {
        var end := KeyEnd(buf, 2);
        Reads(buf, end, 4);
        if end + 4 <= |buf| { Reads(buf, end + 4, FromBE(buf[end..end + 4])); }
      }
    }
  }

  /** The keys of a list, one at a time: the first, then those of the rest. */
  lemma {:induction false} ScanKeysFrom(payload: Bytes, pos: nat, keys: seq<Key>)
    requires pos <= |payload|
    ensures
      var all, rest := ScanKeys(payload, pos, keys), ScanKeys(payload[pos..], 0, []);
      if rest.Ok? then all == Ok(keys + rest.value) else FailsAs(all, rest)
    decreases |payload| - pos
  {
    hide ReadKeyAt;
    var rest := payload[pos..];
    if pos == |payload| {
      assert keys + [] == keys;
    } else {
      KeyLater(payload, pos);
      var one := ReadKeyAt(payload, pos);
      if one.Ok? {
        var (k, next) := one.value;
        ScanKeysFrom(payload, next, keys + [k]);
        ScanKeysFrom(rest, next - pos, [k]);
        assert rest[next - pos..] == payload[next..];
        assert [] + [k] == [k];
        var others := ScanKeys(payload[next..], 0, []);
        if others.Ok? { assert keys + [k] + others.value == keys + ([k] + others.value); }
      }
    }
  }

  lemma KeyLater(payload: Bytes, pos: nat)
    requires pos <= |payload|
    ensures
      var one, here := ReadKeyAt(payload, pos), ReadKeyAt(payload[pos..], 0);
      if one.Ok? then here == Ok((one.value.0, one.value.1 - pos)) else FailsAs(here, one)
  {
    hide FromBE;
    var rest := payload[pos..];
    KeyByBytes(payload, pos);
    KeyByBytes(rest, 0);
    if pos + 2 <= |payload| {
      assert rest[0..2] == payload[pos..pos + 2];
      if KeyStands(payload, pos) { assert rest[2..KeyEnd(rest, 0)] == payload[pos + 2..KeyEnd(payload, pos)]; }
    }
  }

  /** A key list, for every payload: the empty one has no keys, any other one first key and the list behind it. */
  lemma KeyListByBytes(payload: Bytes)
    ensures ScanKeys([], 0, []) == Ok([])
    ensures payload != [] ==>
              var all := ScanKeys(payload, 0, []);
              if !KeyStands(payload, 0) then all == Err(Io)
              else
                var rest := ScanKeys(payload[KeyEnd(payload, 0)..], 0, []);
                if rest.Ok? then all == Ok([payload[2..KeyEnd(payload, 0)]] + rest.value) else FailsAs(all, rest)
  {
    hide ReadKeyAt;
    if payload != [] {
      KeyByBytes(payload, 0);
      if KeyStands(payload, 0) {
        ScanKeysFrom(payload, KeyEnd(payload, 0), [payload[2..KeyEnd(payload, 0)]]);
        assert [] + [payload[2..KeyEnd(payload, 0)]] == [payload[2..KeyEnd(payload, 0)]];
      }
    }
  }

  /**
   Responses, for every message: byte 0 is the status, 0 to 5, and a sized payload follows. 0
   is Ok, with a value unless the payload is empty; 1 NotFound, 2 TypeError, 3 an error text,
   4 InvalidRequest, 5 a key list.
   */
  lemma ResponseByBytes(lib: Lib, buf: Bytes)
    ensures
      var r := DecodeResponse(lib, buf);
      if buf == [] then r == Err(Io)
      else if buf[0] > 5 then r == Err(UnknownCommand(buf[0]))
      else if !PayloadStands(buf, 1) then r == Err(Io)
      else
        var payload := buf[5..PayloadEnd(buf, 1)];
        var f, keys := FieldFrom(lib, payload), ScanKeys(payload, 0, []);
        if buf[0] == 0 && payload == [] then r == Ok(Done(None))
        else if buf[0] == 0 then (if f.Ok? then r == Ok(Done(Some(f.value.0))) else FailsAs(r, f))
        else if buf[0] == 1 then r == Ok(NotFound)
        else if buf[0] == 2 then r == Ok(TypeError)
        else if buf[0] == 3 then r == if lib.utf8(payload) then Ok(ServerError(payload)) else Err(InvalidRequestFormat)
        else if buf[0] == 4 then r == Ok(InvalidRequest)
        else if keys.Ok? then r == Ok(KeyList(keys.value)) else FailsAs(r, keys)
  {
    hide FromBE, ReadExact, FieldFrom, ScanKeys;
    Reads(buf, 0, 1);
    if buf != [] {
      Reads(buf, 1, 4);
      if |buf| >= 5 { Reads(buf, 5, FromBE(buf[1..5])); }
    }
  }
}
