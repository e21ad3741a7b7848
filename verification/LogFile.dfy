/**
 The `.wal` file: encoded entries read back in order, and a log cut short is
 readable exactly when the cut falls between two entries.
 */
module LogFile {
  import opened Bytes
  import opened Dtypes
  import opened Format
  import opened FileImage

  predicate WfEntry(lib: Lib, e: WalEntry) {
    match e
    case Set(key, field) => WfPair(lib, key, field)
    case Delete(key) => |key| < U16
  }

  predicate WfLog(lib: Lib, log: seq<WalEntry>) {
    forall i :: 0 <= i < |log| ==> WfEntry(lib, log[i])
  }

  /** Where the parts of an encoded entry lie. */
  lemma EntryParts(e: WalEntry)
    ensures
      var s := EntryBytes(e);
      var n := |e.key|;
      && |s| == (if e.Set? then 7 + n + |FieldBytes(e.field)| else 3 + n)
      && s[0] == (if e.Set? then 1 else 2)
      && s[1..3] == LE(2, n) && s[3..3 + n] == e.key
      && (e.Set? ==> s[3 + n..7 + n] == LE(4, |FieldBytes(e.field)|) && s[7 + n..] == FieldBytes(e.field))
  {
    hide LE, FieldBytes;
    var s := EntryBytes(e);
    assert s == s[..];
    match e
    case Set(key, field) =>
      var size, payload := LE(4, |FieldBytes(field)|), FieldBytes(field);
      AtSplit(s, 0, [1], LE(2, |key|) + (key + (size + payload)));
      AtSplit(s, 1, LE(2, |key|), key + (size + payload));
      AtSplit(s, 3, key, size + payload);
      AtSplit(s, 3 + |key|, size, payload);
      assert s[7 + |key|..] == s[7 + |key|..7 + |key| + |payload|];
    case Delete(key) =>
      AtSplit(s, 0, [2], LE(2, |key|) + key);
      AtSplit(s, 1, LE(2, |key|), key);
  }

  /** Reading from the first `n` bytes of `e`, standing at the end of a buffer. */
  lemma ReadTorn(pre: Bytes, e: Bytes, n: nat, off: nat, len: nat)
    requires off <= n <= |e|
    ensures ReadExact(pre + e[..n], |pre| + off, len) == if off + len <= n then Ok(e[off..off + len]) else Err(Io)
  {
    var buf := pre + e[..n];
    if off + len <= n {
      assert buf[|pre| + off..|pre| + off + len] == e[off..off + len];
    }
  }

  /** An entry cut short is an I/O error, never a different entry. */
  lemma TornEntry(lib: Lib, pre: Bytes, e: WalEntry, n: nat)
    requires WfEntry(lib, e) && 0 < n < |EntryBytes(e)|
    ensures ReadEntry(lib, pre + EntryBytes(e)[..n], |pre|) == Err(Io)
  {
    hide LE, FromLE, FieldFrom, EntryBytes, ReadExact, FieldBytes;
    var s, k := EntryBytes(e), |e.key|;
    EntryParts(e);
    LEWidths(k);
    ReadTorn(pre, s, n, 0, 1);
    assert s[0..1] == [s[0]];
    ReadTorn(pre, s, n, 1, 2);
    if n >= 3 {
      ReadTorn(pre, s, n, 3, k);
      if n >= 3 + k {
        LEWidths(|FieldBytes(e.field)|);
        ReadTorn(pre, s, n, 3 + k, 4);
        if n >= 7 + k {
          ReadTorn(pre, s, n, 7 + k, |FieldBytes(e.field)|);
        }
      }
    }
  }

  lemma AtParts(buf: Bytes, pos: nat, s: Bytes, lo: nat, hi: nat)
    requires At(buf, pos, s) && lo <= hi <= |s|
    ensures ReadExact(buf, pos + lo, hi - lo) == Ok(s[lo..hi])
  {
    SliceOfSlice(buf, pos, pos + |s|, lo, hi);
  }

  /** A whole entry reads back as itself. */
  lemma WholeEntry(lib: Lib, buf: Bytes, pos: nat, e: WalEntry)
    requires WfEntry(lib, e) && At(buf, pos, EntryBytes(e))
    ensures ReadEntry(lib, buf, pos) == Ok((e, pos + |EntryBytes(e)|))
  {
    hide LE, FromLE, FieldFrom, EntryBytes, ReadExact, FieldBytes, At, WfField;
    var s, k := EntryBytes(e), |e.key|;
    EntryParts(e);
    LEWidths(k);
    AtParts(buf, pos, s, 0, 1);
    assert s[0..1] == [s[0]];
    AtParts(buf, pos, s, 1, 3);
    AtParts(buf, pos, s, 3, 3 + k);
    if e.Set? {
      LEWidths(|FieldBytes(e.field)|);
      AtParts(buf, pos, s, 3 + k, 7 + k);
      AtParts(buf, pos, s, 7 + k, |s|);
      assert s[7 + k..|s|] == s[7 + k..];
      FieldRoundTripExact(lib, e.field);
    }
  }

  /** The log scanner passes the entries of `log`, having collected them. */
  lemma {:induction false} ScanLogPasses(lib: Lib, buf: Bytes, log: seq<WalEntry>)
    requires WfLog(lib, log) && At(buf, 0, LogBytes(log))
    ensures ScanLog(lib, buf, 0, []) == ScanLog(lib, buf, |LogBytes(log)|, log)
    decreases |log|
  {
    hide EntryBytes, At, ReadEntry, WfEntry;
    if log == [] {
    } else {
      var init, e := log[..|log| - 1], log[|log| - 1];
      AtSplit(buf, 0, LogBytes(init), EntryBytes(e));
      ScanLogPasses(lib, buf, init);
      WholeEntry(lib, buf, |LogBytes(init)|, e);
      assert init + [e] == log;
      assert |LogBytes(init)| < |buf| by { AtBound(buf, |LogBytes(init)|, EntryBytes(e)); }
    }
  }

  lemma AtBound(buf: Bytes, pos: nat, s: Bytes)
    requires At(buf, pos, s)
    ensures pos + |s| <= |buf|
  {
  }

  lemma LogRoundTrip(lib: Lib, log: seq<WalEntry>)
    requires WfLog(lib, log)
    ensures DecodeLog(lib, LogBytes(log)) == Ok(log)
  {
    hide EntryBytes, ReadEntry, WfEntry, LogBytes;
    ScanLogPasses(lib, LogBytes(log), log);
  }

  lemma LogAppend(log: seq<WalEntry>, e: WalEntry)
    ensures LogBytes(log + [e]) == LogBytes(log) + EntryBytes(e)
  {
    hide EntryBytes;
    assert (log + [e])[..|log|] == log;
  }

  /** The number of whole entries in the first `n` bytes of the encoded log. */
  lemma {:induction false} WholeEntries(log: seq<WalEntry>, n: nat) returns (i: nat)
    requires n <= |LogBytes(log)|
    ensures i <= |log| && |LogBytes(log[..i])| <= n
    ensures if i < |log| then n < |LogBytes(log[..i + 1])| else n == |LogBytes(log)|
    decreases |log|
  {
    hide EntryBytes;
    if n == |LogBytes(log)| {
      i := |log|;
      assert log[..|log|] == log;
    } else {
      var init := log[..|log| - 1];
      if n >= |LogBytes(init)| {
        i := |log| - 1;
        assert log[..i + 1] == log;
      } else {
        i := WholeEntries(init, n);
        assert init[..i] == log[..i] && init[..i + 1] == log[..i + 1];
      }
    }
  }

  lemma {:induction false} LogPrefixLength(log: seq<WalEntry>, i: nat, j: nat)
    requires i < j <= |log|
    ensures |LogBytes(log[..i])| < |LogBytes(log[..j])|
    decreases j
  {
    hide EntryBytes;
    assert log[..j][..j - 1] == log[..j - 1];
    if i < j - 1 { LogPrefixLength(log, i, j - 1); }
  }

  lemma {:induction false} LogPrefixBytes(log: seq<WalEntry>, i: nat)
    requires i <= |log|
    ensures LogBytes(log[..i]) <= LogBytes(log)
    decreases |log|
  {
    hide EntryBytes;
    if i == |log| {
      assert log[..i] == log;
    } else {
      var init := log[..|log| - 1];
      assert init[..i] == log[..i];
      LogPrefixBytes(init, i);
    }
  }

  /** The cut falls between entries: after the first `i` of them. */
  ghost predicate Boundary(log: seq<WalEntry>, i: nat, n: nat) {
    i <= |log| && n == |LogBytes(log[..i])|
  }

  /**
   Any prefix of a well-formed log decodes if and only if it ends on an entry
   boundary, and then to exactly the entries before the cut; anywhere else it is an
   I/O error.
   */
  lemma LogPrefix(lib: Lib, log: seq<WalEntry>, n: nat)
    requires WfLog(lib, log) && n <= |LogBytes(log)|
    ensures
      var r := DecodeLog(lib, LogBytes(log)[..n]);
      && (r.Ok? <==> exists i: nat :: Boundary(log, i, n))
      && (forall i: nat :: Boundary(log, i, n) ==> r == Ok(log[..i]))
      && (r.Ok? || r == Err(Io))
  {
    hide LogBytes, ReadEntry, EntryBytes, WfEntry;
    var i := WholeEntries(log, n);
    var pre := LogBytes(log[..i]);
    var cut := LogBytes(log)[..n];
    LogPrefixBytes(log, i);
    assert At(cut, 0, pre);
    assert log[..|log|] == log;
    ScanLogPasses(lib, cut, log[..i]);
    if |pre| == n {
      assert Boundary(log, i, n);
    } else {
      assert log[..i + 1] == log[..i] + [log[i]];
      LogAppend(log[..i], log[i]);
      LogPrefixBytes(log, i + 1);
      assert cut == pre + EntryBytes(log[i])[..n - |pre|];
      TornEntry(lib, pre, log[i], n - |pre|);
    }
    forall j: nat | Boundary(log, j, n)
      ensures j == i
    {
      if j < i { LogPrefixLength(log, j, i); }
      if i < j {
        LogPrefixLength(log, i, j);
        if i + 1 < j { LogPrefixLength(log, i + 1, j); }
      }
    }
  }
}
