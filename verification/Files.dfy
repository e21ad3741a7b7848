/**
 The file commands of src/db/file.rs. Each command runs to completion inside the one
 task that owns the file, so it is a single step on the file's bytes.
 */
module Files {
  import opened Bytes
  import opened Dtypes

  /** Seek to `pos` and write: a gap past the end is filled with zeros. */
  function WriteAt(file: Bytes, pos: nat, data: Bytes): Bytes {
    if data == [] then file
    else
      var before := if pos <= |file| then file[..pos] else file + Zeros(pos - |file|);
      var after := if pos + |data| <= |file| then file[pos + |data|..] else [];
      before + data + after
  }

  function SetLength(file: Bytes, len: nat): Bytes {
    if len <= |file| then file[..len] else file + Zeros(len - |file|)
  }

  /** Byte by byte: the data where it was written, zeros in a gap, everything else as before. */
  lemma WriteAtBytes(file: Bytes, pos: nat, data: Bytes)
    requires data != []
    ensures
      var w := WriteAt(file, pos, data);
      && |w| == (if pos + |data| <= |file| then |file| else pos + |data|)
      && forall i :: 0 <= i < |w| ==>
           w[i] == if pos <= i < pos + |data| then data[i - pos] else if i < |file| then file[i] else 0
  {
  }

  /** Shortening keeps the first bytes, lengthening adds zeros. */
  lemma SetLengthBytes(file: Bytes, len: nat)
    ensures |SetLength(file, len)| == len
    ensures forall i :: 0 <= i < len ==> SetLength(file, len)[i] == if i < |file| then file[i] else 0
  {
  }

  datatype FileName = DbFile | IdxFile | WalFile

  /** What an observer sees happen: a file command with what it left, or a new map to read from. */
  datatype Trace = Wrote(file: FileName, contents: Bytes) | Shown(fields: map<Key, Field>)

  /** All that happened to a database, in order. Every file command is recorded by the file itself. */
  class Journal {
    ghost var traces: seq<Trace>

    constructor ()
      ensures traces == []
    {
      traces := [];
    }

    ghost method Record(t: Trace)
      modifies this
      ensures traces == old(traces) + [t]
    {
      traces := traces + [t];
    }
  }

  class ByteFile {
    const name: FileName
    const journal: Journal
    var contents: Bytes

    constructor (name: FileName, journal: Journal, bytes: Bytes)
      ensures this.name == name && this.journal == journal && contents == bytes
    {
      this.name, this.journal := name, journal;
      contents := bytes;
    }

    method ReadAll() returns (bytes: Bytes)
      ensures bytes == contents
    {
      bytes := contents;
    }

    /** Returns the position at which the data was appended. */
    method Append(data: Bytes) returns (pos: nat)
      modifies this, journal
      ensures contents == old(contents) + data
      ensures pos == |old(contents)|
      ensures journal.traces == old(journal.traces) + [Wrote(name, contents)]
    {
      pos := |contents|;
      contents := contents + data;
      journal.Record(Wrote(name, contents));
    }

    method WriteAtPos(pos: nat, data: Bytes)
      modifies this, journal
      ensures contents == WriteAt(old(contents), pos, data)
      ensures journal.traces == old(journal.traces) + [Wrote(name, contents)]
    {
      contents := WriteAt(contents, pos, data);
      journal.Record(Wrote(name, contents));
    }

    method SetLen(len: nat)
      modifies this, journal
      ensures contents == SetLength(old(contents), len)
      ensures journal.traces == old(journal.traces) + [Wrote(name, contents)]
    {
      contents := SetLength(contents, len);
      journal.Record(Wrote(name, contents));
    }
  }
}
