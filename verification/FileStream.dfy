/** An in-memory file: the `Read + Write + Seek` handle the writer and the reader own. */
module FileStream {
  import opened Prelude

  /** `bytes` written at `pos`: overwrites what is there, extends the file past its end. */
  function WriteAt(file: Bytes, pos: nat, bytes: Bytes): (r: Bytes)
    requires pos <= |file|
    ensures |r| == Max(|file|, pos + |bytes|)
  {
    file[..pos] + bytes + if pos + |bytes| <= |file| then file[pos + |bytes|..] else []
  }

  class Stream {
    var data: Bytes
    var pos: nat

    constructor (bytes: Bytes)
      ensures data == bytes && pos == 0
    {
      data := bytes;
      pos := 0;
    }

    method SeekTo(offset: nat)
      modifies this
      ensures data == old(data) && pos == offset
    {
      pos := offset;
    }

    /** Exactly n bytes, or nothing: a short file leaves the position at its end. */
    method ReadExact(n: nat) returns (r: Option<Bytes>)
      modifies this
      ensures data == old(data)
      ensures old(pos) + n <= |data| ==> r == Some(data[old(pos)..old(pos) + n]) && pos == old(pos) + n
      ensures old(pos) + n > |data| ==> r == None && pos == Max(old(pos), |data|)
    {
      if pos + n <= |data| {
        r := Some(data[pos..pos + n]);
        pos := pos + n;
      } else {
        r := None;
        pos := Max(pos, |data|);
      }
    }

    method WriteAll(bytes: Bytes)
      requires pos <= |data|
      modifies this
      ensures data == WriteAt(old(data), old(pos), bytes) && pos == old(pos) + |bytes|
    {
      data := WriteAt(data, pos, bytes);
      pos := pos + |bytes|;
    }
  }
}
