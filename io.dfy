/** The seekable output the archive writer works on (`Write + Seek`): its
    contents and its position. I/O failures of the output itself are not part
    of this model. */
module Io {
  import opened Bytes

  class Stream {
    var data: seq<u8>
    var pos: nat

    constructor ()
      ensures data == [] && pos == 0
    {
      data := [];
      pos := 0;
    }

    /** `stream_position` */
    method StreamPosition() returns (p: nat)
      ensures p == pos
    {
      p := pos;
    }

    /** `seek(SeekFrom::Start(p))` */
    method Seek(p: nat)
      modifies this
      ensures data == old(data) && pos == p
    {
      pos := p;
    }

    /** `write_all(bytes)` */
    method WriteAll(bytes: seq<u8>)
      modifies this
      ensures data == Overwrite(old(data), old(pos), bytes)
      ensures pos == old(pos) + |bytes|
    {
      data := Overwrite(data, pos, bytes);
      pos := pos + |bytes|;
    }
  }
}
