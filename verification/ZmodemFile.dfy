/** io/ZmodemFile.cpp over a file that is a byte sequence or absent. */
module ZmodemFiles {
  import opened Bytes
  import opened Options

  const BLOCK: nat := 4096
  const CRC_INIT: int := 0xFFFF_FFFF

  /** UPDC32 over all bytes, for any table `step`. */
  function Fold(step: (int, byte) -> int, init: int, s: seq<byte>): int {
    if s == [] then init else step(Fold(step, init, s[..|s| - 1]), s[|s| - 1])
  }

  function Crc(step: (int, byte) -> int, s: seq<byte>): int {
    CRC_INIT - Fold(step, CRC_INIT, s)
  }

  lemma FoldSnoc(step: (int, byte) -> int, init: int, s: seq<byte>, k: nat)
    requires k < |s|
    ensures Fold(step, init, s[..k + 1]) == step(Fold(step, init, s[..k]), s[k])
  {
    assert s[..k + 1][..k] == s[..k];
  }

  /** What std::fstream::read takes: it stays good only if it got all it asked for. */
  function Readable(content: seq<byte>, at: nat, size: nat): (n: nat)
    requires at <= |content|
    ensures n <= size && at + n <= |content|
  {
    if |content| - at < size then |content| - at else size
  }

  class ZmodemFile {
    /** The bytes at the file's path. */
    var disk: Option<seq<byte>>
    var fileSize: nat
    var pos: nat
    /** The stream: open, good, and where it reads next. */
    var isOpen: bool
    var good: bool
    var cursor: nat
    const step: (int, byte) -> int

    constructor (step: (int, byte) -> int, disk: Option<seq<byte>>, fileSize: nat)
      ensures this.step == step && this.disk == disk && this.fileSize == fileSize
      ensures pos == 0 && !isOpen && cursor == 0
    {
      this.step, this.disk, this.fileSize := step, disk, fileSize;
      pos, isOpen, good, cursor := 0, false, true, 0;
    }

    predicate IsGood()
      reads this
    {
      good && isOpen
    }

    /** getExistLen (io/ZmodemFile.cpp:92-112). */
    method GetExistLen() returns (len: nat, crc: int)
      ensures disk == None ==> len == 0 && crc == CRC_INIT
      ensures disk != None ==> len == |disk.value| && crc == Crc(step, disk.value)
    {
      crc, len := CRC_INIT, 0;
      if disk == None { return; }
      var content, good := disk.value, true;
      while good
        invariant len <= |content| && crc == Fold(step, CRC_INIT, content[..len])
        invariant !good ==> len == |content|
        decreases |content| - len, good
      {
        var readed := Readable(content, len, BLOCK);
        crc := Update(content, len, crc, readed);
        len := len + readed;
        good := readed == BLOCK;
      }
      assert content[..len] == content;
      crc := CRC_INIT - crc;
    }

    /** The inner loop over one block. */
    method Update(content: seq<byte>, len: nat, crc0: int, readed: nat) returns (crc: int)
      requires len + readed <= |content| && crc0 == Fold(step, CRC_INIT, content[..len])
      ensures crc == Fold(step, CRC_INIT, content[..len + readed])
    {
      crc := crc0;
      for i := 0 to readed
        invariant crc == Fold(step, CRC_INIT, content[..len + i])
      {
        FoldSnoc(step, CRC_INIT, content, len + i);
        crc := step(crc, content[len + i]);
      }
    }

    /** validateFileCrc (io/ZmodemFile.cpp:156-181): the length proposed, if it is not
        longer than announced and the file begins with bytes of that checksum; else 0. A file
        that is shorter than announced is taken as far as it goes. */
    method ValidateFileCrc(existLen: nat, existCrc: int) returns (validLen: nat)
      ensures validLen ==
        if disk != None && existLen <= fileSize
           && Crc(step, disk.value[..if existLen < |disk.value| then existLen else |disk.value|]) == existCrc
        then existLen else 0
    {
      if existLen > fileSize { return 0; }
      if existLen == 0 { return 0; }
      if disk == None { return 0; }
      var content, good, crc, len, at := disk.value, true, CRC_INIT, 0, 0;
      while good && len < existLen
        invariant at <= |content| && len == (if at < existLen then at else existLen)
        invariant crc == Fold(step, CRC_INIT, content[..len])
        invariant good || at == |content|
        decreases |content| - at, good
      {
        var readed := Readable(content, at, BLOCK);
        if readed == 0 { break; }
        var taken := if existLen - len < readed then existLen - len else readed;
        crc := Update(content, len, crc, taken);
        len, at := len + taken, at + readed;
        good := readed == BLOCK;
      }
      assert len == if existLen < |content| then existLen else |content|;
      crc := CRC_INIT - crc;
      if crc != existCrc { return 0; }
      return existLen;
    }

    /** openWrite (io/ZmodemFile.cpp:114-122): append to what is there, or start anew. */
    method OpenWrite(resume: bool)
      modifies this
      ensures isOpen && good && unchanged(`fileSize) && unchanged(`pos)
      ensures disk == if resume && old(disk) != None then old(disk) else Some([])
    {
      isOpen, good := true, true;
      if !resume || disk == None { disk := Some([]); }
    }

    /** write (io/ZmodemFile.cpp:124-143), on a disk with room. */
    method Write(buf: seq<byte>) returns (ok: bool)
      requires isOpen ==> disk != None
      modifies this`disk, this`pos
      ensures ok == isOpen
      ensures isOpen ==> disk == Some(old(disk).value + buf) && pos == old(pos) + |buf|
      ensures !isOpen ==> disk == old(disk) && pos == old(pos)
    {
      if !isOpen { return false; }
      disk, pos := Some(disk.value + buf), pos + |buf|;
      return true;
    }

    /** read (io/ZmodemFile.cpp:193-201). */
    method Read(size: nat) returns (buf: seq<byte>)
      requires isOpen ==> disk != None && cursor <= |disk.value|
      modifies this`pos, this`cursor, this`good
      ensures !old(IsGood()) ==> buf == [] && pos == old(pos) && cursor == old(cursor) && good == old(good)
      ensures old(IsGood()) ==> pos == old(pos) + |buf| && cursor == old(cursor) + |buf| <= |disk.value|
      ensures old(IsGood()) ==> buf == disk.value[old(cursor)..cursor] && good == (|buf| == size)
      ensures old(IsGood()) ==> |buf| <= size && (|buf| < size ==> cursor == |disk.value|)
    {
      if !isOpen || !good { return []; }
      var n := Readable(disk.value, cursor, size);
      buf := disk.value[cursor..cursor + n];
      cursor, pos, good := cursor + n, pos + n, n == size;
    }

    /** setReadPos (io/ZmodemFile.cpp:203-213), with the file in place. */
    method SetReadPos(p: nat)
      requires disk != None && !isOpen
      modifies this
      ensures isOpen && good && unchanged(`disk) && unchanged(`fileSize)
      ensures if p <= fileSize then cursor == pos == p else cursor == 0 && pos == old(pos)
    {
      isOpen, good, cursor := true, true, 0;
      if p > fileSize { return; }
      cursor, pos := p, p;
    }

    /** setWritePos (io/ZmodemFile.cpp:215-221). */
    method SetWritePos(p: nat)
      modifies this`pos
      ensures pos == if p <= fileSize then p else old(pos)
    {
      if p > fileSize { return; }
      pos := p;
    }
  }
}
