/** The resume-capable transfer of one file (osc/OscSession.cpp:437-559, 631-787): the
    handlers of both ends and the packages between them, delivered in order. */
module FileTransfer {
  import opened Bytes
  import opened Options
  import opened ZmodemFiles

  // osc/osc.h:15
  const MAX_RAW_CONTENT: nat := 4096

  datatype Pkg =
    | FileInfo(size: nat)
    | ProposeStart(existPos: nat, existCrc: int)
    | InitPos(offset: nat)
    | Content(offset: nat, crc: int, data: seq<byte>)
    | Complete(size: nat)

  datatype Stage = Info | Proposed | Streaming | Shortcut

  datatype Pick = ToReceiver | ToSender | SendData

  /** Equal checksums of the receiver's old file and of as many bytes of the source mean
      equal bytes. */
  predicate CrcTells(step: (int, byte) -> int, existing: Option<seq<byte>>, source: seq<byte>) {
    match existing
    case None => true
    case Some(had) => |had| <= |source| && Crc(step, had) == Crc(step, source[..|had|]) ==> had == source[..|had|]
  }

  /** Where the sender starts: after the bytes that are already there, if they are the
      source's. */
  function ValidLen(existing: Option<seq<byte>>, source: seq<byte>): (n: nat)
    ensures n <= |source|
  {
    if existing != None && existing.value <= source then |existing.value| else 0
  }

  predicate WholeBlocks(n: nat) {
    n % MAX_RAW_CONTENT == 0
  }

  /** How many packages `n` bytes take. */
  function Blocks(n: nat): (k: nat) {
    (n + MAX_RAW_CONTENT - 1) / MAX_RAW_CONTENT
  }

  /** Packages in flight that carry the source from `from` to `upto`, the last perhaps
      saying that all of it was sent. */
  predicate Chain(step: (int, byte) -> int, source: seq<byte>, pkgs: seq<Pkg>, from: nat, upto: nat, done: bool) {
    if pkgs == [] then from == upto
    else
      match pkgs[0]
      case Content(offset, crc, data) =>
        && offset == from && from + |data| <= |source| && data == source[from..from + |data|]
        && crc == Crc(step, data) && Chain(step, source, pkgs[1..], from + |data|, upto, done)
      case Complete(size) => |pkgs| == 1 && from == upto == size == |source| && done
      case _ => false
  }

  lemma {:induction false} ChainSnoc(step: (int, byte) -> int, source: seq<byte>, pkgs: seq<Pkg>, from: nat, upto: nat,
                                     done: bool, pkg: Pkg, upto': nat)
    requires Chain(step, source, pkgs, from, upto, false)
    requires Chain(step, source, [pkg], upto, upto', done)
    ensures Chain(step, source, pkgs + [pkg], from, upto', done)
  {
    if pkgs != [] {
      ChainSnoc(step, source, pkgs[1..], from + |pkgs[0].data|, upto, done, pkg, upto');
      assert (pkgs + [pkg])[1..] == pkgs[1..] + [pkg];
    } else {
      assert pkgs + [pkg] == [pkg];
    }
  }

  lemma ChainOne(step: (int, byte) -> int, source: seq<byte>, pkg: Pkg, upto: nat)
    requires pkg.Content? && pkg.offset + |pkg.data| == upto <= |source|
    requires pkg.data == source[pkg.offset..upto] && pkg.crc == Crc(step, pkg.data)
    ensures Chain(step, source, [pkg], pkg.offset, upto, false)
  {
  }

  lemma ChainLast(step: (int, byte) -> int, source: seq<byte>)
    ensures Chain(step, source, [Complete(|source|)], |source|, |source|, true)
  {
  }

  class Transfer {
    const sender: ZmodemFile
    const receiver: ZmodemFile
    /** Packages on their way, oldest first. */
    var toReceiver: seq<Pkg>
    var toSender: seq<Pkg>
    /** SEND_DATA_EVT is queued at the sender; NEXT_EVT was posted there. */
    var sendData: bool
    var next: bool
    /** The receiver has handled FileComplete; RESET was posted or handled at either end. */
    var completed: bool
    var reset: bool
    ghost const source: seq<byte>
    ghost const existing: Option<seq<byte>>
    ghost var stage: Stage
    ghost var completeSent: bool

    ghost predicate Valid()
      reads this, sender, receiver
    {
      && sender != receiver && sender.step == receiver.step && !reset
      && sender.disk == Some(source) && sender.fileSize == |source|
      && CrcTells(sender.step, existing, source)
      && match stage
         case Info => toReceiver == [FileInfo(|source|)] && toSender == [] && Idle()
         case Proposed =>
           && toReceiver == [] && |toSender| == 1 && toSender[0].ProposeStart? && Idle() && receiver.fileSize == |source|
           && (existing == None ==> toSender[0].existPos == 0)
           && (existing != None ==> toSender[0] == ProposeStart(|existing.value|, Crc(sender.step, existing.value)))
         case Shortcut =>
           && toSender == [] && ValidLen(existing, source) == |source|
           && receiver.disk == existing && !receiver.isOpen && !sendData && !next
           && toReceiver == if completed then [] else [Complete(|source|)]
         case Streaming => toSender == [] && ValidLen(existing, source) < |source| && Flowing()
    }

    ghost predicate Idle()
      reads this, sender, receiver
    {
      && !sender.isOpen && !receiver.isOpen && receiver.pos == 0 && receiver.disk == existing
      && !sendData && !next && !completed && !completeSent
    }

    ghost predicate Flowing()
      reads this, sender, receiver
    {
      && receiver.fileSize == |source| && sender.isOpen && sender.cursor == sender.pos
      && ValidLen(existing, source) <= sender.pos <= |source|
      && (sendData <==> sender.good && !next)
      && (next ==> !sender.good && !completeSent && WholeBlocks(|source| - ValidLen(existing, source)))
      && (completeSent <==> !sender.good && !next)
      && (sender.good ==> WholeBlocks(sender.pos - ValidLen(existing, source)))
      && (!sender.good ==> sender.pos == |source|)
      && (completeSent ==> !WholeBlocks(|source| - ValidLen(existing, source)))
      && (completed ==> completeSent && toReceiver == [])
      && Carries(sender.pos, completeSent)
    }

    /** What is on its way continues what the receiver holds. */
    ghost predicate Carries(upto: nat, done: bool)
      reads this`toReceiver, this`completed, receiver
    {
      && Chain(sender.step, source, InFlight(), Upcoming(), upto, done)
      && (done && !completed ==> InFlight() != [] && InFlight()[|InFlight()| - 1].Complete?)
      && if receiver.isOpen then
           && receiver.pos <= |source| && receiver.disk == Some(source[..receiver.pos])
           && (completed ==> receiver.pos == |source|)
         else
           && |toReceiver| > 0 && toReceiver[0] == InitPos(ValidLen(existing, source))
           && receiver.disk == existing && !completed
    }

    /** The packages after FileInitPos, and the position of the first. */
    ghost function InFlight(): seq<Pkg>
      reads this`toReceiver, receiver
    {
      if receiver.isOpen || toReceiver == [] then toReceiver else toReceiver[1..]
    }

    ghost function Upcoming(): nat
      reads receiver
    {
      if receiver.isOpen then receiver.pos else ValidLen(existing, source)
    }

    /** A sender with a source and a receiver with whatever file is at its path; the sender
        has announced the file (osc/OscSession.cpp:406-432). */
    constructor (step: (int, byte) -> int, source: seq<byte>, existing: Option<seq<byte>>)
      requires CrcTells(step, existing, source)
      ensures Valid() && fresh(sender) && fresh(receiver) && this.source == source && this.existing == existing
      ensures stage == Info && !completed
    {
      sender := new ZmodemFile(step, Some(source), |source|);
      receiver := new ZmodemFile(step, existing, 0);
      toReceiver, toSender := [FileInfo(|source|)], [];
      sendData, next, completed, reset := false, false, false, false;
      this.source, this.existing := source, existing;
      stage, completeSent := Info, false;
    }

    /** handleFileInfo (osc/OscSession.cpp:631-671). */
    method HandleFileInfo(size: nat)
      requires Valid() && stage == Info && size == |source|
      modifies this, receiver
      ensures Valid() && stage == Proposed
    {
      toReceiver := toReceiver[1..];
      receiver.fileSize := size;
      var len, crc := receiver.GetExistLen();
      toSender := toSender + [ProposeStart(len, crc)];
      stage := Proposed;
    }

    /** handleFileProposeStart (osc/OscSession.cpp:437-469). */
    method HandleFileProposeStart()
      requires Valid() && stage == Proposed
      modifies this, sender
      ensures Valid() && stage == if ValidLen(existing, source) == |source| then Shortcut else Streaming
      ensures receiver.disk == existing && Work() < old(Work())
    {
      var pkg := toSender[0];
      toSender := [];
      var validLen := sender.ValidateFileCrc(pkg.existPos, pkg.existCrc);
      ValidateFinds(validLen, pkg);
      if validLen == sender.fileSize {
        toReceiver := toReceiver + [Complete(sender.fileSize)];
        stage := Shortcut;
        return;
      }
      sender.SetReadPos(validLen);
      sendData := true;
      toReceiver := toReceiver + [InitPos(sender.pos)];
      stage := Streaming;
    }

    /** The length that the sender accepts is that of the bytes it need not send. */
    lemma ValidateFinds(validLen: nat, pkg: Pkg)
      requires CrcTells(sender.step, existing, source) && pkg.ProposeStart?
      requires existing == None ==> pkg.existPos == 0
      requires existing != None ==> pkg == ProposeStart(|existing.value|, Crc(sender.step, existing.value))
      requires validLen == if pkg.existPos <= |source| && Crc(sender.step, source[..pkg.existPos]) == pkg.existCrc
                           then pkg.existPos else 0
      ensures validLen == ValidLen(existing, source)
    {
      if existing != None && existing.value <= source {
        assert source[..|existing.value|] == existing.value;
      }
    }

    /** handleFileInitPos (osc/OscSession.cpp:677-700). */
    method HandleFileInitPos(offset: nat)
      requires Valid() && stage == Streaming && toReceiver != [] && toReceiver[0] == InitPos(offset)
      modifies this, receiver
      ensures Valid() && stage == Streaming && toReceiver == old(toReceiver)[1..]
      ensures sender.pos == old(sender.pos) && sendData == old(sendData)
      ensures receiver.isOpen && receiver.pos == offset
    {
      toReceiver := toReceiver[1..];
      assert offset > 0 ==> existing.value == source[..offset];
      assert offset == 0 ==> source[..offset] == [];
      receiver.OpenWrite(offset > 0);
      receiver.SetWritePos(offset);
    }

    /** handleFileContent (osc/OscSession.cpp:704-751). */
    method HandleFileContent(offset: nat, crc: int, data: seq<byte>)
      requires Valid() && stage == Streaming && toReceiver != [] && toReceiver[0] == Content(offset, crc, data)
      modifies this, receiver
      ensures Valid() && stage == Streaming && toReceiver == old(toReceiver)[1..]
      ensures sender.pos == old(sender.pos) && sendData == old(sendData)
    {
      toReceiver := toReceiver[1..];
      reset := receiver.pos != offset || Crc(receiver.step, data) != crc;
      if !reset {
        var _ := receiver.Write(data);
      }
      assert source[..offset] + source[offset..offset + |data|] == source[..offset + |data|];
    }

    /** handleFileComplete (osc/OscSession.cpp:755-787). The file is the source, unless the
        source is empty, when nobody looked. */
    method HandleFileComplete(size: nat)
      requires Valid() && toReceiver != [] && toReceiver[0] == Complete(size)
      modifies this
      ensures Valid() && completed && toReceiver == [] && stage == old(stage) && sendData == old(sendData)
      ensures receiver.disk == Some(source) <==> (source != [] || existing == Some([]))
    {
      assert source[..|source|] == source;
      assert existing != None && |existing.value| == |source| && existing.value <= source ==> existing.value == source;
      toReceiver := toReceiver[1..];
      completed := true;
    }

    /** sendPkg, as a package appended to those on their way. */
    method Send(pkg: Pkg, ghost upto: nat, ghost upto': nat, ghost done: bool)
      requires Carries(upto, false) && !completed && (done ==> pkg.Complete?)
      requires Chain(sender.step, source, [pkg], upto, upto', done)
      modifies this`toReceiver
      ensures Carries(upto', done) && toReceiver == old(toReceiver) + [pkg]
    {
      ChainSnoc(sender.step, source, InFlight(), Upcoming(), upto, done, pkg, upto');
      ghost var flight := InFlight();
      toReceiver := toReceiver + [pkg];
      assert InFlight() == flight + [pkg];
    }

    /** A block was read at `offset`, and what was sent before ends there. */
    ghost predicate BlockRead(offset: nat, data: seq<byte>)
      reads this, sender, receiver
    {
      && stage == Streaming && toSender == [] && !reset && !sendData && !next && !completeSent && !completed
      && sender != receiver && sender.step == receiver.step && sender.disk == Some(source)
      && sender.fileSize == receiver.fileSize == |source| && CrcTells(sender.step, existing, source)
      && sender.isOpen && sender.cursor == sender.pos == offset + |data| <= |source| && data == source[offset..sender.pos]
      && ValidLen(existing, source) <= offset && ValidLen(existing, source) < |source|
      && (sender.good ==> |data| > 0 && WholeBlocks(sender.pos - ValidLen(existing, source)))
      && (!sender.good ==> sender.pos == |source|)
      && (!sender.good ==> (WholeBlocks(|source| - ValidLen(existing, source)) <==> data == []))
      && Carries(offset, false)
    }

    /** The package for a block just read, and FileComplete after the last one. */
    method SendBlock(offset: nat, data: seq<byte>)
      requires BlockRead(offset, data) && 0 < |data|
      modifies this
      ensures Valid() && stage == Streaming && |toReceiver| <= |old(toReceiver)| + if sendData then 1 else 2
    {
      hide Chain, Crc, ValidLen, CrcTells, Idle, Carries, WholeBlocks;
      var content := Content(offset, Crc(sender.step, data), data);
      ChainOne(sender.step, source, content, sender.pos);
      Send(content, offset, sender.pos, false);
      if !sender.IsGood() {
        ChainLast(sender.step, source);
        Send(Complete(sender.fileSize), sender.pos, sender.pos, true);
        completeSent := true;
      } else {
        sendData := true;
      }
    }

    /** sendFileContent (osc/OscSession.cpp:497-559), on the queued SEND_DATA_EVT. */
    method SendFileContent()
      requires Valid() && sendData
      modifies this, sender
      ensures Valid() && stage == Streaming && receiver.disk == old(receiver.disk)
      ensures Work() < old(Work())
    {
      assert stage == Streaming;
      hide Chain, Crc, ValidLen, CrcTells, Idle, Carries, WholeBlocks, Blocks;
      if sender.IsGood() {
        var offset, data := ReadBlock();
        if |data| > 0 {
          SendBlock(offset, data);
          return;
        }
      }
      sendData := false;
      next := true;
    }

    method ReadBlock() returns (offset: nat, data: seq<byte>)
      requires Valid() && sendData && stage == Streaming && sender.IsGood()
      modifies this`sendData, sender
      ensures BlockRead(offset, data)
      ensures Blocks(|source| - sender.pos) + (if |data| > 0 then 1 else 0) == Blocks(|source| - old(sender.pos))
    {
      hide Chain, Crc, ValidLen, CrcTells, Idle, Carries, WholeBlocks, Blocks;
      sendData := false;
      offset := sender.pos;
      data := sender.Read(MAX_RAW_CONTENT);
      BlockSize(|source|, ValidLen(existing, source), offset, |data|);
      BlocksSent(|source| - offset, |data|);
    }

    lemma BlocksSent(rest: nat, n: nat)
      requires n <= rest && n <= MAX_RAW_CONTENT && (n < MAX_RAW_CONTENT ==> n == rest)
      ensures n > 0 ==> Blocks(rest - n) + 1 == Blocks(rest)
    {
    }

    /** A bound for the steps that are left. */
    ghost function Work(): (n: nat)
      reads this, sender
      requires sender.pos <= |source| || stage != Streaming
    {
      match stage
      case Info => 3 * Blocks(|source|) + 4
      case Proposed => 3 * Blocks(|source|) + 3
      case Shortcut => |toReceiver|
      case Streaming => 3 * Blocks(|source| - sender.pos) + |toReceiver| + if sendData then 1 else 0
    }

    /** Neither end has anything to do. */
    predicate Quiescent()
      reads this
    {
      toReceiver == [] && toSender == [] && !sendData
    }

    lemma BlockSize(size: nat, start: nat, offset: nat, n: nat)
      requires start <= offset && offset + n <= size && n <= MAX_RAW_CONTENT
      requires n < MAX_RAW_CONTENT ==> offset + n == size
      requires WholeBlocks(offset - start)
      ensures n == MAX_RAW_CONTENT ==> WholeBlocks(offset + n - start)
      ensures n < MAX_RAW_CONTENT ==> (WholeBlocks(size - start) <==> n == 0)
    {
    }

    /** The receiver's next package (osc/OscSession.cpp:137-154). */
    method HandlePkg()
      requires Valid() && toReceiver != []
      modifies this, receiver
      ensures Valid() && Work() < old(Work())
    {
      hide Blocks;
      var pkg := toReceiver[0];
      if pkg.FileInfo? {
        HandleFileInfo(pkg.size);
      } else if pkg.InitPos? {
        HandleFileInitPos(pkg.offset);
      } else if pkg.Content? {
        HandleFileContent(pkg.offset, pkg.crc, pkg.data);
      } else {
        HandleFileComplete(pkg.size);
      }
    }

    /** There is nothing to do for this pick. */
    predicate Nothing(pick: Pick)
      reads this
    {
      match pick
      case ToReceiver => toReceiver == []
      case ToSender => toSender == []
      case SendData => !sendData
    }

    /** One pick of a schedule; it does nothing if there is nothing to do. */
    method Step(pick: Pick) returns (acted: bool)
      requires Valid()
      modifies this, sender, receiver
      ensures Valid()
      ensures if acted then Work() < old(Work())
              else Work() == old(Work()) && toReceiver == old(toReceiver) && toSender == old(toSender) && sendData == old(sendData)
      ensures !acted ==> Nothing(pick)
    {
      hide Chain, Crc, CrcTells, ValidLen, Blocks;
      acted := false;
      match pick {
        case ToReceiver => if toReceiver != [] { HandlePkg(); acted := true; }
        case ToSender => if toSender != [] { HandleFileProposeStart(); acted := true; }
        case SendData => if sendData { SendFileContent(); acted := true; }
      }
    }

    /** Every order of the two ends' steps: once its file is open, the receiver holds exactly
        the source's bytes up to its position, nothing is refused, and when it has handled
        FileComplete for a source that is not empty, its file is the source. The number of
        steps taken is bounded, and when neither end has anything left to do, the outcome is
        that of `Ended`. */
    method Run(schedule: seq<Pick>) returns (acted: nat)
      requires Valid()
      modifies this, sender, receiver
      ensures Valid() && !reset && acted + Work() <= old(Work())
      ensures receiver.isOpen ==> receiver.pos <= |source| && receiver.disk == Some(source[..receiver.pos])
      ensures completed && source != [] ==> receiver.disk == Some(source)
      ensures Quiescent() ==> Ended() && Work() == 0
      ensures acted == 0 ==> Work() == old(Work()) && forall pick :: pick in schedule ==> Nothing(pick)
    {
      hide Chain, Crc, CrcTells, ValidLen, Blocks;
      acted := 0;
      for i := 0 to |schedule|
        invariant Valid() && acted + Work() <= old(Work()) && (acted == 0 ==> Work() == old(Work()))
        invariant acted == 0 ==> forall pick :: pick in schedule[..i] ==> Nothing(pick)
      {
        assert schedule[..i + 1] == schedule[..i] + [schedule[i]];
        var did := Step(schedule[i]);
        if did { acted := acted + 1; }
      }
      assert schedule[..|schedule|] == schedule;
      if completed && source != [] { CompletedIsSource(); }
      if Quiescent() { EndIsSource(); }
    }

    /** How a transfer ends. A source that is not empty is at the receiver in full, whatever
        file was there before; of an empty one the receiver is told, but its file stays as it
        was. FileComplete was handled exactly when the bytes to send were none or did not
        fill their last block. */
    ghost predicate Ended()
      reads this, sender, receiver
    {
      var rest := |source| - ValidLen(existing, source);
      && (source != [] ==> receiver.disk == Some(source))
      && (source == [] ==> completed && receiver.disk == existing)
      && (completed <==> rest == 0 || !WholeBlocks(rest))
      && (next <==> rest > 0 && WholeBlocks(rest))
    }

    /** Every fair order of steps: rounds in which each of the three has its turn, in any
        order and as often as one likes, lead to the end. */
    method RunToEnd(rounds: seq<seq<Pick>>)
      requires Valid() && forall i :: 0 <= i < |rounds| ==> ToReceiver in rounds[i] && ToSender in rounds[i] && SendData in rounds[i]
      modifies this, sender, receiver
      ensures Valid() && !reset
      ensures |rounds| > old(Work()) ==> Quiescent() && Ended()
    {
      hide Chain, Crc, CrcTells, ValidLen, Blocks, Ended;
      for i := 0 to |rounds|
        invariant Valid() && !reset && Work() <= old(Work())
        invariant i + Work() <= old(Work()) || (Quiescent() && Ended() && Work() == 0)
      {
        var acted := Run(rounds[i]);
      }
    }

    lemma EndIsSource()
      requires Valid() && Quiescent()
      ensures Ended() && Work() == 0
    {
      hide Crc, CrcTells;
      assert source[..|source|] == source;
      assert existing != None && |existing.value| == |source| && existing.value <= source ==> existing.value == source;
    }

    lemma CompletedIsSource()
      requires Valid() && completed && source != []
      ensures receiver.disk == Some(source)
    {
      assert source[..|source|] == source;
      assert existing != None && |existing.value| == |source| && existing.value <= source ==> existing.value == source;
    }
  }

  /** Rounds of one turn each. */
  function Rounds(n: nat): (rounds: seq<seq<Pick>>)
    ensures |rounds| == n
  {
    seq(n, _ => [ToReceiver, ToSender, SendData])
  }

  /** An empty source is reported complete, but no file is made for it. */
  method EmptySourceExample(step: (int, byte) -> int) returns (t: Transfer)
    ensures t.completed && t.receiver.disk == None
  {
    t := new Transfer(step, [], None);
    t.RunToEnd(Rounds(3 * Blocks(0) + 5));
  }

  /** A new file that fills its last block arrives, but FileComplete is never sent. */
  method WholeBlocksExample(step: (int, byte) -> int, source: seq<byte>) returns (t: Transfer)
    requires source != [] && WholeBlocks(|source|)
    ensures !t.completed && t.next && t.receiver.disk == Some(source)
  {
    t := new Transfer(step, source, None);
    t.RunToEnd(Rounds(3 * Blocks(|source|) + 5));
  }
}
