/** The two rings of the UART driver. */
module Uart {
  import opened Common
  import opened R = Ring
  import opened Arithmetic
  import S = TxStream

  /** The `n` cells from `rd` on hold `data`, the front of `bytes`. */
  predicate Covers(cells: seq<u8>, rd: nat, n: nat, bytes: seq<u8>, data: seq<u8>) {
    rd + n <= |cells| && n <= |bytes| && cells[rd..rd + n] == data == bytes[..n]
  }

  lemma CoversMeans(cells: seq<u8>, rd: nat, n: nat, bytes: seq<u8>, data: seq<u8>)
    requires Covers(cells, rd, n, bytes, data)
    ensures rd + n <= |cells| && n <= |bytes| && cells[rd..rd + n] == data == bytes[..n]
  {
  }

  lemma CoversAfterPut(cells: seq<u8>, rd: nat, n: nat, bytes: seq<u8>, data: seq<u8>, w: nat, b: u8)
    requires Covers(cells, rd, n, bytes, data) && w < |cells| && (w < rd || rd + n <= w)
    ensures Covers(cells[w := b], rd, n, bytes + [b], data)
  {
  }

  lemma CoversAtStart(cells: seq<u8>, rd: nat, n: nat, bytes: seq<u8>)
    requires rd < |cells| && |bytes| <= |cells| && Contents(cells, rd, |bytes|) == bytes
    requires rd + n <= |cells| && n <= |bytes|
    ensures Covers(cells, rd, n, bytes, bytes[..n])
  {
    FrontPiece(cells, rd, |bytes|, n);
  }

  /** The transmit side; pointers are indices into `TXBuf`, and the DMA stream is its programmed piece. */
  class TxRing {
    const TXBuf: array<u8>
    var PRead: nat
    var PWrite: nat
    var IDmaIsIdle: bool
    var IFullSlotsCount: nat
    var ITransSize: nat
    var dmaMemory: nat
    var dmaSize: nat

    ghost var st: S.State
    ghost var cells: seq<u8>       // the buffer's contents
    ghost var flightData: seq<u8>  // the cells of the transaction as they were when it started

    /** The cells between the two pointers hold `bytes`. */
    ghost predicate Cells(bytes: seq<u8>)
      reads this`PRead, this`PWrite, this`cells, TXBuf
    {
      && PRead < TXBuf.Length && |bytes| <= TXBuf.Length
      && PWrite == Wrap(PRead + |bytes|, TXBuf.Length)
      && TXBuf[..] == cells && Contents(cells, PRead, |bytes|) == bytes
    }

    /** The ring holds the buffered bytes. */
    ghost predicate Buffered()
      reads this, TXBuf
    {
      Cells(st.bytes) && st.size == TXBuf.Length && PRead == st.rd && IFullSlotsCount == |st.bytes|
    }

    /** The programmed transaction covers the front of the ring, unchanged since it started. */
    ghost predicate InFlight()
      reads this, TXBuf
    {
      dmaMemory == PRead && dmaSize == ITransSize && Covers(cells, PRead, ITransSize, st.bytes, flightData)
    }

    ghost predicate Valid()
      reads this, TXBuf
    {
      && Buffered() && S.Inv(st)
      && IDmaIsIdle == st.idle && ITransSize == st.flight
      && (!IDmaIsIdle ==> InFlight())
    }

    constructor (size: nat)
      requires size >= 1
      ensures Valid() && fresh(TXBuf) && st == S.Init(size)
    {
      TXBuf := new u8[size](_ => 0);
      PRead, PWrite, IDmaIsIdle, IFullSlotsCount, ITransSize := 0, 0, true, 0, 0;
      dmaMemory, dmaSize := 0, 0;
      st := S.Init(size);
      new;
      cells := TXBuf[..];
    }

    /** `*PWrite++ = b`, with the wrap. */
    method WriteCell(b: u8, ghost bytes: seq<u8>)
      requires Cells(bytes) && |bytes| < TXBuf.Length
      modifies this`PWrite, this`cells, TXBuf
      ensures Cells(bytes + [b]) && cells == old(cells)[old(PWrite) := b]
    {
      hide Contents;
      PutOne(cells, PRead, |bytes|, b);
      TXBuf[PWrite] := b;
      cells := cells[PWrite := b];
      PWrite := PWrite + 1;
      if PWrite >= TXBuf.Length {
        PWrite := 0;
      }
    }

    /** `PRead += n` at the end of a transaction of `n` cells, with the wrap. */
    method SkipCells(n: nat, ghost bytes: seq<u8>)
      requires Cells(bytes) && n <= |bytes| && PRead + n <= TXBuf.Length
      modifies this`PRead
      ensures Cells(bytes[n..]) && PRead == Wrap(old(PRead) + n, TXBuf.Length)
    {
      hide Contents;
      DropFront(cells, PRead, |bytes|, n);
      PRead := PRead + n;
      if PRead >= TXBuf.Length {
        PRead := 0;
      }
    }

    /** `IPutByte`: false for an overflow. */
    method IPutByte(b: u8) returns (ok: bool)
      requires Valid()
      modifies this, TXBuf
      ensures Valid() && st == S.Step(old(st), S.Put(b))
      ensures ok <==> |old(st).bytes| < old(st).size
      ensures st == if ok then old(st).(bytes := old(st).bytes + [b], accepted := old(st).accepted + [b]) else old(st)
      ensures IDmaIsIdle == old(IDmaIsIdle) && ITransSize == old(ITransSize)
      ensures !IDmaIsIdle ==> flightData == old(flightData)
    {
      hide Contents, S.Inv, S.Step, Covers;
      if IFullSlotsCount >= TXBuf.Length {
        S.StepWhenFull(st, b);
        return false;
      }
      S.StepKeepsInv(st, S.Put(b));
      S.StepOnPut(st, b);
      if !IDmaIsIdle {
        S.PutMissesFlight(st);
        CoversAfterPut(cells, PRead, ITransSize, st.bytes, flightData, PWrite, b);
      }
      WriteCell(b, st.bytes);
      IFullSlotsCount := IFullSlotsCount + 1;
      st := S.Step(st, S.Put(b));
      return true;
    }

    /** The front piece of the buffered bytes lies in one piece in the ring. */
    lemma PieceCovers()
      requires Buffered()
      ensures PRead < TXBuf.Length && |st.bytes| <= TXBuf.Length && S.Piece(st) <= |st.bytes|
      ensures Covers(cells, PRead, S.Piece(st), st.bytes, st.bytes[..S.Piece(st)])
    {
      hide Contents, Covers;
      CoversAtStart(cells, PRead, S.Piece(st), st.bytes);
    }

    /** The programmed piece is all that is buffered, or all of it up to the end of the buffer. */
    ghost predicate AsMuchAsFits()
      reads this, TXBuf
    {
      && dmaMemory == PRead && dmaSize == ITransSize
      && (ITransSize == |st.bytes| || PRead + ITransSize == TXBuf.Length)
    }

    /** `ISendViaDMA`, with nothing in flight. */
    method ISendViaDMA()
      requires Buffered()
      modifies this`ITransSize, this`IDmaIsIdle, this`dmaMemory, this`dmaSize, this`flightData, this`st
      ensures Buffered() && st == S.Send(old(st)).(idle := st.idle)
      ensures ITransSize == st.flight && IDmaIsIdle == (old(IDmaIsIdle) && st.bytes == [])
      ensures st.idle == old(st.idle) && (st.bytes != [] ==> InFlight() && AsMuchAsFits())
    {
      hide Cells, Covers, S.Inv;
      PieceCovers();
      var partSz := TXBuf.Length - PRead;
      ITransSize := if IFullSlotsCount < partSz then IFullSlotsCount else partSz;
      if ITransSize != 0 {
        IDmaIsIdle := false;
        dmaMemory := PRead;
        dmaSize := ITransSize;
        flightData := st.bytes[..ITransSize];
      }
      st := st.(flight := S.Piece(st));
    }

    /** `IStartTransmissionIfNotYet`. */
    method IStartTransmissionIfNotYet()
      requires Valid()
      modifies this
      ensures Valid() && st == S.Step(old(st), S.Start)
      ensures st.bytes == old(st).bytes && st.accepted == old(st).accepted && st.sent == old(st).sent
      ensures IDmaIsIdle ==> st.bytes == []
      ensures !IDmaIsIdle && old(IDmaIsIdle) ==> AsMuchAsFits()
      ensures !old(IDmaIsIdle) ==> !IDmaIsIdle && ITransSize == old(ITransSize) && dmaMemory == old(dmaMemory)
    {
      hide Contents, Covers;
      S.StepKeepsInv(st, S.Start);
      ghost var next := S.Step(st, S.Start);
      if IDmaIsIdle {
        ISendViaDMA();
      }
      st := next;
    }

    /** The transaction in flight is taken off the ring. */
    method TakeOff()
      requires Valid() && !IDmaIsIdle
      modifies this`IFullSlotsCount, this`PRead, this`st
      ensures Buffered() && st == S.Transmitted(old(st))
    {
      hide Contents, S.Inv, Covers;
      S.ActiveCanComplete(st);
      IFullSlotsCount := IFullSlotsCount - ITransSize;
      SkipCells(ITransSize, st.bytes);
      st := S.Transmitted(st);
    }

    /**
     `IRQDmaTxHandler`: the transaction is over.  `out` is what the DMA read from the memory it was
     programmed with.
     */
    method IRQDmaTxHandler() returns (out: seq<u8>)
      requires Valid() && !IDmaIsIdle
      modifies this
      ensures Valid() && st == S.Step(old(st), S.Complete)
      ensures out == old(flightData) == old(st).bytes[..old(st).flight]
      ensures st.bytes == old(st).bytes[|out|..] && st.sent == old(st).sent + out && st.accepted == old(st).accepted
      ensures IDmaIsIdle <==> st.bytes == []
      ensures !IDmaIsIdle ==> AsMuchAsFits()
    {
      hide Contents, S.Inv, S.Step, Covers;
      S.ActiveCanComplete(st);
      CoversMeans(cells, PRead, ITransSize, st.bytes, flightData);
      S.StepKeepsInv(st, S.Complete);
      S.StepOnComplete(st);
      out := TXBuf[..][dmaMemory..dmaMemory + dmaSize];
      ghost var next := S.Step(st, S.Complete);
      TakeOff();
      if IFullSlotsCount == 0 {
        IDmaIsIdle := true;
      } else {
        ISendViaDMA();
      }
      st := next;
    }
  }

  /** Every cell holds the latest byte that was stored in it. */
  predicate Latest(cells: seq<u8>, received: seq<u8>) {
    cells != [] && forall j | 0 <= j < |received| && |received| - |cells| <= j :: cells[Rem(j, |cells|)] == received[j]
  }

  /** Fewer than `size` apart, two stored bytes lie in different cells. */
  lemma CellsApart(j: nat, k: nat, size: nat)
    requires 0 < k < size
    ensures Rem(j + k, size) != Rem(j, size)
  {
    hide Rem;
    StepsAround(j, k, size);
  }

  lemma LatestAfterStore(cells: seq<u8>, received: seq<u8>, b: u8)
    requires Latest(cells, received)
    ensures Rem(|received|, |cells|) < |cells|
    ensures Latest(cells[Rem(|received|, |cells|) := b], received + [b])
  {
    hide Rem;
    var n, size := |received|, |cells|;
    DivRem(n, size);
    var cells', received' := cells[Rem(n, size) := b], received + [b];
    forall j | 0 <= j < n + 1 && n + 1 - size <= j
      ensures Rem(j, size) < size && cells'[Rem(j, size)] == received'[j]
    {
      DivRem(j, size);
      if j < n {
        CellsApart(j, n - j, size);
      }
    }
  }

  /** The difference of the two indices, brought into range: the number of unread bytes modulo the size. */
  lemma IndexDifference(received: nat, read: nat, size: nat)
    requires size >= 1 && read <= received
    ensures var d := Rem(received, size) - Rem(read, size);
            (if d < 0 then d + size else d) == Rem(received - read, size)
    ensures Rem(received - read, size) == received - read <==> received - read < size
  {
    hide Div, Rem;
    var unread := received - read;
    DivRem(unread, size);
    var q, r := Div(unread, size), Rem(unread, size);
    AddMultiple(read + r, q, size);
    StepsAround(read, r, size);
    if unread < size {
      RemOfSmall(unread, size);
    }
  }

  /** What lies at the read index: the byte as many whole turns on as the writer is ahead. */
  lemma AtReadIndex(cells: seq<u8>, received: seq<u8>, read: nat)
    requires Latest(cells, received) && read <= |received| && Rem(|received| - read, |cells|) > 0
    ensures var at := Reached(|received|, read, |cells|);
            at < |received| && Rem(read, |cells|) < |cells| && cells[Rem(read, |cells|)] == received[at]
    ensures |received| - read < |cells| ==> Reached(|received|, read, |cells|) == read
  {
    hide Div, Rem;
    var unread, size := |received| - read, |cells|;
    DivRem(unread, size);
    DivRem(read, size);
    AddMultiple(read, Div(unread, size), size);
    assert cells[Rem(Reached(|received|, read, size), size)] == received[Reached(|received|, read, size)];
    if unread < size {
      RemOfSmall(unread, size);
    }
  }

  /** The position in the stream that a reader gets to who has read `read` bytes of `received`. */
  function Reached(received: nat, read: nat, size: nat): nat
    requires size >= 1 && read <= received
  {
    read + Div(received - read, size) * size
  }

  /**
   The receive side: the DMA fills `IRxBuf` in circles and counts `CNDTR` down from its size, whether or
   not anybody reads.
   */
  class RxRing {
    const IRxBuf: array<u8>
    var RIndx: nat
    var CNDTR: nat

    ghost var received: seq<u8>
    ghost var read: seq<u8>

    /** The two indices are the numbers of bytes read and received, as far as the size shows them. */
    ghost predicate Indices()
      reads this
    {
      && 1 <= CNDTR <= IRxBuf.Length && |read| <= |received|
      && RIndx == Rem(|read|, IRxBuf.Length)
      && IRxBuf.Length - CNDTR == Rem(|received|, IRxBuf.Length)
    }

    ghost predicate Valid()
      reads this, IRxBuf
    {
      Indices() && Latest(IRxBuf[..], received)
    }

    /** How many bytes were received and not read. */
    ghost function Unread(): nat
      reads this
      requires |read| <= |received|
    {
      |received| - |read|
    }

    /** What was read is what was received: nothing was lost or repeated yet. */
    ghost predicate InStep()
      reads this
    {
      read <= received
    }

    constructor (size: nat)
      requires size >= 1
      ensures Valid() && InStep() && fresh(IRxBuf) && IRxBuf.Length == size && received == read == []
    {
      IRxBuf := new u8[size](_ => 0);
      RIndx, CNDTR := 0, size;
      received, read := [], [];
      RemOfSmall(0, size);
    }

    /** The DMA stores a byte. */
    method DmaReceive(b: u8)
      requires Valid()
      modifies this`CNDTR, this`received, IRxBuf
      ensures Valid() && received == old(received) + [b]
      ensures old(InStep()) ==> InStep()
    {
      hide Rem;
      ghost var cells, w := IRxBuf[..], IRxBuf.Length - CNDTR;
      LatestAfterStore(cells, received, b);
      StepsAround(|received|, 1, IRxBuf.Length);
      IRxBuf[IRxBuf.Length - CNDTR] := b;
      assert IRxBuf[..] == cells[w := b];
      CNDTR := CNDTR - 1;
      if CNDTR == 0 {
        CNDTR := IRxBuf.Length;
      }
      received := received + [b];
    }

    /** `GetRcvdBytesCnt`: right exactly while fewer bytes are unread than there are cells. */
    function GetRcvdBytesCnt(): (count: int)
      requires Indices()
      reads this
      ensures count == Rem(Unread(), IRxBuf.Length)
      ensures count == Unread() <==> Unread() < IRxBuf.Length
    {
      IndexDifference(|received|, |read|, IRxBuf.Length);
      var WIndx: int := IRxBuf.Length - CNDTR;
      var Rslt := WIndx - RIndx;
      if Rslt < 0 then Rslt + IRxBuf.Length else Rslt
    }

    /**
     `GetByte`: `None` for `retvEmpty`.  Whatever was overrun, the byte is known: the next one of the
     stream while fewer bytes are unread than there are cells, else one some whole turns later.
     */
    method GetByte() returns (b: Option<u8>)
      requires Valid()
      modifies this`RIndx, this`read
      ensures Valid()
      ensures b.None? <==> Rem(old(Unread()), IRxBuf.Length) == 0
      ensures b.None? ==> read == old(read)
      ensures b.Some? ==>
                var at := Reached(|received|, |old(read)|, IRxBuf.Length);
                at < |received| && b.value == received[at] && read == old(read) + [b.value]
      ensures old(Unread()) < IRxBuf.Length ==>
                && (b.None? <==> |old(read)| == |received|)
                && (b.Some? ==> |old(read)| < |received| && b.value == received[|old(read)|])
                && (old(InStep()) ==> InStep())
    {
      hide Rem, Reached, Latest;
      if GetRcvdBytesCnt() == 0 {
        return None;
      }
      AtReadIndex(IRxBuf[..], received, |read|);
      StepsAround(|read|, 1, IRxBuf.Length);
      EmptyShowsNothing(IRxBuf.Length);
      var c := IRxBuf[..][RIndx];
      RIndx := RIndx + 1;
      if RIndx >= IRxBuf.Length {
        RIndx := 0;
      }
      read := read + [c];
      return Some(c);
    }
  }

  lemma EmptyShowsNothing(size: nat)
    requires size >= 1
    ensures Rem(0, size) == 0
  {
    RemOfSmall(0, size);
  }
}
