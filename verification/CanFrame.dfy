/** CAN frames: which ones a send accepts, and how a frame reaches a slot of the transmit buffer. */
module CanFrame {
  import opened Words

  const CAN_MAX_DLC: nat := 8
  const CANFD_MAX_DLC: nat := 15
  const PAYLOAD: nat := 64

  datatype Frame = Frame(
    id: u32,
    dlc: nat,
    fdf: bool,
    brs: bool,
    esi: bool,
    rtr: bool,
    ide: bool,
    data: seq<byte>)

  /** What the controller sends for a frame. */
  datatype Wire = Wire(header: Header, payload: seq<byte>)

  /** The first two words of a transmit buffer slot. */
  datatype Header = Header(id: u32, dlc: nat, brs: bool, rtr: bool, fdf: bool, ide: bool)

  function DlcToBytes(dlc: nat): (n: nat)
    ensures n <= PAYLOAD
  {
    if dlc <= 8 then dlc
    else if dlc <= 12 then 12 + 4 * (dlc - 9)
    else if dlc == 13 then 32
    else if dlc == 14 then 48
    else 64
  }

  function HeaderOf(f: Frame): Header {
    Header(f.id, f.dlc, f.brs, f.rtr, f.fdf, f.ide)
  }

  function OnWire(f: Frame): Wire
    requires |f.data| == PAYLOAD
  {
    Wire(HeaderOf(f), f.data[..DlcToBytes(f.dlc)])
  }

  /** A message as an application receives it; the data are the bytes its DLC stands for. */
  datatype Message = Message(id: u32, dlc: nat, fdf: bool, rtr: bool, ide: bool, brs: bool, data: seq<byte>)

  /** What arrives of a frame that is sent; ESI is set by the controller. */
  function MessageOf(f: Frame): Message
    requires |f.data| == PAYLOAD
  {
    Message(f.id, f.dlc, f.fdf, f.rtr, f.ide, f.brs, f.data[..DlcToBytes(f.dlc)])
  }

  /** Whether a received header and its data are this message. */
  predicate Arrives(w: Wire, m: Message) {
    && m.id == w.header.id && m.dlc == w.header.dlc
    && (m.fdf <==> w.header.fdf) && (m.rtr <==> w.header.rtr) && (m.ide <==> w.header.ide) && (m.brs <==> w.header.brs)
    && m.data == w.payload
  }

  /** The lengths a DLC stands for, as numbers. */
  lemma DlcLengths(dlc: nat)
    ensures dlc <= 8 ==> DlcToBytes(dlc) == dlc
    ensures DlcToBytes(9) == 12 && DlcToBytes(10) == 16 && DlcToBytes(11) == 20 && DlcToBytes(12) == 24
    ensures DlcToBytes(13) == 32 && DlcToBytes(14) == 48 && DlcToBytes(15) == 64
    ensures dlc > 15 ==> DlcToBytes(dlc) == 64
  {
  }

  /** What the controller sends for a frame arrives as that frame, and as no other message. */
  lemma WireDeterminesFrame(f: Frame, m: Message)
    requires |f.data| == PAYLOAD
    ensures Arrives(OnWire(f), m) <==> m == MessageOf(f)
    ensures |MessageOf(f).data| == DlcToBytes(f.dlc)
  {
  }

  /** The part of `hpm_can_get_message` that reads a frame back; the flags are set one by one. */
  method ReadMessage(w: Wire) returns (m: Message)
    requires DlcToBytes(w.header.dlc) == |w.payload|
    ensures Arrives(w, m)
  {
    m := Message(w.header.id, 0, false, false, false, false, []);
    if w.header.fdf {
      m := m.(fdf := true);
    }
    if w.header.rtr {
      m := m.(rtr := true);
    }
    if w.header.ide {
      m := m.(ide := true);
    }
    if w.header.brs {
      m := m.(brs := true);
    }
    m := m.(dlc := w.header.dlc);
    var data: seq<byte> := [];
    for i := 0 to DlcToBytes(m.dlc)
      invariant data == w.payload[..i]
    {
      data := data + [w.payload[i]];
    }
    m := m.(data := data);
  }

  /** The check of a frame of a batch. */
  function BatchCheck(fd: bool, f: Frame): Errno {
    if fd then
      if f.esi && !f.fdf then ENOTSUP
      else if f.rtr then ENOTSUP
      else if f.dlc > CANFD_MAX_DLC then EINVAL
      else Success
    else
      if f.fdf || f.brs || f.esi then ENOTSUP
      else if f.dlc > CAN_MAX_DLC then EINVAL
      else Success
  }

  /** The check of a single send; its condition on ESI looks at BRS. */
  function SendCheck(fd: bool, f: Frame): Errno {
    if fd then
      if f.esi && !f.brs then ENOTSUP
      else if f.rtr then ENOTSUP
      else if f.dlc > CANFD_MAX_DLC then EINVAL
      else Success
    else
      if f.fdf || f.brs || f.esi then ENOTSUP
      else if f.dlc > CAN_MAX_DLC then EINVAL
      else Success
  }

  /** Single sends and batches take the same frames, except FD frames whose ESI comes with only one of BRS and FDF. */
  lemma ChecksAgreeIff(fd: bool, f: Frame)
    ensures SendCheck(fd, f) == BatchCheck(fd, f) <==> !(fd && f.esi && f.brs != f.fdf && !f.rtr)
  {
  }

  /** A frame's flags and DLC fit the controller's mode, but for ESI. */
  predicate FitsMode(fd: bool, f: Frame) {
    if fd then !f.rtr && f.dlc <= 15 else !f.fdf && !f.brs && !f.esi && f.dlc <= 8
  }

  /** Exactly which frames pass, and which error the others get: flags come before the DLC. */
  lemma ChecksMeaning(fd: bool, f: Frame)
    ensures BatchCheck(fd, f) == Success <==> FitsMode(fd, f) && (f.esi ==> f.fdf)
    ensures SendCheck(fd, f) == Success <==> FitsMode(fd, f) && (f.esi ==> f.brs)
    ensures var flags := if fd then f.rtr || (f.esi && !f.fdf) else f.fdf || f.brs || f.esi;
            BatchCheck(fd, f) == if flags then ENOTSUP else if f.dlc > (if fd then 15 else 8) then EINVAL else Success
    ensures var flags := if fd then f.rtr || (f.esi && !f.brs) else f.fdf || f.brs || f.esi;
            SendCheck(fd, f) == if flags then ENOTSUP else if f.dlc > (if fd then 15 else 8) then EINVAL else Success
  {
  }

  /** A slot of the transmit buffer, or the driver's local copy of one. */
  class TxSlot {
    var header: Header
    const payload: array<byte>

    ghost predicate Valid() {
      payload.Length == PAYLOAD
    }

    ghost function Contents(): Wire
      requires Valid()
      reads this, payload
    {
      Wire(header, payload[..DlcToBytes(header.dlc)])
    }

    constructor ()
      ensures Valid() && fresh(payload)
    {
      header := Header(0, 0, false, false, false, false);
      payload := new byte[PAYLOAD];
    }

    /** Fill the local copy from a frame. */
    method Convert(f: Frame)
      requires Valid() && |f.data| == PAYLOAD
      modifies this, payload
      ensures Contents() == OnWire(f)
    {
      header := HeaderOf(f);
      var n := DlcToBytes(header.dlc);
      for i := 0 to n
        invariant header == HeaderOf(f)
        invariant payload[..i] == f.data[..i]
      {
        payload[i] := f.data[i];
      }
    }

    method CopyWord(message: TxSlot, at: nat)
      requires Valid() && message.Valid() && payload != message.payload && at + 4 <= PAYLOAD
      modifies payload
      ensures payload[..at] == old(payload[..at]) && payload[at + 4..] == old(payload[at + 4..])
      ensures payload[at..at + 4] == message.payload[at..at + 4]
    {
      payload[at], payload[at + 1], payload[at + 2], payload[at + 3] :=
        message.payload[at], message.payload[at + 1], message.payload[at + 2], message.payload[at + 3];
    }

    /** Copy a message to the hardware, whole words at a time: the words cover every payload byte. */
    method FillFrom(message: TxSlot)
      requires Valid() && message.Valid() && payload != message.payload
      modifies this, payload
      ensures Contents() == message.Contents()
      ensures payload[(DlcToBytes(header.dlc) + 3) / 4 * 4..] == old(payload[(DlcToBytes(message.header.dlc) + 3) / 4 * 4..])
    {
      header := message.header;
      var words := (DlcToBytes(message.header.dlc) + 3) / 4;
      for i := 0 to words
        invariant header == message.header
        invariant payload[..4 * i] == message.payload[..4 * i]
        invariant payload[4 * i..] == old(payload[4 * i..])
      {
        CopyWord(message, 4 * i);
      }
      var n := DlcToBytes(header.dlc);
      assert payload[..n] == payload[..4 * words][..n];
      assert message.payload[..n] == message.payload[..4 * words][..n];
    }
  }
}
