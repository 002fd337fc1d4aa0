/** wifi-mac-header.cc: the fields of a MAC header and the 16-bit words they are packed into. The
    Frame Control word departs from section 8.2.4.1 of IEEE Std 802.11-2012: type and subtype start
    one bit lower, which leaves five bits for the subtype. */
module FrameFields {
  import opened MacAddress

  const TYPE_MGT: bv8 := 0
  const TYPE_CTL: bv8 := 1
  const TYPE_DATA: bv8 := 2

  const SUBTYPE_CTL_CTLWRAPPER: bv8 := 7
  const SUBTYPE_CTL_BACKREQ: bv8 := 8
  const SUBTYPE_CTL_BACKRESP: bv8 := 9
  const SUBTYPE_CTL_RTS: bv8 := 11
  const SUBTYPE_CTL_CTS: bv8 := 12
  const SUBTYPE_CTL_ACK: bv8 := 13

  // The one-bit flags and the numbers of the Frame Control word.
  datatype Control = Control(ctrlType: bv8, ctrlSubtype: bv8, toDs: bv8, fromDs: bv8, moreFrag: bv8, retry: bv8,
                             moreData: bv8, wep: bv8, order: bv8)
  {
    // Every field fits its place in the word.
    predicate InWidth() {
      && ctrlType < 4 && ctrlSubtype < 32 && toDs < 2 && fromDs < 2 && moreFrag < 2 && retry < 2
      && moreData < 2 && wep < 2 && order < 2
    }
  }

  datatype Sequence = Sequence(frag: bv8, number: bv16)
  {
    predicate InWidth() { frag < 16 && number < 0x1000 }
  }

  datatype Qos = Qos(tid: bv8, eosp: bv8, ackPolicy: bv8, amsduPresent: bv8, stuff: bv16)
  {
    predicate InWidth() { tid < 16 && eosp < 2 && ackPolicy < 4 && amsduPresent < 2 && stuff < 0x100 }
  }

  // GetFrameControl
  function FrameControl(c: Control): (val: bv16)
    ensures c.InWidth() ==> ControlOf(val) == c
  {
    ((c.ctrlType as bv16 << 1) & (0x3 << 1)) | ((c.ctrlSubtype as bv16 << 3) & (0x1f << 3))
    | ((c.toDs as bv16 << 8) & (0x1 << 8)) | ((c.fromDs as bv16 << 9) & (0x1 << 9))
    | ((c.moreFrag as bv16 << 10) & (0x1 << 10)) | ((c.retry as bv16 << 11) & (0x1 << 11))
    | ((c.moreData as bv16 << 13) & (0x1 << 13)) | ((c.wep as bv16 << 14) & (0x1 << 14))
    | ((c.order as bv16 << 15) & (0x1 << 15))
  }

  // SetFrameControl
  function ControlOf(ctrl: bv16): (c: Control)
    ensures c.InWidth()
  {
    Control(((ctrl >> 1) & 0x03) as bv8, ((ctrl >> 3) & 0x1f) as bv8, ((ctrl >> 8) & 0x01) as bv8, ((ctrl >> 9) & 0x01) as bv8,
            ((ctrl >> 10) & 0x01) as bv8, ((ctrl >> 11) & 0x01) as bv8, ((ctrl >> 13) & 0x01) as bv8,
            ((ctrl >> 14) & 0x01) as bv8, ((ctrl >> 15) & 0x01) as bv8)
  }

  // GetSequenceControl and SetSequenceControl
  function SequenceControl(s: Sequence): (val: bv16)
    ensures s.InWidth() ==> SequenceOf(val) == s
  {
    (s.number << 4) | s.frag as bv16
  }

  function SequenceOf(seq': bv16): (s: Sequence)
    ensures s.InWidth()
  {
    Sequence((seq' & 0x0f) as bv8, (seq' >> 4) & 0x0fff)
  }

  // GetQosControl and SetQosControl
  function QosControl(q: Qos): (val: bv16)
    ensures q.InWidth() ==> QosOf(val) == q
  {
    q.tid as bv16 | (q.eosp as bv16 << 4) | (q.ackPolicy as bv16 << 5) | (q.amsduPresent as bv16 << 7) | (q.stuff << 8)
  }

  function QosOf(qos: bv16): (q: Qos)
    ensures q.InWidth()
  {
    Qos((qos & 0x000f) as bv8, ((qos >> 4) & 0x0001) as bv8, ((qos >> 5) & 0x0003) as bv8, ((qos >> 7) & 0x0001) as bv8,
        (qos >> 8) & 0x00ff)
  }

  // Where each field is in its word. Bits 0 and 12 of the Frame Control word stay clear.
  lemma ControlPlaces(c: Control)
    requires c.InWidth()
    ensures var val := FrameControl(c);
      && val & 0x0006 == c.ctrlType as bv16 << 1 && val & 0x00F8 == c.ctrlSubtype as bv16 << 3
      && (val & 0x0100 == 0 <==> c.toDs == 0) && (val & 0x0200 == 0 <==> c.fromDs == 0)
      && (val & 0x0400 == 0 <==> c.moreFrag == 0) && (val & 0x0800 == 0 <==> c.retry == 0)
      && (val & 0x2000 == 0 <==> c.moreData == 0) && (val & 0x4000 == 0 <==> c.wep == 0)
      && (val & 0x8000 == 0 <==> c.order == 0) && val & 0x1001 == 0
  {
  }

  lemma SequencePlaces(s: Sequence)
    requires s.InWidth()
    ensures var val := SequenceControl(s); val & 0x000F == s.frag as bv16 && val & 0xFFF0 == s.number << 4
  {
  }

  lemma QosPlaces(q: Qos)
    requires q.InWidth()
    ensures var val := QosControl(q);
      && val & 0x000F == q.tid as bv16 && (val & 0x0010 == 0 <==> q.eosp == 0) && val & 0x0060 == q.ackPolicy as bv16 << 5
      && (val & 0x0080 == 0 <==> q.amsduPresent == 0) && val & 0xFF00 == q.stuff << 8
  {
  }

  // The low byte of a word comes first.
  lemma WordBytes(w: bv16)
    ensures Word(w)[0] as bv16 == w & 0x00FF && Word(w)[1] as bv16 << 8 == w & 0xFF00
  {
  }

  // WriteHtolsbU16 and ReadLsbtohU16
  function Word(w: bv16): (b: Bytes)
    ensures |b| == 2 && WordAt(b, 0) == w
  {
    [(w & 0xff) as bv8, (w >> 8) as bv8]
  }

  function WordAt(b: Bytes, i: nat): bv16
    requires i + 2 <= |b|
  {
    b[i] as bv16 | (b[i + 1] as bv16 << 8)
  }
}
