/** wifi-mac-header.cc: which fields a frame of each type carries, in what order and how many bytes. */
module MacHeader {
  import opened FrameFields
  import opened MacAddress

  datatype Header = Header(control: Control, duration: bv16, addr1: Mac, addr2: Mac, addr3: Mac, sequence: Sequence,
                           addr4: Mac, qos: Qos)
  {
    predicate InWidth() { control.InWidth() && sequence.InWidth() && qos.InWidth() }

    predicate IsData() { control.ctrlType == TYPE_DATA }

    predicate IsMgt() { control.ctrlType == TYPE_MGT }

    predicate IsCtl() { control.ctrlType == TYPE_CTL }

    predicate IsQosData() { IsData() && control.ctrlSubtype & 0x08 != 0 }

    predicate IsMBRData() { IsData() && control.ctrlSubtype == 16 }

    // A data frame that crosses two distribution systems, or one on its way to a relay.
    predicate HasAddr4() { (control.toDs != 0 && control.fromDs != 0) || control.ctrlSubtype == 16 }

    predicate IsShortCtl() { control.ctrlSubtype == SUBTYPE_CTL_CTS || control.ctrlSubtype == SUBTYPE_CTL_ACK }

    predicate IsLongCtl() {
      control.ctrlSubtype == SUBTYPE_CTL_RTS || control.ctrlSubtype == SUBTYPE_CTL_BACKREQ || control.ctrlSubtype == SUBTYPE_CTL_BACKRESP
    }

    // Serialize knows what to do with the frame.
    predicate IsKnown() { IsMgt() || IsData() || (IsCtl() && (IsShortCtl() || IsLongCtl())) }
  }

  // GetSize
  function Size(h: Header): nat {
    if h.IsMgt() then 24
    else if h.IsCtl() then
      if h.IsLongCtl() then 16 else if h.IsShortCtl() then 10
      else if h.control.ctrlSubtype == SUBTYPE_CTL_CTLWRAPPER then 16 else 0
    else if h.IsData() then 24 + (if h.HasAddr4() then 6 else 0) + (if h.control.ctrlSubtype & 0x08 != 0 then 2 else 0)
    else 0
  }

  function Start(h: Header): Bytes { Word(FrameControl(h.control)) + Word(h.duration) + h.addr1 }

  function Tail4(h: Header): Bytes { if h.HasAddr4() then h.addr4 else [] }

  function TailQos(h: Header): Bytes { if h.control.ctrlSubtype & 0x08 != 0 then Word(QosControl(h.qos)) else [] }

  // What Serialize writes.
  function Serialized(h: Header): Bytes { Start(h) + Body(h) }

  function Body(h: Header): Bytes {
    if h.IsMgt() then h.addr2 + h.addr3 + Word(SequenceControl(h.sequence))
    else if h.IsCtl() then if h.IsLongCtl() then h.addr2 else []
    else if h.IsData() then h.addr2 + h.addr3 + Word(SequenceControl(h.sequence)) + Tail4(h) + TailQos(h)
    else []
  }

  // Where the fields are in the bytes written: the frame control, the duration and one address in every
  // frame, two more addresses and the sequence control in management and data frames, a fourth address
  // between two distribution systems or with subtype 16, and the QoS control last.
  lemma FramePlaces(h: Header)
    ensures var b := Serialized(h);
      |b| >= 10 && b[0..2] == Word(FrameControl(h.control)) && b[2..4] == Word(h.duration) && b[4..10] == h.addr1
    ensures h.control.ctrlType == 0 || h.control.ctrlType == 2 ==>
      var b := Serialized(h);
      |b| >= 24 && b[10..16] == h.addr2 && b[16..22] == h.addr3 && b[22..24] == Word(SequenceControl(h.sequence))
    ensures h.control.ctrlType == 0 ==> |Serialized(h)| == 24
    ensures h.control.ctrlType == 1 ==>
      Serialized(h)[10..] == if h.control.ctrlSubtype == 8 || h.control.ctrlSubtype == 9 || h.control.ctrlSubtype == 11 then h.addr2 else []
    ensures h.control.ctrlType == 2 ==>
      var b, four, qos := Serialized(h), (h.control.toDs != 0 && h.control.fromDs != 0) || h.control.ctrlSubtype == 16,
                          h.control.ctrlSubtype & 8 != 0;
      && |b| == 24 + (if four then 6 else 0) + (if qos then 2 else 0)
      && (four ==> b[24..30] == h.addr4) && (qos ==> b[|b| - 2..] == Word(QosControl(h.qos)))
  {
    hide FrameControl, SequenceControl, QosControl, WordAt, Word, Body;
    var b := Serialized(h);
    assert b == Word(FrameControl(h.control)) + Word(h.duration) + h.addr1 + Body(h);
    assert b[10..] == Body(h);
    BodyPlaces(h);
    assert forall i, j :: 0 <= i <= j <= |Body(h)| ==> b[10 + i..10 + j] == Body(h)[i..j];
  }

  lemma BodyPlaces(h: Header)
    ensures h.IsMgt() || h.IsData() ==>
      var b := Body(h); |b| >= 14 && b[0..6] == h.addr2 && b[6..12] == h.addr3 && b[12..14] == Word(SequenceControl(h.sequence))
    ensures h.IsMgt() ==> |Body(h)| == 14
    ensures h.IsCtl() ==> Body(h) == if h.IsLongCtl() then h.addr2 else []
    ensures h.IsData() ==>
      var b := Body(h);
      && |b| == 14 + (if h.HasAddr4() then 6 else 0) + (if h.control.ctrlSubtype & 0x08 != 0 then 2 else 0)
      && (h.HasAddr4() ==> b[14..20] == h.addr4) && (h.control.ctrlSubtype & 0x08 != 0 ==> b[|b| - 2..] == Word(QosControl(h.qos)))
  {
    hide FrameControl, SequenceControl, QosControl, WordAt, Word;
  }

  // GetSize is the number of bytes written exactly for the frames that Serialize knows.
  lemma SizeIsExact(h: Header)
    ensures |Serialized(h)| == Size(h) <==> h.IsKnown()
  {
    hide FrameControl, SequenceControl, QosControl, WordAt;
  }

  // GetSize, number by number.
  lemma SizeIs(h: Header)
    ensures var type', subtype', ds := h.control.ctrlType, h.control.ctrlSubtype, h.control.toDs != 0 && h.control.fromDs != 0;
      Size(h) ==
        if type' == 0 then 24
        else if type' == 1 then
          if subtype' == 7 || subtype' == 8 || subtype' == 9 || subtype' == 11 then 16
          else if subtype' == 12 || subtype' == 13 then 10 else 0
        else if type' == 2 then (if ds || subtype' == 16 then 30 else 24) + (if subtype' & 8 != 0 then 2 else 0)
        else 0
  {
  }

  // They are not the same for a control wrapper.
  lemma ControlWrapperExample(h: Header)
    requires h.control == Control(TYPE_CTL, SUBTYPE_CTL_CTLWRAPPER, 0, 0, 0, 0, 0, 0, 0)
    ensures Size(h) == 16 && |Serialized(h)| == 10
  {
    hide FrameControl, WordAt;
    assert !h.IsShortCtl() && !h.IsLongCtl();
  }

  // A header that has been used for g before, after a frame h was read into it: the fields that the
  // frame does not carry are those of g.
  function Carried(h: Header, g: Header): Header {
    var start := g.(control := h.control, duration := h.duration, addr1 := h.addr1);
    if h.IsMgt() then start.(addr2 := h.addr2, addr3 := h.addr3, sequence := h.sequence)
    else if h.IsCtl() then if h.IsLongCtl() then start.(addr2 := h.addr2) else start
    else if h.IsData() then
      start.(addr2 := h.addr2, addr3 := h.addr3, sequence := h.sequence,
             addr4 := if h.HasAddr4() then h.addr4 else g.addr4,
             qos := if h.control.ctrlSubtype & 0x08 != 0 then h.qos else g.qos)
    else start
  }

  class WifiMacHeader {
    var h: Header

    constructor (h: Header)
      ensures this.h == h
    {
      this.h := h;
    }

    method Serialize() returns (i: Bytes)
      ensures i == Serialized(h)
    {
      hide FrameControl, SequenceControl, QosControl, WordAt, Word;
      i := Word(FrameControl(h.control));
      i := i + Word(h.duration);
      i := i + h.addr1;
      if h.IsMgt() {
        Regrouped(i, h.addr2, h.addr3, Word(SequenceControl(h.sequence)), [], []);
        i := i + h.addr2 + h.addr3 + Word(SequenceControl(h.sequence));
      } else if h.IsCtl() {
        if h.IsLongCtl() { i := i + h.addr2; }
      } else if h.IsData() {
        Regrouped(i, h.addr2, h.addr3, Word(SequenceControl(h.sequence)), Tail4(h), TailQos(h));
        i := i + h.addr2 + h.addr3 + Word(SequenceControl(h.sequence));
        if h.HasAddr4() { i := i + h.addr4; }
        if h.control.ctrlSubtype & 0x08 != 0 { i := i + Word(QosControl(h.qos)); }
      }
    }

    // Deserialize; the number of bytes read is returned.
    method Deserialize(start: Bytes) returns (i: nat)
      requires Complete(start)
      modifies this
      ensures h == Read(start, old(h)).0 && i == Read(start, old(h)).1
    {
      hide ControlOf, SequenceOf, QosOf, WordAt;
      h := h.(control := ControlOf(WordAt(start, 0)));
      h := h.(duration := WordAt(start, 2));
      h := h.(addr1 := start[4..10]);
      i := 10;
      if h.IsMgt() {
        h := h.(addr2 := start[i..i + 6]);
        h := h.(addr3 := start[i + 6..i + 12]);
        h := h.(sequence := SequenceOf(WordAt(start, i + 12)));
        i := i + 14;
      } else if h.IsCtl() {
        if h.IsLongCtl() {
          h := h.(addr2 := start[i..i + 6]);
          i := i + 6;
        }
      } else if h.IsData() {
        h := h.(addr2 := start[i..i + 6]);
        h := h.(addr3 := start[i + 6..i + 12]);
        h := h.(sequence := SequenceOf(WordAt(start, i + 12)));
        i := i + 14;
        if h.HasAddr4() {
          h := h.(addr4 := start[i..i + 6]);
          i := i + 6;
        }
        if h.control.ctrlSubtype & 0x08 != 0 {
          h := h.(qos := QosOf(WordAt(start, i)));
          i := i + 2;
        }
      }
    }
  }

  lemma Regrouped(start: Bytes, a: Bytes, b: Bytes, c: Bytes, d: Bytes, e: Bytes)
    ensures start + a + b + c + d + e == start + (a + b + c + d + e)
    ensures start + a + b + c == start + (a + b + c)
    ensures d == [] ==> start + a + b + c + e == start + (a + b + c + d + e)
    ensures e == [] ==> start + a + b + c + d == start + (a + b + c + d + e)
    ensures d == [] && e == [] ==> start + a + b + c == start + (a + b + c + d + e)
  {
    assert start + a + b == start + (a + b);
    assert start + (a + b) + c == start + (a + b + c);
    assert start + (a + b + c) + d == start + (a + b + c + d);
    assert start + (a + b + c + d) + e == start + (a + b + c + d + e);
  }

  // ---- reading a buffer ----

  // How many bytes a frame with these controls takes.
  function Length(c: Control): nat {
    if c.ctrlType == TYPE_MGT then 24
    else if c.ctrlType == TYPE_CTL then
      if c.ctrlSubtype == SUBTYPE_CTL_RTS || c.ctrlSubtype == SUBTYPE_CTL_BACKREQ || c.ctrlSubtype == SUBTYPE_CTL_BACKRESP then 16 else 10
    else if c.ctrlType == TYPE_DATA then
      24 + (if (c.toDs != 0 && c.fromDs != 0) || c.ctrlSubtype == 16 then 6 else 0) + (if c.ctrlSubtype & 0x08 != 0 then 2 else 0)
    else 10
  }

  predicate Complete(b: Bytes) {
    |b| >= 10 && |b| >= Length(ControlOf(WordAt(b, 0)))
  }

  // What Deserialize makes of a buffer, and how much of it is read.
  function Read(b: Bytes, g: Header): (Header, nat)
    requires Complete(b)
  {
    var start := g.(control := ControlOf(WordAt(b, 0)), duration := WordAt(b, 2), addr1 := b[4..10]);
    var n := Length(start.control);
    if start.IsMgt() then
      (start.(addr2 := b[10..16], addr3 := b[16..22], sequence := SequenceOf(WordAt(b, 22))), n)
    else if start.IsCtl() then
      (if start.IsLongCtl() then start.(addr2 := b[10..16]) else start, n)
    else if start.IsData() then
      (start.(addr2 := b[10..16], addr3 := b[16..22], sequence := SequenceOf(WordAt(b, 22)),
              addr4 := if start.HasAddr4() then b[24..30] else g.addr4,
              qos := if start.control.ctrlSubtype & 0x08 != 0 then QosOf(WordAt(b, n - 2)) else g.qos), n)
    else (start, n)
  }

  // Field by field: what a frame of each type gives back.
  lemma FieldsRestored(f: Header, g: Header, rest: Bytes)
    requires f.InWidth() && f.IsKnown()
    ensures Complete(Serialized(f) + rest)
    ensures var got, type', subtype' := Read(Serialized(f) + rest, g).0, f.control.ctrlType, f.control.ctrlSubtype;
      && got.control == f.control && got.duration == f.duration && got.addr1 == f.addr1
      && (type' != 1 || subtype' == 8 || subtype' == 9 || subtype' == 11 ==> got.addr2 == f.addr2)
      && (type' != 1 ==> got.addr3 == f.addr3 && got.sequence == f.sequence)
      && (type' == 2 && subtype' == 16 ==> got.addr4 == f.addr4)
      && (type' == 2 && f.control.toDs == f.control.fromDs == 1 ==> got.addr4 == f.addr4)
      && (type' == 2 && subtype' & 8 != 0 ==> got.qos == f.qos)
  {
    hide FrameControl, ControlOf, SequenceControl, SequenceOf, QosControl, QosOf, WordAt, Serialized, Read;
    ReadsWhatWasWritten(f, g, rest);
  }

  // Where the parts of a concatenation are.
  lemma Parts(a: Bytes, b: Bytes, c: Bytes, rest: Bytes)
    requires |a| == 2 && |b| == 2 && |c| == 6
    ensures var t := a + b + c + rest;
      |t| == 10 + |rest| && WordAt(t, 0) == WordAt(a, 0) && WordAt(t, 2) == WordAt(b, 0) && t[4..10] == c && t[10..] == rest
  {
  }

  // What Deserialize reads of what Serialize wrote: every field in width that the frame carries,
  // with exactly GetSize bytes, whatever follows in the buffer and whatever the header held before.
  lemma ReadsWhatWasWritten(f: Header, g: Header, rest: Bytes)
    requires f.InWidth() && f.IsKnown()
    ensures var b := Serialized(f) + rest;
      Complete(b) && Read(b, g) == (Carried(f, g), Size(f))
  {
    hide FrameControl, ControlOf, SequenceControl, SequenceOf, QosControl, QosOf, WordAt, Serialized, Body;
    var b, tail := Serialized(f) + rest, Body(f) + rest;
    StartParts(f, rest);
    Shifted(b, tail, 10);
    if f.IsMgt() {
      BodyParts(f, rest);
    } else if f.IsData() {
      BodyParts(f, rest);
      TailParts(f, rest);
    } else if f.IsLongCtl() {
      LongCtlBody(f, rest);
    }
  }

  lemma LongCtlBody(f: Header, rest: Bytes)
    requires f.IsCtl() && f.IsLongCtl()
    ensures |Body(f) + rest| >= 6 && (Body(f) + rest)[0..6] == f.addr2
  {
  }

  lemma StartParts(f: Header, rest: Bytes)
    ensures var b, tail := Serialized(f) + rest, Body(f) + rest;
      && |b| == 10 + |tail| && b[4..10] == f.addr1 && b[10..] == tail
      && WordAt(b, 0) == FrameControl(f.control) && WordAt(b, 2) == f.duration
  {
    hide FrameControl, Body, WordAt, Word;
    var b, tail := Serialized(f) + rest, Body(f) + rest;
    assert b == Word(FrameControl(f.control)) + Word(f.duration) + f.addr1 + tail;
    Parts(Word(FrameControl(f.control)), Word(f.duration), f.addr1, tail);
  }

  // A position in the rest of a buffer is one in the buffer.
  lemma Shifted(b: Bytes, tail: Bytes, n: nat)
    requires n <= |b| && tail == b[n..]
    ensures forall i, j :: 0 <= i <= j <= |tail| ==> b[n + i..n + j] == tail[i..j]
    ensures forall i :: 0 <= i <= |tail| - 2 ==> WordAt(b, n + i) == WordAt(tail, i)
  {
  }

  lemma BodyParts(f: Header, rest: Bytes)
    requires f.IsMgt() || f.IsData()
    ensures var t := Body(f) + rest;
      && |t| >= 14 && t[0..6] == f.addr2 && t[6..12] == f.addr3
      && WordAt(t, 12) == SequenceControl(f.sequence)
      && t[14..] == (if f.IsData() then Tail4(f) + TailQos(f) else []) + rest
  {
    hide SequenceControl, QosControl;
    var w, t := Word(SequenceControl(f.sequence)), Body(f) + rest;
    var after := (if f.IsData() then Tail4(f) + TailQos(f) else []) + rest;
    assert t == f.addr2 + f.addr3 + w + after;
    assert t[12] == w[0] && t[13] == w[1];
  }

  lemma TailParts(f: Header, rest: Bytes)
    requires f.IsData()
    ensures var t := Body(f) + rest; var n := Size(f) - 12;
      && Size(f) - 10 <= |t|
      && (f.HasAddr4() ==> t[14..20] == f.addr4)
      && (f.control.ctrlSubtype & 0x08 != 0 ==> WordAt(t, n) == QosControl(f.qos))
  {
    BodyParts(f, rest);
    TailBytes(f, rest);
    hide SequenceControl, QosControl, Body, TailQos, WordAt, Word;
    var t := Body(f) + rest;
    Shifted(t, t[14..], 14);
  }

  lemma TailBytes(f: Header, rest: Bytes)
    ensures var u := Tail4(f) + TailQos(f) + rest;
      && |u| >= |Tail4(f)| + (if f.control.ctrlSubtype & 0x08 != 0 then 2 else 0)
      && (f.HasAddr4() ==> |Tail4(f)| == 6 && u[0..6] == f.addr4)
      && (!f.HasAddr4() ==> |Tail4(f)| == 0)
      && (f.control.ctrlSubtype & 0x08 != 0 ==> WordAt(u, |Tail4(f)|) == QosControl(f.qos))
  {
    hide QosControl;
    var u, k := Tail4(f) + TailQos(f) + rest, |Tail4(f)|;
    if f.control.ctrlSubtype & 0x08 != 0 {
      var w := Word(QosControl(f.qos));
      assert u[k] == w[0] && u[k + 1] == w[1];
    }
  }
}
