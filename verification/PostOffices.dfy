/** Mail over the simulated network (code/network/post.cc:32-329, code/machine/network.cc:60-185).

    One machine receives; others send to it over a wire that keeps the order but may lose packets. The
    network input buffers one packet and does V on a semaphore; the postal worker does P, takes the
    packet, and puts the mail into its box. The boxes are synchronized lists, which are first in, first
    out (module SynchLists), so Put and Get are single steps here. */
module PostOffices {
  import opened Base
  import opened Semaphores
  import opened Disks

  const MaxWireSize := 64
  const HeaderSize := 12
  const MaxPacketSize := MaxWireSize - HeaderSize
  const MaxMailSize := MaxPacketSize - HeaderSize

  /** PacketHeader (machines) and MailHeader (boxes) have the same three fields. */
  datatype Header = Header(to: Int32, from: Int32, length: Int32)

  datatype Mail = Mail(pktHdr: Header, mailHdr: Header, data: seq<Byte>)

  // ---------- Bytes ----------

  function HeaderBytes(h: Header): (bytes: seq<Byte>)
    ensures |bytes| == HeaderSize
  {
    EncodeInts([h.to, h.from, h.length])
  }

  function HeaderOf(bytes: seq<Byte>): Header
    requires |bytes| >= HeaderSize
  {
    var xs := DecodeInts(bytes, 3);
    Header(xs[0], xs[1], xs[2])
  }

  lemma HeaderRoundTrip(h: Header, rest: seq<Byte>)
    ensures HeaderOf(HeaderBytes(h) + rest) == h
  {
    var xs := [h.to, h.from, h.length];
    var bytes := EncodeInts(xs);
    IntsRoundTrip(xs);
    forall i | 0 <= i < 3 ensures DecodeInts(bytes + rest, 3)[i] == DecodeInts(bytes, 3)[i] {
    }
    assert DecodeInts(bytes, 3) == xs;
  }

  /** What Send puts on the wire: both headers, the data, and padding of no importance. */
  function Packed(m: Mail, padding: seq<Byte>): (wire: seq<Byte>)
    ensures |wire| == 2 * HeaderSize + |m.data| + |padding|
  {
    HeaderBytes(m.pktHdr) + (HeaderBytes(m.mailHdr) + m.data) + padding
  }

  /** The mail in a packet's contents, as the worker takes it apart. */
  function Opened(pktHdr: Header, buffer: seq<Byte>): Mail
    requires |buffer| >= HeaderSize
  {
    var mailHdr := HeaderOf(buffer);
    Mail(pktHdr, mailHdr,
         if 0 <= mailHdr.length <= |buffer| - HeaderSize then buffer[HeaderSize..HeaderSize + mailHdr.length] else [])
  }

  /** A packet's contents, as the network input takes it off the wire. */
  function Contents(wire: seq<Byte>): seq<Byte>
    requires |wire| == MaxWireSize
  {
    var hdr := HeaderOf(wire);
    if 0 <= hdr.length <= MaxPacketSize then wire[HeaderSize..HeaderSize + hdr.length] else []
  }

  /** A mail as Send makes it. */
  predicate MailOk(m: Mail, host: Int32) {
    && m.pktHdr.to == host && 0 <= m.mailHdr.to
    && 0 <= m.mailHdr.length <= MaxMailSize && |m.data| == m.mailHdr.length
    && m.pktHdr.length == m.mailHdr.length + HeaderSize
  }

  lemma Sandwich(a: seq<Byte>, b: seq<Byte>, c: seq<Byte>)
    ensures a + b + c == a + (b + c) && (a + b + c)[|a|..|a| + |b|] == b
    ensures (a + b)[|a|..|a| + |b|] == b
  {
  }

  /** The mail that PostOfficeOutput::Send on machine `host` makes of its arguments, if its assertions
      hold: it fills in two fields of the packet header and takes as many bytes as the mail header says. */
  function Posted(host: Int32, pktHdr: Header, mailHdr: Header, data: seq<Byte>): (m: Mail)
    requires 0 <= mailHdr.length <= MaxMailSize && 0 <= mailHdr.to && mailHdr.length <= |data|
    ensures MailOk(m, pktHdr.to)
    ensures m.pktHdr == Header(pktHdr.to, host, mailHdr.length + 12) && m.mailHdr == mailHdr && m.data <= data
  {
    Mail(pktHdr.(from := host, length := mailHdr.length + HeaderSize), mailHdr, data[..mailHdr.length])
  }

  /** Where the fields are on the wire: destination, source and length of the packet, then of the mail, four bytes
      each, then the data. */
  lemma WireLayout(m: Mail, padding: seq<Byte>)
    ensures var wire := Packed(m, padding);
      && IntAt(wire, 0, m.pktHdr.to) && IntAt(wire, 4, m.pktHdr.from) && IntAt(wire, 8, m.pktHdr.length)
      && IntAt(wire, 12, m.mailHdr.to) && IntAt(wire, 16, m.mailHdr.from) && IntAt(wire, 20, m.mailHdr.length)
      && wire[24..24 + |m.data|] == m.data
  {
    var head, buffer := HeaderBytes(m.pktHdr), HeaderBytes(m.mailHdr) + m.data;
    HeaderLayout(m.pktHdr);
    HeaderLayout(m.mailHdr);
    Sandwich(head, buffer, padding);
    var wire := Packed(m, padding);
    assert forall k :: 0 <= k < 12 ==> wire[k] == head[k];
    assert forall k :: 0 <= k < 12 ==> wire[12 + k] == HeaderBytes(m.mailHdr)[k];
    assert forall k :: 0 <= k < |m.data| ==> wire[24 + k] == m.data[k];
  }

  lemma HeaderLayout(h: Header)
    ensures IntAt(HeaderBytes(h), 0, h.to) && IntAt(HeaderBytes(h), 4, h.from) && IntAt(HeaderBytes(h), 8, h.length)
  {
    var xs := [h.to, h.from, h.length];
    EncodedLayout(xs, 0);
    EncodedLayout(xs, 1);
    EncodedLayout(xs, 2);
    assert xs[0] == h.to && xs[1] == h.from && xs[2] == h.length;
  }

  /** What arrives is what was sent, byte for byte. */
  lemma PacketRoundTrip(m: Mail, host: Int32, padding: seq<Byte>)
    requires MailOk(m, host) && |padding| == MaxMailSize - |m.data|
    ensures |Packed(m, padding)| == MaxWireSize && HeaderOf(Packed(m, padding)) == m.pktHdr
    ensures |Contents(Packed(m, padding))| == m.pktHdr.length
    ensures Opened(m.pktHdr, Contents(Packed(m, padding))) == m
  {
    var head, buffer := HeaderBytes(m.pktHdr), HeaderBytes(m.mailHdr) + m.data;
    Sandwich(head, buffer, padding);
    Sandwich(HeaderBytes(m.mailHdr), m.data, []);
    HeaderRoundTrip(m.pktHdr, buffer + padding);
    HeaderRoundTrip(m.mailHdr, m.data);
  }

  // ---------- Subsequences ----------

  ghost predicate Subseq<T(!new)>(a: seq<T>, b: seq<T>) {
    a == [] || (b != [] && ((a[0] == b[0] && Subseq(a[1..], b[1..])) || Subseq(a, b[1..])))
  }

  lemma {:induction false} SubseqRefl<T(!new)>(a: seq<T>)
    ensures Subseq(a, a)
  {
    if a != [] {
      SubseqRefl(a[1..]);
    }
  }

  lemma {:induction false} SubseqMore<T(!new)>(a: seq<T>, b: seq<T>, x: T)
    requires Subseq(a, b)
    ensures Subseq(a, b + [x])
  {
    if a != [] {
      assert (b + [x])[0] == b[0] && (b + [x])[1..] == b[1..] + [x];
      if a[0] == b[0] && Subseq(a[1..], b[1..]) {
        SubseqMore(a[1..], b[1..], x);
      } else {
        SubseqMore(a, b[1..], x);
      }
    }
  }

  lemma {:induction false} SubseqBoth<T(!new)>(a: seq<T>, b: seq<T>, x: T)
    requires Subseq(a, b)
    ensures Subseq(a + [x], b + [x])
    decreases |b|
  {
    if b == [] {
      assert a + [x] == [x] && b + [x] == [x];
      SubseqRefl([x]);
    } else {
      assert (b + [x])[0] == b[0] && (b + [x])[1..] == b[1..] + [x];
      if a == [] {
        SubseqBoth(a, b[1..], x);
      } else {
        assert (a + [x])[0] == a[0] && (a + [x])[1..] == a[1..] + [x];
        if a[0] == b[0] && Subseq(a[1..], b[1..]) {
          SubseqBoth(a[1..], b[1..], x);
        } else {
          SubseqBoth(a, b[1..], x);
        }
      }
    }
  }

  lemma {:induction false} SubseqLess<T(!new)>(a: seq<T>, b: seq<T>, i: nat)
    requires Subseq(a, b) && i < |a|
    ensures Subseq(a[..i] + a[i + 1..], b)
    decreases |b|
  {
    var c := a[..i] + a[i + 1..];
    if a[0] == b[0] && Subseq(a[1..], b[1..]) {
      if i == 0 {
        assert c == a[1..];
        SubseqTail(c, b);
      } else {
        SubseqLess(a[1..], b[1..], i - 1);
        assert c[0] == a[0] && c[1..] == a[1..][..i - 1] + a[1..][i..];
      }
    } else {
      SubseqLess(a, b[1..], i);
      SubseqTail(c, b);
    }
  }

  lemma SubseqTail<T(!new)>(a: seq<T>, b: seq<T>)
    requires b != [] && Subseq(a, b[1..])
    ensures Subseq(a, b)
  {
  }

  /** The mails for one box. */
  function ForBox(s: seq<Mail>, box: int): seq<Mail> {
    if s == [] then []
    else if s[0].mailHdr.to == box then [s[0]] + ForBox(s[1..], box)
    else ForBox(s[1..], box)
  }

  lemma {:induction false} ForBoxAppend(s: seq<Mail>, t: seq<Mail>, box: int)
    ensures ForBox(s + t, box) == ForBox(s, box) + ForBox(t, box)
  {
    if s == [] {
      assert s + t == t;
    } else {
      ForBoxAppend(s[1..], t, box);
      var a, b := ForBox(s[1..], box), ForBox(t, box);
      assert (s + t)[0] == s[0] && (s + t)[1..] == s[1..] + t;
      assert [s[0]] + (a + b) == ([s[0]] + a) + b;
    }
  }

  lemma {:induction false} SubseqForBox(a: seq<Mail>, b: seq<Mail>, box: int)
    requires Subseq(a, b)
    ensures Subseq(ForBox(a, box), ForBox(b, box))
    decreases |b|
  {
    if a != [] {
      if a[0] == b[0] && Subseq(a[1..], b[1..]) {
        SubseqForBox(a[1..], b[1..], box);
        if a[0].mailHdr.to == box {
          assert ForBox(a, box)[1..] == ForBox(a[1..], box) && ForBox(b, box)[1..] == ForBox(b[1..], box);
        }
      } else {
        SubseqForBox(a, b[1..], box);
        if b[0].mailHdr.to == box {
          assert ForBox(b, box)[1..] == ForBox(b[1..], box);
          SubseqTail(ForBox(a, box), ForBox(b, box));
        }
      }
    }
  }

  lemma {:induction false} SubseqPrefix<T(!new)>(a: seq<T>, c: seq<T>, b: seq<T>)
    requires Subseq(a + c, b)
    ensures Subseq(a, b)
    decreases |b|
  {
    if a != [] {
      assert (a + c)[0] == a[0] && (a + c)[1..] == a[1..] + c;
      if a[0] == b[0] && Subseq(a[1..] + c, b[1..]) {
        SubseqPrefix(a[1..], c, b[1..]);
      } else {
        SubseqPrefix(a, c, b[1..]);
      }
    }
  }

  lemma {:induction false} SubseqIn<T(!new)>(a: seq<T>, b: seq<T>, x: T)
    requires Subseq(a, b) && x in a
    ensures x in b
    decreases |b|
  {
    if a[0] == b[0] && Subseq(a[1..], b[1..]) {
      if x != a[0] {
        SubseqIn(a[1..], b[1..], x);
      }
    } else {
      SubseqIn(a, b[1..], x);
    }
  }

  // ---------- The receiving machine ----------

  type Wire = w: seq<Byte> | |w| == MaxWireSize witness seq(MaxWireSize, _ => 0)

  /** The postal worker: inside the semaphore's P; past it; or with a packet to deliver. */
  datatype Worker = InP | Got | Holding(hdr: Header, buffer: seq<Byte>)

  const WorkerId: Tid := 0

  /** `inHdr.length` is 0 when no packet is buffered. `read` holds what was read from each box, `came` what
      was put into boxes, `sent` all mails sent to this machine: three logs. */
  datatype State = State(wire: seq<Wire>, inHdr: Header, inbox: seq<Byte>, avail: Sem, worker: Worker,
                         boxes: seq<seq<Mail>>, read: seq<seq<Mail>>, came: seq<Mail>, sent: seq<Mail>)

  datatype Event =
    | Send(m: Mail, padding: seq<Byte>, lost: bool)
    | Lose(i: nat)
    | Poll
    | Work
    | Read(box: nat)

  function Taken(w: Wire): Mail {
    if |Contents(w)| >= HeaderSize then Opened(HeaderOf(w), Contents(w)) else Mail(HeaderOf(w), Header(0, 0, 0), [])
  }

  ghost predicate Full(s: State) {
    s.inHdr.length != 0
  }

  /** What callers and hardware see to. Send's own assertions are here: it is the caller that must meet
      them. */
  ghost predicate Enabled(host: Int32, s: State, e: Event) {
    match e
    case Send(m, padding, _) => MailOk(m, host) && |padding| == MaxMailSize - |m.data|
    case Lose(i) => i < |s.wire|
    case Poll => true
    case Work => WorkerId !in s.avail.queue
    case Read(box) => box < |s.boxes| && s.boxes[box] != []
  }

  /** The assertions on arrival; and that the worker finds a packet when it comes for one. */
  ghost predicate Asserts(host: Int32, s: State, e: Event) {
    match e
    case Poll =>
      !Full(s) && s.wire != [] ==>
        var h := HeaderOf(s.wire[0]); h.to == host && 0 < h.length <= MaxPacketSize
    case Work =>
      && (s.worker.Got? ==> Full(s))
      && (s.worker.Holding? ==>
            && |s.worker.buffer| >= HeaderSize
            && var h := HeaderOf(s.worker.buffer); 0 <= h.to < |s.boxes| && 0 <= h.length <= MaxMailSize)
    case _ => true
  }

  function WorkStep(s: State): State {
    match s.worker
    case InP => s.(avail := PSegment(s.avail, WorkerId), worker := if s.avail.value == 0 then InP else Got)
    case Got => s.(inHdr := s.inHdr.(length := 0), worker := Holding(s.inHdr, s.inbox))
    case Holding(hdr, buffer) =>
      if |buffer| < HeaderSize then s
      else
        var m := Opened(hdr, buffer);
        if 0 <= m.mailHdr.to < |s.boxes|
        then s.(worker := InP, came := s.came + [m], boxes := s.boxes[m.mailHdr.to := s.boxes[m.mailHdr.to] + [m]])
        else s
  }

  function PollStep(s: State): State {
    if s.inHdr.length != 0 || s.wire == [] then s
    else s.(inHdr := HeaderOf(s.wire[0]), inbox := Contents(s.wire[0]), wire := s.wire[1..], avail := VSegment(s.avail))
  }

  /** A worker that fails its assertion stops: the state stays as it is. */
  ghost function Next(host: Int32, s: State, e: Event): State
    requires Enabled(host, s, e)
  {
    match e
    case Send(m, padding, lost) =>
      s.(sent := s.sent + [m], wire := if lost then s.wire else s.wire + [Packed(m, padding)])
    case Lose(i) => s.(wire := s.wire[..i] + s.wire[i + 1..])
    case Poll => PollStep(s)
    case Work => WorkStep(s)
    case Read(box) =>
      if box < |s.read|
      then s.(boxes := s.boxes[box := s.boxes[box][1..]], read := s.read[box := s.read[box] + [s.boxes[box][0]]])
      else s
  }

  // ---------- Invariant ----------

  ghost predicate WireOk(host: Int32, w: Wire) {
    && |Contents(w)| >= HeaderSize && |Contents(w)| == HeaderOf(w).length
    && MailOk(Taken(w), host)
  }

  ghost predicate WiresOk(host: Int32, s: State) {
    forall i :: 0 <= i < |s.wire| ==> WireOk(host, s.wire[i])
  }

  ghost predicate BufferOk(host: Int32, s: State) {
    && (Full(s) ==> |s.inbox| >= HeaderSize && MailOk(Opened(s.inHdr, s.inbox), host))
    && (s.worker.Holding? ==> |s.worker.buffer| >= HeaderSize && MailOk(Opened(s.worker.hdr, s.worker.buffer), host))
  }

  /** Semaphore value plus a worker between P and Receive is one exactly if a packet is buffered; and the
      worker sleeps only while there is none. */
  ghost predicate SemOk(s: State) {
    && s.avail.value + (if s.worker.Got? then 1 else 0) == (if Full(s) then 1 else 0)
    && (s.avail.queue == [] || (s.avail.queue == [WorkerId] && s.worker.InP? && s.avail.value == 0))
  }

  ghost predicate BoxesOk(s: State) {
    |s.boxes| == |s.read| && forall b :: 0 <= b < |s.boxes| ==> s.read[b] + s.boxes[b] == ForBox(s.came, b)
  }

  function Held(w: Worker): seq<Mail> {
    if w.Holding? && |w.buffer| >= HeaderSize then [Opened(w.hdr, w.buffer)] else []
  }

  function Buffered(hdr: Header, inbox: seq<Byte>): seq<Mail> {
    if hdr.length != 0 && |inbox| >= HeaderSize then [Opened(hdr, inbox)] else []
  }

  function OnWire(wire: seq<Wire>): seq<Mail> {
    seq(|wire|, i requires 0 <= i < |wire| => Taken(wire[i]))
  }

  /** All mails that have not been lost, the first ones first. */
  function Alive(s: State): seq<Mail> {
    s.came + (Held(s.worker) + (Buffered(s.inHdr, s.inbox) + OnWire(s.wire)))
  }

  ghost predicate Inv(host: Int32, s: State) {
    WiresOk(host, s) && BufferOk(host, s) && SemOk(s) && BoxesOk(s) && Subseq(Alive(s), s.sent)
  }

  function Initial(numBoxes: nat): State {
    State([], Header(0, 0, 0), [], NewSem(0), InP, seq(numBoxes, _ => []), seq(numBoxes, _ => []), [], [])
  }

  lemma InitialInv(host: Int32, numBoxes: nat)
    ensures Inv(host, Initial(numBoxes))
  {
  }

  // ---------- Preservation ----------

  lemma AliveAfterWork(host: Int32, s: State)
    requires BufferOk(host, s) && SemOk(s) && WorkerId !in s.avail.queue
    ensures Alive(WorkStep(s)) == Alive(s)
  {
    var rest := OnWire(s.wire);
    if s.worker.Got? {
      var m := [Opened(s.inHdr, s.inbox)];
      assert s.came + ([] + (m + rest)) == s.came + (m + ([] + rest));
    } else if s.worker.Holding? {
      var m := Opened(s.worker.hdr, s.worker.buffer);
      var more := Buffered(s.inHdr, s.inbox) + rest;
      assert s.came + ([m] + more) == (s.came + [m]) + ([] + more);
    }
  }

  lemma AliveAfterPoll(host: Int32, s: State)
    requires WiresOk(host, s)
    ensures Alive(PollStep(s)) == Alive(s)
  {
    if s.inHdr.length == 0 && s.wire != [] {
      var w := s.wire[0];
      assert WireOk(host, w);
      assert OnWire(s.wire) == [Taken(w)] + OnWire(s.wire[1..]);
      assert [] + OnWire(s.wire) == [Taken(w)] + OnWire(s.wire[1..]);
    }
  }

  lemma OnWireAppend(wire: seq<Wire>, w: Wire)
    ensures OnWire(wire + [w]) == OnWire(wire) + [Taken(w)]
  {
  }

  lemma OnWireLose(wire: seq<Wire>, i: nat)
    requires i < |wire|
    ensures OnWire(wire[..i] + wire[i + 1..]) == OnWire(wire)[..i] + OnWire(wire)[i + 1..]
  {
  }

  lemma AppendLast<T>(c: seq<T>, h: seq<T>, b: seq<T>, r: seq<T>, m: T)
    ensures c + (h + (b + (r + [m]))) == (c + (h + (b + r))) + [m]
  {
  }

  lemma AliveAfterSend(s: State, w: Wire)
    ensures Alive(s.(wire := s.wire + [w])) == Alive(s) + [Taken(w)]
  {
    OnWireAppend(s.wire, w);
    AppendLast(s.came, Held(s.worker), Buffered(s.inHdr, s.inbox), OnWire(s.wire), Taken(w));
  }

  lemma WireIsOk(host: Int32, m: Mail, padding: seq<Byte>)
    requires MailOk(m, host) && |padding| == MaxMailSize - |m.data|
    ensures |Packed(m, padding)| == MaxWireSize && WireOk(host, Packed(m, padding)) && Taken(Packed(m, padding)) == m
  {
    PacketRoundTrip(m, host, padding);
  }

  lemma WireAdded(host: Int32, s: State, w: Wire)
    requires Inv(host, s) && WireOk(host, w)
    ensures var s' := s.(sent := s.sent + [Taken(w)], wire := s.wire + [w]);
      Inv(host, s') && Alive(s') == Alive(s) + [Taken(w)]
  {
    AliveAfterSend(s, w);
    SubseqBoth(Alive(s), s.sent, Taken(w));
  }

  lemma SendKeeps(host: Int32, s: State, m: Mail, padding: seq<Byte>, lost: bool)
    requires Inv(host, s) && Enabled(host, s, Send(m, padding, lost))
    ensures Inv(host, Next(host, s, Send(m, padding, lost)))
    ensures !lost ==> Alive(Next(host, s, Send(m, padding, lost))) == Alive(s) + [m]
  {
    if lost {
      SubseqMore(Alive(s), s.sent, m);
    } else {
      WireIsOk(host, m, padding);
      WireAdded(host, s, Packed(m, padding));
    }
  }

  lemma DropDeep<T>(c: seq<T>, h: seq<T>, b: seq<T>, r: seq<T>, i: nat)
    requires i < |r|
    ensures var a := c + (h + (b + r)); var k := |a| - |r| + i;
      c + (h + (b + (r[..i] + r[i + 1..]))) == a[..k] + a[k + 1..]
  {
  }

  lemma SubseqDropDeep<T(!new)>(c: seq<T>, h: seq<T>, b: seq<T>, r: seq<T>, i: nat, all: seq<T>)
    requires i < |r| && Subseq(c + (h + (b + r)), all)
    ensures Subseq(c + (h + (b + (r[..i] + r[i + 1..]))), all)
  {
    var a := c + (h + (b + r));
    DropDeep(c, h, b, r, i);
    SubseqLess(a, all, |a| - |r| + i);
  }

  lemma LoseKeeps(host: Int32, s: State, i: nat)
    requires Inv(host, s) && i < |s.wire|
    ensures Inv(host, Next(host, s, Lose(i)))
  {
    OnWireLose(s.wire, i);
    SubseqDropDeep(s.came, Held(s.worker), Buffered(s.inHdr, s.inbox), OnWire(s.wire), i, s.sent);
  }

  lemma BoxesAfterPut(s: State)
    requires BoxesOk(s)
    ensures BoxesOk(WorkStep(s))
  {
    if s.worker.Holding? && |s.worker.buffer| >= HeaderSize {
      var m := Opened(s.worker.hdr, s.worker.buffer);
      forall b | 0 <= b < |s.boxes| ensures WorkStep(s).read[b] + WorkStep(s).boxes[b] == ForBox(WorkStep(s).came, b) {
        ForBoxAppend(s.came, [m], b);
      }
    }
  }

  lemma PollKeeps(host: Int32, s: State)
    requires Inv(host, s)
    ensures Asserts(host, s, Poll) && Inv(host, PollStep(s))
  {
    AliveAfterPoll(host, s);
  }

  lemma WorkKeeps(host: Int32, s: State)
    requires Inv(host, s) && WorkerId !in s.avail.queue
    ensures Inv(host, WorkStep(s))
    ensures s.worker.Got? ==> Full(s)
  {
    AliveAfterWork(host, s);
    BoxesAfterPut(s);
  }

  lemma ReadKeeps(host: Int32, s: State, box: nat)
    requires Inv(host, s) && Enabled(host, s, Read(box))
    ensures Inv(host, Next(host, s, Read(box)))
  {
    var r, b := s.read[box], s.boxes[box];
    assert (r + [b[0]]) + b[1..] == r + b;
  }

  /** Every box that mails are sent to exists here. */
  ghost predicate KnownBoxes(mails: seq<Mail>, numBoxes: nat) {
    forall i :: 0 <= i < |mails| ==> mails[i].mailHdr.to < numBoxes
  }

  /** Each step keeps the invariant; and if all mails are for existing boxes, all assertions hold. */
  lemma StepKeeps(host: Int32, s: State, e: Event)
    requires Inv(host, s) && Enabled(host, s, e)
    ensures Inv(host, Next(host, s, e))
    ensures KnownBoxes(s.sent, |s.boxes|) ==> Asserts(host, s, e)
  {
    match e {
      case Send(m, padding, lost) => SendKeeps(host, s, m, padding, lost);
      case Lose(i) => LoseKeeps(host, s, i);
      case Poll => PollKeeps(host, s);
      case Work =>
        WorkKeeps(host, s);
        if KnownBoxes(s.sent, |s.boxes|) {
          WorkAsserts(host, s);
        }
      case Read(box) => ReadKeeps(host, s, box);
    }
  }

  /** With a mail in hand the worker's assertions hold exactly if the mail's box exists. */
  lemma WorkAssertsIff(host: Int32, s: State)
    requires Inv(host, s) && s.worker.Holding?
    ensures |s.worker.buffer| >= HeaderSize
    ensures Asserts(host, s, Work) <==> Opened(s.worker.hdr, s.worker.buffer).mailHdr.to < |s.boxes|
  {
  }

  lemma WorkAsserts(host: Int32, s: State)
    requires Inv(host, s) && KnownBoxes(s.sent, |s.boxes|)
    ensures Asserts(host, s, Work)
  {
    if s.worker.Holding? {
      var m := Opened(s.worker.hdr, s.worker.buffer);
      assert Alive(s)[|s.came|] == m;
      SubseqIn(Alive(s), s.sent, m);
      WorkAssertsIff(host, s);
    }
  }

  // ---------- Whole runs ----------

  ghost predicate IsRun(host: Int32, run: seq<State>, events: seq<Event>) {
    && |run| == |events| + 1
    && forall i :: 0 <= i < |events| ==> Enabled(host, run[i], events[i]) && run[i + 1] == Next(host, run[i], events[i])
  }

  lemma SameBoxes(host: Int32, s: State, e: Event)
    requires Enabled(host, s, e)
    ensures |Next(host, s, e).boxes| == |s.boxes|
  {
  }

  lemma {:induction false} RunKeeps(host: Int32, numBoxes: nat, run: seq<State>, events: seq<Event>, n: nat)
    requires IsRun(host, run, events) && run[0] == Initial(numBoxes) && n < |run|
    ensures Inv(host, run[n]) && |run[n].boxes| == numBoxes
  {
    if n == 0 {
      InitialInv(host, numBoxes);
    } else {
      RunKeeps(host, numBoxes, run, events, n - 1);
      StepKeeps(host, run[n - 1], events[n - 1]);
      SameBoxes(host, run[n - 1], events[n - 1]);
    }
  }

  /** In every run, the mails read from a box are in order a subsequence of those sent to it, headers and
      bytes unchanged. */
  lemma ReadsAreSent(host: Int32, numBoxes: nat, run: seq<State>, events: seq<Event>, n: nat, box: nat)
    requires IsRun(host, run, events) && run[0] == Initial(numBoxes) && n < |run| && box < numBoxes
    ensures |run[n].read| == numBoxes && Subseq(run[n].read[box], ForBox(run[n].sent, box))
  {
    RunKeeps(host, numBoxes, run, events, n);
    var s := run[n];
    var later := Held(s.worker) + (Buffered(s.inHdr, s.inbox) + OnWire(s.wire));
    SubseqPrefix(s.came, later, s.sent);
    SubseqForBox(s.came, s.sent, box);
    SubseqPrefix(s.read[box], s.boxes[box], ForBox(s.sent, box));
  }

  /** In every run in which mails are only sent to boxes that exist, no assertion fails; no packet is
      overwritten, and the worker never finds the buffer empty. */
  lemma RunIsSafe(host: Int32, numBoxes: nat, run: seq<State>, events: seq<Event>, n: nat)
    requires IsRun(host, run, events) && run[0] == Initial(numBoxes) && n < |events|
    requires KnownBoxes(run[n].sent, numBoxes)
    ensures Asserts(host, run[n], events[n])
  {
    RunKeeps(host, numBoxes, run, events, n);
    StepKeeps(host, run[n], events[n]);
  }

  /** The sender's check is not enough: any mail for a box that does not exist, if not lost, stops the
      worker of an idle machine. */
  lemma UnknownBoxStopsWorker(host: Int32, numBoxes: nat, m: Mail, padding: seq<Byte>)
    requires MailOk(m, host) && |padding| == MaxMailSize - |m.data| && m.mailHdr.to >= numBoxes
    ensures var s1 := Next(host, Initial(numBoxes), Send(m, padding, false));
      var s4 := WorkStep(WorkStep(PollStep(s1)));
      Enabled(host, s4, Work) && !Asserts(host, s4, Work)
  {
    PacketRoundTrip(m, host, padding);
  }

  /** While a packet is buffered, the worker is not asleep. */
  lemma NoPacketIsStranded(host: Int32, s: State)
    requires Inv(host, s) && Full(s)
    ensures Enabled(host, s, Work)
  {
  }

  ghost predicate Loses(e: Event) {
    e.Lose? || (e.Send? && e.lost)
  }

  lemma ReliableStep(host: Int32, s: State, e: Event)
    requires Inv(host, s) && Enabled(host, s, e) && !Loses(e) && Alive(s) == s.sent
    ensures Alive(Next(host, s, e)) == Next(host, s, e).sent
  {
    match e {
      case Send(m, padding, lost) => SendKeeps(host, s, m, padding, lost);
      case Poll => AliveAfterPoll(host, s);
      case Work => AliveAfterWork(host, s);
      case _ =>
    }
  }

  /** A wire that loses nothing: every mail sent is read, in a box, or on its way, in the order sent. */
  lemma {:induction false} ReliableRun(host: Int32, numBoxes: nat, run: seq<State>, events: seq<Event>, n: nat)
    requires IsRun(host, run, events) && run[0] == Initial(numBoxes) && n < |run|
    requires forall i :: 0 <= i < |events| ==> !Loses(events[i])
    ensures Alive(run[n]) == run[n].sent
  {
    if n > 0 {
      ReliableRun(host, numBoxes, run, events, n - 1);
      RunKeeps(host, numBoxes, run, events, n - 1);
      ReliableStep(host, run[n - 1], events[n - 1]);
    }
  }

  // ---------- What each step does ----------

  /** The worker's three steps: P, which takes the unit or sleeps; Receive, which empties the buffer; and Put, which
      adds the mail at the end of its box and changes no other box. */
  lemma WorkEffect(host: Int32, s: State)
    requires Inv(host, s) && Enabled(host, s, Work)
    ensures var s' := Next(host, s, Work); s'.wire == s.wire && s'.read == s.read && s'.sent == s.sent && |s'.boxes| == |s.boxes|
    ensures var s' := Next(host, s, Work);
      match s.worker
      case InP =>
        && s'.boxes == s.boxes && s'.inHdr == s.inHdr && s'.inbox == s.inbox
        && if s.avail.value > 0 then s'.worker == Got && s'.avail.value == s.avail.value - 1
           else s'.worker == InP && WorkerId in s'.avail.queue
      case Got =>
        s'.worker == Holding(s.inHdr, s.inbox) && s'.inHdr.length == 0 && s'.avail == s.avail && s'.boxes == s.boxes
      case Holding(hdr, buffer) =>
        && s'.inHdr == s.inHdr && s'.inbox == s.inbox && s'.avail == s.avail
        && var m := Opened(hdr, buffer);
        if m.mailHdr.to < |s.boxes| then
          && s'.worker == InP && s'.came == s.came + [m]
          && (forall b :: 0 <= b < |s.boxes| ==> s'.boxes[b] == if b == m.mailHdr.to then s.boxes[b] + [m] else s.boxes[b])
        else s'.worker == s.worker && s'.boxes == s.boxes
  {
  }

  /** The poll takes the first packet off the wire and does V, if the buffer is free; otherwise it does nothing. */
  lemma PollEffect(host: Int32, s: State)
    requires Inv(host, s)
    ensures var s' := Next(host, s, Poll);
      if Full(s) || s.wire == [] then s' == s
      else && s'.inHdr == HeaderOf(s.wire[0]) && s'.inbox == Contents(s.wire[0]) && Full(s') && s'.wire == s.wire[1..]
           && s'.avail.value == s.avail.value + 1 && WorkerId !in s'.avail.queue && s'.worker == s.worker && s'.boxes == s.boxes
  {
    if s.wire != [] {
      assert WireOk(host, s.wire[0]);
    }
  }

  /** A reader gets the first mail of its box, and no other box changes. */
  lemma ReadEffect(host: Int32, s: State, box: nat)
    requires Inv(host, s) && Enabled(host, s, Read(box))
    ensures var s' := Next(host, s, Read(box));
      && |s'.read| == |s.read| && |s'.boxes| == |s.boxes|
      && s'.read[box] == s.read[box] + [s.boxes[box][0]] && s.boxes[box] == [s.boxes[box][0]] + s'.boxes[box]
      && forall b :: 0 <= b < |s.boxes| && b != box ==> s'.read[b] == s.read[b] && s'.boxes[b] == s.boxes[b]
  {
  }

  /** A packet that is sent goes to the end of the wire, unless it is lost; one that is lost later leaves no trace. */
  lemma WireEffect(host: Int32, s: State, e: Event)
    requires Enabled(host, s, e) && (e.Send? || e.Lose?)
    ensures var s' := Next(host, s, e);
      && s'.boxes == s.boxes && s'.read == s.read && s'.worker == s.worker && s'.inHdr == s.inHdr && s'.inbox == s.inbox
      && if e.Lose? then |s'.wire| == |s.wire| - 1 && (forall k :: 0 <= k < |s'.wire| ==> s'.wire[k] == s.wire[if k < e.i then k else k + 1])
         else if e.lost then s'.wire == s.wire
         else |s'.wire| == |s.wire| + 1 && s.wire <= s'.wire && Taken(s'.wire[|s.wire|]) == e.m
  {
    if e.Send? {
      WireIsOk(host, e.m, e.padding);
    }
  }

  /** Left alone, a packet at the front of the wire is in its box after one poll and three steps of the worker. */
  lemma FourStepsDeliver(host: Int32, s: State)
    requires Inv(host, s) && !Full(s) && s.worker.InP? && s.wire != [] && Taken(s.wire[0]).mailHdr.to < |s.boxes|
    ensures var m := Taken(s.wire[0]); var s1 := Next(host, s, Poll);
      && Enabled(host, s1, Work) && var s2 := Next(host, s1, Work);
      && Enabled(host, s2, Work) && var s3 := Next(host, s2, Work);
      && Enabled(host, s3, Work) && var s4 := Next(host, s3, Work);
      && s4.wire == s.wire[1..] && !Full(s4) && s4.worker.InP? && 0 <= m.mailHdr.to
      && s4.boxes == s.boxes[m.mailHdr.to := s.boxes[m.mailHdr.to] + [m]]
  {
    assert WireOk(host, s.wire[0]);
    PollKeeps(host, s);
    PollEffect(host, s);
    var s1 := PollStep(s);
    WorkKeeps(host, s1);
    WorkEffect(host, s1);
    var s2 := WorkStep(s1);
    WorkKeeps(host, s2);
    WorkEffect(host, s2);
  }

  /** The mails of the Send events, and the number of Read events of a box. */
  function SentIn(events: seq<Event>, n: nat): seq<Mail>
    requires n <= |events|
  {
    if n == 0 then [] else SentIn(events, n - 1) + if events[n - 1].Send? then [events[n - 1].m] else []
  }

  function ReadsIn(events: seq<Event>, n: nat, box: nat): nat
    requires n <= |events|
  {
    if n == 0 then 0 else ReadsIn(events, n - 1, box) + if events[n - 1] == Read(box) then 1 else 0
  }

  lemma LogsNext(host: Int32, s: State, e: Event, box: nat)
    requires Inv(host, s) && Enabled(host, s, e) && box < |s.boxes|
    ensures var s' := Next(host, s, e);
      && s'.sent == s.sent + (if e.Send? then [e.m] else [])
      && |s'.read| == |s.read| && |s'.read[box]| == |s.read[box]| + if e == Read(box) then 1 else 0
  {
  }

  /** The logs are those of the run: `sent` has the mails of all Send events, in order, and every Read event has
      got a mail. */
  lemma {:induction false} LogsAreEvents(host: Int32, numBoxes: nat, run: seq<State>, events: seq<Event>, n: nat, box: nat)
    requires IsRun(host, run, events) && run[0] == Initial(numBoxes) && n < |run| && box < numBoxes
    ensures run[n].sent == SentIn(events, n) && |run[n].read| == numBoxes && |run[n].read[box]| == ReadsIn(events, n, box)
  {
    if n > 0 {
      LogsAreEvents(host, numBoxes, run, events, n - 1, box);
      RunKeeps(host, numBoxes, run, events, n - 1);
      LogsNext(host, run[n - 1], events[n - 1], box);
    }
  }

  // ---------- The network input's buffer ----------

  /** NetworkInput: one packet at a time, in a fixed buffer. */
  class NetworkInput {
    const host: Int32
    var inHdr: Header
    const inbox: array<Byte>

    ghost predicate Valid()
      reads this, inbox
    {
      inbox.Length == MaxPacketSize && 0 <= inHdr.length <= MaxPacketSize
    }

    /** The buffered packet's bytes. */
    ghost function Buffer(): seq<Byte>
      requires Valid()
      reads this, inbox
    {
      inbox[..inHdr.length]
    }

    constructor (host: Int32)
      ensures Valid() && inHdr.length == 0 && fresh(inbox) && this.host == host
    {
      this.host, inHdr := host, Header(0, 0, 0);
      inbox := new Byte[MaxPacketSize](_ => 0);
    }

    /** The poll: takes a packet off the wire only if none is buffered. */
    method CallBack(polled: Option<Wire>) returns (arrived: bool)
      requires Valid()
      requires inHdr.length == 0 && polled.Some? ==>
        var h := HeaderOf(polled.value); h.to == host && 0 < h.length <= MaxPacketSize
      modifies this, inbox
      ensures Valid() && (arrived <==> old(inHdr).length == 0 && polled.Some?)
      ensures arrived ==> inHdr == HeaderOf(polled.value) && Buffer() == Contents(polled.value)
      ensures !arrived ==> inHdr == old(inHdr) && Buffer() == old(Buffer())
    {
      if inHdr.length != 0 || polled.None? {
        return false;
      }
      var buffer := polled.value;
      inHdr := HeaderOf(buffer);
      for k := 0 to inHdr.length
        invariant Valid() && inHdr == HeaderOf(buffer)
        invariant inbox[..k] == buffer[HeaderSize..HeaderSize + k]
      {
        inbox[k] := buffer[HeaderSize + k];
      }
      return true;
    }

    /** Empties the buffer. */
    method Receive() returns (hdr: Header, data: seq<Byte>)
      requires Valid()
      modifies this
      ensures Valid() && inHdr == old(inHdr).(length := 0)
      ensures hdr == old(inHdr) && data == old(Buffer())
    {
      hdr := inHdr;
      data := inbox[..hdr.length];
      inHdr := inHdr.(length := 0);
    }
  }
}
