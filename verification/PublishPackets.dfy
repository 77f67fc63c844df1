/** The PUBLISH packet: written with owned properties, read back as a view of the received bytes. */
module PublishPackets {
  import opened Bits
  import opened Options
  import opened VarInt
  import opened PropertyCodec
  import opened PropertyLists
  import opened PublishHeaders
  import Memory

  const WORD: nat := 0x1_0000_0000

  datatype Publish = Publish(flags: byte, topic: seq<byte>, id: nat, props: seq<Property>, payload: seq<byte>)

  /** What the reader holds of a packet. Without an identifier in the packet its field is left as it was. */
  datatype View = View(flags: byte, topic: seq<byte>, id: Maybe<nat>, block: seq<byte>, payload: seq<byte>)

  predicate Sendable(p: Publish)
  {
    && |p.topic| < 0x10000 && p.id < 0x10000
    && Writable(p.props) && |EncodeList(p.props)| <= MAX_POSSIBLE
  }

  function EncodeFixed(flags: byte, topic: seq<byte>, id: nat): (b: seq<byte>)
    requires |topic| < 0x10000 && id < 0x10000
    ensures |b| == |topic| + 2 + if HasPacketID(flags) then 2 else 0
  {
    EncodeData(topic) + if HasPacketID(flags) then BE2(id) else []
  }

  /** Everything behind the remaining length. */
  function Body(p: Publish): seq<byte>
    requires Sendable(p)
  {
    EncodeFixed(p.flags, p.topic, p.id) + EncodeProperties(p.props) + p.payload
  }

  /** The packet: a body too long for a remaining length goes out without one. */
  function EncodePublish(p: Publish): seq<byte>
    requires Sendable(p)
  {
    [p.flags] + RemainingLength(|Body(p)|) + Body(p)
  }

  function RemainingLength(n: nat): seq<byte>
  {
    if n <= MAX_POSSIBLE then Encode(n) else []
  }

  /** The fields a reader should end up with. */
  function ViewOf(p: Publish): View
    requires Sendable(p)
  {
    View(p.flags, p.topic, if HasPacketID(p.flags) then Just(p.id) else Nothing, EncodeList(p.props), p.payload)
  }

  // ----- reading -----

  function ReadFixed(flags: byte, b: seq<byte>): (r: (Read, seq<byte>, Maybe<nat>))
    ensures r.0.Used? ==> r.0.n <= |b| && r.0.n == |r.1| + 2 + if HasPacketID(flags) then 2 else 0
  {
    var (o, topic) := ReadData(b);
    if !o.Used? then (o, [], Nothing)
    else if !HasPacketID(flags) then (o, topic, Nothing)
    else if |b| - o.n < 2 then (NotEnoughData, [], Nothing)
    else (Used(o.n + 2), topic, Just(ReadBE2(b[o.n..])))
  }

  /** The payload size left by the remaining length, in the 32-bit arithmetic of the source. */
  function PayloadSize(remaining: nat, fixed: nat, props: nat): (n: nat)
    ensures remaining < WORD ==> n < WORD
  {
    (remaining - fixed - props) % WORD
  }

  /** What is read behind the remaining length. */
  function ParseBody(flags: byte, remaining: nat, b: seq<byte>): (r: (Read, View))
    ensures r.0.Used? ==> r.0.n <= |b|
  {
    var none := View(0, [], Nothing, [], []);
    var (f, topic, id) := ReadFixed(flags, b);
    if !f.Used? then (f, none)
    else
      var afterFixed := b[f.n..];
      var v := ReadView(afterFixed);
      if !v.Used? then (v, none)
      else
        var n, afterProps := PayloadSize(remaining, f.n, v.n), afterFixed[v.n..];
        if |afterProps| < n then (NotEnoughData, none)
        else
          (Used(f.n + v.n + n),
           View(flags, topic, id, afterFixed[Extent(afterFixed, 0).n..v.n], afterProps[..n]))
  }

  function ParsePublish(b: seq<byte>): (r: (Read, View))
    ensures r.0.Used? ==> r.0.n <= |b|
  {
    var none := View(0, [], Nothing, [], []);
    if |b| < 2 then (NotEnoughData, none)
    else
      var e := Extent(b[1..], 0);
      if !e.Used? then (e, none)
      else
        var remaining, afterLength := Value(b[1..][..e.n]), b[1..][e.n..];
        if |afterLength| < remaining then (NotEnoughData, none)
        else
          var (r, view) := ParseBody(b[0], remaining, afterLength);
          (if r.Used? then Used(1 + e.n + r.n) else r, view)
  }

  lemma FixedReads(flags: byte, topic: seq<byte>, id: nat, rest: seq<byte>)
    requires |topic| < 0x10000 && id < 0x10000
    ensures ReadFixed(flags, EncodeFixed(flags, topic, id) + rest)
         == (Used(|EncodeFixed(flags, topic, id)|), topic, if HasPacketID(flags) then Just(id) else Nothing)
  {
    hide EncodeData, ReadData, HasPacketID;
    var b := EncodeFixed(flags, topic, id) + rest;
    var tail := (if HasPacketID(flags) then BE2(id) else []) + rest;
    assert b == EncodeData(topic) + tail;
    DataReads(topic, tail);
    assert b[|topic| + 2..] == tail;
    WordReads(id, rest);
  }

  lemma BodyReads(p: Publish, rest: seq<byte>)
    requires Sendable(p) && AllTyped(p.props) && |Body(p)| < WORD
    ensures ParseBody(p.flags, |Body(p)|, Body(p) + rest) == (Used(|Body(p)|), ViewOf(p))
  {
    var fixed, props := EncodeFixed(p.flags, p.topic, p.id), EncodeProperties(p.props);
    hide EncodeFixed, EncodeProperties, EncodeList, Extent, ReadFixed, ReadView, HasPacketID, Writable, AllTyped,
      ParseBody;
    var tail := p.payload + rest;
    FixedReads(p.flags, p.topic, p.id, props + tail);
    PropertiesViewed(p.props, tail);
    BlockOf(p.props, tail);
    Memory.Regroup(fixed + props, p.payload, rest);
    Memory.Regroup(fixed, props, tail);
    Memory.Behind(fixed, props + tail);
    PartsParse(p.flags, |Body(p)|, Body(p) + rest, fixed, props, p.payload, rest);
  }

  /** A body made of three parts is parsed part by part. */
  lemma PartsParse(flags: byte, remaining: nat, b: seq<byte>, fixed: seq<byte>, props: seq<byte>, payload: seq<byte>,
                   rest: seq<byte>)
    requires remaining == |fixed| + |props| + |payload| < WORD
    requires b == fixed + (props + (payload + rest)) && b[|fixed|..] == props + (payload + rest)
    requires ReadFixed(flags, b).0 == Used(|fixed|) && ReadView(props + (payload + rest)) == Used(|props|)
    ensures ParseBody(flags, remaining, b)
         == (Used(remaining), View(flags, ReadFixed(flags, b).1, ReadFixed(flags, b).2,
                                   (props + (payload + rest))[Extent(props + (payload + rest), 0).n..|props|], payload))
  {
    hide Extent, ReadFixed, ReadView, HasPacketID, PayloadSize;
    var tail := payload + rest;
    PayloadLeft(|fixed|, |props|, |payload|);
    assert (props + tail)[|props|..] == tail && tail[..|payload|] == payload;
  }

  lemma PayloadLeft(fixed: nat, props: nat, n: nat)
    requires n < WORD
    ensures PayloadSize(fixed + props + n, fixed, props) == n
  {
  }

  /** A packet within the size limit is read back, whatever follows it: the same fields, the same number of bytes. */
  lemma WithinLimitReads(p: Publish, rest: seq<byte>)
    requires Sendable(p) && AllTyped(p.props) && |Body(p)| <= MAX_POSSIBLE
    ensures ParsePublish(EncodePublish(p) + rest) == (Used(|EncodePublish(p)|), ViewOf(p))
  {
    hide Body, ParseBody, ViewOf, Sendable, AllTyped, Encode, Extent, Value;
    var body := Body(p);
    var head := Encode(|body|);
    var b := EncodePublish(p) + rest;
    assert b[0] == p.flags && b[1..] == head + (body + rest);
    RoundTrip(|body|, body + rest);
    assert b[1..][|head|..] == body + rest;
    BodyReads(p, rest);
  }

  lemma BlockOf(ps: seq<Property>, rest: seq<byte>)
    requires Writable(ps)
    ensures (EncodeProperties(ps) + rest)[|EncodeProperties(ps)| - |EncodeList(ps)|..|EncodeProperties(ps)|]
      == EncodeList(ps)
  {
    hide EncodeList, Encode;
  }

  /** An encoding on the wire is at least as long as the shortest one. */
  lemma HeaderAtLeast(b: seq<byte>)
    requires Extent(b, 0).Used?
    ensures Value(b[..Extent(b, 0).n]) <= MAX_POSSIBLE
    ensures |Encode(Value(b[..Extent(b, 0).n]))| <= Extent(b, 0).n
  {
    ExtentPrefix(b, 0);
    Minimal(b[..Extent(b, 0).n]);
    EncodeLength(Value(b[..Extent(b, 0).n]));
  }

  /** A packet is read back with the same fields exactly when its body is within the size limit: a longer one has no
      remaining length, and no packet of that size can be announced by the bytes that stand in its place. */
  lemma PublishRoundTrips(p: Publish, rest: seq<byte>)
    requires Sendable(p) && AllTyped(p.props) && |EncodePublish(p) + rest| < WORD
    ensures ParsePublish(EncodePublish(p) + rest) == (Used(|EncodePublish(p)|), ViewOf(p)) <==>
      |Body(p)| <= MAX_POSSIBLE
    ensures Shown(Visit(ViewOf(p).block)) == p.props
  {
    hide ParsePublish, Body, BodySize, AllTyped, Visit, Shown, EncodeList;
    ListShown(p.props);
    if |Body(p)| <= MAX_POSSIBLE {
      WithinLimitReads(p, rest);
    } else {
      BodySizeOf(p);
      if ParsePublish(EncodePublish(p) + rest).0.Used? {
        ReadIsWithinLimit(EncodePublish(p) + rest);
      }
    }
  }

  /** The number of bytes the fields of a packet take behind its remaining length. */
  function BodySize(v: View): nat
  {
    |v.topic| + 2 + (if HasPacketID(v.flags) then 2 else 0) + |Encode(|v.block|)| + |v.block| + |v.payload|
  }

  lemma BodySizeOf(p: Publish)
    requires Sendable(p)
    ensures BodySize(ViewOf(p)) == |Body(p)|
  {
  }

  /** The 32-bit subtraction did not wrap if the payload it asks for is there. */
  lemma NoWrap(remaining: nat, fixed: nat, props: nat, behind: nat)
    requires fixed + props + behind < WORD && remaining < WORD && PayloadSize(remaining, fixed, props) <= behind
    ensures fixed + props + PayloadSize(remaining, fixed, props) == remaining
  {
  }

  /** Whatever is read, from any bytes, has a body within the size limit. */
  lemma ReadIsWithinLimit(b: seq<byte>)
    requires |b| < WORD && ParsePublish(b).0.Used?
    ensures BodySize(ParsePublish(b).1) <= MAX_POSSIBLE
  {
    hide Encode, Extent, Value, ReadFixed, HasPacketID, PayloadSize;
    var e := Extent(b[1..], 0);
    HeaderAtLeast(b[1..]);
    var remaining, afterLength := Value(b[1..][..e.n]), b[1..][e.n..];
    var f := ReadFixed(b[0], afterLength).0;
    var afterFixed := afterLength[f.n..];
    HeaderAtLeast(afterFixed);
    var v := ReadView(afterFixed);
    NoWrap(remaining, f.n, v.n, |afterFixed| - v.n);
  }

  /** The parts of a body, each where its field says: topic, identifier, length of the properties, properties,
      payload. */
  ghost predicate BodyLaid(b: seq<byte>, v: View, fixed: seq<byte>, count: seq<byte>)
  {
    && b == fixed + (count + v.block) + v.payload
    && Counts(count, v.block)
    && |v.topic| < 0x10000
    && match v.id
       case Nothing => FieldsOf(v.flags).qos == 0 && fixed == EncodeData(v.topic)
       case Just(id) => FieldsOf(v.flags).qos > 0 && id < 0x10000 && fixed == EncodeData(v.topic) + BE2(id)
  }

  lemma FixedLaid(flags: byte, b: seq<byte>)
    requires ReadFixed(flags, b).0.Used?
    ensures var (Used(n), topic, id) := ReadFixed(flags, b);
      && |topic| < 0x10000
      && match id
         case Nothing => !HasPacketID(flags) && b[..n] == EncodeData(topic)
         case Just(x) => HasPacketID(flags) && x < 0x10000 && b[..n] == EncodeData(topic) + BE2(x)
  {
    hide EncodeData, ReadData, HasPacketID, BE2, ReadBE2;
    DataAccepted(b);
    var o := ReadData(b).0.n;
    if HasPacketID(flags) {
      WordsAccepted(b[o..]);
      assert b[..o + 2] == b[..o] + b[o..][..2];
    }
  }

  lemma BodyTiles(flags: byte, remaining: nat, b: seq<byte>) returns (fixed: seq<byte>, count: seq<byte>)
    requires |b| < WORD && remaining < WORD && ParseBody(flags, remaining, b).0.Used?
    ensures ParseBody(flags, remaining, b).0.n == remaining && ParseBody(flags, remaining, b).1.flags == flags
    ensures BodyLaid(b[..remaining], ParseBody(flags, remaining, b).1, fixed, count)
  {
    hide Value, HasPacketID, ReadFixed, ReadView, EncodeData, BE2, PayloadSize, FieldsOf, Counts, Extent;
    var f := ReadFixed(flags, b).0.n;
    fixed := b[..f];
    FixedLaid(flags, b);
    FieldTests(flags);
    var block;
    count, block := PropertiesTile(b[f..]);
    var v := ReadView(b[f..]).n;
    var n := PayloadSize(remaining, f, v);
    NoWrap(remaining, f, v, |b| - f - v);
    BlockShown(b[f..], count, block);
    Memory.NextPart(b, f, v);
    Memory.NextPart(b, f + v, n);
    Memory.Further(b, f, v);
  }

  /** The converse of the round trip: whatever bytes are read as a packet are the header byte, a remaining length and a
      body of that many bytes, laid out as the view shows it. */
  lemma PublishTiles(b: seq<byte>) returns (head: seq<byte>, body: seq<byte>, fixed: seq<byte>, count: seq<byte>)
    requires |b| < WORD && ParsePublish(b).0.Used?
    ensures var (Used(n), v) := ParsePublish(b);
      b[..n] == [v.flags] + head + body && Counts(head, body) && BodyLaid(body, v, fixed, count)
  {
    hide Value, ParseBody, BodyLaid, Extent;
    var e := Extent(b[1..], 0).n;
    head := b[1..][..e];
    HeaderAtLeast(b[1..]);
    HeadCounts(b[1..]);
    var rest := b[1..][e..];
    fixed, count := BodyTiles(b[0], Value(head), rest);
    body := rest[..Value(head)];
    Memory.NextPart(b, 1, e);
    Memory.NextPart(b, 1 + e, |body|);
    Memory.Further(b, 1, e);
  }

  lemma HeadCounts(b: seq<byte>)
    requires Extent(b, 0).Used?
    ensures Extent(b[..Extent(b, 0).n], 0) == Used(|b[..Extent(b, 0).n]|)
  {
    ExtentTake(b, 0);
  }

  /** The block of a view is what its header counts. */
  lemma BlockShown(b: seq<byte>, count: seq<byte>, block: seq<byte>)
    requires ReadView(b).Used? && Counts(count, block) && b[..ReadView(b).n] == count + block
    ensures Extent(b, 0).Used? && Extent(b, 0).n <= ReadView(b).n && b[Extent(b, 0).n..ReadView(b).n] == block
  {
    hide Value;
    var n := ReadView(b).n;
    assert b[..n][..|count|] == count;
    SameExtent(b, b[..n], count);
    assert b[..n][|count|..] == block;
    assert b[|count|..n] == b[..n][|count|..];
  }

  /** Two buffers that begin with a whole header have the same one. */
  lemma {:induction false} SameExtent(b: seq<byte>, c: seq<byte>, head: seq<byte>)
    requires Extent(head, 0) == Used(|head|) && |head| <= |b| && b[..|head|] == head
    ensures Extent(b, 0) == Used(|head|)
  {
    ExtentGoesOn(head, b, 0);
  }

  lemma {:induction false} ExtentGoesOn(head: seq<byte>, b: seq<byte>, i: nat)
    requires i < 4 && Extent(head, i).Used? && |head| <= |b| && b[..|head|] == head
    ensures Extent(b, i) == Extent(head, i)
    decreases 4 - i
  {
    assert b[i] == head[i];
    if head[i] >= 128 {
      ExtentGoesOn(head, b, i + 1);
    }
  }

  /** A packet that stops short asks for more, wherever it is cut. */
  lemma PublishTruncated(p: Publish, k: nat)
    requires Sendable(p) && |Body(p)| <= MAX_POSSIBLE && k < |EncodePublish(p)|
    ensures ParsePublish(EncodePublish(p)[..k]).0 == NotEnoughData
  {
    hide Body, ParseBody, Encode, Extent, Value;
    var body := Body(p);
    var head := Encode(|body|);
    var b := EncodePublish(p)[..k];
    if k >= 2 {
      Memory.Regroup([p.flags], head, body);
      Memory.Cut([p.flags], head + body, k);
      Memory.Cut(head, body, k - 1);
      if k - 1 < |head| {
        PartialEncode(|body|, k - 1);
      } else {
        RoundTrip(|body|, body[..k - 1 - |head|]);
      }
    }
  }

  /** The view of a written packet, field by field. */
  lemma ViewedFields(p: Publish)
    requires Sendable(p)
    ensures var v := ViewOf(p);
      && v.flags == p.flags && v.topic == p.topic && v.payload == p.payload && v.block == EncodeList(p.props)
      && (v.id.Just? <==> FieldsOf(p.flags).qos > 0) && (v.id.Just? ==> v.id.value == p.id)
  {
    FieldTests(p.flags);
  }

  // ----- the packets -----

  /** ControlPacket<PUBLISH>: the packet an application fills and the client sends. */
  class PublishPacket {
    var typeAndFlags: byte
    const remLength: VBInt
    var topicName: seq<byte>
    var packetID: nat
    const props: Properties
    var payload: seq<byte>

    ghost predicate Valid()
      reads this, remLength, props, props.length, props.length.value
    {
      && remLength.Valid() && props.Valid()
      && |topicName| < 0x10000 && packetID < 0x10000
    }

    ghost function Contents(): (p: Publish)
      requires Valid()
      reads this, remLength, props, props.length, props.length.value
      ensures Sendable(p)
    {
      Publish(typeAndFlags, topicName, packetID, props.list, payload)
    }

    constructor ()
      ensures Valid() && remLength.Bytes() == Encode(0)
      ensures fresh(remLength) && fresh(remLength.value) && fresh(props) && fresh(props.length)
        && fresh(props.length.value)
      ensures remLength != props.length && remLength.value != props.length.value
      ensures Contents() == Publish(0x30, [], 0, [], [])
    {
      typeAndFlags, topicName, packetID, payload := 0x30, [], 0, [];
      remLength := new VBInt();
      props := new Properties();
    }

    method SetDup(e: bool)
      modifies this`typeAndFlags
      ensures FieldsOf(typeAndFlags) == FieldsOf(old(typeAndFlags)).(dup := e)
    {
      WithDup(typeAndFlags, e);
      typeAndFlags := Or(And(typeAndFlags, 0xF7), if e then 8 else 0);
    }

    method SetRetain(e: bool)
      modifies this`typeAndFlags
      ensures FieldsOf(typeAndFlags) == FieldsOf(old(typeAndFlags)).(retain := e)
    {
      WithRetain(typeAndFlags, e);
      typeAndFlags := Or(And(typeAndFlags, 0xFE), if e then 1 else 0);
    }

    method SetQoS(e: nat)
      modifies this`typeAndFlags
      ensures FieldsOf(typeAndFlags) == FieldsOf(old(typeAndFlags)).(qos := if e < 3 then e else 0)
    {
      WithQoS(typeAndFlags, if e < 3 then e else 0);
      typeAndFlags := Or(And(typeAndFlags, 0xF9), if e < 3 then e * 2 else 0);
    }

    /** What publish fills in: the header of a first sending, and the fields. */
    method Fill(retain: bool, qos: nat, topic: seq<byte>, data: seq<byte>, freshId: nat)
      requires Valid() && typeAndFlags == 0x30 && qos < 3 && |topic| < 0x10000 && freshId < 0x10000
      modifies this
      ensures Valid() && FieldsOf(typeAndFlags) == HeaderFields(3, false, qos, retain)
      ensures Contents() == Publish(typeAndFlags, topic, if qos > 0 then freshId else 0, old(props.list), data)
    {
      SetRetain(retain);
      SetQoS(qos);
      SetDup(false);
      topicName, payload, packetID := topic, data, if qos > 0 then freshId else 0;
    }

    function FixedSize(): nat
      reads this
    {
      |topicName| + 2 + if HasPacketID(typeAndFlags) then 2 else 0
    }

    /** computePacketSize: sets the remaining length and returns the size of the packet, or the size of the payload the
        remaining length leaves. Sizes are 32 bits wide. */
    method ComputePacketSize(includePayload: bool) returns (n: nat)
      requires Valid() && |Body(Contents())| < WORD
      requires remLength != props.length && remLength.value != props.length.value
      modifies remLength, remLength.value
      ensures Valid() && Contents() == old(Contents())
      ensures includePayload ==>
        n == |EncodePublish(Contents())| && remLength.Bytes() == RemainingLength(|Body(Contents())|)
      ensures !includePayload ==> n == PayloadSize(remLength.Get(), FixedSize(), |EncodeProperties(props.list)|)
      ensures !includePayload ==> remLength.Bytes() == old(remLength.Bytes())
    {
      hide Encode, Decoded, HasPacketID, EncodeList;
      HoldsEncoding(props.length.value[..], props.length.size, |EncodeList(props.list)|);
      if includePayload {
        var o := FixedSize() + props.GetSize() + |payload|;
        remLength.Assign(o);
        n := o + 1 + remLength.GetSize();
      } else {
        n := PayloadSize(remLength.Get(), FixedSize(), props.GetSize());
      }
    }

    /** copyInto of the variable header. */
    method CopyFixed(buffer: array<byte>, at: nat) returns (o: nat)
      requires |topicName| < 0x10000 && packetID < 0x10000 && at + FixedSize() <= buffer.Length
      modifies buffer
      ensures o == FixedSize()
      ensures buffer[..] == Memory.Overwritten(old(buffer[..]), at, EncodeFixed(typeAndFlags, topicName, packetID))
    {
      hide EncodeData, BE2, HasPacketID, Memory.Overwritten;
      ghost var was := buffer[..];
      Memory.Copy(buffer, at, EncodeData(topicName));
      o := |topicName| + 2;
      if HasPacketID(typeAndFlags) {
        Memory.Copy(buffer, at + o, BE2(packetID));
        Memory.OverwrittenTwice(was, at, EncodeData(topicName), BE2(packetID));
        o := o + 2;
      } else {
        assert EncodeData(topicName) + [] == EncodeData(topicName);
      }
    }

    /** copyInto: the remaining length is written as it was last computed. */
    method CopyInto(buffer: array<byte>) returns (o: nat)
      requires Valid() && buffer != remLength.value && buffer != props.length.value
      requires 1 + remLength.size + |Body(Contents())| <= buffer.Length
      modifies buffer
      ensures o == 1 + remLength.size + |Body(Contents())|
      ensures buffer[..]
           == Memory.Overwritten(old(buffer[..]), 0, [typeAndFlags] + remLength.Bytes() + Body(Contents()))
    {
      hide Encode, Memory.Overwritten, Body;
      ghost var was, rem, body := buffer[..], remLength.Bytes(), Body(Contents());
      Memory.Copy(buffer, 0, [typeAndFlags]);
      o := 1;
      var n := remLength.CopyInto(buffer, o);
      Memory.OverwrittenTwice(was, 0, [typeAndFlags], rem);
      o := o + n;
      ghost var head := buffer[..];
      n := CopyBody(buffer, o);
      assert buffer[..] == Memory.Overwritten(head, o, body);
      Memory.OverwrittenTwice(was, 0, [typeAndFlags] + rem, body);
      o := o + n;
    }

    /** The rest of copyInto: variable header, properties and payload. */
    method CopyBody(buffer: array<byte>, at: nat) returns (o: nat)
      requires Valid() && buffer != props.length.value && at + |Body(Contents())| <= buffer.Length
      modifies buffer
      ensures o == |Body(Contents())|
      ensures buffer[..] == Memory.Overwritten(old(buffer[..]), at, Body(Contents()))
    {
      hide Encode, EncodeProperties, EncodeFixed, EncodeList, EncodeData, HasPacketID, Decoded, And, Memory.Overwritten;
      ghost var was := buffer[..];
      ghost var fixed, properties := EncodeFixed(typeAndFlags, topicName, packetID), EncodeProperties(props.list);
      o := CopyFixed(buffer, at);
      var n := props.CopyInto(buffer, at + o);
      Memory.OverwrittenTwice(was, at, fixed, properties);
      o := o + n;
      Memory.Copy(buffer, at + o, payload);
      Memory.OverwrittenTwice(was, at, fixed + properties, payload);
      o := o + |payload|;
    }
  }

  /** ROPublishPacket: the packet a client receives, mapped on the receive buffer. */
  class ROPublishPacket {
    var typeAndFlags: byte
    const remLength: VBInt
    var topicName: seq<byte>
    var packetID: Maybe<nat>
    const props: PropertiesView
    var payload: seq<byte>

    ghost predicate Shape()
      reads this, remLength, props, props.length
    {
      remLength.Valid() && props.Shape() && remLength != props.length && remLength.value != props.length.value
    }

    constructor ()
      ensures Shape()
      ensures fresh(remLength) && fresh(remLength.value) && fresh(props) && fresh(props.length)
        && fresh(props.length.value)
    {
      typeAndFlags, topicName, packetID, payload := 0x30, [], Nothing, [];
      remLength := new VBInt();
      props := new PropertiesView();
    }

    /** readFrom: the header, then the fields it announces; the view of the properties stays inside the buffer. */
    method ReadFrom(buffer0: seq<byte>) returns (r: Read)
      requires Shape() && |buffer0| < WORD
      modifies this, remLength, remLength.value, props, props.length, props.length.value
      ensures Shape() && r == ParsePublish(buffer0).0
      ensures r.Used? ==>
        && props.Valid()
        && ParsePublish(buffer0).1 == View(typeAndFlags, topicName,
                                           if HasPacketID(typeAndFlags) then packetID else Nothing,
                                           props.Block(), payload)
    {
      hide Decoded, Value, HasPacketID, ReadView, EncodeList, ReadFixed, ReadData, ReadBE2, Extent;
      if |buffer0| < 2 {
        return NotEnoughData;
      }
      typeAndFlags := buffer0[0];
      var buffer := buffer0[1..];
      var s := remLength.ReadFrom(buffer);
      if !s.Used? {
        return s;
      }
      var o := 1 + s.n;
      buffer := buffer[s.n..];
      var expLength := remLength.Get();
      if |buffer| < expLength {
        return NotEnoughData;
      }
      ghost var body := buffer;
      FixedCases(typeAndFlags, buffer);
      var (f, topic) := ReadData(buffer);
      if !f.Used? {
        return f;
      }
      topicName := topic;
      var used := f.n;
      if HasPacketID(typeAndFlags) {
        if |buffer| - used < 2 {
          return NotEnoughData;
        }
        packetID := Just(ReadBE2(buffer[used..]));
        used := used + 2;
      }
      o, buffer := o + used, buffer[used..];
      s := props.ReadFrom(buffer);
      if !s.Used? {
        return s;
      }
      o, buffer := o + s.n, buffer[s.n..];
      var size := PayloadSize(expLength, used, s.n);
      if |buffer| < size {
        return NotEnoughData;
      }
      payload := buffer[..size];
      return Used(o + size);
    }
  }

  lemma FixedCases(flags: byte, b: seq<byte>)
    ensures !ReadData(b).0.Used? ==> ReadFixed(flags, b).0 == ReadData(b).0
    ensures ReadData(b).0.Used? && !HasPacketID(flags) ==>
      ReadFixed(flags, b) == (ReadData(b).0, ReadData(b).1, Nothing)
    ensures ReadData(b).0.Used? && HasPacketID(flags) ==>
      ReadFixed(flags, b) == if |b| - ReadData(b).0.n < 2 then (NotEnoughData, [], Nothing)
                             else (Used(ReadData(b).0.n + 2), ReadData(b).1, Just(ReadBE2(b[ReadData(b).0.n..])))
  {
  }
}
