/** The CONNECT payload: the client identifier and the optional fields the header flags announce. */
module ConnectPayloads {
  import opened Bits
  import opened VarInt
  import opened PropertyCodec
  import opened PropertyLists
  import Memory

  /** The flags of the CONNECT header that decide what the payload holds. */
  datatype Flags = Flags(will: bool, username: bool, password: bool)

  datatype Will = Will(props: seq<Property>, topic: seq<byte>, payload: seq<byte>)

  datatype Payload = Payload(clientID: seq<byte>, will: Will, username: seq<byte>, password: seq<byte>)

  predicate WillWritable(w: Will)
  {
    && Writable(w.props) && |EncodeList(w.props)| <= MAX_POSSIBLE
    && |w.topic| < 0x10000 && |w.payload| < 0x10000
  }

  function EncodeWill(w: Will): seq<byte>
    requires WillWritable(w)
  {
    EncodeProperties(w.props) + EncodeData(w.topic) + EncodeData(w.payload)
  }

  /** The fields that the flags ask for can be written. */
  predicate PayloadWritable(flags: Flags, p: Payload)
  {
    && |p.clientID| < 0x10000 && |p.username| < 0x10000 && |p.password| < 0x10000
    && (flags.will ==> WillWritable(p.will))
  }

  /** The bytes of a field that is there if its flag is set. */
  function Field(present: bool, d: seq<byte>): seq<byte>
    requires |d| < 0x10000
  {
    if present then EncodeData(d) else []
  }

  function EncodePayload(flags: Flags, p: Payload): seq<byte>
    requires PayloadWritable(flags, p)
  {
    EncodeData(p.clientID)
    + (if flags.will then EncodeWill(p.will) else [])
    + Field(flags.username, p.username)
    + Field(flags.password, p.password)
  }

  // ----- reading, in the order of the wire -----

  function ReadWill(b: seq<byte>): (r: (Read, Will))
    ensures r.0.Used? ==> r.0.n <= |b|
  {
    var none := Will([], [], []);
    var (s, props) := ReadProperties(b);
    if !s.Used? then (s, none)
    else
      var (t, topic) := ReadData(b[s.n..]);
      if !t.Used? then (t, none)
      else
        var (u, payload) := ReadData(b[s.n + t.n..]);
        if !u.Used? then (u, none) else (Used(s.n + t.n + u.n), Will(props, topic, payload))
  }

  /** A field that is there if its flag is set. */
  function ReadOptional(present: bool, b: seq<byte>): (r: (Read, seq<byte>))
    ensures r.0.Used? ==> r.0.n <= |b|
  {
    if present then ReadData(b) else (Used(0), [])
  }

  function ReadPayload(flags: Flags, b: seq<byte>): (r: (Read, Payload))
    ensures r.0.Used? ==> r.0.n <= |b|
  {
    var none := Payload([], Will([], [], []), [], []);
    var (s, clientID) := ReadData(b);
    if !s.Used? then (s, none)
    else
      var (t, will) := if flags.will then ReadWill(b[s.n..]) else (Used(0), none.will);
      if !t.Used? then (t, none)
      else
        var (u, username) := ReadOptional(flags.username, b[s.n + t.n..]);
        if !u.Used? then (u, none)
        else
          var (v, password) := ReadOptional(flags.password, b[s.n + t.n + u.n..]);
          if !v.Used? then (v, none)
          else (Used(s.n + t.n + u.n + v.n), Payload(clientID, will, username, password))
  }

  /** The fields the flags announce; the others are not on the wire. */
  function Announced(flags: Flags, p: Payload): Payload
  {
    Payload(p.clientID, if flags.will then p.will else Will([], [], []),
            if flags.username then p.username else [], if flags.password then p.password else [])
  }

  /** The fields that are read back, one by one, and the bytes each flag adds. */
  lemma AnnouncedFields(flags: Flags, p: Payload)
    requires PayloadWritable(flags, p)
    ensures var q := Announced(flags, p);
      && q.clientID == p.clientID && (flags.will ==> q.will == p.will)
      && (flags.username ==> q.username == p.username) && (flags.password ==> q.password == p.password)
    ensures |EncodePayload(flags, p)| == |p.clientID| + 2 + (if flags.will then |EncodeWill(p.will)| else 0)
      + (if flags.username then |p.username| + 2 else 0) + (if flags.password then |p.password| + 2 else 0)
  {
  }

  lemma NoField(d: seq<byte>)
    requires |d| < 0x10000
    ensures Field(false, d) == []
  {
  }

  lemma WillSample()
    ensures WillWritable(Will([], [0x74], [1, 2]))
    ensures EncodeWill(Will([], [0x74], [1, 2])) == [0, 0, 1, 0x74, 0, 2, 1, 2]
  {
    assert EncodeData([0x74]) == [0, 1, 0x74] && EncodeData([1, 2]) == [0, 2, 1, 2];
  }

  /** The bytes of a payload with every field: the will with its properties first, then topic and payload. */
  lemma PayloadSample()
    ensures EncodePayload(Flags(true, true, true), Payload([0x69], Will([], [0x74], [1, 2]), [0x75], [0x70, 0x77]))
         == [0, 1, 0x69, 0, 0, 1, 0x74, 0, 2, 1, 2, 0, 1, 0x75, 0, 2, 0x70, 0x77]
    ensures EncodePayload(Flags(false, false, true), Payload([], Will([], [], []), [0x75], [0x70]))
      == [0, 0, 0, 1, 0x70]
  {
    WillSample();
    assert Field(true, [0x75]) == [0, 1, 0x75] && Field(true, [0x70, 0x77]) == [0, 2, 0x70, 0x77];
    assert EncodeData([0x69]) == [0, 1, 0x69] && EncodeData([]) == [0, 0] && Field(true, [0x70]) == [0, 1, 0x70];
    hide EncodeData, EncodeWill, Field;
    assert Field(false, [0x75]) == [] by {
      NoField([0x75]);
    }
  }

  lemma WillReads(w: Will, rest: seq<byte>)
    requires WillWritable(w) && AllTyped(w.props)
    ensures ReadWill(EncodeWill(w) + rest) == (Used(|EncodeWill(w)|), w)
  {
    hide EncodeProperties, EncodeData, EncodeList, ReadProperties, ReadData, Writable, AllTyped;
    var props, topic, payload := EncodeProperties(w.props), EncodeData(w.topic), EncodeData(w.payload);
    var b, afterProps := EncodeWill(w) + rest, topic + (payload + rest);
    assert b == props + afterProps && b[|props|..] == afterProps && b[|props| + |topic|..] == payload + rest;
    PropertiesRead(w.props, afterProps);
    DataReads(w.topic, payload + rest);
    DataReads(w.payload, rest);
  }

  lemma OptionalReads(present: bool, d: seq<byte>, rest: seq<byte>)
    requires |d| < 0x10000
    ensures ReadOptional(present, Field(present, d) + rest) == (Used(|Field(present, d)|), if present then d else [])
  {
    if present {
      DataReads(d, rest);
    }
  }

  /** Where the fields of a payload begin. */
  lemma FieldOffsets(w: seq<byte>, x: seq<byte>, y: seq<byte>, z: seq<byte>, rest: seq<byte>)
    ensures var b := w + x + y + z + rest;
      && b == w + (x + (y + (z + rest))) && b[|w|..] == x + (y + (z + rest))
      && b[|w| + |x|..] == y + (z + rest) && b[|w| + |x| + |y|..] == z + rest
  {
    Memory.Regroup(w + x + y, z, rest);
    Memory.Regroup(w + x, y, z + rest);
    Memory.Regroup(w, x, y + (z + rest));
    Memory.Behind(w, x + (y + (z + rest)));
    Memory.Behind(w + x, y + (z + rest));
    Memory.Behind(w + x + y, z + rest);
  }

  /** Every announced field is read back, for every combination of flags and whatever follows; will properties come in
      the order of the wire, which is the reverse of the order the reader keeps them in. */
  lemma PayloadRoundTrips(flags: Flags, p: Payload, rest: seq<byte>)
    requires PayloadWritable(flags, p) && (flags.will ==> AllTyped(p.will.props))
    ensures ReadPayload(flags, EncodePayload(flags, p) + rest) == (Used(|EncodePayload(flags, p)|), Announced(flags, p))
  {
    hide EncodeData, EncodeWill, Field, ReadData, ReadWill, ReadOptional, AllTyped, WillWritable;
    var id := EncodeData(p.clientID);
    var will := if flags.will then EncodeWill(p.will) else [];
    var username, password := Field(flags.username, p.username), Field(flags.password, p.password);
    FieldOffsets(id, will, username, password, rest);
    DataReads(p.clientID, will + (username + (password + rest)));
    if flags.will {
      WillReads(p.will, username + (password + rest));
    }
    OptionalReads(flags.username, p.username, password + rest);
    OptionalReads(flags.password, p.password, rest);
  }

  /** The parts of a will message on the wire. */
  ghost predicate WillLaid(b: seq<byte>, w: Will, count: seq<byte>, block: seq<byte>)
  {
    && |w.topic| < 0x10000 && |w.payload| < 0x10000
    && Counts(count, block) && ReadAll(block) == (Used(|block|), w.props)
    && b == count + block + EncodeData(w.topic) + EncodeData(w.payload)
  }

  lemma WillTiles(b: seq<byte>) returns (count: seq<byte>, block: seq<byte>)
    requires ReadWill(b).0.Used?
    ensures WillLaid(b[..ReadWill(b).0.n], ReadWill(b).1, count, block)
  {
    hide ReadProperties, ReadData, ReadAll, EncodeData, ReadView, Counts;
    var s := ReadProperties(b).0.n;
    count, block := PropertiesTile(b);
    DataAccepted(b[s..]);
    var t := ReadData(b[s..]).0.n;
    DataAccepted(b[s + t..]);
    var u := ReadData(b[s + t..]).0.n;
    Memory.NextPart(b, s, t);
    Memory.NextPart(b, s + t, u);
  }

  lemma OptionalTiles(present: bool, b: seq<byte>)
    requires ReadOptional(present, b).0.Used?
    ensures var (Used(n), d) := ReadOptional(present, b);
      |d| < 0x10000 && b[..n] == Field(present, d)
  {
    if present {
      DataAccepted(b);
    }
  }

  /** The converse of the round trip: whatever bytes are read as a payload are the fields it shows, in their order, and
      nothing for a field that is not announced. */
  lemma PayloadTiles(flags: Flags, b: seq<byte>) returns (will: seq<byte>, count: seq<byte>, block: seq<byte>)
    requires ReadPayload(flags, b).0.Used?
    ensures var (Used(n), p) := ReadPayload(flags, b);
      && |p.clientID| < 0x10000 && |p.username| < 0x10000 && |p.password| < 0x10000
      && b[..n] == EncodeData(p.clientID) + will + Field(flags.username, p.username) + Field(flags.password, p.password)
      && (if flags.will then WillLaid(will, p.will, count, block) else will == [])
  {
    hide ReadData, EncodeData, ReadWill, ReadOptional, WillLaid, Field;
    DataAccepted(b);
    var s := ReadData(b).0.n;
    will, count, block := [], [], [];
    var t := 0;
    if flags.will {
      count, block := WillTiles(b[s..]);
      t := ReadWill(b[s..]).0.n;
      will := b[s..][..t];
    }
    OptionalTiles(flags.username, b[s + t..]);
    var u := ReadOptional(flags.username, b[s + t..]).0.n;
    OptionalTiles(flags.password, b[s + t + u..]);
    var v := ReadOptional(flags.password, b[s + t + u..]).0.n;
    Memory.NextPart(b, s, t);
    Memory.NextPart(b, s + t, u);
    Memory.NextPart(b, s + t + u, v);
  }

  // ----- payloads that stop short -----

  lemma PartialWill(w: Will, k: nat)
    requires WillWritable(w) && AllTyped(w.props) && k < |EncodeWill(w)|
    ensures ReadWill(EncodeWill(w)[..k]).0 == NotEnoughData
  {
    hide EncodeProperties, EncodeData, EncodeList, ReadProperties, ReadData, Writable, AllTyped;
    var props, topic, payload := EncodeProperties(w.props), EncodeData(w.topic), EncodeData(w.payload);
    var b := EncodeWill(w)[..k];
    if k < |props| {
      assert b == props[..k];
      PropertiesTruncated(w.props, k);
    } else {
      var rest := (topic + payload)[..k - |props|];
      assert b == props + rest && b[|props|..] == rest;
      PropertiesRead(w.props, rest);
      if |rest| < |topic| {
        assert rest == topic[..|rest|];
        PartialData(w.topic, |rest|);
      } else {
        var last := payload[..|rest| - |topic|];
        assert rest == topic + last && b[|props| + |topic|..] == last;
        DataReads(w.topic, last);
        PartialData(w.payload, |last|);
      }
    }
  }

  lemma PartialOptional(present: bool, d: seq<byte>, k: nat)
    requires |d| < 0x10000 && k < |Field(present, d)|
    ensures ReadOptional(present, Field(present, d)[..k]).0 == NotEnoughData
  {
    PartialData(d, k);
  }

  /** Reading stops at the first field that cannot be read. */
  lemma PayloadStops(flags: Flags, b: seq<byte>, s: nat, t: nat, u: nat)
    requires s + t + u <= |b|
    ensures ReadData(b).0 == NotEnoughData ==> ReadPayload(flags, b).0 == NotEnoughData
    ensures ReadData(b).0 == Used(s) && flags.will && ReadWill(b[s..]).0 == NotEnoughData ==>
      ReadPayload(flags, b).0 == NotEnoughData
    ensures ReadData(b).0 == Used(s) && (if flags.will then ReadWill(b[s..]).0 == Used(t) else t == 0) ==>
      && (ReadOptional(flags.username, b[s + t..]).0 == NotEnoughData ==> ReadPayload(flags, b).0 == NotEnoughData)
      && (ReadOptional(flags.username, b[s + t..]).0 == Used(u)
          && ReadOptional(flags.password, b[s + t + u..]).0 == NotEnoughData ==>
            ReadPayload(flags, b).0 == NotEnoughData)
  {
    hide ReadData, ReadWill, ReadOptional;
  }

  lemma PayloadParts(flags: Flags, p: Payload)
    requires PayloadWritable(flags, p)
    ensures EncodePayload(flags, p)
         == EncodeData(p.clientID) + ((if flags.will then EncodeWill(p.will) else [])
                                      + (Field(flags.username, p.username) + Field(flags.password, p.password)))
  {
    hide EncodeData, EncodeWill;
    var id, will := EncodeData(p.clientID), if flags.will then EncodeWill(p.will) else [];
    var username, password := Field(flags.username, p.username), Field(flags.password, p.password);
    Memory.Regroup(id + will, username, password);
    Memory.Regroup(id, will, username + password);
  }

  /** A payload that stops short asks for more, wherever it is cut. */
  lemma PayloadTruncated(flags: Flags, p: Payload, k: nat)
    requires PayloadWritable(flags, p) && (flags.will ==> AllTyped(p.will.props)) && k < |EncodePayload(flags, p)|
    ensures ReadPayload(flags, EncodePayload(flags, p)[..k]).0 == NotEnoughData
  {
    hide EncodeData, EncodeWill, ReadData, ReadWill, ReadOptional, AllTyped, WillWritable, EncodePayload, Field,
      ReadPayload;
    var id, will := EncodeData(p.clientID), if flags.will then EncodeWill(p.will) else [];
    var names := Field(flags.username, p.username) + Field(flags.password, p.password);
    PayloadParts(flags, p);
    var b := EncodePayload(flags, p)[..k];
    Memory.Cut(id, will + names, k);
    if k < |id| {
      PartialData(p.clientID, k);
      PayloadStops(flags, b, 0, 0, 0);
    } else {
      var rest := (will + names)[..k - |id|];
      DataReads(p.clientID, rest);
      Memory.Cut(will, names, |rest|);
      if |rest| < |will| {
        PartialWill(p.will, |rest|);
        PayloadStops(flags, b, |id|, 0, 0);
      } else {
        Memory.Further(b, |id|, |will|);
        NamesTruncated(flags, p, b, |id|, |will|, |rest| - |will|);
      }
    }
  }

  lemma NamesTruncated(flags: Flags, p: Payload, b: seq<byte>, s: nat, t: nat, k: nat)
    requires PayloadWritable(flags, p) && (flags.will ==> AllTyped(p.will.props))
    requires s + t <= |b| && ReadData(b).0 == Used(s)
    requires if flags.will then t == |EncodeWill(p.will)| && b[s..] == EncodeWill(p.will) + b[s + t..] else t == 0
    requires var names := Field(flags.username, p.username) + Field(flags.password, p.password);
      k < |names| && b[s + t..] == names[..k]
    ensures ReadPayload(flags, b).0 == NotEnoughData
  {
    hide EncodeData, EncodeWill, ReadData, ReadWill, ReadOptional, AllTyped, WillWritable, Field, ReadPayload;
    var username, password := Field(flags.username, p.username), Field(flags.password, p.password);
    if flags.will {
      WillReads(p.will, b[s + t..]);
    }
    Memory.Cut(username, password, k);
    if k < |username| {
      PartialOptional(flags.username, p.username, k);
      PayloadStops(flags, b, s, t, 0);
    } else {
      var last := password[..k - |username|];
      assert b[s + t + |username|..] == b[s + t..][|username|..];
      OptionalReads(flags.username, p.username, last);
      PartialOptional(flags.password, p.password, |last|);
      PayloadStops(flags, b, s, t, |username|);
    }
  }

  // ----- the objects -----

  class WillMessage {
    const willProperties: Properties
    var willTopic: seq<byte>
    var willPayload: seq<byte>

    ghost predicate Shape()
      reads this, willProperties, willProperties.length
    {
      willProperties.Shape()
    }

    ghost predicate Valid()
      reads this, willProperties, willProperties.length, willProperties.length.value
    {
      willProperties.Valid() && |willTopic| < 0x10000 && |willPayload| < 0x10000
    }

    ghost function Contents(): (w: Will)
      requires Valid()
      reads this, willProperties, willProperties.length, willProperties.length.value
      ensures WillWritable(w)
    {
      Will(willProperties.list, willTopic, willPayload)
    }

    constructor ()
      ensures Valid() && Contents() == Will([], [], [])
      ensures fresh(willProperties) && fresh(willProperties.length) && fresh(willProperties.length.value)
    {
      willProperties := new Properties();
      willTopic, willPayload := [], [];
    }

    method CopyInto(buffer: array<byte>, at: nat) returns (o: nat)
      requires Valid() && buffer != willProperties.length.value && at + |EncodeWill(Contents())| <= buffer.Length
      modifies buffer
      ensures o == |EncodeWill(Contents())|
      ensures buffer[..] == Memory.Overwritten(old(buffer[..]), at, EncodeWill(Contents()))
    {
      hide EncodeProperties, EncodeData, EncodeList, Memory.Overwritten;
      ghost var was, props := buffer[..], EncodeProperties(willProperties.list);
      o := willProperties.CopyInto(buffer, at);
      Memory.Copy(buffer, at + o, EncodeData(willTopic));
      Memory.OverwrittenTwice(was, at, props, EncodeData(willTopic));
      o := o + |EncodeData(willTopic)|;
      Memory.Copy(buffer, at + o, EncodeData(willPayload));
      Memory.OverwrittenTwice(was, at, props + EncodeData(willTopic), EncodeData(willPayload));
      o := o + |EncodeData(willPayload)|;
    }

    /** readFrom: the properties end up reversed. */
    method ReadFrom(buffer: seq<byte>) returns (r: Read)
      requires Shape()
      modifies this, willProperties, willProperties.length, willProperties.length.value
      ensures Shape() && r == ReadWill(buffer).0
      ensures r.Used? ==>
        var w := ReadWill(buffer).1;
        willProperties.list == Reversed(w.props) && willTopic == w.topic && willPayload == w.payload
    {
      hide ReadProperties, ReadData;
      var s := willProperties.ReadFrom(buffer);
      if !s.Used? {
        return s;
      }
      var o := s.n;
      var (t, topic) := ReadData(buffer[o..]);
      if !t.Used? {
        return t;
      }
      willTopic, o := topic, o + t.n;
      var (u, payload) := ReadData(buffer[o..]);
      if !u.Used? {
        return u;
      }
      willPayload := payload;
      return Used(o + u.n);
    }
  }

  class ConnectPayload {
    var clientID: seq<byte>
    var willMessage: WillMessage?
    var username: seq<byte>
    var password: seq<byte>
    var fixedHeader: Flags

    ghost function Footprint(): set<object>
      reads this, willMessage
    {
      if willMessage == null then {} else
        {willMessage, willMessage.willProperties, willMessage.willProperties.length,
          willMessage.willProperties.length.value}
    }

    ghost predicate Shape()
      reads this, willMessage, Footprint()
    {
      && this !in Footprint()
      && (willMessage != null ==> willMessage.Shape())
    }

    /** The announced fields are there and can be written. */
    ghost predicate Valid()
      reads this, willMessage, Footprint()
    {
      && |clientID| < 0x10000 && |username| < 0x10000 && |password| < 0x10000
      && (fixedHeader.will ==> willMessage != null && willMessage.Valid())
    }

    ghost function Contents(): (p: Payload)
      requires Valid()
      reads this, willMessage, Footprint()
      ensures PayloadWritable(fixedHeader, p)
    {
      Payload(clientID, if fixedHeader.will then willMessage.Contents() else Will([], [], []), username, password)
    }

    constructor (flags: Flags)
      ensures Shape() && fixedHeader == flags && willMessage == null
    {
      clientID, username, password, willMessage, fixedHeader := [], [], [], null, flags;
    }

    method CopyInto(buffer: array<byte>, at: nat) returns (o: nat)
      requires Valid() && (willMessage != null ==> buffer != willMessage.willProperties.length.value)
      requires at + |EncodePayload(fixedHeader, Contents())| <= buffer.Length
      modifies buffer
      ensures o == |EncodePayload(fixedHeader, Contents())|
      ensures buffer[..] == Memory.Overwritten(old(buffer[..]), at, EncodePayload(fixedHeader, Contents()))
    {
      hide EncodeWill, EncodeData, Field, Memory.Overwritten;
      ghost var was, p := buffer[..], Contents();
      ghost var id, will := EncodeData(clientID), if fixedHeader.will then EncodeWill(p.will) else [];
      ghost var name, word := Field(fixedHeader.username, username), Field(fixedHeader.password, password);
      Memory.Copy(buffer, at, EncodeData(clientID));
      o := |EncodeData(clientID)|;
      var n := CopyWill(buffer, at + o);
      Memory.OverwrittenTwice(was, at, id, will);
      o := o + n;
      n := CopyField(buffer, at + o, fixedHeader.username, username);
      Memory.OverwrittenTwice(was, at, id + will, name);
      o := o + n;
      n := CopyField(buffer, at + o, fixedHeader.password, password);
      Memory.OverwrittenTwice(was, at, id + will + name, word);
      o := o + n;
    }

    method CopyWill(buffer: array<byte>, at: nat) returns (o: nat)
      requires Valid() && (willMessage != null ==> buffer != willMessage.willProperties.length.value)
      requires fixedHeader.will ==> at + |EncodeWill(willMessage.Contents())| <= buffer.Length
      requires at <= buffer.Length
      modifies buffer
      ensures var data := if fixedHeader.will then EncodeWill(willMessage.Contents()) else [];
        o == |data| && buffer[..] == Memory.Overwritten(old(buffer[..]), at, data)
    {
      o := 0;
      if fixedHeader.will {
        o := willMessage.CopyInto(buffer, at);
      }
    }

    /** A string or binary field, if its flag is set. */
    static method CopyField(buffer: array<byte>, at: nat, present: bool, d: seq<byte>) returns (o: nat)
      requires |d| < 0x10000 && at + |Field(present, d)| <= buffer.Length
      modifies buffer
      ensures o == |Field(present, d)| && buffer[..] == Memory.Overwritten(old(buffer[..]), at, Field(present, d))
    {
      o := 0;
      if present {
        Memory.Copy(buffer, at, EncodeData(d));
        o := |d| + 2;
      }
    }

    /** readFrom: the will message is allocated if there is none, and read in place if there is. */
    method ReadFrom(buffer0: seq<byte>) returns (r: Read)
      requires Shape()
      modifies this, Footprint()
      ensures Shape() && fixedHeader == old(fixedHeader)
      ensures fresh(Footprint() - old(Footprint()))
      ensures r == ReadPayload(fixedHeader, buffer0).0
      ensures r.Used? ==>
        var p := ReadPayload(fixedHeader, buffer0).1;
        && clientID == p.clientID
        && (fixedHeader.will ==>
              && willMessage != null
              && willMessage.willTopic == p.will.topic && willMessage.willPayload == p.will.payload
              && willMessage.willProperties.list == Reversed(p.will.props))
        && (fixedHeader.username ==> username == p.username)
        && (fixedHeader.password ==> password == p.password)
    {
      hide ReadData, ReadWill, ReadOptional;
      var (s, id) := ReadData(buffer0);
      if !s.Used? {
        return s;
      }
      clientID := id;
      var o := s.n;
      if fixedHeader.will {
        if willMessage == null {
          willMessage := new WillMessage();
        }
        var t := willMessage.ReadFrom(buffer0[o..]);
        if !t.Used? {
          return t;
        }
        o := o + t.n;
      }
      var (u, name) := ReadOptional(fixedHeader.username, buffer0[o..]);
      if !u.Used? {
        return u;
      }
      username := if fixedHeader.username then name else username;
      o := o + u.n;
      var (v, word) := ReadOptional(fixedHeader.password, buffer0[o..]);
      if !v.Used? {
        return v;
      }
      password := if fixedHeader.password then word else password;
      return Used(o + v.n);
    }
  }
}
