/** The SUBSCRIBE payload: a linked list of topics with their options. */
module SubscribePayloads {
  import opened Bits
  import opened VarInt
  import opened PropertyCodec
  import Memory

  datatype Topic = Topic(name: seq<byte>, option: byte)

  predicate Nameable(ts: seq<Topic>)
  {
    forall i :: 0 <= i < |ts| ==> |ts[i].name| < 0x10000
  }

  function EncodeTopic(t: Topic): (b: seq<byte>)
    requires |t.name| < 0x10000
    ensures |b| == |t.name| + 3
  {
    EncodeData(t.name) + [t.option]
  }

  function EncodeTopics(ts: seq<Topic>): seq<byte>
    requires Nameable(ts)
  {
    if ts == [] then [] else EncodeTopic(ts[0]) + EncodeTopics(ts[1..])
  }

  /** One topic, then as many more as there are bytes for. */
  function ReadTopics(b: seq<byte>): (r: (Read, seq<Topic>))
    ensures r.0.Used? ==> r.0.n == |b| && r.1 != []
    decreases |b|
  {
    var (s, name) := ReadData(b);
    if !s.Used? then (s, [])
    else if s.n == |b| then (NotEnoughData, [])
    else
      var t, rest := Topic(name, b[s.n]), b[s.n + 1..];
      if rest == [] then (Used(s.n + 1), [t])
      else
        var (u, ts) := ReadTopics(rest);
        if u.Used? then (Used(s.n + 1 + u.n), [t] + ts) else (u, [])
  }

  lemma NoTopics()
    ensures ReadTopics([]).0 == NotEnoughData
  {
  }

  lemma NoTopic(b: seq<byte>)
    ensures !ReadData(b).0.Used? ==> ReadTopics(b).0 == ReadData(b).0
    ensures ReadData(b).0 == Used(|b|) ==> ReadTopics(b).0 == NotEnoughData
  {
    hide ReadData;
  }

  lemma EmptyEncoding(ts: seq<Topic>)
    requires Nameable(ts)
    ensures EncodeTopics(ts) == [] <==> ts == []
  {
  }

  /** A list of topics is read back in order, whole, exactly when it is not empty: the reader wants one topic. */
  lemma TopicsRoundTrip(ts: seq<Topic>)
    requires Nameable(ts)
    ensures ReadTopics(EncodeTopics(ts)) == (Used(|EncodeTopics(ts)|), ts) <==> ts != []
    ensures ts == [] ==> ReadTopics(EncodeTopics(ts)).0 == NotEnoughData
  {
    if ts == [] {
      NoTopics();
    } else {
      TopicsRead(ts);
    }
  }

  lemma {:induction false} TopicsRead(ts: seq<Topic>)
    requires Nameable(ts) && ts != []
    ensures ReadTopics(EncodeTopics(ts)) == (Used(|EncodeTopics(ts)|), ts)
  {
    hide ReadTopics, EncodeTopic;
    var t, rest := ts[0], EncodeTopics(ts[1..]);
    assert [t] + ts[1..] == ts;
    FirstTopicReads(t, rest);
    EmptyEncoding(ts[1..]);
    if ts[1..] == [] {
      assert ts == [t] && EncodeTopic(t) + [] == EncodeTopic(t);
    } else {
      TopicsRead(ts[1..]);
    }
  }

  lemma FirstTopicReads(t: Topic, rest: seq<byte>)
    requires |t.name| < 0x10000
    ensures ReadTopics(EncodeTopic(t) + rest)
         == if rest == [] then (Used(|EncodeTopic(t)|), [t])
            else if ReadTopics(rest).0.Used? then (Used(|EncodeTopic(t)| + |rest|), [t] + ReadTopics(rest).1)
            else (ReadTopics(rest).0, [])
  {
    hide EncodeData, ReadData, ReadTopics, EncodeTopic;
    var b, n := EncodeTopic(t) + rest, |t.name| + 2;
    TopicAhead(t, rest);
    ReadTopicsStep(b, n, rest);
  }

  lemma TopicAhead(t: Topic, rest: seq<byte>)
    requires |t.name| < 0x10000
    ensures var b, n := EncodeTopic(t) + rest, |t.name| + 2;
      n < |b| && ReadData(b) == (Used(n), t.name) && b[n] == t.option && b[n + 1..] == rest
  {
    hide EncodeData, ReadData;
    Memory.Regroup(EncodeData(t.name), [t.option], rest);
    Memory.Behind(EncodeTopic(t), rest);
    DataReads(t.name, [t.option] + rest);
  }

  lemma ReadTopicsStep(b: seq<byte>, n: nat, rest: seq<byte>)
    requires ReadData(b).0 == Used(n) && n < |b| && b[n + 1..] == rest
    ensures ReadTopics(b)
         == if rest == [] then (Used(n + 1), [Topic(ReadData(b).1, b[n])])
            else if ReadTopics(rest).0.Used?
              then (Used(n + 1 + ReadTopics(rest).0.n), [Topic(ReadData(b).1, b[n])] + ReadTopics(rest).1)
            else (ReadTopics(rest).0, [])
  {
    hide ReadData;
  }

  /** The converse: whatever bytes are read as topics are the encoding of those topics. */
  lemma {:induction false} TopicsTile(b: seq<byte>)
    requires ReadTopics(b).0.Used?
    ensures Nameable(ReadTopics(b).1) && EncodeTopics(ReadTopics(b).1) == b
    decreases |b|
  {
    hide ReadTopics, EncodeTopics, ReadData, EncodeData, Nameable;
    NoTopic(b);
    DataAccepted(b);
    var n, name := ReadData(b).0.n, ReadData(b).1;
    var t, rest := Topic(name, b[n]), b[n + 1..];
    ReadTopicsStep(b, n, rest);
    assert b == b[..n] + [b[n]] + rest;
    if rest == [] {
      EncodeTopicsCons(t, []);
      assert [t] + [] == [t] && EncodeTopic(t) + [] == EncodeTopic(t);
    } else {
      TopicsTile(rest);
      EncodeTopicsCons(t, ReadTopics(rest).1);
    }
  }

  lemma EncodeTopicsCons(t: Topic, ts: seq<Topic>)
    requires |t.name| < 0x10000
    ensures EncodeTopics([]) == [] && Nameable([])
    ensures Nameable(ts) ==> Nameable([t] + ts) && EncodeTopics([t] + ts) == EncodeTopic(t) + EncodeTopics(ts)
  {
    hide EncodeTopic;
    assert ([t] + ts)[1..] == ts;
  }

  /** Bytes that are not read as topics are too short for the topic they begin. */
  lemma {:induction false} TopicsOrNotEnough(b: seq<byte>)
    ensures ReadTopics(b).0.Used? || ReadTopics(b).0 == NotEnoughData
    decreases |b|
  {
    hide ReadTopics;
    NoTopic(b);
    if ReadData(b).0.Used? && ReadData(b).0.n < |b| {
      var n := ReadData(b).0.n;
      ReadTopicsStep(b, n, b[n + 1..]);
      TopicsOrNotEnough(b[n + 1..]);
    }
  }

  /** The bytes that are read are exactly the encodings of lists that are not empty; all others are too short. */
  lemma TopicsExactly(b: seq<byte>)
    ensures ReadTopics(b).0.Used? <==> exists ts :: Nameable(ts) && ts != [] && EncodeTopics(ts) == b
    ensures !ReadTopics(b).0.Used? ==> ReadTopics(b).0 == NotEnoughData
  {
    hide ReadTopics, EncodeTopics, Nameable;
    TopicsOrNotEnough(b);
    if ReadTopics(b).0.Used? {
      TopicsTile(b);
    }
    forall ts | Nameable(ts) && ts != [] && EncodeTopics(ts) == b
      ensures ReadTopics(b).0.Used?
    {
      TopicsRoundTrip(ts);
    }
  }

  /** The bytes of two topics: the name with its length, then the option byte. */
  lemma TopicsSample()
    ensures Nameable([Topic([0x61], 1), Topic([], 2)])
    ensures EncodeTopics([Topic([0x61], 1), Topic([], 2)]) == [0, 1, 0x61, 1, 0, 0, 2]
  {
    assert EncodeTopics([Topic([], 2)]) == [0, 0, 2];
    assert [Topic([0x61], 1), Topic([], 2)][1..] == [Topic([], 2)];
  }

  class SubscribeTopic {
    var topic: seq<byte>
    var option: byte
    var next: SubscribeTopic?
    ghost var Repr: set<object>

    ghost predicate Valid()
      reads this, Repr
      decreases Repr
    {
      && this in Repr && |topic| < 0x10000
      && (next != null ==> next in Repr && next.Repr <= Repr && this !in next.Repr && next.Valid())
    }

    ghost function Topics(): (ts: seq<Topic>)
      requires Valid()
      reads this, Repr
      ensures ts != [] && Nameable(ts)
      decreases Repr
    {
      [Topic(topic, option)] + if next == null then [] else next.Topics()
    }

    constructor ()
      ensures Valid() && Repr == {this} && Topics() == [Topic([], 0)]
    {
      topic, option, next := [], 0, null;
      Repr := {this};
    }

    /** getSize of the topic and all behind it. */
    function GetSize(): (n: nat)
      requires Valid()
      reads this, Repr
      ensures n == |EncodeTopics(Topics())|
      decreases Repr
    {
      assert next != null ==> Topics()[1..] == next.Topics();
      assert next == null ==> Topics()[1..] == [];
      |topic| + 2 + 1 + if next != null then next.GetSize() else 0
    }

    /** copyInto: the topic, its option, then the topics behind it. */
    method CopyInto(buffer: array<byte>, at: nat) returns (o: nat)
      requires Valid() && buffer !in Repr && at + |EncodeTopics(Topics())| <= buffer.Length
      modifies buffer
      ensures o == |EncodeTopics(Topics())|
      ensures buffer[..] == Memory.Overwritten(old(buffer[..]), at, EncodeTopics(Topics()))
      decreases Repr
    {
      hide EncodeData, Memory.Overwritten;
      ghost var was, ts := buffer[..], Topics();
      assert next != null ==> ts[1..] == next.Topics();
      assert next == null ==> ts[1..] == [];
      Memory.Copy(buffer, at, EncodeData(topic));
      o := |topic| + 2;
      Memory.Copy(buffer, at + o, [option]);
      Memory.OverwrittenTwice(was, at, EncodeData(topic), [option]);
      o := o + 1;
      if next != null {
        var n := next.CopyInto(buffer, at + o);
        Memory.OverwrittenTwice(was, at, EncodeTopic(ts[0]), EncodeTopics(ts[1..]));
        o := o + n;
      } else {
        assert EncodeTopic(ts[0]) + [] == EncodeTopic(ts[0]);
      }
    }

    /** readFrom: the topics that follow are read into new objects behind this one. */
    method ReadFrom(buffer: seq<byte>) returns (r: Read)
      modifies this
      ensures r == ReadTopics(buffer).0
      ensures r.Used? ==> Valid() && fresh(Repr - {this}) && Topics() == ReadTopics(buffer).1
      decreases |buffer|
    {
      hide ReadData, ReadTopics, Nameable;
      next := null;
      NoTopic(buffer);
      var (s, name) := ReadData(buffer);
      if !s.Used? {
        return s;
      }
      topic := name;
      if s.n == |buffer| {
        return NotEnoughData;
      }
      ReadTopicsStep(buffer, s.n, buffer[s.n + 1..]);
      option := buffer[s.n];
      var o, rest := s.n + 1, buffer[s.n + 1..];
      Repr := {this};
      if rest != [] {
        next := new SubscribeTopic();
        var n := next.ReadFrom(rest);
        if !n.Used? {
          return n;
        }
        Repr := {this} + next.Repr;
        o := o + n.n;
      }
      return Used(o);
    }
  }

  /** Payload<SUBSCRIBE>. */
  class SubscribePayload {
    var topics: SubscribeTopic?
    var expSize: nat

    ghost predicate Valid()
      reads this, topics, if topics != null then topics.Repr else {}
    {
      topics != null ==> topics.Valid()
    }

    ghost function Topics(): (ts: seq<Topic>)
      requires Valid()
      reads this, topics, if topics != null then topics.Repr else {}
      ensures Nameable(ts)
    {
      if topics == null then [] else topics.Topics()
    }

    constructor ()
      ensures Valid() && Topics() == [] && expSize == 0
    {
      topics, expSize := null, 0;
    }

    method CopyInto(buffer: array<byte>, at: nat) returns (o: nat)
      requires Valid() && (topics != null ==> buffer !in topics.Repr)
      requires at + |EncodeTopics(Topics())| <= buffer.Length
      modifies buffer
      ensures o == |EncodeTopics(Topics())|
      ensures buffer[..] == Memory.Overwritten(old(buffer[..]), at, EncodeTopics(Topics()))
    {
      o := 0;
      if topics != null {
        o := topics.CopyInto(buffer, at);
      }
    }

    /** readFrom: exactly the expected number of bytes is a list of topics. */
    method ReadFrom(buffer: seq<byte>) returns (r: Read)
      modifies this
      ensures expSize == old(expSize)
      ensures r == if |buffer| < expSize then NotEnoughData else ReadTopics(buffer[..expSize]).0
      ensures r.Used? ==> Valid() && Topics() == ReadTopics(buffer[..expSize]).1
    {
      hide ReadTopics;
      if |buffer| < expSize {
        return NotEnoughData;
      }
      topics := new SubscribeTopic();
      r := topics.ReadFrom(buffer[..expSize]);
    }
  }
}
