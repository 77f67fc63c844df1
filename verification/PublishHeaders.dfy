/** The header byte of a PUBLISH packet: its fields, the masks that read them and the setters that write them. */
module PublishHeaders {
  import opened Bits

  /** The header flags say there is a packet identifier: the quality of service is not 0. */
  predicate HasPacketID(flags: byte)
  {
    And(flags, 6) > 0
  }

  /** The packet is marked as sent before. */
  predicate IsDup(flags: byte)
  {
    And(flags, 8) != 0
  }

  /** The fields of the header byte. */
  datatype HeaderFields = HeaderFields(kind: nat, dup: bool, qos: nat, retain: bool)

  function FieldsOf(x: byte): HeaderFields
  {
    HeaderFields(x / 16, x / 8 % 2 == 1, x / 2 % 4, x % 2 == 1)
  }

  function Compose(kind: int, dup: int, qos: int, retain: int): int
  {
    16 * kind + 8 * dup + 2 * qos + retain
  }

  lemma ComposeFields(kind: nat, dup: nat, qos: nat, retain: nat)
    requires kind < 16 && dup < 2 && qos < 4 && retain < 2
    ensures 0 <= Compose(kind, dup, qos, retain) < 256
    ensures FieldsOf(Compose(kind, dup, qos, retain)) == HeaderFields(kind, dup == 1, qos, retain == 1)
  {
    var x: nat := 16 * kind + 8 * dup + 2 * qos + retain;
    DivModUnique(x, 16, kind, 8 * dup + 2 * qos + retain);
    DivModUnique(x, 8, 2 * kind + dup, 2 * qos + retain);
    DivModUnique(x, 2, 8 * kind + 4 * dup + qos, retain);
    DivModUnique(2 * kind + dup, 2, kind, dup);
    DivModUnique(8 * kind + 4 * dup + qos, 4, 2 * kind + dup, qos);
  }

  /** The byte from its fields. */
  lemma Decompose(x: byte) returns (kind: nat, dup: nat, qos: nat, retain: nat)
    ensures kind < 16 && dup < 2 && qos < 4 && retain < 2
    ensures x == Compose(kind, dup, qos, retain)
    ensures FieldsOf(x) == HeaderFields(kind, dup == 1, qos, retain == 1)
    ensures dup == x / 8 % 2 && qos == x / 2 % 4 && retain == x % 2
  {
    kind, dup, qos, retain := x / 16, x / 8 % 2, x / 2 % 4, x % 2;
    var low, mid := x / 2, x / 8;
    assert x == 2 * low + retain && low == 4 * (low / 4) + qos && mid == 2 * (mid / 2) + dup;
    assert low / 4 == mid && mid / 2 == kind;
  }

  /** Each field by its mask, and the byte without it. */
  lemma DupBits(x: byte)
    ensures And(x, 8) == 8 * (x / 8 % 2) && And(x, 0xF7) == x - 8 * (x / 8 % 2)
  {
    hide And;
    EightBits();
    AndBit(x, 3);
    AndComplement(x, 8, 8);
  }

  lemma QoSBits(x: byte)
    ensures And(x, 6) == 2 * (x / 2 % 4) && And(x, 0xF9) == x - 2 * (x / 2 % 4)
  {
    hide And;
    EightBits();
    AndHalves(x, 6);
    MaskIsMod(x / 2, 2);
    AndComplement(x, 6, 8);
  }

  lemma RetainBits(x: byte)
    ensures And(x, 0xFE) == x - x % 2
  {
    hide And;
    EightBits();
    AndBit(x, 0);
    AndComplement(x, 1, 8);
  }

  lemma EightBits()
    ensures Pow2(0) == 1 && Pow2(1) == 2 && Pow2(2) == 4 && Pow2(3) == 8 && Pow2(8) == 256
  {
    Powers();
    assert Pow2(8) == 2 * Pow2(7);
  }

  /** The tests of the source read the fields. */
  lemma FieldTests(x: byte)
    ensures IsDup(x) <==> FieldsOf(x).dup
    ensures HasPacketID(x) <==> FieldsOf(x).qos > 0
  {
    DupBits(x);
    QoSBits(x);
  }

  /** Joining a field whose bits are clear adds it. */
  lemma JoinField(q: nat, k: nat, low: nat)
    requires low < Pow2(k)
    ensures Or(2 * q * Pow2(k) + low, Pow2(k)) == 2 * q * Pow2(k) + low + Pow2(k)
  {
    var p := Pow2(k);
    var y := 2 * q * p + low;
    assert y == p * (2 * q) + low;
    DivModUnique(y, p, 2 * q, low);
    OrBit(y, k);
  }

  lemma NothingJoined(y: nat)
    ensures Or(y, 0) == y
  {
  }

  /** The three fields joined to a byte without them. */
  lemma JoinFields(kind: nat, dup: nat, qos: nat, retain: nat)
    requires dup < 2 && qos < 4 && retain < 2
    ensures Compose(kind, 0, qos, retain) >= 0 && Or(Compose(kind, 0, qos, retain), 8) == Compose(kind, 1, qos, retain)
    ensures Compose(kind, dup, qos, 0) >= 0 && Or(Compose(kind, dup, qos, 0), 1) == Compose(kind, dup, qos, 1)
    ensures Compose(kind, dup, 0, retain) >= 0 && Or(Compose(kind, dup, 0, retain), 2) == Compose(kind, dup, 1, retain)
    ensures Or(Compose(kind, dup, 0, retain), 4) == Compose(kind, dup, 2, retain)
  {
    EightBits();
    hide Or, Pow2;
    JoinField(kind, 3, 2 * qos + retain);
    JoinField(8 * kind + 4 * dup + qos, 0, 0);
    JoinField(4 * kind + 2 * dup, 1, retain);
    JoinField(2 * kind + dup, 2, retain);
  }

  lemma WithDup(x: byte, e: bool)
    ensures var y := Or(And(x, 0xF7), if e then 8 else 0); y < 256 && FieldsOf(y) == FieldsOf(x).(dup := e)
  {
    hide And, Or, FieldsOf;
    var t, d, q, r := Decompose(x);
    DupBits(x);
    ComposeFields(t, if e then 1 else 0, q, r);
    JoinFields(t, d, q, r);
    NothingJoined(And(x, 0xF7));
  }

  lemma WithRetain(x: byte, e: bool)
    ensures var y := Or(And(x, 0xFE), if e then 1 else 0); y < 256 && FieldsOf(y) == FieldsOf(x).(retain := e)
  {
    hide And, Or, FieldsOf;
    var t, d, q, r := Decompose(x);
    RetainBits(x);
    ComposeFields(t, d, q, if e then 1 else 0);
    JoinFields(t, d, q, r);
    NothingJoined(And(x, 0xFE));
  }

  lemma WithQoS(x: byte, e: nat)
    requires e < 3
    ensures var y := Or(And(x, 0xF9), e * 2); y < 256 && FieldsOf(y) == FieldsOf(x).(qos := e)
  {
    hide And, Or, FieldsOf;
    var t, d, q, r := Decompose(x);
    QoSBits(x);
    ComposeFields(t, d, e, r);
    JoinFields(t, d, q, r);
    NothingJoined(And(x, 0xF9));
    assert And(x, 0xF9) == Compose(t, d, 0, r);
    hide Compose;
    if e == 0 {
    } else if e == 1 {
    } else {
    }
  }
}
