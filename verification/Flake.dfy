/**
 * The flake identifier generator: 128-bit identifiers made of a 64-bit
 * millisecond timestamp, a 48-bit node identifier and a 16-bit sequence.
 *
 * The clock is a parameter: each call receives the millisecond reading the
 * generator would have taken from its `Clock`. The fair lock around
 * generateId serialises calls, so the sequential semantics below are the
 * contract.
 */
module Flake {
  import opened Wrappers
  import opened Bytes
  import opened HexString
  import opened Decimal
  import MacAddress

  const MAX_SEQ := 0xFFFF
  const ID_SIZE_BYTES := 16
  const NODE_ID_BYTES := 6

  datatype Error =
    | SequenceOverflow   // IllegalStateException("Sequence overflow")
    | BufferUnderflow    // java.nio.BufferUnderflowException

  // ---------------------------------------------------------------------
  // The state machine of updateState

  /** The generator's mutable state: the last clock reading and the sequence within it. */
  datatype GenState = GenState(lastTime: Int64, sequence: int)

  /** The sequence is -1 (nothing generated at this reading yet) or a 16-bit value. */
  predicate InRange(s: GenState) {
    -1 <= s.sequence <= MAX_SEQ
  }

  /** (lastTime, sequence) in lexicographic order. */
  predicate Before(a: GenState, b: GenState) {
    a.lastTime < b.lastTime || (a.lastTime == b.lastTime && a.sequence < b.sequence)
  }

  predicate AtMost(a: GenState, b: GenState) {
    a == b || Before(a, b)
  }

  /**
   * updateState for the reading `now`: a new reading restarts the sequence at
   * 0, the same reading counts up, and the same reading at MAX_SEQ fails
   * (None) without changing anything.
   */
  function NextState(s: GenState, now: Int64): (r: Option<GenState>)
    ensures r.None? <==> now == s.lastTime && s.sequence == MAX_SEQ
    ensures r.Some? ==> r.value.lastTime == now
    ensures r.Some? && now != s.lastTime ==> r.value.sequence == 0
    ensures r.Some? && now == s.lastTime ==> r.value.sequence == s.sequence + 1
    ensures r.Some? && InRange(s) ==> 0 <= r.value.sequence <= MAX_SEQ
    ensures r.Some? && now >= s.lastTime ==> Before(s, r.value)
  {
    if now != s.lastTime then Some(GenState(now, 0))
    else if s.sequence == MAX_SEQ then None
    else Some(GenState(s.lastTime, s.sequence + 1))
  }

  /**
   * A sequence of calls, one per clock reading. Each call yields the new state
   * (whose lastTime and sequence go into the identifier) or None when it
   * throws; a call that throws leaves the state as it was.
   */
  function Run(s: GenState, clock: seq<Int64>): (r: (GenState, seq<Option<GenState>>))
    ensures |r.1| == |clock|
  {
    if clock == [] then (s, [])
    else
      var (mid, outs) := Run(s, clock[..|clock| - 1]);
      match NextState(mid, clock[|clock| - 1])
      case None => (mid, outs + [None])
      case Some(next) => (next, outs + [Some(next)])
  }

  /** The first calls of a run produce what the run of the first readings produces. */
  lemma {:induction false} RunPrefix(s: GenState, clock: seq<Int64>, k: nat)
    requires k <= |clock|
    ensures Run(s, clock[..k]).1 == Run(s, clock).1[..k]
    decreases |clock|
  {
    if k < |clock| {
      var init := clock[..|clock| - 1];
      assert clock[..k] == init[..k];
      RunPrefix(s, init, k);
    } else {
      assert clock[..k] == clock;
    }
  }

  /** A freshly constructed generator (sequence -1) always issues sequence 0 on its first call. */
  lemma FirstCallIssuesZero(t: Int64, clock: seq<Int64>)
    requires |clock| > 0
    ensures Run(GenState(t, -1), clock).1[0] == Some(GenState(clock[0], 0))
  {
    RunPrefix(GenState(t, -1), clock, 1);
    assert clock[..1][..0] == [];
  }

  /**
   * With the clock frozen at the construction reading, calls 1..65536 issue
   * sequences 0..65535 and every later call fails.
   */
  lemma {:induction false} FrozenClock(t: Int64, k: nat)
    ensures var r := Run(GenState(t, -1), seq(k, _ => t));
      && r.0 == GenState(t, if k <= MAX_SEQ + 1 then k - 1 else MAX_SEQ)
      && forall i :: 0 <= i < k ==> r.1[i] == if i <= MAX_SEQ then Some(GenState(t, i)) else None
  {
    if k > 0 {
      var clock := seq(k, _ => t);
      assert clock[..k - 1] == seq(k - 1, _ => t);
      FrozenClock(t, k - 1);
    }
  }

  /** The overflow test: with a frozen clock, the 65537th call is the first that fails. */
  lemma OverflowOnCall65537(t: Int64)
    ensures var outs := Run(GenState(t, -1), seq(MAX_SEQ + 2, _ => t)).1;
      && (forall i :: 0 <= i <= MAX_SEQ ==> outs[i].Some? && outs[i].value.sequence == i)
      && outs[MAX_SEQ + 1] == None
  {
    FrozenClock(t, MAX_SEQ + 2);
  }

  predicate NonDecreasing(clock: seq<Int64>) {
    forall i, j :: 0 <= i < j < |clock| ==> clock[i] <= clock[j]
  }

  /**
   * While the clock does not go backwards, every successful call issues a
   * (lastTime, sequence) pair strictly after all earlier ones, with a 16-bit
   * sequence.
   */
  lemma {:induction false} RunIncreasing(s: GenState, clock: seq<Int64>)
    requires InRange(s) && NonDecreasing(clock)
    requires |clock| > 0 ==> s.lastTime <= clock[0]
    ensures var r := Run(s, clock);
      && InRange(r.0) && AtMost(s, r.0)
      && (|clock| > 0 ==> r.0.lastTime <= clock[|clock| - 1])
      && (forall i :: 0 <= i < |clock| && r.1[i].Some? ==>
            AtMost(r.1[i].value, r.0) && 0 <= r.1[i].value.sequence <= MAX_SEQ)
      && (forall i, j :: 0 <= i < j < |clock| && r.1[i].Some? && r.1[j].Some? ==>
            Before(r.1[i].value, r.1[j].value))
    decreases |clock|
  {
    if clock != [] {
      var n := |clock|;
      var init := clock[..n - 1];
      RunIncreasing(s, init);
      var (mid, outs) := Run(s, init);
      var now := clock[n - 1];
      assert mid.lastTime <= now by {
        if n > 1 {
          assert init[n - 2] == clock[n - 2];
        }
      }
      var r := Run(s, clock);
      match NextState(mid, now)
      case None =>
        assert r == (mid, outs + [None]);
      case Some(next) =>
        assert r == (next, outs + [Some(next)]);
        assert Before(mid, next);
    }
  }

  // ---------------------------------------------------------------------
  // The identifier layout

  /** The bytes generateId returns: putLong(time), put(nodeId), putShort((short) sequence). */
  function IdLayout(time: Int64, nodeId: seq<Byte>, sequence: int): (id: seq<Byte>)
    requires |nodeId| == NODE_ID_BYTES
    ensures |id| == ID_SIZE_BYTES
  {
    ToBigEndian(time, 8) + nodeId + ToBigEndian(sequence, 2)
  }

  /**
   * Reading the identifier back: bytes 0..7 are the time as a signed
   * big-endian long, bytes 8..13 the node bytes, bytes 14..15 the sequence,
   * big-endian.
   */
  lemma IdLayoutFields(time: Int64, nodeId: seq<Byte>, sequence: int)
    requires |nodeId| == NODE_ID_BYTES && 0 <= sequence <= MAX_SEQ
    ensures var id := IdLayout(time, nodeId, sequence);
      && Signed(FromBigEndian(id[..8]), 8) == time
      && id[8..14] == nodeId
      && FromBigEndian(id[14..16]) == sequence
  {
    var id := IdLayout(time, nodeId, sequence);
    assert id[..8] == ToBigEndian(time, 8);
    assert id[14..16] == ToBigEndian(sequence, 2);
    assert Pow256(8) == 0x1_0000_0000_0000_0000;
    SignedOfField(time, 8);
    assert Pow256(2) == 0x1_0000;
    UnsignedOfField(sequence, 2);
  }

  /** Two identifiers with 16-bit sequences are equal only if time, node and sequence all are. */
  lemma IdLayoutInjective(t1: Int64, n1: seq<Byte>, s1: int, t2: Int64, n2: seq<Byte>, s2: int)
    requires |n1| == NODE_ID_BYTES && |n2| == NODE_ID_BYTES
    requires 0 <= s1 <= MAX_SEQ && 0 <= s2 <= MAX_SEQ
    requires IdLayout(t1, n1, s1) == IdLayout(t2, n2, s2)
    ensures t1 == t2 && n1 == n2 && s1 == s2
  {
    IdLayoutFields(t1, n1, s1);
    IdLayoutFields(t2, n2, s2);
  }

  /** The identifiers a run issues, one per successful call. */
  function RunIds(s: GenState, nodeId: seq<Byte>, clock: seq<Int64>): (ids: seq<Option<seq<Byte>>>)
    requires |nodeId| == NODE_ID_BYTES
    ensures |ids| == |clock|
  {
    var outs := Run(s, clock).1;
    seq(|clock|, i requires 0 <= i < |clock| =>
      if outs[i].Some? then Some(IdLayout(outs[i].value.lastTime, nodeId, outs[i].value.sequence)) else None)
  }

  /** While the clock does not go backwards, a generator never issues the same identifier twice. */
  lemma IdsDistinct(s: GenState, nodeId: seq<Byte>, clock: seq<Int64>, i: nat, j: nat)
    requires |nodeId| == NODE_ID_BYTES && InRange(s) && NonDecreasing(clock)
    requires |clock| > 0 ==> s.lastTime <= clock[0]
    requires i < j < |clock|
    requires RunIds(s, nodeId, clock)[i].Some? && RunIds(s, nodeId, clock)[j].Some?
    ensures RunIds(s, nodeId, clock)[i] != RunIds(s, nodeId, clock)[j]
  {
    RunIncreasing(s, clock);
    var outs := Run(s, clock).1;
    var a, b := outs[i].value, outs[j].value;
    if IdLayout(a.lastTime, nodeId, a.sequence) == IdLayout(b.lastTime, nodeId, b.sequence) {
      IdLayoutInjective(a.lastTime, nodeId, a.sequence, b.lastTime, nodeId, b.sequence);
    }
  }

  /** With a constant clock (the tests' one-minute tick), the first 65536 identifiers are pairwise distinct. */
  lemma FrozenClockIdsDistinct(t: Int64, nodeId: seq<Byte>, k: nat, i: nat, j: nat)
    requires |nodeId| == NODE_ID_BYTES
    requires i < j < k <= MAX_SEQ + 1
    ensures var ids := RunIds(GenState(t, -1), nodeId, seq(k, _ => t));
      ids[i].Some? && ids[j].Some? && ids[i] != ids[j]
  {
    FrozenClock(t, k);
    IdsDistinct(GenState(t, -1), nodeId, seq(k, _ => t), i, j);
  }

  /** A call at a new clock reading issues sequence 0, so bytes 14 and 15 of its identifier are zero. */
  lemma SequenceReset(s: GenState, nodeId: seq<Byte>, now: Int64)
    requires |nodeId| == NODE_ID_BYTES && now != s.lastTime
    ensures NextState(s, now) == Some(GenState(now, 0))
    ensures IdLayout(now, nodeId, 0)[14..16] == [0, 0]
  {
    var id := IdLayout(now, nodeId, 0);
    assert id[14..16] == ToBigEndian(0, 2);
  }

  // ---------------------------------------------------------------------
  // The node bytes

  /** The six node bytes: the low 48 bits of the node value, big-endian. */
  function NodeBytes(nodeValue: int): (nodeId: seq<Byte>)
    ensures |nodeId| == NODE_ID_BYTES
  {
    ToBigEndian(nodeValue, NODE_ID_BYTES)
  }

  /** The loop of newInstance(NodeIdentifier, Clock): byte i is (value >> (5 - i) * 8) & 0xFF. */
  method PackNodeId(nodeValue: Int64) returns (nodeId: seq<Byte>)
    ensures nodeId == NodeBytes(nodeValue)
    ensures FromBigEndian(nodeId) == nodeValue % 0x1_0000_0000_0000
  {
    var a := new Byte[NODE_ID_BYTES];
    for i := 0 to NODE_ID_BYTES
      invariant forall j :: 0 <= j < i ==> a[j] == NodeBytes(nodeValue)[j]
    {
      // An arithmetic right shift by 8k bits is floor division by 256^k;
      // masking with 0xFF keeps the remainder modulo 256.
      a[i] := nodeValue / Pow256(NODE_ID_BYTES - 1 - i) % 256;
      ToBigEndianAt(nodeValue, NODE_ID_BYTES, i);
    }
    nodeId := a[..];
    FromToBigEndian(nodeValue, NODE_ID_BYTES);
  }

  /** Packing a MAC address's get() value reproduces the six address bytes. */
  lemma PackingRestoresMacAddress(mac: seq<Byte>)
    requires |mac| == MacAddress.MAC_ADDRESS_LEN
    ensures NodeBytes(FromBigEndian(mac)) == mac
  {
    ToFromBigEndian(mac);
  }

  /** The test node 123456789 packs to the bytes 00 00 07 5b cd 15. */
  lemma TestNodeBytes()
    ensures NodeBytes(123456789) == [0x00, 0x00, 0x07, 0x5b, 0xcd, 0x15]
  {
  }

  lemma TestNodeHex()
    ensures Hex([0x00, 0x00, 0x07, 0x5b, 0xcd, 0x15]) == "0000075bcd15"
  {
    var n1: seq<Byte> := [0x00];
    var n2, n3, n4, n5 := n1 + [0x00], n1 + [0x00, 0x07], n1 + [0x00, 0x07, 0x5b], n1 + [0x00, 0x07, 0x5b, 0xcd];
    var node := n5 + [0x15];
    assert Hex(n1) == "00" by { assert n1[..0] == []; assert HexPair(0x00) == "00"; }
    assert Hex(n2) == "0000" by { assert n2[..1] == n1; }
    assert Hex(n3) == "000007" by { assert n3[..2] == n2; assert HexPair(0x07) == "07"; }
    assert Hex(n4) == "0000075b" by { assert n4[..3] == n3; assert HexPair(0x5b) == "5b"; }
    assert Hex(n5) == "0000075bcd" by { assert n5[..4] == n4; assert HexPair(0xcd) == "cd"; }
    assert Hex(node) == "0000075bcd15" by { assert node[..5] == n5; assert HexPair(0x15) == "15"; }
    assert node == [0x00, 0x00, 0x07, 0x5b, 0xcd, 0x15];
  }

  /** The node 123456789 of the tests appears as hex characters 16..27, "0000075bcd15". */
  lemma NodeHexInIdentifier(time: Int64, sequence: int)
    ensures Hex(IdLayout(time, NodeBytes(123456789), sequence))[16..28] == "0000075bcd15"
  {
    var node := NodeBytes(123456789);
    var a, c := ToBigEndian(time, 8), ToBigEndian(sequence, 2);
    HexAppend(a, node);
    HexAppend(a + node, c);
    assert Hex(a + node + c)[16..28] == Hex(node);
    TestNodeBytes();
    TestNodeHex();
  }

  // ---------------------------------------------------------------------
  // The text forms

  /** The three numbers of the component string, in the order it prints them. */
  datatype Components = Components(time: int, node: int, sequence: int)

  /** "time-node-sequence", each number in decimal. */
  function Render(c: Components): string {
    ToDecimal(c.time) + "-" + ToDecimal(c.node) + "-" + ToDecimal(c.sequence)
  }

  /** Reads a number followed by '-' from the front of s, and returns it with what follows the '-'. */
  function ParseThenDash(s: string): (r: Option<(int, string)>) {
    match ParseLeading(s)
    case None => None
    case Some((x, rest)) => if |rest| > 0 && rest[0] == '-' then Some((x, rest[1..])) else None
  }

  /** Reads "time-node-sequence" back. */
  function ParseComponents(s: string): (r: Option<Components>) {
    match ParseThenDash(s)
    case None => None
    case Some((time, rest1)) =>
      match ParseThenDash(rest1)
      case None => None
      case Some((node, rest2)) =>
        match ParseLeading(rest2)
        case None => None
        case Some((sequence, rest3)) =>
          if rest3 == [] then Some(Components(time, node, sequence)) else None
  }

  lemma ParseThenDashOfDecimal(x: int, rest: string)
    ensures ParseThenDash(ToDecimal(x) + "-" + rest) == Some((x, rest))
  {
    assert ToDecimal(x) + "-" + rest == ToDecimal(x) + ("-" + rest);
    ParseLeadingOfDecimal(x, "-" + rest);
    assert ("-" + rest)[1..] == rest;
  }

  /** The rendering is unambiguous: parsing it gives the three numbers back, signs included. */
  lemma ParseRender(c: Components)
    ensures ParseComponents(Render(c)) == Some(c)
  {
    var t, n, q := ToDecimal(c.time), ToDecimal(c.node), ToDecimal(c.sequence);
    assert Render(c) == t + "-" + (n + "-" + q);
    ParseThenDashOfDecimal(c.time, n + "-" + q);
    ParseThenDashOfDecimal(c.node, q);
    assert q == q + "";
    ParseLeadingOfDecimal(c.sequence, "");
  }

  /**
   * The numbers asComponentString reads: the six "node" bytes from offset 0
   * (as BigInteger, sign-extended), then a long from offset 6 and a short
   * from offset 14. Fewer than 16 bytes underflow the buffer.
   */
  function ReadComponents(id: seq<Byte>): (r: Result<Components, Error>)
    ensures r.Failure? <==> |id| < ID_SIZE_BYTES
    ensures r.Failure? ==> r.error == BufferUnderflow
    ensures r.Success? ==>
      && ToBigEndian(r.value.node, 6) == id[..6]
      && ToBigEndian(r.value.time, 8) == id[6..14]
      && ToBigEndian(r.value.sequence, 2) == id[14..16]
    ensures r.Success? ==>
      && -0x8000_0000_0000_0000 <= r.value.time < 0x8000_0000_0000_0000
      && -0x8000_0000_0000 <= r.value.node < 0x8000_0000_0000
      && -0x8000 <= r.value.sequence < 0x8000
  {
    if |id| < NODE_ID_BYTES then Failure(BufferUnderflow)        // buffer.get(node)
    else if |id| < NODE_ID_BYTES + 8 then Failure(BufferUnderflow)  // buffer.getLong()
    else if |id| < ID_SIZE_BYTES then Failure(BufferUnderflow)      // buffer.getShort()
    else
      var node, time, sequence := id[..6], id[6..14], id[14..16];
      SignedFieldRoundTrip(node);
      SignedFieldRoundTrip(time);
      SignedFieldRoundTrip(sequence);
      assert Pow256(2) == 0x1_0000 && Pow256(6) == 0x1_0000_0000_0000;
      assert Pow256(8) == 0x1_0000_0000_0000_0000;
      Success(Components(
        time := Signed(FromBigEndian(time), 8),
        node := Signed(FromBigEndian(node), 6),
        sequence := Signed(FromBigEndian(sequence), 2)))
  }

  /** asComponentString: the numbers ReadComponents reads, rendered "L-N-S". */
  function AsComponentString(id: seq<Byte>): (r: Result<string, Error>)
    ensures r.Failure? <==> |id| < ID_SIZE_BYTES
    ensures r.Success? ==> ParseComponents(r.value) == Some(ReadComponents(id).value)
  {
    match ReadComponents(id)
    case Failure(e) => Failure(e)
    case Success(c) => ParseRender(c); Success(Render(c))
  }

  lemma ReadComponentsFields(id: seq<Byte>)
    requires |id| >= ID_SIZE_BYTES
    ensures ReadComponents(id) == Success(Components(
      time := Signed(FromBigEndian(id[6..14]), 8),
      node := Signed(FromBigEndian(id[..6]), 6),
      sequence := Signed(FromBigEndian(id[14..16]), 2)))
  {
  }

  /** Bytes 0..5 of a generated identifier are the top six bytes of the time. */
  lemma GeneratedNodeField(time: Int64, nodeId: seq<Byte>, sequence: int)
    requires |nodeId| == NODE_ID_BYTES
    ensures Signed(FromBigEndian(IdLayout(time, nodeId, sequence)[..6]), 6) == time / 0x1_0000
  {
    var id := IdLayout(time, nodeId, sequence);
    assert Pow256(2) == 0x1_0000 && Pow256(6) == 0x1_0000_0000_0000;
    assert id[..6] == ToBigEndian(time, 6 + 2)[..6];
    ToBigEndianPrefix(time, 6, 2);
    SignedOfField(time / 0x1_0000, 6);
  }

  /** Bytes 6..13 of a generated identifier are the last two bytes of the time, then the node bytes. */
  lemma GeneratedTimeField(time: Int64, nodeId: seq<Byte>, sequence: int)
    requires |nodeId| == NODE_ID_BYTES
    ensures FromBigEndian(IdLayout(time, nodeId, sequence)[6..14])
      == (time % 0x1_0000) * 0x1_0000_0000_0000 + FromBigEndian(nodeId)
  {
    var a := ToBigEndian(time, 6 + 2);
    var id := IdLayout(time, nodeId, sequence);
    assert Pow256(2) == 0x1_0000 && Pow256(6) == 0x1_0000_0000_0000;
    assert id[6..14] == a[6..] + nodeId;
    ToBigEndianSuffix(time, 6, 2);
    FromBigEndianAppend(a[6..], nodeId);
    FromToBigEndian(time, 2);
  }

  lemma GeneratedSequenceField(time: Int64, nodeId: seq<Byte>, sequence: int)
    requires |nodeId| == NODE_ID_BYTES
    ensures FromBigEndian(IdLayout(time, nodeId, sequence)[14..16]) == sequence % 0x1_0000
  {
    var id := IdLayout(time, nodeId, sequence);
    assert id[14..16] == ToBigEndian(sequence, 2);
    FromToBigEndian(sequence, 2);
    assert Pow256(2) == 0x1_0000;
  }

  /**
   * What asComponentString prints for an identifier laid out by generateId:
   * its "node" is the time shifted right by 16 bits, its "time" joins the low
   * 16 bits of the time to the node bytes, and its sequence is sign-extended.
   */
  lemma ComponentsOfGeneratedId(time: Int64, nodeId: seq<Byte>, sequence: int)
    requires |nodeId| == NODE_ID_BYTES
    ensures ReadComponents(IdLayout(time, nodeId, sequence)) == Success(Components(
      time := Signed((time % 0x1_0000) * 0x1_0000_0000_0000 + FromBigEndian(nodeId), 8),
      node := time / 0x1_0000,
      sequence := Signed(sequence % 0x1_0000, 2)))
  {
    var id := IdLayout(time, nodeId, sequence);
    GeneratedNodeField(time, nodeId, sequence);
    GeneratedTimeField(time, nodeId, sequence);
    GeneratedSequenceField(time, nodeId, sequence);
    ReadShiftedFields(time, nodeId, sequence, id);
  }

  /** ReadComponents of any 16 bytes whose slices hold the values a generated identifier puts there. */
  lemma ReadShiftedFields(time: Int64, nodeId: seq<Byte>, sequence: int, id: seq<Byte>)
    requires |nodeId| == NODE_ID_BYTES && |id| == ID_SIZE_BYTES
    requires Signed(FromBigEndian(id[..6]), 6) == time / 0x1_0000
    requires FromBigEndian(id[6..14]) == (time % 0x1_0000) * 0x1_0000_0000_0000 + FromBigEndian(nodeId)
    requires FromBigEndian(id[14..16]) == sequence % 0x1_0000
    ensures ReadComponents(id) == Success(Components(
      time := Signed((time % 0x1_0000) * 0x1_0000_0000_0000 + FromBigEndian(nodeId), 8),
      node := time / 0x1_0000,
      sequence := Signed(sequence % 0x1_0000, 2)))
  {
    ReadComponentsFields(id);
  }

  /**
   * An identifier generated in the first 32768 ms of the epoch with the tests'
   * node 123456789 (time 1000 and sequence 0, say) is reported with node 0
   * and a time that holds the node bytes.
   */
  lemma ComponentStringMisreadsLayout(time: Int64, sequence: int)
    requires 0 <= time < 0x8000 && 0 <= sequence < 0x8000
    ensures var c := ReadComponents(IdLayout(time, NodeBytes(123456789), sequence)).value;
      && c == Components(time * 0x1_0000_0000_0000 + 123456789, 0, sequence)
      && c != Components(time, 123456789, sequence)
  {
    var node := NodeBytes(123456789);
    ComponentsOfGeneratedId(time, node, sequence);
    TestNodeValue();
    ModUnique(time, 0x1_0000, 0, time);
    ModUnique(sequence, 0x1_0000, 0, sequence);
    var u := time * 0x1_0000_0000_0000 + 123456789;
    assert time * 0x1_0000_0000_0000 <= 0x7FFF * 0x1_0000_0000_0000;
    assert Pow256(8) == 0x1_0000_0000_0000_0000;
    SmallSigned(u, 8);
    assert Pow256(2) == 0x1_0000;
    SmallSigned(sequence, 2);
  }

  lemma TestNodeValue()
    ensures FromBigEndian(NodeBytes(123456789)) == 123456789
  {
    assert Pow256(6) == 0x1_0000_0000_0000;
    UnsignedOfField(123456789, NODE_ID_BYTES);
  }

  lemma SmallSigned(u: int, n: nat)
    requires n > 0 && 0 <= u < Pow256(n) / 2
    ensures Signed(u, n) == u
  {
  }

  /** Sequence 32768 is printed as -32768. */
  lemma ComponentStringNegativeSequence(time: Int64, nodeId: seq<Byte>)
    requires |nodeId| == NODE_ID_BYTES
    ensures ReadComponents(IdLayout(time, nodeId, 0x8000)).value.sequence == -0x8000
  {
    ComponentsOfGeneratedId(time, nodeId, 0x8000);
    SignedLowestSequence();
  }

  /** Two bytes holding 0x8000 read as a signed short give its lowest value. */
  lemma SignedLowestSequence()
    ensures Signed(0x8000 % 0x1_0000, 2) == -0x8000
  {
    assert Pow256(2) == 0x1_0000;
  }

  /**
   * The decoding of generateId's layout: the time from bytes 0..7, the node
   * from bytes 8..13 (sign-extended, as BigInteger reads it) and the
   * sequence, unsigned, from bytes 14..15.
   */
  function DecodeComponents(id: seq<Byte>): (r: Result<Components, Error>)
    ensures r.Failure? <==> |id| < ID_SIZE_BYTES
    ensures r.Success? ==>
      && ToBigEndian(r.value.time, 8) == id[..8]
      && ToBigEndian(r.value.node, 6) == id[8..14]
      && ToBigEndian(r.value.sequence, 2) == id[14..16]
    ensures r.Success? ==>
      && -0x8000_0000_0000_0000 <= r.value.time < 0x8000_0000_0000_0000
      && -0x8000_0000_0000 <= r.value.node < 0x8000_0000_0000
      && 0 <= r.value.sequence <= MAX_SEQ
  {
    if |id| < ID_SIZE_BYTES then Failure(BufferUnderflow)
    else
      var time, node, sequence := id[..8], id[8..14], id[14..16];
      SignedFieldRoundTrip(time);
      SignedFieldRoundTrip(node);
      ToFromBigEndian(sequence);
      assert Pow256(2) == 0x1_0000 && Pow256(6) == 0x1_0000_0000_0000;
      assert Pow256(8) == 0x1_0000_0000_0000_0000;
      Success(Components(
        time := Signed(FromBigEndian(time), 8),
        node := Signed(FromBigEndian(node), 6),
        sequence := FromBigEndian(sequence)))
  }

  function ComponentString(id: seq<Byte>): (r: Result<string, Error>)
    ensures r.Failure? <==> |id| < ID_SIZE_BYTES
    ensures r.Success? ==> ParseComponents(r.value) == Some(DecodeComponents(id).value)
  {
    match DecodeComponents(id)
    case Failure(e) => Failure(e)
    case Success(c) => ParseRender(c); Success(Render(c))
  }

  /**
   * The component string of a generated identifier gives back the time, the
   * node bytes and the sequence.
   */
  lemma ComponentStringRoundTrip(time: Int64, nodeId: seq<Byte>, sequence: int)
    requires |nodeId| == NODE_ID_BYTES && 0 <= sequence <= MAX_SEQ
    ensures var c := Components(time, Signed(FromBigEndian(nodeId), 6), sequence);
      && DecodeComponents(IdLayout(time, nodeId, sequence)) == Success(c)
      && ComponentString(IdLayout(time, nodeId, sequence)) == Success(Render(c))
      && ParseComponents(Render(c)) == Some(c)
      && ToBigEndian(c.node, 6) == nodeId
  {
    DecodeGeneratedId(time, nodeId, sequence);
    SignedFieldRoundTrip(nodeId);
    ParseRender(Components(time, Signed(FromBigEndian(nodeId), 6), sequence));
  }

  lemma DecodeGeneratedId(time: Int64, nodeId: seq<Byte>, sequence: int)
    requires |nodeId| == NODE_ID_BYTES && 0 <= sequence <= MAX_SEQ
    ensures DecodeComponents(IdLayout(time, nodeId, sequence))
      == Success(Components(time, Signed(FromBigEndian(nodeId), 6), sequence))
  {
    IdLayoutFields(time, nodeId, sequence);
    DecodeComponentsFields(IdLayout(time, nodeId, sequence));
  }

  lemma DecodeComponentsFields(id: seq<Byte>)
    requires |id| >= ID_SIZE_BYTES
    ensures DecodeComponents(id) == Success(Components(
      time := Signed(FromBigEndian(id[..8]), 8),
      node := Signed(FromBigEndian(id[8..14]), 6),
      sequence := FromBigEndian(id[14..16])))
  {
  }

  // ---------------------------------------------------------------------
  // The generator

  class Flake4J {
    const nodeId: seq<Byte>
    var currentTime: Int64
    var lastTime: Int64
    var sequence: int

    ghost predicate Valid()
      reads this
    {
      |nodeId| == NODE_ID_BYTES && InRange(State())
    }

    function State(): GenState
      reads this
    {
      GenState(lastTime, sequence)
    }

    /** The private constructor: lastTime is the first clock reading, the sequence -1. */
    constructor (nodeId: seq<Byte>, now: Int64)
      requires |nodeId| == NODE_ID_BYTES
      ensures Valid() && this.nodeId == nodeId && State() == GenState(now, -1)
      ensures currentTime == 0
    {
      this.nodeId := nodeId;
      // Java leaves the field at its default until the first updateState.
      this.currentTime := 0;
      this.lastTime := now;
      this.sequence := -1;
    }

    /** newInstance(NodeIdentifier, Clock) with the node identifier's get() value. */
    static method NewInstance(nodeValue: Int64, now: Int64) returns (f: Flake4J)
      ensures fresh(f) && f.Valid()
      ensures f.nodeId == NodeBytes(nodeValue) && f.State() == GenState(now, -1)
    {
      var nodeId := PackNodeId(nodeValue);
      f := new Flake4J(nodeId, now);
    }

    /** updateState: reads the clock into currentTime and steps the state machine. */
    method UpdateState(now: Int64) returns (r: Outcome)
      requires Valid()
      modifies this
      ensures Valid() && currentTime == now
      ensures r.Fail? <==> NextState(old(State()), now).None?
      ensures r.Fail? ==> r.error == SequenceOverflow && State() == old(State())
      ensures r.Pass? ==> State() == NextState(old(State()), now).value
    {
      currentTime := now;
      if currentTime != lastTime {
        sequence := 0;
        lastTime := currentTime;
      } else if sequence == MAX_SEQ {
        return Fail(SequenceOverflow);
      } else {
        sequence := sequence + 1;
      }
      return Pass;
    }

    /**
     * generateId: one step of the state machine, then the 16 bytes of the
     * identifier written into a fresh buffer.
     */
    method GenerateId(now: Int64) returns (r: Result<seq<Byte>, Error>)
      requires Valid()
      modifies this
      ensures Valid() && currentTime == now
      ensures NextState(old(State()), now).None? ==>
        r == Failure(SequenceOverflow) && State() == old(State())
      ensures NextState(old(State()), now).Some? ==>
        State() == NextState(old(State()), now).value &&
        r == Success(IdLayout(now, nodeId, sequence))
    {
      var outcome := UpdateState(now);
      if outcome.Fail? {
        return Failure(outcome.error);
      }
      var idBuffer := new Byte[ID_SIZE_BYTES];
      var position := Put(idBuffer, 0, ToBigEndian(currentTime, 8));
      position := Put(idBuffer, position, nodeId);
      position := Put(idBuffer, position, ToBigEndian(sequence, 2));
      assert idBuffer[..] == IdLayout(now, nodeId, sequence);
      return Success(idBuffer[..]);
    }
  }

  datatype Outcome = Pass | Fail(error: Error)

  /** A relative ByteBuffer put: writes bytes at the cursor and returns the advanced cursor. */
  method Put(buffer: array<Byte>, position: nat, bytes: seq<Byte>) returns (next: nat)
    requires position + |bytes| <= buffer.Length
    modifies buffer
    ensures next == position + |bytes|
    ensures buffer[..] == old(buffer[..position]) + bytes + old(buffer[next..])
  {
    for k := 0 to |bytes|
      invariant forall j :: 0 <= j < buffer.Length ==>
        buffer[j] == if position <= j < position + k then bytes[j - position] else old(buffer[j])
    {
      buffer[position + k] := bytes[k];
    }
    next := position + |bytes|;
  }

  /** newInstance(): the node bytes come from the first viable interface's MAC address. */
  method NewInstanceFromInterfaces(nics: seq<MacAddress.NetworkInterface>, now: Int64)
    returns (r: Result<Flake4J, MacAddress.NodeError>)
    ensures r.Failure? <==>
      (forall i :: 0 <= i < |nics| ==> !MacAddress.Viable(nics[i])) ||
      (exists i :: 0 <= i < |nics| && MacAddress.Viable(nics[i]) &&
        |nics[i].hardwareAddress| != MacAddress.MAC_ADDRESS_LEN &&
        forall j :: 0 <= j < i ==> !MacAddress.Viable(nics[j]))
    ensures r.Failure? ==> r.error == MacAddress.NoViableAddress || r.error == MacAddress.InvalidAddress
    ensures (forall i :: 0 <= i < |nics| ==> !MacAddress.Viable(nics[i])) <==> r == Failure(MacAddress.NoViableAddress)
    ensures r.Success? ==> fresh(r.value) && r.value.Valid() && r.value.State() == GenState(now, -1)
    ensures r.Success? ==>
      exists i :: 0 <= i < |nics| && MacAddress.Viable(nics[i]) && r.value.nodeId == nics[i].hardwareAddress &&
        forall j :: 0 <= j < i ==> !MacAddress.Viable(nics[j])
  {
    var node := MacAddress.NewInstance(nics);
    if node.Failure? {
      return Failure(node.error);
    }
    var nodeValue := node.value.Get();
    var f := Flake4J.NewInstance(nodeValue, now);
    PackingRestoresMacAddress(node.value.macAddress);
    return Success(f);
  }
}
