/**
 * The records of the hash-chained command log and the chain they form:
 * the canonical hash payload, the lowercase hex rendering of a SHA-256 digest,
 * and what it means for a sequence of records to verify.
 *
 * SHA-256 itself is not modelled: every definition takes the digest as a
 * parameter `sha256`, a function from the hashed text to its 32 bytes.
 */
module CommandRecords {
  import opened Wrappers
  import opened Numeric
  import opened Text
  import opened Domain

  datatype CommandType = Order | Cancel

  /**
   * One command-log record. Every reference field of the Java record may be
   * null (`None`); `price` and `quantity` are primitive `long`s.
   */
  datatype Record = Record(
    commandType: Option<CommandType>,
    orderId: Option<string>,
    side: Option<string>,
    price: i64,
    quantity: i64,
    timestamp: Option<Instant>,
    cancelOrderId: Option<string>,
    prevHash: Option<string>,
    hash: Option<string>)

  const GENESIS := "GENESIS"

  /** null as the empty string. */
  function Safe(s: Option<string>): (r: string)
    ensures s.Some? ==> r == s.value
    ensures r == "" <==> s.None? || s.value == ""
  {
    if s.Some? then s.value else ""
  }

  /** `Type.name()`, or "" for a missing type. */
  function TypeName(t: Option<CommandType>): string {
    match t
    case None => ""
    case Some(Order) => "ORDER"
    case Some(Cancel) => "CANCEL"
  }

  function TimestampText(t: Option<Instant>): string {
    if t.Some? then t.value.iso else ""
  }

  /** The values of a record that enter its hash, each as the text the payload writes. */
  datatype HashedFields = HashedFields(
    typeName: string, orderId: string, side: string, price: i64, quantity: i64,
    cancelOrderId: string, timestamp: string)

  function Hashed(r: Record): HashedFields {
    HashedFields(TypeName(r.commandType), Safe(r.orderId), Safe(r.side), r.price, r.quantity,
                 Safe(r.cancelOrderId), TimestampText(r.timestamp))
  }

  function PayloadParts(f: HashedFields): (parts: seq<string>)
    ensures |parts| == 7
  {
    ["type=" + f.typeName, "orderId=" + f.orderId, "side=" + f.side,
     "price=" + LongToString(f.price), "quantity=" + LongToString(f.quantity),
     "cancelOrderId=" + f.cancelOrderId, "timestamp=" + f.timestamp]
  }

  /** `payloadForHash`: the seven `key=value` pairs in fixed order, joined by `|`. */
  function Payload(r: Record): (p: string)
    ensures Count(p, '|') >= 6
    ensures NoBar(r) ==> Split(p, '|') == PayloadParts(Hashed(r))
  {
    var parts := PayloadParts(Hashed(r));
    JoinCount('|', parts);
    assert NoBar(r) ==> Split(Join('|', parts), '|') == parts by {
      if NoBar(r) {
        PartsNoBar(r);
        SplitJoin('|', parts);
      }
    }
    Join('|', parts)
  }

  /** No free-text field of the record contains the payload separator. */
  predicate NoBar(r: Record) {
    '|' !in Safe(r.orderId) && '|' !in Safe(r.side) && '|' !in Safe(r.cancelOrderId)
    && '|' !in TimestampText(r.timestamp)
  }

  lemma LongTextNoBar(x: i64)
    ensures '|' !in LongToString(x)
  {
    LongToStringChars(x);
  }

  lemma PartsNoBar(r: Record)
    requires NoBar(r)
    ensures forall i :: 0 <= i < 7 ==> '|' !in PayloadParts(Hashed(r))[i]
  {
    var f, parts := Hashed(r), PayloadParts(Hashed(r));
    LongTextNoBar(r.price);
    LongTextNoBar(r.quantity);
    assert '|' !in f.typeName;
    PairNoBar("type=", f.typeName);
    PairNoBar("orderId=", f.orderId);
    PairNoBar("side=", f.side);
    PairNoBar("price=", LongToString(f.price));
    PairNoBar("quantity=", LongToString(f.quantity));
    PairNoBar("cancelOrderId=", f.cancelOrderId);
    PairNoBar("timestamp=", f.timestamp);
  }

  lemma PairNoBar(key: string, value: string)
    requires '|' !in key && '|' !in value
    ensures '|' !in key + value
  {
  }

  lemma PartsInjective(f: HashedFields, g: HashedFields)
    requires PayloadParts(f) == PayloadParts(g)
    ensures f == g
  {
    var pf, pg := PayloadParts(f), PayloadParts(g);
    assert pf[0] == pg[0] && pf[1] == pg[1] && pf[2] == pg[2] && pf[3] == pg[3];
    assert pf[4] == pg[4] && pf[5] == pg[5] && pf[6] == pg[6];
    PrefixCancel("type=", f.typeName, g.typeName);
    PrefixCancel("orderId=", f.orderId, g.orderId);
    PrefixCancel("side=", f.side, g.side);
    PrefixCancel("price=", LongToString(f.price), LongToString(g.price));
    PrefixCancel("quantity=", LongToString(f.quantity), LongToString(g.quantity));
    PrefixCancel("cancelOrderId=", f.cancelOrderId, g.cancelOrderId);
    PrefixCancel("timestamp=", f.timestamp, g.timestamp);
    LongToStringInjective(f.price, g.price);
    LongToStringInjective(f.quantity, g.quantity);
  }

  /** When no field contains `|`, the payload determines every hashed field. */
  lemma PayloadInjective(a: Record, b: Record)
    requires NoBar(a) && NoBar(b)
    requires Payload(a) == Payload(b)
    ensures Hashed(a) == Hashed(b)
  {
    PartsNoBar(a);
    PartsNoBar(b);
    SplitJoin('|', PayloadParts(Hashed(a)));
    SplitJoin('|', PayloadParts(Hashed(b)));
    PartsInjective(Hashed(a), Hashed(b));
  }

  lemma JoinFirstThree(sep: char, parts: seq<string>)
    requires |parts| >= 4
    ensures Join(sep, parts) == parts[0] + [sep] + (parts[1] + [sep] + parts[2]) + [sep] + Join(sep, parts[3..])
  {
    assert parts[1..][1..] == parts[2..];
    assert parts[2..][1..] == parts[3..];
    var j := Join(sep, parts[3..]);
    assert Join(sep, parts[2..]) == parts[2] + [sep] + j;
    assert Join(sep, parts[1..]) == parts[1] + [sep] + (parts[2] + [sep] + j);
    assert Join(sep, parts) == parts[0] + [sep] + (parts[1] + [sep] + (parts[2] + [sep] + j));
    assert parts[1] + [sep] + (parts[2] + [sep] + j) == (parts[1] + [sep] + parts[2]) + [sep] + j;
  }

  /**
   * Without the no-`|` condition the payload is ambiguous: moving text across
   * the `orderId`/`side` boundary (`x|side=y` and `z` become `x` and `y|side=z`)
   * changes the record but leaves the payload, and so the hash, unchanged.
   */
  lemma PayloadCollision(r: Record, x: string, y: string, z: string)
    requires r.orderId == Some(x + "|side=" + y) && r.side == Some(z)
    ensures var moved := r.(orderId := Some(x), side := Some(y + "|side=" + z));
            Hashed(r) != Hashed(moved) && Payload(r) == Payload(moved)
  {
    var moved := r.(orderId := Some(x), side := Some(y + "|side=" + z));
    var pa, pb := PayloadParts(Hashed(r)), PayloadParts(Hashed(moved));
    assert pa[0] == pb[0];
    assert pa[3..] == pb[3..];
    JoinFirstThree('|', pa);
    JoinFirstThree('|', pb);
    var bar, key := "|", "side=";
    assert bar + key == "|side=";
    assert pa[1] + bar + pa[2] == pb[1] + bar + pb[2];
    assert |Hashed(r).orderId| > |Hashed(moved).orderId|;
  }

  // ---------------------------------------------------------------- hex

  type Byte = b: int | 0 <= b < 256

  /** A SHA-256 digest. */
  type Bytes32 = s: seq<Byte> | |s| == 32 witness seq(32, _ => 0)

  predicate IsHexDigit(c: char) {
    '0' <= c <= '9' || 'a' <= c <= 'f'
  }

  function HexValue(c: char): (d: int)
    requires IsHexDigit(c)
    ensures 0 <= d < 16
  {
    if c <= '9' then c as int - '0' as int else c as int - 'a' as int + 10
  }

  /** One lowercase hexadecimal digit; `HexValue` reads it back. */
  function HexDigit(d: int): (c: char)
    requires 0 <= d < 16
    ensures IsHexDigit(c) && HexValue(c) == d
  {
    if d < 10 then ('0' as int + d) as char else ('a' as int + d - 10) as char
  }

  /** `String.format("%02x", b)`: exactly two lowercase digits, high nibble first. */
  function HexByte(b: Byte): string {
    [HexDigit(b / 16), HexDigit(b % 16)]
  }

  /** The bytes as lowercase hex, two digits per byte, in order. */
  function HexOf(bs: seq<Byte>): (s: string)
    ensures |s| == 2 * |bs|
    ensures forall i :: 0 <= i < |s| ==> IsHexDigit(s[i])
  {
    if bs == [] then "" else HexOf(bs[..|bs| - 1]) + HexByte(bs[|bs| - 1])
  }

  predicate IsHex(s: string) {
    |s| % 2 == 0 && forall i :: 0 <= i < |s| ==> IsHexDigit(s[i])
  }

  /** Reads lowercase hex text back into bytes, two digits per byte. */
  function HexDecode(s: string): (bs: seq<Byte>)
    requires IsHex(s)
    ensures |bs| * 2 == |s|
  {
    if s == "" then []
    else HexDecode(s[..|s| - 2]) + [HexValue(s[|s| - 2]) * 16 + HexValue(s[|s| - 1])]
  }

  lemma {:induction false} HexRoundTrip(bs: seq<Byte>)
    ensures HexDecode(HexOf(bs)) == bs
  {
    if bs != [] {
      var pre, last := bs[..|bs| - 1], bs[|bs| - 1];
      var s := HexOf(bs);
      assert s == HexOf(pre) + HexByte(last);
      assert s[..|s| - 2] == HexOf(pre);
      HexRoundTrip(pre);
      assert bs == pre + [last];
    }
  }

  lemma HexInjective(a: seq<Byte>, b: seq<Byte>)
    requires HexOf(a) == HexOf(b)
    ensures a == b
  {
    HexRoundTrip(a);
    HexRoundTrip(b);
  }

  /** Hex text never contains the separator and is never the genesis marker. */
  lemma HexShape(bs: seq<Byte>)
    ensures '|' !in HexOf(bs)
    ensures HexOf(bs) != GENESIS
  {
    if bs != [] {
      assert IsHexDigit(HexOf(bs)[0]) && !IsHexDigit(GENESIS[0]);
    }
  }

  /** `sha256Hex(s)`. */
  function HashHex(sha256: string -> Bytes32, s: string): (h: string)
    ensures |h| == 64 && IsHex(h)
    ensures HexDecode(h) == sha256(s)
  {
    HexRoundTrip(sha256(s));
    HexOf(sha256(s))
  }

  /** The hex loop of `sha256Hex`: one two-digit group appended per digest byte. */
  method Sha256Hex(sha256: string -> Bytes32, s: string) returns (hex: string)
    ensures hex == HashHex(sha256, s)
    ensures |hex| == 64
  {
    var out := sha256(s);
    hex := "";
    for i := 0 to |out|
      invariant hex == HexOf(out[..i])
    {
      assert out[..i + 1][..i] == out[..i];
      hex := hex + HexByte(out[i]);
    }
    assert out[..|out|] == out;
  }

  // ---------------------------------------------------------------- the chain

  /** The text that is hashed: `prevHash + "|" + payload`. */
  function Input(prev: string, r: Record): string {
    prev + "|" + Payload(r)
  }

  /** The record as `append` writes it after the previous hash `prev`. */
  function Seal(sha256: string -> Bytes32, prev: string, r: Record): (s: Record)
    ensures Hashed(s) == Hashed(r)
    ensures Safe(s.prevHash) == prev
    ensures Safe(s.hash) == HashHex(sha256, Input(prev, s))
  {
    r.(prevHash := Some(prev), hash := Some(HashHex(sha256, Input(prev, r))))
  }

  /** What the check expects as record `i`'s prevHash (for `i == |recs|`: the next record's). */
  function ExpectedPrev(recs: seq<Record>, i: nat): string
    requires i <= |recs|
  {
    if i == 0 then GENESIS else Safe(recs[i - 1].hash)
  }

  function ChainInput(recs: seq<Record>, i: nat): string
    requires i < |recs|
  {
    Input(ExpectedPrev(recs, i), recs[i])
  }

  /** Both checks of the verification loop pass at record `i`. */
  predicate LinkedAt(sha256: string -> Bytes32, recs: seq<Record>, i: nat)
    requires i < |recs|
  {
    Safe(recs[i].prevHash) == ExpectedPrev(recs, i)
    && Safe(recs[i].hash) == HashHex(sha256, ChainInput(recs, i))
  }

  predicate Verifies(sha256: string -> Bytes32, recs: seq<Record>) {
    forall i :: 0 <= i < |recs| ==> LinkedAt(sha256, recs, i)
  }

  /**
   * Record `i` is the first that fails a check, and `kind` names the check:
   * the prevHash check comes first, so a hash mismatch means the prevHash matched.
   */
  predicate FirstBreak(sha256: string -> Bytes32, recs: seq<Record>, i: nat, kind: Mismatch) {
    i < |recs|
    && (forall k :: 0 <= k < i ==> LinkedAt(sha256, recs, k))
    && !LinkedAt(sha256, recs, i)
    && (kind == PrevHashMismatch <==> Safe(recs[i].prevHash) != ExpectedPrev(recs, i))
  }

  /** A failed check is reported as the tampered line, 1-based, at the first break. */
  predicate ReportsFirstBreak(sha256: string -> Bytes32, recs: seq<Record>, o: Outcome<Error>) {
    o.Fail? ==>
      o.error.Tampered? && o.error.line >= 1 && FirstBreak(sha256, recs, o.error.line - 1, o.error.mismatch)
  }

  /** A record failing a check after linked ones is the first break, and the chain does not verify. */
  lemma BreakFound(sha256: string -> Bytes32, recs: seq<Record>, i: nat, kind: Mismatch)
    requires i < |recs| && forall k :: 0 <= k < i ==> LinkedAt(sha256, recs, k)
    requires kind == PrevHashMismatch ==> Safe(recs[i].prevHash) != ExpectedPrev(recs, i)
    requires kind == HashMismatch ==>
      Safe(recs[i].prevHash) == ExpectedPrev(recs, i) && Safe(recs[i].hash) != HashHex(sha256, ChainInput(recs, i))
    ensures ReportsFirstBreak(sha256, recs, Fail(Tampered(kind, i + 1))) && !Verifies(sha256, recs)
  {
    assert !LinkedAt(sha256, recs, i);
  }

  lemma LinkedUpTo(sha256: string -> Bytes32, recs: seq<Record>, i: nat)
    requires i < |recs| && forall k :: 0 <= k < i ==> LinkedAt(sha256, recs, k)
    requires Safe(recs[i].prevHash) == ExpectedPrev(recs, i)
    requires Safe(recs[i].hash) == HashHex(sha256, ChainInput(recs, i))
    ensures forall k :: 0 <= k < i + 1 ==> LinkedAt(sha256, recs, k)
  {
  }

  /**
   * The loop of `verifyChainOrThrow` over the records read: passes exactly when
   * they verify, and otherwise reports the first failing record, 1-based.
   */
  method CheckChain(sha256: string -> Bytes32, all: seq<Record>) returns (o: Outcome<Error>)
    ensures o == Pass <==> Verifies(sha256, all)
    ensures ReportsFirstBreak(sha256, all, o)
  {
    var expectedPrev := GENESIS;
    for i := 0 to |all|
      invariant expectedPrev == ExpectedPrev(all, i)
      invariant forall k :: 0 <= k < i ==> LinkedAt(sha256, all, k)
    {
      var r := all[i];
      if expectedPrev != Safe(r.prevHash) {
        BreakFound(sha256, all, i, PrevHashMismatch);
        return Fail(Tampered(PrevHashMismatch, i + 1));
      }
      var expectedHash := Sha256Hex(sha256, Input(expectedPrev, r));
      if expectedHash != Safe(r.hash) {
        BreakFound(sha256, all, i, HashMismatch);
        return Fail(Tampered(HashMismatch, i + 1));
      }
      LinkedUpTo(sha256, all, i);
      expectedPrev := r.hash.value;
    }
    return Pass;
  }

  /** The digest does not map these two different texts to the same bytes. */
  predicate NoCollision(sha256: string -> Bytes32, x: string, y: string) {
    sha256(x) == sha256(y) ==> x == y
  }

  /** No two hashed inputs of the chain collide. */
  predicate CollisionFree(sha256: string -> Bytes32, recs: seq<Record>) {
    forall a, b :: 0 <= a < |recs| && 0 <= b < |recs| ==>
      NoCollision(sha256, ChainInput(recs, a), ChainInput(recs, b))
  }

  /** Sealing a record after a verifying chain's last hash keeps the chain verifying. */
  lemma AppendKeepsLinked(sha256: string -> Bytes32, recs: seq<Record>, r: Record)
    requires Verifies(sha256, recs)
    ensures Verifies(sha256, recs + [Seal(sha256, ExpectedPrev(recs, |recs|), r)])
  {
    var s := recs + [Seal(sha256, ExpectedPrev(recs, |recs|), r)];
    forall i | 0 <= i < |s|
      ensures LinkedAt(sha256, s, i)
    {
      if i < |recs| {
        assert s[i] == recs[i];
        assert ExpectedPrev(s, i) == ExpectedPrev(recs, i);
        assert LinkedAt(sha256, recs, i);
      } else {
        assert ExpectedPrev(s, i) == ExpectedPrev(recs, |recs|);
      }
    }
  }

  /** Every prefix of a verifying chain verifies: the check cannot see a truncated tail. */
  lemma PrefixVerifies(sha256: string -> Bytes32, recs: seq<Record>, n: nat)
    requires Verifies(sha256, recs) && n <= |recs|
    ensures Verifies(sha256, recs[..n])
  {
    forall i | 0 <= i < n
      ensures LinkedAt(sha256, recs[..n], i)
    {
      assert LinkedAt(sha256, recs, i);
      assert ExpectedPrev(recs[..n], i) == ExpectedPrev(recs, i);
    }
  }

  /** In a verifying chain the expected previous hash is GENESIS first, hex afterwards. */
  lemma ExpectedPrevShape(sha256: string -> Bytes32, recs: seq<Record>, i: nat)
    requires Verifies(sha256, recs) && i <= |recs|
    ensures '|' !in ExpectedPrev(recs, i)
    ensures i > 0 ==> ExpectedPrev(recs, i) != GENESIS
  {
    if i > 0 {
      assert LinkedAt(sha256, recs, i - 1);
      HexShape(sha256(ChainInput(recs, i - 1)));
    }
  }

  /** Equal digests of two chain inputs whose prefixes have no `|` mean equal prefixes. */
  lemma SameHashSamePrev(sha256: string -> Bytes32, recs: seq<Record>, a: nat, b: nat)
    requires Verifies(sha256, recs) && CollisionFree(sha256, recs)
    requires a < |recs| && b < |recs|
    requires Safe(recs[a].hash) == Safe(recs[b].hash)
    ensures ExpectedPrev(recs, a) == ExpectedPrev(recs, b)
  {
    assert LinkedAt(sha256, recs, a) && LinkedAt(sha256, recs, b);
    HexInjective(sha256(ChainInput(recs, a)), sha256(ChainInput(recs, b)));
    assert NoCollision(sha256, ChainInput(recs, a), ChainInput(recs, b));
    ExpectedPrevShape(sha256, recs, a);
    ExpectedPrevShape(sha256, recs, b);
    SplitAtFirst(ExpectedPrev(recs, a), Payload(recs[a]), ExpectedPrev(recs, b), Payload(recs[b]), '|');
  }

  /** Without digest collisions, the hashes of a verifying chain are pairwise distinct. */
  lemma {:induction false} HashesDistinct(sha256: string -> Bytes32, recs: seq<Record>, a: nat, b: nat)
    requires Verifies(sha256, recs) && CollisionFree(sha256, recs)
    requires a < b < |recs|
    ensures Safe(recs[a].hash) != Safe(recs[b].hash)
    decreases a
  {
    if Safe(recs[a].hash) == Safe(recs[b].hash) {
      SameHashSamePrev(sha256, recs, a, b);
      ExpectedPrevShape(sha256, recs, b);
      if a > 0 {
        HashesDistinct(sha256, recs, a - 1, b - 1);
      }
    }
  }

  /**
   * Editing a hashed field of one record, leaving its stored hashes as they were,
   * breaks verification, as long as the digest does not collide on the two inputs.
   */
  lemma EditDetected(sha256: string -> Bytes32, recs: seq<Record>, i: nat, edited: Record)
    requires Verifies(sha256, recs) && i < |recs|
    requires edited.prevHash == recs[i].prevHash && edited.hash == recs[i].hash
    requires Hashed(edited) != Hashed(recs[i])
    requires NoBar(edited) && NoBar(recs[i])
    requires NoCollision(sha256, ChainInput(recs, i), Input(ExpectedPrev(recs, i), edited))
    ensures !Verifies(sha256, recs[i := edited])
  {
    var s := recs[i := edited];
    assert ExpectedPrev(s, i) == ExpectedPrev(recs, i);
    assert LinkedAt(sha256, recs, i);
    if LinkedAt(sha256, s, i) {
      HexInjective(sha256(ChainInput(recs, i)), sha256(ChainInput(s, i)));
      PrefixCancel(ExpectedPrev(recs, i) + "|", Payload(recs[i]), Payload(edited));
      PayloadInjective(recs[i], edited);
    }
  }

  /** In a collision-free verifying chain, no two records expect the same previous hash. */
  lemma ExpectedPrevDistinct(sha256: string -> Bytes32, recs: seq<Record>, i: nat, j: nat)
    requires Verifies(sha256, recs) && CollisionFree(sha256, recs)
    requires i < j <= |recs|
    ensures ExpectedPrev(recs, i) != ExpectedPrev(recs, j)
  {
    ExpectedPrevShape(sha256, recs, j);
    if i > 0 {
      HashesDistinct(sha256, recs, i - 1, j - 1);
    }
  }

  /** Deleting any record but the last breaks a collision-free verifying chain. */
  lemma DeleteDetected(sha256: string -> Bytes32, recs: seq<Record>, i: nat)
    requires Verifies(sha256, recs) && CollisionFree(sha256, recs)
    requires i + 1 < |recs|
    ensures !Verifies(sha256, recs[..i] + recs[i + 1..])
  {
    var s := recs[..i] + recs[i + 1..];
    assert s[i] == recs[i + 1];
    assert ExpectedPrev(s, i) == ExpectedPrev(recs, i) by {
      if i > 0 { assert s[i - 1] == recs[i - 1]; }
    }
    assert Safe(recs[i + 1].prevHash) == ExpectedPrev(recs, i + 1) by {
      assert LinkedAt(sha256, recs, i + 1);
    }
    ExpectedPrevDistinct(sha256, recs, i, i + 1);
    assert !LinkedAt(sha256, s, i);
  }

  /** Swapping two records breaks a collision-free verifying chain. */
  lemma SwapDetected(sha256: string -> Bytes32, recs: seq<Record>, i: nat, j: nat)
    requires Verifies(sha256, recs) && CollisionFree(sha256, recs)
    requires i < j < |recs|
    ensures !Verifies(sha256, recs[i := recs[j]][j := recs[i]])
  {
    var s := recs[i := recs[j]][j := recs[i]];
    assert s[i] == recs[j];
    assert ExpectedPrev(s, i) == ExpectedPrev(recs, i) by {
      if i > 0 { assert s[i - 1] == recs[i - 1]; }
    }
    assert Safe(recs[j].prevHash) == ExpectedPrev(recs, j) by {
      assert LinkedAt(sha256, recs, j);
    }
    ExpectedPrevDistinct(sha256, recs, i, j);
    assert !LinkedAt(sha256, s, i);
  }
}
