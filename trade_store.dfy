/**
 * The trade ledger: one comma-separated line per trade, appended by `save`
 * and read back by `findAll`, which skips blank lines.
 */
module TradeStores {
  import opened Wrappers
  import opened Numeric
  import opened Text
  import opened Domain
  import opened Trades

  function Fields(t: Trade): (parts: seq<string>)
    ensures |parts| == 5
  {
    [t.buyOrderId, t.sellOrderId, LongToString(t.price), LongToString(t.quantity), t.timestamp.iso]
  }

  /** `serialize`: buy id, sell id, price, quantity, timestamp, joined by commas. */
  function Serialize(t: Trade): (s: string)
    ensures Count(s, ',') >= 4
    ensures CommaFree(t) ==> Split(s, ',') == Fields(t)
  {
    var parts := Fields(t);
    JoinCount(',', parts);
    assert CommaFree(t) ==> Split(Join(',', parts), ',') == parts by {
      if CommaFree(t) {
        LongTextNoComma(t.price);
        LongTextNoComma(t.quantity);
        SplitJoin(',', parts);
      }
    }
    Join(',', parts)
  }

  /** No text field of the trade holds the field separator. */
  predicate CommaFree(t: Trade) {
    ',' !in t.buyOrderId && ',' !in t.sellOrderId && ',' !in t.timestamp.iso
  }

  function FormatError(line: string): Error {
    IllegalArgument("Invalid trade record: " + line)
  }

  /**
   * `deserialize`: exactly five comma-separated fields (empty ones kept), the
   * two numbers parsed with `Long.parseLong`; the canonical record constructor
   * stores the values unchecked.
   */
  function Deserialize(line: string): (r: Result<Trade, Error>)
    ensures r == Failure(FormatError(line)) <==> |Split(line, ',')| != 5
    ensures |Split(line, ',')| == 5 ==>
      var parts := Split(line, ',');
      (r.Success? <==> ParseLong(parts[2]).Some? && ParseLong(parts[3]).Some?)
      && (ParseLong(parts[2]).None? ==> r == Failure(NumberFormat(parts[2])))
      && (ParseLong(parts[2]).Some? && ParseLong(parts[3]).None? ==> r == Failure(NumberFormat(parts[3])))
    ensures r.Success? ==>
      var parts := Split(line, ',');
      |parts| == 5
      && r.value.buyOrderId == parts[0] && r.value.sellOrderId == parts[1]
      && ParseLong(parts[2]) == Some(r.value.price) && ParseLong(parts[3]) == Some(r.value.quantity)
      && r.value.timestamp == Instant(parts[4])
  {
    var parts := Split(line, ',');
    if |parts| != 5 then Failure(FormatError(line))
    else
      match (ParseLong(parts[2]), ParseLong(parts[3]))
      case (None, _) => Failure(NumberFormat(parts[2]))
      case (Some(_), None) => Failure(NumberFormat(parts[3]))
      case (Some(price), Some(quantity)) => Success(Trade(parts[0], parts[1], price, quantity, Instant(parts[4])))
  }

  lemma LongTextNoComma(x: i64)
    ensures ',' !in LongToString(x)
  {
    LongToStringChars(x);
  }

  /** A serialised trade always holds the four separators, so it is never blank. */
  lemma SerializeNotBlank(t: Trade)
    ensures !IsBlank(Serialize(t))
  {
    var s, k := Serialize(t), |t.buyOrderId|;
    assert s == t.buyOrderId + [','] + Join(',', Fields(t)[1..]);
    assert s[k] == ',' && !IsWhitespace(s[k]);
  }

  /**
   * A trade is read back exactly when none of its text fields contains a comma;
   * otherwise the line has more than five fields and is rejected.
   */
  lemma RoundTrip(t: Trade)
    ensures CommaFree(t) ==> Deserialize(Serialize(t)) == Success(t)
    ensures !CommaFree(t) ==> Deserialize(Serialize(t)) == Failure(FormatError(Serialize(t)))
  {
    var parts := Fields(t);
    if CommaFree(t) {
      LongTextNoComma(t.price);
      LongTextNoComma(t.quantity);
      SplitJoin(',', parts);
      ParseLongOfToString(t.price);
      ParseLongOfToString(t.quantity);
    } else {
      JoinCount(',', parts);
      var i := if ',' in t.buyOrderId then 0 else if ',' in t.sellOrderId then 1 else 4;
      CountPositive(parts[i], ',');
      SplitLength(Serialize(t), ',');
    }
  }

  /** `findAll` over the ledger's lines: blank lines skipped, the first bad line fails the read. */
  function ParseLedger(lines: seq<string>): (r: Result<seq<Trade>, Error>)
    ensures r.Success? <==> forall i :: 0 <= i < |lines| && !IsBlank(lines[i]) ==> Deserialize(lines[i]).Success?
    ensures r.Success? ==> |r.value| <= |lines|
    ensures r.Failure? ==>
      exists i :: 0 <= i < |lines| && !IsBlank(lines[i]) && Deserialize(lines[i]) == Failure(r.error)
        && forall j :: 0 <= j < i && !IsBlank(lines[j]) ==> Deserialize(lines[j]).Success?
  {
    if lines == [] then Success([])
    else
      assert forall i :: 0 <= i < |lines| - 1 ==> lines[1..][i] == lines[i + 1];
      if IsBlank(lines[0]) then ParseLedger(lines[1..])
    else
      var t :- Deserialize(lines[0]);
      var rest :- ParseLedger(lines[1..]);
      Success([t] + rest)
  }

  /** A single non-blank line that deserializes reads back as exactly its trade. */
  lemma ParseLedgerOne(l: string)
    requires !IsBlank(l) && Deserialize(l).Success?
    ensures ParseLedger([l]) == Success([Deserialize(l).value])
  {
    assert [l][1..] == [];
    assert [Deserialize(l).value] + [] == [Deserialize(l).value];
  }

  /** Reading a ledger in two parts: the first part's failure wins, else the trades concatenate. */
  lemma {:induction false} ParseLedgerAppend(a: seq<string>, b: seq<string>)
    ensures ParseLedger(a).Failure? ==> ParseLedger(a + b) == ParseLedger(a)
    ensures ParseLedger(a).Success? && ParseLedger(b).Failure? ==> ParseLedger(a + b) == ParseLedger(b)
    ensures ParseLedger(a).Success? && ParseLedger(b).Success? ==>
      ParseLedger(a + b) == Success(ParseLedger(a).value + ParseLedger(b).value)
  {
    if a == [] {
      assert a + b == b;
      if ParseLedger(b).Success? {
        assert ParseLedger(a).value + ParseLedger(b).value == ParseLedger(b).value;
      }
    } else {
      var ab := a + b;
      assert ab[0] == a[0] && ab[1..] == a[1..] + b;
      ParseLedgerAppend(a[1..], b);
      if !IsBlank(a[0]) && ParseLedger(a).Success? && ParseLedger(b).Success? {
        var t := Deserialize(a[0]).value;
        var ta, tb := ParseLedger(a[1..]).value, ParseLedger(b).value;
        assert ParseLedger(ab) == Success([t] + (ta + tb));
        ConcatAssoc([t], ta, tb);
      }
    }
  }

  lemma ConcatAssoc<T>(x: seq<T>, y: seq<T>, z: seq<T>)
    ensures x + (y + z) == (x + y) + z
  {
  }

  /** Blank lines anywhere in the ledger do not change what is read. */
  lemma BlankLineIgnored(a: seq<string>, blank: string, b: seq<string>)
    requires IsBlank(blank)
    ensures ParseLedger(a + [blank] + b) == ParseLedger(a + b)
  {
    assert ParseLedger([blank] + b) == ParseLedger(b) by {
      assert ([blank] + b)[1..] == b;
    }
    ParseLedgerAppend(a, [blank] + b);
    ParseLedgerAppend(a, b);
    ConcatAssoc(a, [blank], b);
  }

  class FileTradeStore {
    const file: string
    /** The lines of the ledger file; a missing file reads as no lines. */
    var lines: seq<string>

    constructor (file: string, existing: seq<string>)
      ensures this.file == file && lines == existing
    {
      this.file := file;
      lines := existing;
    }

    /** `save`: appends the trade's line to the ledger. */
    method Save(trade: Trade)
      modifies this
      ensures lines == old(lines) + [Serialize(trade)]
    {
      lines := lines + [Serialize(trade)];
    }

    /** `findAll`. */
    function FindAll(): (r: Result<seq<Trade>, Error>)
      reads this
      ensures r == ParseLedger(lines)
      ensures lines == [] ==> r == Success([])
      ensures r.Success? ==> |r.value| <= |lines|
      ensures r.Success? <==> forall i :: 0 <= i < |lines| && !IsBlank(lines[i]) ==> Deserialize(lines[i]).Success?
    {
      ParseLedger(lines)
    }
  }

  /**
   * After `save`, `findAll` returns what it returned before followed by the saved
   * trade, as long as the trade has no comma in its text fields.
   */
  lemma SaveThenFindAll(before: seq<string>, t: Trade)
    requires ParseLedger(before).Success? && CommaFree(t)
    ensures ParseLedger(before + [Serialize(t)]) == Success(ParseLedger(before).value + [t])
  {
    RoundTrip(t);
    SerializeNotBlank(t);
    assert ParseLedger([Serialize(t)]) == Success([t]) by {
      assert [Serialize(t)][1..] == [];
      assert [t] + [] == [t];
    }
    ParseLedgerAppend(before, [Serialize(t)]);
  }
}
