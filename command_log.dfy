/**
 * The command-log file and the `CommandLog` object that appends to it, reads it
 * back and verifies its hash chain. The file is a sequence of lines; JSON is
 * abstracted to "this line holds that record" or "this line does not parse".
 */
module CommandLogs {
  import opened Wrappers
  import opened Numeric
  import opened Text
  import opened Domain
  import opened CommandRecords

  /** One line of the JSON Lines file. */
  datatype LogLine =
    | Blank
    | Json(record: Record)
    /** A non-blank line Jackson cannot read as a record. */
    | Unparseable

  /**
   * The records of the file in order, blank lines skipped; `None` when some
   * non-blank line does not parse (`readAll` then throws).
   */
  function Records(lines: seq<LogLine>): (r: Option<seq<Record>>)
    ensures r.Some? <==> forall i :: 0 <= i < |lines| ==> !lines[i].Unparseable?
    ensures r.Some? ==> |r.value| <= |lines|
  {
    if lines == [] then Some([])
    else
      var init := lines[..|lines| - 1];
      match Records(init)
      case None => None
      case Some(rs) =>
        match lines[|lines| - 1]
        case Blank => Some(rs)
        case Json(rec) => Some(rs + [rec])
        case Unparseable => None
  }

  /** A line holding a record reads back as that one record. */
  lemma RecordsOfRecordLine(x: Record)
    ensures Records([Json(x)]) == Some([x])
  {
    var empty: seq<Record> := [];
    assert [Json(x)][..0] == [] && Records([]) == Some(empty);
    assert empty + [x] == [x];
  }

  /** A blank line reads back as no records. */
  lemma RecordsOfBlankLine()
    ensures Records([Blank]) == Some([])
  {
    assert [Blank][..0] == [];
  }

  /** Reading a file in two parts: the records of the whole are those of the first part, then those of the second. */
  lemma {:induction false} RecordsAppend(a: seq<LogLine>, b: seq<LogLine>)
    ensures Records(a).Some? && Records(b).Some? ==> Records(a + b) == Some(Records(a).value + Records(b).value)
    decreases |b|
  {
    if b == [] {
      assert a + b == a;
      if Records(a).Some? {
        assert Records(a).value + [] == Records(a).value;
      }
    } else if Records(a).Some? && Records(b).Some? {
      var binit := b[..|b| - 1];
      var ab := a + b;
      assert ab[..|ab| - 1] == a + binit;
      assert ab[|ab| - 1] == b[|b| - 1];
      RecordsAppend(a, binit);
      var ra, rb := Records(a).value, Records(binit).value;
      match b[|b| - 1]
      case Blank =>
      case Json(rec) =>
        assert (ra + rb) + [rec] == ra + (rb + [rec]);
      case Unparseable =>
    }
  }

  /** The hash a record's `hash` field passes on to the next record in `append`. */
  function PassedOn(rec: Record): (h: string)
    ensures !IsBlank(h)
    ensures h == GENESIS || rec.hash == Some(h)
    ensures h == GENESIS ==> rec.hash.None? || IsBlank(rec.hash.value) || rec.hash.value == GENESIS
  {
    assert !IsWhitespace(GENESIS[0]);
    if rec.hash.Some? && !IsBlank(rec.hash.value) then rec.hash.value else GENESIS
  }

  /**
   * The previous hash `append` chooses: from the last non-blank line, GENESIS
   * when there is none; `None` when that line does not parse.
   */
  function PrevHashFor(lines: seq<LogLine>): (r: Option<string>)
    ensures r.Some? ==> !IsBlank(r.value)
    ensures (forall i :: 0 <= i < |lines| ==> lines[i].Blank?) ==> r == Some(GENESIS)
    ensures r.None? <==> EndsUnparseable(lines)
    ensures Records(lines).Some? && Records(lines).value != [] ==>
      r == Some(PassedOn(Records(lines).value[|Records(lines).value| - 1]))
  {
    assert !IsWhitespace(GENESIS[0]);
    if lines == [] then Some(GENESIS)
    else
      var init := lines[..|lines| - 1];
      match lines[|lines| - 1]
      case Blank =>
        assert forall i :: 0 <= i < |init| ==> init[i] == lines[i];
        EndsUnparseableBlank(lines);
        PrevHashFor(init)
      case Unparseable =>
        assert lines[|lines| - 1].Unparseable?;
        None
      case Json(rec) =>
        EndsUnparseableJson(lines);
        Some(PassedOn(rec))
  }

  /** The last non-blank line of the file exists and does not parse. */
  predicate EndsUnparseable(lines: seq<LogLine>) {
    exists i :: 0 <= i < |lines| && lines[i].Unparseable? && forall j :: i < j < |lines| ==> lines[j].Blank?
  }

  /** A trailing blank line does not change which line is the last non-blank one. */
  lemma EndsUnparseableBlank(lines: seq<LogLine>)
    requires lines != [] && lines[|lines| - 1].Blank?
    ensures EndsUnparseable(lines) <==> EndsUnparseable(lines[..|lines| - 1])
  {
    var init := lines[..|lines| - 1];
    if EndsUnparseable(lines) {
      var i :| 0 <= i < |lines| && lines[i].Unparseable? && forall j :: i < j < |lines| ==> lines[j].Blank?;
      assert i < |init| && init[i].Unparseable?;
      assert forall j :: i < j < |init| ==> init[j].Blank? by {
        forall j | i < j < |init| ensures init[j].Blank? {
          assert init[j] == lines[j];
        }
      }
    }
    if EndsUnparseable(init) {
      var i :| 0 <= i < |init| && init[i].Unparseable? && forall j :: i < j < |init| ==> init[j].Blank?;
      assert lines[i].Unparseable?;
      assert forall j :: i < j < |lines| ==> lines[j].Blank? by {
        forall j | i < j < |lines| ensures lines[j].Blank? {
          if j < |init| {
            assert init[j] == lines[j];
          }
        }
      }
    }
  }

  /** A file whose last line is a record does not end in an unparseable line. */
  lemma EndsUnparseableJson(lines: seq<LogLine>)
    requires lines != [] && lines[|lines| - 1].Json?
    ensures !EndsUnparseable(lines)
  {
    var last := |lines| - 1;
    assert !lines[last].Blank? && !lines[last].Unparseable?;
  }

  /** On a file that reads back as a verifying chain, `append` continues that chain. */
  lemma {:induction false} PrevHashOfVerifying(sha256: string -> Bytes32, lines: seq<LogLine>, recs: seq<Record>)
    requires Records(lines) == Some(recs) && Verifies(sha256, recs)
    ensures PrevHashFor(lines) == Some(ExpectedPrev(recs, |recs|))
  {
    if lines != [] {
      var init := lines[..|lines| - 1];
      if lines[|lines| - 1].Blank? {
        PrevHashOfVerifying(sha256, init, recs);
      } else if lines[|lines| - 1].Json? {
        var rec := lines[|lines| - 1].record;
        var rs := Records(init).value;
        assert recs == rs + [rec];
        assert LinkedAt(sha256, recs, |recs| - 1);
        var h := HashHex(sha256, ChainInput(recs, |recs| - 1));
        assert Safe(rec.hash) == h;
        assert h[0] in h && IsHexDigit(h[0]);
        assert !IsBlank(h);
      }
    }
  }

  /** The line `append` adds for the command `r`, when the file allows one. */
  function Appended(sha256: string -> Bytes32, lines: seq<LogLine>, r: Record): seq<LogLine>
    requires PrevHashFor(lines).Some?
  {
    lines + [Json(Seal(sha256, PrevHashFor(lines).value, r))]
  }

  /** Appending to a file that reads back as a verifying chain keeps it verifying. */
  lemma AppendKeepsVerifying(sha256: string -> Bytes32, lines: seq<LogLine>, r: Record)
    requires Records(lines).Some? && Verifies(sha256, Records(lines).value)
    ensures PrevHashFor(lines).Some?
    ensures Records(Appended(sha256, lines, r)) == Some(Records(lines).value + [Seal(sha256, PrevHashFor(lines).value, r)])
    ensures Verifies(sha256, Records(Appended(sha256, lines, r)).value)
  {
    var recs := Records(lines).value;
    PrevHashOfVerifying(sha256, lines, recs);
    var next := Appended(sha256, lines, r);
    assert next[..|next| - 1] == lines;
    AppendKeepsLinked(sha256, recs, r);
  }

  /** The file left by appending the commands `cmds` in order, starting from no file. */
  function Build(sha256: string -> Bytes32, cmds: seq<Record>): (lines: seq<LogLine>)
    ensures Records(lines).Some? && |Records(lines).value| == |cmds|
    ensures Verifies(sha256, Records(lines).value)
    ensures forall i :: 0 <= i < |cmds| ==> Hashed(Records(lines).value[i]) == Hashed(cmds[i])
  {
    if cmds == [] then []
    else
      var before := Build(sha256, cmds[..|cmds| - 1]);
      BuildStep(sha256, before, cmds);
      Appended(sha256, before, cmds[|cmds| - 1])
  }

  /** One step of `Build`: appending the last command to the file built from the others. */
  lemma BuildStep(sha256: string -> Bytes32, before: seq<LogLine>, cmds: seq<Record>)
    requires cmds != []
    requires Records(before).Some? && |Records(before).value| == |cmds| - 1
    requires Verifies(sha256, Records(before).value)
    requires forall i :: 0 <= i < |cmds| - 1 ==> Hashed(Records(before).value[i]) == Hashed(cmds[i])
    ensures PrevHashFor(before).Some?
    ensures var lines := Appended(sha256, before, cmds[|cmds| - 1]);
      Records(lines).Some? && |Records(lines).value| == |cmds| && Verifies(sha256, Records(lines).value)
      && forall i :: 0 <= i < |cmds| ==> Hashed(Records(lines).value[i]) == Hashed(cmds[i])
  {
    var last := cmds[|cmds| - 1];
    AppendKeepsVerifying(sha256, before, last);
    var rs := Records(before).value;
    var sealed := Seal(sha256, PrevHashFor(before).value, last);
    assert Records(Appended(sha256, before, last)).value == rs + [sealed];
    forall i | 0 <= i < |cmds|
      ensures Hashed((rs + [sealed])[i]) == Hashed(cmds[i])
    {
      if i < |rs| {
        assert (rs + [sealed])[i] == rs[i];
      }
    }
  }

  /** An ORDER command as `appendOrder` fills it in, before hashing. */
  function OrderCommand(orderId: string, side: string, price: i64, quantity: i64, ts: Instant): Record {
    Record(Some(Order), Some(orderId), Some(side), price, quantity, Some(ts), None, None, None)
  }

  /** A CANCEL command as `appendCancel` fills it in: price and quantity stay 0. */
  function CancelCommand(cancelOrderId: string, ts: Instant): Record {
    Record(Some(Cancel), None, None, 0, 0, Some(ts), Some(cancelOrderId), None, None)
  }

  class CommandLog {
    const path: string
    /** The SHA-256 digest of a text's UTF-8 bytes. */
    const sha256: string -> Bytes32
    /** The content of the file at `path`; a missing file reads as no lines. */
    var lines: seq<LogLine>

    constructor (path: string, sha256: string -> Bytes32, existing: seq<LogLine>)
      ensures this.path == path && this.sha256 == sha256 && lines == existing
    {
      this.path := path;
      this.sha256 := sha256;
      lines := existing;
    }

    /**
     * `append`: scans back over blank lines for the previous hash, seals the
     * record with it and adds it as the last line; fails, changing nothing,
     * when the last non-blank line does not parse.
     */
    method Append(r: Record) returns (o: Outcome<Error>)
      modifies this
      ensures PrevHashFor(old(lines)).None? ==>
        o == Fail(Runtime("Failed to append to command log: " + path)) && lines == old(lines)
      ensures PrevHashFor(old(lines)).Some? ==>
        o == Pass && lines == old(lines) + [Json(Seal(sha256, PrevHashFor(old(lines)).value, r))]
    {
      var i := |lines|;
      assert lines[..i] == lines;
      while i > 0 && lines[i - 1].Blank?
        invariant 0 <= i <= |lines|
        invariant PrevHashFor(lines) == PrevHashFor(lines[..i])
      {
        assert lines[..i][..i - 1] == lines[..i - 1];
        i := i - 1;
      }
      assert i > 0 ==> lines[..i][..i - 1] == lines[..i - 1];
      var prev := GENESIS;
      if i > 0 {
        match lines[i - 1]
        case Unparseable =>
          return Fail(Runtime("Failed to append to command log: " + path));
        case Json(last) =>
          if last.hash.Some? && !IsBlank(last.hash.value) {
            prev := last.hash.value;
          }
      }
      var hash := Sha256Hex(sha256, prev + "|" + Payload(r));
      var sealed := r.(prevHash := Some(prev), hash := Some(hash));
      lines := lines + [Json(sealed)];
      o := Pass;
    }

    method AppendOrder(orderId: string, side: string, price: i64, quantity: i64, ts: Instant) returns (o: Outcome<Error>)
      modifies this
      ensures PrevHashFor(old(lines)).None? ==>
        o == Fail(Runtime("Failed to append to command log: " + path)) && lines == old(lines)
      ensures PrevHashFor(old(lines)).Some? ==>
        o == Pass && lines == Appended(sha256, old(lines), OrderCommand(orderId, side, price, quantity, ts))
    {
      o := Append(OrderCommand(orderId, side, price, quantity, ts));
    }

    method AppendCancel(cancelOrderId: string, ts: Instant) returns (o: Outcome<Error>)
      modifies this
      ensures PrevHashFor(old(lines)).None? ==>
        o == Fail(Runtime("Failed to append to command log: " + path)) && lines == old(lines)
      ensures PrevHashFor(old(lines)).Some? ==>
        o == Pass && lines == Appended(sha256, old(lines), CancelCommand(cancelOrderId, ts))
    {
      o := Append(CancelCommand(cancelOrderId, ts));
    }

    /** `readAll`: every non-blank line parsed, in file order. */
    method ReadAll() returns (r: Result<seq<Record>, Error>)
      ensures Records(lines).Some? ==> r == Success(Records(lines).value)
      ensures Records(lines).None? ==> r == Failure(Runtime("Failed to read command log: " + path))
    {
      var records := [];
      for i := 0 to |lines|
        invariant Records(lines[..i]) == Some(records)
      {
        assert lines[..i + 1][..i] == lines[..i];
        match lines[i]
        case Blank =>
        case Json(rec) =>
          records := records + [rec];
        case Unparseable =>
          assert !Records(lines).Some? by {
            assert !lines[i].Unparseable?  ==> false;
          }
          return Failure(Runtime("Failed to read command log: " + path));
      }
      assert lines[..|lines|] == lines;
      return Success(records);
    }

    /**
     * `verifyChainOrThrow`: passes exactly when the records verify; otherwise
     * names the first record (1-based) that fails, and which check failed there.
     */
    method VerifyChainOrThrow() returns (o: Outcome<Error>)
      ensures Records(lines).None? ==> o == Fail(Runtime("Failed to read command log: " + path))
      ensures Records(lines).Some? ==> (o == Pass <==> Verifies(sha256, Records(lines).value))
      ensures Records(lines).Some? ==> ReportsFirstBreak(sha256, Records(lines).value, o)
    {
      var read := ReadAll();
      if read.Failure? {
        return Fail(read.error);
      }
      o := CheckChain(sha256, read.value);
    }
  }
}
