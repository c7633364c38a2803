/**
 * The row-acceptance pass of extract_forensic_pcap.py's `main`: every data
 * row of the tokenised extraction output is read through the resolved schema,
 * and a row is kept only when its payload cell decodes to at least one byte.
 * The tokeniser (`csv.reader`) is not modelled: its rows are the input.
 */
module Rows {
  import opened Text
  import opened HexPayload
  import opened Columns

  /** The header row and the data rows; an empty output has neither (lines 199-204, 235-240). */
  function SplitTable(table: seq<seq<string>>): (parts: (seq<string>, seq<seq<string>>))
    ensures table == [] ==> parts.0 == [] && parts.1 == []
    ensures table != [] ==> table == [parts.0] + parts.1
  {
    if table == [] then ([], []) else (table[0], table[1..])
  }

  /** `get_at` (lines 248-249): a missing cell reads as empty, a present one is stripped. */
  function GetAt(parts: seq<string>, idx: nat): (cell: string)
    ensures idx >= |parts| ==> cell == ""
    ensures idx < |parts| ==> |cell| <= |parts[idx]|
  {
    if idx < |parts| then Strip(parts[idx]) else ""
  }

  /** A short row never fails: a missing cell reads as "", a present one loses only its margins. */
  lemma GetAtCell(parts: seq<string>, idx: nat)
    ensures idx < |parts| ==> IsStripped(parts[idx], GetAt(parts, idx))
    ensures idx >= |parts| ==> GetAt(parts, idx) == ""
  {
    if idx < |parts| {
      StripRemovesOnlyMargins(parts[idx]);
    }
  }

  /** One entry of `index_rows`. */
  datatype IndexRow = IndexRow(frame: string, time: string, src: string, dst: string, sport: string, dport: string)

  /** One entry of `payload_rows`: the raw hex cell and the digest of its bytes. */
  datatype PayloadRow = PayloadRow(hex: string, digest: string)

  /**
   * A row survives both skips: its payload cell is non-empty and decodes to at
   * least one byte. The two collapse into one: the stripped cell holds at
   * least one hexadecimal digit.
   */
  predicate Accepted(schema: Schema, parts: seq<string>)
    ensures Accepted(schema, parts) <==> CleanHex(GetAt(parts, schema.payload)) != []
  {
    GetAt(parts, schema.payload) != "" && HexToBytes(GetAt(parts, schema.payload)) != []
  }

  function IndexRowOf(schema: Schema, parts: seq<string>): IndexRow {
    IndexRow(GetAt(parts, schema.frame), GetAt(parts, schema.time), GetAt(parts, schema.src),
             GetAt(parts, schema.dst), GetAt(parts, schema.sport), GetAt(parts, schema.dport))
  }

  function PayloadRowOf(schema: Schema, parts: seq<string>, sha256: seq<Byte> -> string): PayloadRow {
    var cell := GetAt(parts, schema.payload);
    PayloadRow(cell, sha256(HexToBytes(cell)))
  }

  /** The positions holding `true`, in increasing order. */
  function TruePositions(marks: seq<bool>): (ps: seq<nat>)
    ensures |ps| <= |marks|
    ensures forall k :: 0 <= k < |ps| ==> ps[k] < |marks|
  {
    if marks == [] then []
    else
      var n := |marks| - 1;
      TruePositions(marks[..n]) + (if marks[n] then [n] else [])
  }

  /** Only `true` positions are listed. */
  lemma {:induction false} TruePositionsSound(marks: seq<bool>)
    ensures forall k :: 0 <= k < |TruePositions(marks)| ==> marks[TruePositions(marks)[k]]
  {
    if marks != [] {
      var n := |marks| - 1;
      var init := marks[..n];
      TruePositionsSound(init);
      var ps0 := TruePositions(init);
      var ps := TruePositions(marks);
      forall k | 0 <= k < |ps| ensures marks[ps[k]] {
        if k < |ps0| {
          assert ps[k] == ps0[k] && init[ps0[k]] == marks[ps0[k]];
        }
      }
    }
  }

  /** Positions are listed in increasing order, so none twice. */
  lemma {:induction false} TruePositionsIncreasing(marks: seq<bool>)
    ensures forall k, l :: 0 <= k < l < |TruePositions(marks)| ==> TruePositions(marks)[k] < TruePositions(marks)[l]
  {
    if marks != [] {
      TruePositionsIncreasing(marks[..|marks| - 1]);
    }
  }

  /** Every `true` position is listed. */
  lemma {:induction false} TruePositionsComplete(marks: seq<bool>)
    ensures forall p :: 0 <= p < |marks| && marks[p] ==> p in TruePositions(marks)
  {
    if marks != [] {
      var n := |marks| - 1;
      var init := marks[..n];
      TruePositionsComplete(init);
      var ps := TruePositions(marks);
      forall p | 0 <= p < |marks| && marks[p] ensures p in ps {
        if p < n {
          assert init[p] == marks[p];
        } else {
          assert ps[|ps| - 1] == n;
        }
      }
    }
  }

  lemma TruePositionsExtend(marks: seq<bool>, i: nat)
    requires i < |marks|
    ensures TruePositions(marks[..i + 1]) == TruePositions(marks[..i]) + (if marks[i] then [i] else [])
  {
    assert marks[..i + 1][..i] == marks[..i];
  }

  /** Which data rows survive. */
  function AcceptanceMarks(schema: Schema, rows: seq<seq<string>>): (marks: seq<bool>)
    ensures |marks| == |rows|
  {
    seq(|rows|, i requires 0 <= i < |rows| => Accepted(schema, rows[i]))
  }

  /** The positions of the surviving rows, in input order. */
  function KeptPositions(schema: Schema, rows: seq<seq<string>>): (ps: seq<nat>)
    ensures |ps| <= |rows|
  {
    TruePositions(AcceptanceMarks(schema, rows))
  }

  /** Exactly the accepted rows are kept, each once, in increasing position. */
  lemma KeptPositionsExact(schema: Schema, rows: seq<seq<string>>)
    ensures forall k :: 0 <= k < |KeptPositions(schema, rows)| ==>
      KeptPositions(schema, rows)[k] < |rows| && Accepted(schema, rows[KeptPositions(schema, rows)[k]])
    ensures forall k, l :: 0 <= k < l < |KeptPositions(schema, rows)| ==>
      KeptPositions(schema, rows)[k] < KeptPositions(schema, rows)[l]
    ensures forall p :: 0 <= p < |rows| && Accepted(schema, rows[p]) ==> p in KeptPositions(schema, rows)
  {
    var marks := AcceptanceMarks(schema, rows);
    TruePositionsSound(marks);
    TruePositionsIncreasing(marks);
    TruePositionsComplete(marks);
    assert forall p :: 0 <= p < |rows| ==> marks[p] == Accepted(schema, rows[p]);
  }

  /** Entry k of both lists was built from data row `ps[k]`. */
  predicate Collected(schema: Schema, rows: seq<seq<string>>, ps: seq<nat>,
                      indexRows: seq<IndexRow>, payloadRows: seq<PayloadRow>, sha256: seq<Byte> -> string) {
    && |indexRows| == |ps|
    && |payloadRows| == |ps|
    && (forall k :: 0 <= k < |ps| ==> ps[k] < |rows|)
    && (forall k :: 0 <= k < |ps| ==> indexRows[k] == IndexRowOf(schema, rows[ps[k]]))
    && (forall k :: 0 <= k < |ps| ==> payloadRows[k] == PayloadRowOf(schema, rows[ps[k]], sha256))
  }

  /** Appending the entries of one more row keeps both lists matched to their rows. */
  lemma CollectedExtend(schema: Schema, rows: seq<seq<string>>, ps: seq<nat>,
                        indexRows: seq<IndexRow>, payloadRows: seq<PayloadRow>, sha256: seq<Byte> -> string, i: nat)
    requires Collected(schema, rows, ps, indexRows, payloadRows, sha256) && i < |rows|
    ensures Collected(schema, rows, ps + [i], indexRows + [IndexRowOf(schema, rows[i])],
                      payloadRows + [PayloadRowOf(schema, rows[i], sha256)], sha256)
  {
  }

  /** An entry built from an accepted row holds a decodable cell and the digest of its bytes. */
  lemma CollectedPayloadsDecode(schema: Schema, rows: seq<seq<string>>,
                                indexRows: seq<IndexRow>, payloadRows: seq<PayloadRow>, sha256: seq<Byte> -> string)
    requires Collected(schema, rows, KeptPositions(schema, rows), indexRows, payloadRows, sha256)
    ensures forall k :: 0 <= k < |payloadRows| ==>
      && payloadRows[k].hex != ""
      && HexToBytes(payloadRows[k].hex) != []
      && payloadRows[k].digest == sha256(HexToBytes(payloadRows[k].hex))
  {
    KeptPositionsExact(schema, rows);
    var ps := KeptPositions(schema, rows);
    forall k | 0 <= k < |payloadRows|
      ensures payloadRows[k].hex != "" && HexToBytes(payloadRows[k].hex) != []
      ensures payloadRows[k].digest == sha256(HexToBytes(payloadRows[k].hex))
    {
      assert payloadRows[k] == PayloadRowOf(schema, rows[ps[k]], sha256);
      assert Accepted(schema, rows[ps[k]]);
    }
  }

  /**
   * The loop of lines 242-277. Both lists grow in lockstep, one entry per
   * surviving row, in input order; every payload entry carries a non-empty
   * hex cell and the digest of the bytes it decodes to.
   */
  method CollectRows(schema: Schema, rows: seq<seq<string>>, sha256: seq<Byte> -> string)
    returns (indexRows: seq<IndexRow>, payloadRows: seq<PayloadRow>)
    ensures |indexRows| == |payloadRows| == |KeptPositions(schema, rows)|
    ensures forall k :: 0 <= k < |indexRows| ==>
      indexRows[k] == IndexRowOf(schema, rows[KeptPositions(schema, rows)[k]])
    ensures forall k :: 0 <= k < |payloadRows| ==>
      payloadRows[k] == PayloadRowOf(schema, rows[KeptPositions(schema, rows)[k]], sha256)
    ensures |indexRows| <= |rows|
    ensures forall k :: 0 <= k < |payloadRows| ==>
      && payloadRows[k].hex != ""
      && HexToBytes(payloadRows[k].hex) != []
      && payloadRows[k].digest == sha256(HexToBytes(payloadRows[k].hex))
  {
    ghost var marks := AcceptanceMarks(schema, rows);
    indexRows, payloadRows := [], [];
    for i := 0 to |rows|
      invariant Collected(schema, rows, TruePositions(marks[..i]), indexRows, payloadRows, sha256)
    {
      ghost var before := TruePositions(marks[..i]);
      TruePositionsExtend(marks, i);
      var parts := rows[i];
      var frameNo := GetAt(parts, schema.frame);
      var epochTs := GetAt(parts, schema.time);
      var ipSrc := GetAt(parts, schema.src);
      var ipDst := GetAt(parts, schema.dst);
      var udpSport := GetAt(parts, schema.sport);
      var udpDport := GetAt(parts, schema.dport);
      var hexPayload := GetAt(parts, schema.payload);
      assert marks[i] == Accepted(schema, parts) by {
        assert marks[i] == Accepted(schema, rows[i]);
      }
      if hexPayload == "" {
        continue;
      }
      var payloadBytes := HexToBytes(hexPayload);
      if payloadBytes == [] {
        continue;
      }
      var payloadSha := sha256(payloadBytes);
      CollectedExtend(schema, rows, before, indexRows, payloadRows, sha256, i);
      indexRows := indexRows + [IndexRow(frameNo, epochTs, ipSrc, ipDst, udpSport, udpDport)];
      payloadRows := payloadRows + [PayloadRow(hexPayload, payloadSha)];
    }
    assert marks[..|rows|] == marks;
    CollectedPayloadsDecode(schema, rows, indexRows, payloadRows, sha256);
  }

  /**
   * Lines 199-277: resolve the schema from the header row once, then run the
   * row pass over the data rows.
   */
  method DecodeTable(table: seq<seq<string>>, sha256: seq<Byte> -> string)
    returns (schema: Schema, indexRows: seq<IndexRow>, payloadRows: seq<PayloadRow>)
    ensures schema == ResolveSchema(SplitTable(table).0)
    ensures |indexRows| == |payloadRows| == |KeptPositions(schema, SplitTable(table).1)|
    ensures forall k :: 0 <= k < |indexRows| ==>
      indexRows[k] == IndexRowOf(schema, SplitTable(table).1[KeptPositions(schema, SplitTable(table).1)[k]])
    ensures forall k :: 0 <= k < |payloadRows| ==>
      payloadRows[k] == PayloadRowOf(schema, SplitTable(table).1[KeptPositions(schema, SplitTable(table).1)[k]], sha256)
    ensures |indexRows| <= if table == [] then 0 else |table| - 1
    ensures forall k :: 0 <= k < |payloadRows| ==>
      && payloadRows[k].hex != ""
      && HexToBytes(payloadRows[k].hex) != []
      && payloadRows[k].digest == sha256(HexToBytes(payloadRows[k].hex))
  {
    var (header, rows) := SplitTable(table);
    schema := ResolveSchema(header);
    indexRows, payloadRows := CollectRows(schema, rows, sha256);
  }

  /** Three frames in tshark's own column order, the middle one without a payload. */
  const ThreeFrames: seq<seq<string>> := [
    ["1", "1700000000.0", "10.0.0.1", "10.0.0.2", "5000", "6000", "4869"],
    ["2", "1700000001.0", "10.0.0.1", "10.0.0.2", "5000", "6000", ""],
    ["3", "1700000002.0", "10.0.0.2", "10.0.0.1", "6000", "5000", "ff"]]

  const InOrder: Schema := Schema(0, 1, 2, 3, 4, 5, 6)

  lemma ThreeFrameMarks()
    ensures AcceptanceMarks(InOrder, ThreeFrames) == [true, false, true]
  {
    assert GetAt(ThreeFrames[0], 6) == "4869" by { assert TrimStart("4869") == "4869"; }
    assert GetAt(ThreeFrames[2], 6) == "ff" by { assert TrimStart("ff") == "ff"; }
    CleanHexKeepsDigits("4869");
    CleanHexKeepsDigits("ff");
  }

  /** The payload-less frame is dropped from both lists: two rows are kept. */
  lemma ThreeFrameCapture()
    ensures KeptPositions(InOrder, ThreeFrames) == [0, 2]
  {
    ThreeFrameMarks();
    var marks := [true, false, true];
    assert marks[..2] == [true, false];
    assert marks[..2][..1] == [true];
    assert [true][..0] == [];
    assert TruePositions([true]) == [0];
    assert TruePositions([true, false]) == [0];
    assert TruePositions(marks) == [0, 2];
  }
}
