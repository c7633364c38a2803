/**
 * Column-role resolution of extract_forensic_pcap.py: header normalisation,
 * `find_col`, the per-role indices with their `or` defaults, and the payload
 * column heuristic. The whole schema is a function of the header row alone.
 */
module Columns {
  import opened Wrappers
  import opened Text

  /** One header name as compared: `h.strip().lower()`. */
  function Normalize(h: string): string {
    Lower(Strip(h))
  }

  /** `hdr_lower` (extract_forensic_pcap.py:206). */
  function NormalizeHeader(header: seq<string>): (hdr: seq<string>)
    ensures |hdr| == |header|
    ensures forall k :: 0 <= k < |header| ==> hdr[k] == Normalize(header[k])
  {
    seq(|header|, k requires 0 <= k < |header| => Normalize(header[k]))
  }

  const FrameAliases: seq<string> := ["frame.number", "no.", "no", "frame"]
  const TimeAliases: seq<string> := ["frame.time_epoch", "time_epoch", "time"]
  const SrcAliases: seq<string> := ["ip.src", "src"]
  const DstAliases: seq<string> := ["ip.dst", "dst"]
  const SportAliases: seq<string> := ["udp.srcport", "udp.srcport"]
  const DportAliases: seq<string> := ["udp.dstport", "udp.dstport"]
  const PayloadName: string := "data.data"
  const PayloadHint: string := "data"

  /** The inner loop of `find_col`: the first position holding `name`. */
  function IndexOf(hdr: seq<string>, name: string): (r: Option<nat>)
    ensures r.None? <==> name !in hdr
    ensures r.Some? ==> r.value < |hdr| && hdr[r.value] == name
    ensures r.Some? ==> forall j :: 0 <= j < r.value ==> hdr[j] != name
  {
    if hdr == [] then None
    else if hdr[0] == name then Some(0)
    else match IndexOf(hdr[1..], name)
      case None => None
      case Some(i) => Some(i + 1)
  }

  /**
   * Alias `names[k]` is the first alias present in `hdr`, and `i` is the
   * first position holding it.
   */
  predicate FirstHit(hdr: seq<string>, names: seq<string>, k: int, i: int) {
    && 0 <= k < |names|
    && 0 <= i < |hdr|
    && hdr[i] == names[k]
    && (forall k' :: 0 <= k' < k ==> names[k'] !in hdr)
    && (forall j :: 0 <= j < i ==> hdr[j] != names[k])
  }

  /** `find_col` (extract_forensic_pcap.py:210-215). */
  function FindCol(hdr: seq<string>, names: seq<string>): (r: Option<nat>)
    ensures r.None? <==> forall k :: 0 <= k < |names| ==> names[k] !in hdr
    ensures r.Some? ==> r.value < |hdr| && hdr[r.value] in names
  {
    if names == [] then None
    else match IndexOf(hdr, names[0])
      case Some(i) => Some(i)
      case None => FindCol(hdr, names[1..])
  }

  /** `find_col` answers with the first position of the first alias present. */
  lemma {:induction false} FindColFirstHit(hdr: seq<string>, names: seq<string>, k: int, i: int)
    requires FirstHit(hdr, names, k, i)
    ensures FindCol(hdr, names) == Some(i)
  {
    if k == 0 {
      assert names[0] in hdr;
    } else {
      assert names[0] !in hdr;
      assert FirstHit(hdr, names[1..], k - 1, i) by {
        forall k' | 0 <= k' < k - 1 ensures names[1..][k'] !in hdr {
          assert names[1..][k'] == names[k' + 1];
        }
      }
      FindColFirstHit(hdr, names[1..], k - 1, i);
    }
  }

  /**
   * `find_col(aliases) or default`: Python's `or` treats a hit at position 0
   * like no hit at all.
   */
  function RoleIndex(hdr: seq<string>, aliases: seq<string>, default: nat): (r: nat)
    ensures r == default || (0 < r < |hdr| && hdr[r] in aliases)
    ensures (forall k :: 0 <= k < |aliases| ==> aliases[k] !in hdr) ==> r == default
  {
    match FindCol(hdr, aliases)
    case Some(i) => if i != 0 then i else default
    case None => default
  }

  /** A role index is the first hit when that hit is not at position 0, and the default otherwise. */
  lemma RoleIndexOfHit(hdr: seq<string>, aliases: seq<string>, default: nat, k: int, i: int)
    requires FirstHit(hdr, aliases, k, i)
    ensures RoleIndex(hdr, aliases, default) == if i == 0 then default else i
  {
    FindColFirstHit(hdr, aliases, k, i);
  }

  /**
   * The `or` quirk in action: a source-address column at position 0 is
   * ignored, so the source role falls back to column 2, which here holds the
   * frame number, the column the frame role also resolves to.
   */
  lemma ZeroHitFallsBack()
    ensures var hdr := ["ip.src", "ip.dst", "frame.number"];
      && RoleIndex(hdr, SrcAliases, 2) == 2
      && hdr[2] !in SrcAliases
      && RoleIndex(hdr, FrameAliases, 0) == 2
  {
    var hdr := ["ip.src", "ip.dst", "frame.number"];
    RoleIndexOfHit(hdr, SrcAliases, 2, 0, 0);
    RoleIndexOfHit(hdr, FrameAliases, 0, 0, 2);
  }

  /** The scan for the first header containing "data" (extract_forensic_pcap.py:227-230). */
  function FirstContaining(hdr: seq<string>, w: string): (r: Option<nat>)
    ensures r.None? <==> forall j :: 0 <= j < |hdr| ==> !Contains(hdr[j], w)
    ensures r.Some? ==> r.value < |hdr| && Contains(hdr[r.value], w)
    ensures r.Some? ==> forall j :: 0 <= j < r.value ==> !Contains(hdr[j], w)
  {
    if hdr == [] then None
    else if Contains(hdr[0], w) then Some(0)
    else match FirstContaining(hdr[1..], w)
      case None => None
      case Some(i) => Some(i + 1)
  }

  /** The payload column (extract_forensic_pcap.py:224-232); a hit at position 0 is kept here. */
  function PayloadIndex(hdr: seq<string>): (r: nat)
    ensures PayloadName in hdr ==>
      r < |hdr| && hdr[r] == PayloadName && forall j :: 0 <= j < r ==> hdr[j] != PayloadName
    ensures PayloadName !in hdr && (exists j :: 0 <= j < |hdr| && Contains(hdr[j], PayloadHint)) ==>
      r < |hdr| && Contains(hdr[r], PayloadHint) && forall j :: 0 <= j < r ==> !Contains(hdr[j], PayloadHint)
    ensures (forall j :: 0 <= j < |hdr| ==> !Contains(hdr[j], PayloadHint)) ==>
      r == if hdr == [] then 6 else |hdr| - 1
    ensures r < |hdr| || (hdr == [] && r == 6)
  {
    match FindCol(hdr, [PayloadName])
    case Some(i) =>
      FindColFirstHit(hdr, [PayloadName], 0, IndexOf(hdr, PayloadName).value);
      i
    case None =>
      match FirstContaining(hdr, PayloadHint)
      case Some(i) => i
      case None =>
        assert PayloadHint <= PayloadName[0..];
        if hdr != [] then |hdr| - 1 else 6
  }

  /** The fields `run_tshark_extract` requests, in order: the header tshark writes. */
  const TsharkFields: seq<string> :=
    ["frame.number", "frame.time_epoch", "ip.src", "ip.dst", "udp.srcport", "udp.dstport", "data.data"]

  /** The resolved schema: one column per role. */
  datatype Schema = Schema(frame: nat, time: nat, src: nat, dst: nat, sport: nat, dport: nat, payload: nat)

  /** A role index names a column holding one of the role's aliases, or is the role's default. */
  predicate Names(header: seq<string>, idx: nat, aliases: seq<string>, default: nat) {
    idx == default || (0 < idx < |header| && Normalize(header[idx]) in aliases)
  }

  /** Lines 206 and 217-232: the schema, resolved once from the header row. */
  function ResolveSchema(header: seq<string>): (s: Schema)
    ensures Names(header, s.frame, FrameAliases, 0)
    ensures Names(header, s.time, TimeAliases, 1)
    ensures Names(header, s.src, SrcAliases, 2)
    ensures Names(header, s.dst, DstAliases, 3)
    ensures Names(header, s.sport, SportAliases, 4)
    ensures Names(header, s.dport, DportAliases, 5)
    ensures s.payload < |header| || (header == [] && s.payload == 6)
  {
    var hdr := NormalizeHeader(header);
    Schema(
      RoleIndex(hdr, FrameAliases, 0),
      RoleIndex(hdr, TimeAliases, 1),
      RoleIndex(hdr, SrcAliases, 2),
      RoleIndex(hdr, DstAliases, 3),
      RoleIndex(hdr, SportAliases, 4),
      RoleIndex(hdr, DportAliases, 5),
      PayloadIndex(hdr))
  }

  /** A name with no surrounding whitespace and no upper-case letter is its own normal form. */
  lemma NormalizeFixes(h: string)
    requires h != [] && !IsSpace(h[0]) && !IsSpace(h[|h| - 1])
    requires forall k :: 0 <= k < |h| ==> !('A' <= h[k] <= 'Z')
    ensures Normalize(h) == h
  {
    assert TrimStart(h) == h;
    assert TrimEnd(h) == h;
  }

  /** A header of such names is its own normal form. */
  lemma NormalizeHeaderFixes(header: seq<string>)
    requires forall k :: 0 <= k < |header| ==>
      header[k] != [] && !IsSpace(header[k][0]) && !IsSpace(header[k][|header[k]| - 1])
    requires forall k, i :: 0 <= k < |header| && 0 <= i < |header[k]| ==> !('A' <= header[k][i] <= 'Z')
    ensures NormalizeHeader(header) == header
  {
    forall k | 0 <= k < |header| ensures Normalize(header[k]) == header[k] {
      NormalizeFixes(header[k]);
    }
  }

  /** tshark's own header is already in normal form. */
  lemma TsharkHeaderIsNormal()
    ensures NormalizeHeader(TsharkFields) == TsharkFields
  {
    NormalizeHeaderFixes(TsharkFields);
  }

  /** Over tshark's own header the frame alias hits position 0, and the fallback gives 0 too. */
  lemma TsharkFrameRole()
    ensures RoleIndex(TsharkFields, FrameAliases, 0) == 0
  {
    RoleIndexOfHit(TsharkFields, FrameAliases, 0, 0, 0);
  }

  lemma TsharkTimeRole()
    ensures RoleIndex(TsharkFields, TimeAliases, 1) == 1
  {
    RoleIndexOfHit(TsharkFields, TimeAliases, 1, 0, 1);
  }

  lemma TsharkSrcRole()
    ensures RoleIndex(TsharkFields, SrcAliases, 2) == 2
  {
    RoleIndexOfHit(TsharkFields, SrcAliases, 2, 0, 2);
  }

  lemma TsharkDstRole()
    ensures RoleIndex(TsharkFields, DstAliases, 3) == 3
  {
    RoleIndexOfHit(TsharkFields, DstAliases, 3, 0, 3);
  }

  lemma TsharkSportRole()
    ensures RoleIndex(TsharkFields, SportAliases, 4) == 4
  {
    RoleIndexOfHit(TsharkFields, SportAliases, 4, 0, 4);
  }

  lemma TsharkDportRole()
    ensures RoleIndex(TsharkFields, DportAliases, 5) == 5
  {
    RoleIndexOfHit(TsharkFields, DportAliases, 5, 0, 5);
  }

  lemma TsharkPayloadRole()
    ensures PayloadIndex(TsharkFields) == 6
  {
    FindColFirstHit(TsharkFields, [PayloadName], 0, 6);
  }

  /** tshark's own header resolves every role to its requested position. */
  lemma TsharkHeaderResolvesInOrder()
    ensures ResolveSchema(TsharkFields) == Schema(0, 1, 2, 3, 4, 5, 6)
  {
    TsharkHeaderIsNormal();
    TsharkFrameRole();
    TsharkTimeRole();
    TsharkSrcRole();
    TsharkDstRole();
    TsharkSportRole();
    TsharkDportRole();
    TsharkPayloadRole();
  }
}
