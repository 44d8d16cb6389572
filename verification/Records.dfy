/** The records of the device: what a frame request asks for and what its status tells, and their bytes. */
module Records {
  import Arith

  const PAGE_SIZE: nat := 4096

  const SOURCE_FREE_BUDDY_PAGE: nat := 0x2
  const SOURCE_HOTPLUG_CLAIM: nat := 0x200
  const SOURCE_INVALID_PFN: nat := 0x80000
  const SOURCE_ERROR_NOT_MAPPABLE: nat := 0x100000

  datatype FrameRequest = FrameRequest(pfn: nat, sources: nat)

  /** `page` is a page pointer, 0 when the frame was not claimed. */
  datatype FrameStatus =
    FrameStatus(request: FrameRequest, vmaOffset: nat, pfn: nat, jiffies: nat, actualSource: nat, page: nat)

  const BLANK: FrameStatus := FrameStatus(FrameRequest(0, 0), 0, 0, 0, 0, 0)

  /** Pages are the entries of the memory map, counted from 1 so that 0 is NULL. */
  function PageOf(pfn: nat): nat {
    pfn + 1
  }

  function PfnOf(page: nat): nat
    requires page != 0
  {
    page - 1
  }

  predicate HasFlag(flags: nat, flag: nat)
    requires flag > 0
  {
    (flags / flag) % 2 == 1
  }

  function SetFlag(flags: nat, flag: nat): nat
    requires flag > 0
  {
    if HasFlag(flags, flag) then flags else flags + flag
  }

  // ---- Bytes ----

  type Byte = x: nat | x < 256

  const WORD_BYTES: nat := 8
  const RECORD_SIZE: nat := 56

  function Power256(n: nat): nat {
    if n == 0 then 1 else 256 * Power256(n - 1)
  }

  /** The `n` lowest bytes of `x`, lowest first. */
  function Encode(x: nat, n: nat): (bytes: seq<Byte>)
    ensures |bytes| == n
  {
    if n == 0 then [] else [x % 256] + Encode(x / 256, n - 1)
  }

  function Decode(bytes: seq<Byte>): nat {
    if bytes == [] then 0 else bytes[0] + 256 * Decode(bytes[1..])
  }

  lemma {:induction false} DecodeEncode(x: nat, n: nat)
    requires x < Power256(n)
    ensures Decode(Encode(x, n)) == x
  {
    if n > 0 {
      DecodeEncode(x / 256, n - 1);
      assert Encode(x, n)[1..] == Encode(x / 256, n - 1);
    }
  }

  /** Every field fits into eight bytes. */
  predicate Fits(st: FrameStatus) {
    var limit := Power256(WORD_BYTES);
    st.request.pfn < limit && st.request.sources < limit && st.vmaOffset < limit && st.pfn < limit && st.jiffies < limit
    && st.actualSource < limit && st.page < limit
  }

  function EncodeRecord(st: FrameStatus): (bytes: seq<Byte>)
    ensures |bytes| == RECORD_SIZE
  {
    Encode(st.request.pfn, WORD_BYTES) + Encode(st.request.sources, WORD_BYTES) + Encode(st.vmaOffset, WORD_BYTES)
    + Encode(st.pfn, WORD_BYTES) + Encode(st.jiffies, WORD_BYTES) + Encode(st.actualSource, WORD_BYTES)
    + Encode(st.page, WORD_BYTES)
  }

  function DecodeRecord(bytes: seq<Byte>): FrameStatus
    requires |bytes| == RECORD_SIZE
  {
    FrameStatus(FrameRequest(Decode(bytes[0..8]), Decode(bytes[8..16])), Decode(bytes[16..24]), Decode(bytes[24..32]),
                Decode(bytes[32..40]), Decode(bytes[40..48]), Decode(bytes[48..56]))
  }

  lemma RecordRoundTrip(st: FrameStatus)
    requires Fits(st)
    ensures DecodeRecord(EncodeRecord(st)) == st
  {
    hide Encode, Decode, Power256;
    DecodeEncode(st.request.pfn, WORD_BYTES);
    DecodeEncode(st.request.sources, WORD_BYTES);
    DecodeEncode(st.vmaOffset, WORD_BYTES);
    DecodeEncode(st.pfn, WORD_BYTES);
    DecodeEncode(st.jiffies, WORD_BYTES);
    DecodeEncode(st.actualSource, WORD_BYTES);
    DecodeEncode(st.page, WORD_BYTES);
    var bytes := EncodeRecord(st);
    assert bytes[0..8] == Encode(st.request.pfn, WORD_BYTES);
    assert bytes[8..16] == Encode(st.request.sources, WORD_BYTES);
    assert bytes[16..24] == Encode(st.vmaOffset, WORD_BYTES);
    assert bytes[24..32] == Encode(st.pfn, WORD_BYTES);
    assert bytes[32..40] == Encode(st.jiffies, WORD_BYTES);
    assert bytes[40..48] == Encode(st.actualSource, WORD_BYTES);
    assert bytes[48..56] == Encode(st.page, WORD_BYTES);
  }

  /** The bytes of an array of records, one after the other. */
  function EncodeAll(stati: seq<FrameStatus>): (bytes: seq<Byte>)
    ensures |bytes| == RECORD_SIZE * |stati|
  {
    if stati == [] then [] else EncodeAll(stati[..|stati| - 1]) + EncodeRecord(stati[|stati| - 1])
  }

  lemma {:induction false} RecordAt(stati: seq<FrameStatus>, i: nat)
    requires i < |stati|
    ensures RECORD_SIZE * i + RECORD_SIZE <= |EncodeAll(stati)|
    ensures EncodeAll(stati)[RECORD_SIZE * i..RECORD_SIZE * i + RECORD_SIZE] == EncodeRecord(stati[i])
  {
    hide EncodeRecord;
    var n := |stati| - 1;
    if i < n {
      RecordAt(stati[..n], i);
    }
  }

  /** Numbers are stored lowest byte first. */
  lemma {:induction false} EncodedBytes(x: nat, n: nat, i: nat)
    requires i < n
    ensures Power256(i) > 0 && Encode(x, n)[i] == x / Power256(i) % 256
  {
    if i > 0 {
      EncodedBytes(x / 256, n - 1, i - 1);
      QuotientTwice(x, Power256(i - 1));
    }
  }

  lemma QuotientTwice(x: nat, p: nat)
    requires p > 0
    ensures 256 * p > 0 && x / 256 / p == x / (256 * p)
  {
    var q, r := x / 256 / p, x / 256 % p;
    Arith.QuotientBounds(x / 256, p);
    Arith.QuotientBounds(x, 256);
    assert x / 256 == q * p + r;
    assert x == q * (256 * p) + (256 * r + x % 256);
    Arith.DivisionUnique(x, 256 * p, q, 256 * r + x % 256);
  }

  /** The order of the fields, eight bytes each: requested frame, allowed sources, offset, frame, cost, source, page. */
  lemma RecordLayout(st: FrameStatus)
    ensures var bytes := EncodeRecord(st);
      && bytes[0..8] == Encode(st.request.pfn, 8) && bytes[8..16] == Encode(st.request.sources, 8)
      && bytes[16..24] == Encode(st.vmaOffset, 8) && bytes[24..32] == Encode(st.pfn, 8) && bytes[32..40] == Encode(st.jiffies, 8)
      && bytes[40..48] == Encode(st.actualSource, 8) && bytes[48..56] == Encode(st.page, 8)
  {
    hide Encode;
  }
}
