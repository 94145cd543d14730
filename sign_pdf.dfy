/** `signPdf` of examples/sign-pdf.js: fill the reserved signature slot of
    a laid-out PDF in the incremental-signing convention of section 12.8.1
    of ISO 32000-1 (Table 252: the ByteRange and Contents entries of a
    signature dictionary).

    ByteRange [0 L1 O2 L2] says which bytes a signature covers: the L1
    bytes before the slot and everything from offset O2 on.  The slot
    [L1, O2) holds `<` hex digits `>`.  The code is a straight pipeline
    over the buffer, modelled here as functions over byte sequences:
    a planner reads L1, O2 and L2 after the first `/ByteRange [0`, and a
    splicer signs the document with the slot cut out and writes the hex
    signature, padded with "00" per missing byte, back into the slot. */
module PdfSigning {
  import opened Wrappers
  import opened Bytes
  import opened Hex

  /** What the code searches for; the range text starts at its last byte. */
  const Marker: seq<byte> := Ascii("/ByteRange [0")
  /** The first occurrence of this anywhere in the buffer ends the range text. */
  const EndMarker: seq<byte> := Ascii(" ]")
  /** The range text runs from Marker's final '0', `/ByteRange [` bytes after the marker. */
  const FieldsOffset: nat := 12
  const Space: byte := 32
  const Open: byte := 60   // '<'
  const Close: byte := 62  // '>'

  /** The parsed `/ByteRange [0 L1 O2 L2 ]`.  L2 is None where `arr[3]` is
      missing or not a number (parseInt gives NaN); nothing reads it. */
  datatype ByteRange = ByteRange(l1: nat, o2: nat, l2: Option<nat>)

  /** The two errors `signPdf` throws. */
  datatype SignError =
    | PlaceholderNotFound  // "Could not find ByteRange placeholder"
    | NoRoom               // "No room on original signature slot ..."

  /** What the planner finds.  Unreadable is a marker whose L1 or O2 field
      is not a decimal number: the code goes on with NaN offsets there,
      which this model does not follow (see SlotLaidOut). */
  datatype Plan = NoPlaceholder | Unreadable | Planned(range: ByteRange)

  // ---------------------------------------------------------------------
  // Planner (sign-pdf.js:44-52)

  /** A " ]" never starts inside the marker, so an end marker at or after
      the marker lies past the range text's first byte, the marker's '0'. */
  lemma EndMarkerPlacement(pdf: seq<byte>, pos: nat, e: nat)
    requires OccursAt(pdf, Marker, pos) && OccursAt(pdf, EndMarker, e)
    ensures e < pos || pos + FieldsOffset < e
    ensures pdf[pos + FieldsOffset] == DigitZero && pdf[e] == Space
  {
    assert pdf[e] == EndMarker[0] && pdf[e + 1] == EndMarker[1];
    assert forall k :: 0 <= k < |Marker| ==> pdf[pos + k] == Marker[k];
    assert Marker[12] != EndMarker[0];
    assert forall k :: 1 <= k < |Marker| ==> Marker[k] != EndMarker[1];
  }

  /** `pdf.slice(byteRangePos + 12, byteRangeEND + 1)`, where the end is the
      first " ]" in the WHOLE buffer.  When that comes before the marker, or
      there is none (-1), the slice is empty. */
  function RangeText(pdf: seq<byte>, pos: nat): (text: seq<byte>)
    requires OccursAt(pdf, Marker, pos)
    ensures match IndexOf(pdf, EndMarker)
      case None => text == []
      case Some(e) =>
        (e < pos ==> text == []) &&
        (pos <= e ==> pos + FieldsOffset < e && text == pdf[pos + FieldsOffset .. e + 1]
                      && text[0] == DigitZero && text[|text| - 1] == Space)
  {
    match IndexOf(pdf, EndMarker)
    case None => []
    case Some(e) =>
      EndMarkerPlacement(pdf, pos, e);
      if pos + FieldsOffset <= e + 1 then pdf[pos + FieldsOffset .. e + 1] else []
  }

  /** `str.split(" ")` and parseInt of fields 1, 2 and 3.  Field 0 is the
      marker's own '0' and is not read. */
  function ParseFields(text: seq<byte>): (r: Option<ByteRange>)
    ensures var fields := Split(text, Space);
      r.None? <==> |fields| < 3 || !IsDigitRun(fields[1]) || !IsDigitRun(fields[2])
    ensures r.Some? ==> var fields := Split(text, Space);
      && ParseDecimal(fields[1]) == Some(r.value.l1) && ParseDecimal(fields[2]) == Some(r.value.o2)
      && (r.value.l2.Some? <==> |fields| > 3 && IsDigitRun(fields[3]))
      && (r.value.l2.Some? ==> ParseDecimal(fields[3]) == r.value.l2)
  {
    var fields := Split(text, Space);
    if |fields| < 3 then None
    else match (ParseDecimal(fields[1]), ParseDecimal(fields[2]))
      case (Some(l1), Some(o2)) =>
        Some(ByteRange(l1, o2, if |fields| > 3 then ParseDecimal(fields[3]) else None))
      case _ => None
  }

  /** The planner: the range after the first marker. */
  function PlanByteRange(pdf: seq<byte>): (p: Plan)
    ensures p == NoPlaceholder <==> forall i: nat :: !OccursAt(pdf, Marker, i)
  {
    match IndexOf(pdf, Marker)
    case None => NoPlaceholder
    case Some(pos) =>
      match ParseFields(RangeText(pdf, pos))
      case None => Unreadable
      case Some(range) => Planned(range)
  }

  /** The planner reads the range after the FIRST marker, whatever follows. */
  lemma PlanUsesFirstMarker(pdf: seq<byte>, pos: nat)
    requires OccursAt(pdf, Marker, pos)
    requires forall j: nat :: j < pos ==> !OccursAt(pdf, Marker, j)
    ensures PlanByteRange(pdf) != NoPlaceholder
    ensures PlanByteRange(pdf).Planned? <==> ParseFields(RangeText(pdf, pos)).Some?
    ensures PlanByteRange(pdf).Planned? ==> Some(PlanByteRange(pdf).range) == ParseFields(RangeText(pdf, pos))
  {
    var first := IndexOf(pdf, Marker);
    assert first == Some(pos) by {
      assert first.Some?;
      assert !(first.value < pos) && !(pos < first.value);
    }
  }

  /** The fields text a placeholder writer emits, `0 L1 O2 L2 `: the
      marker's '0', each number zero-padded to a fixed width (k1, k2, k3
      leading zeros), a space after each, and nothing after the last space. */
  function LayoutText(k1: nat, l1: nat, k2: nat, o2: nat, k3: nat, l2: nat): seq<byte>
  {
    Join(LayoutFields(k1, l1, k2, o2, k3, l2), Space)
  }

  function LayoutFields(k1: nat, l1: nat, k2: nat, o2: nat, k3: nat, l2: nat): seq<seq<byte>>
  {
    [[DigitZero], ZeroDigits(k1) + Decimal(l1), ZeroDigits(k2) + Decimal(o2), ZeroDigits(k3) + Decimal(l2), []]
  }

  /** The split on single spaces reads back the numbers a placeholder writer
      laid out, leading zeros and all. */
  lemma ParseFieldsLayout(k1: nat, l1: nat, k2: nat, o2: nat, k3: nat, l2: nat)
    ensures ParseFields(LayoutText(k1, l1, k2, o2, k3, l2)) == Some(ByteRange(l1, o2, Some(l2)))
  {
    var fields := LayoutFields(k1, l1, k2, o2, k3, l2);
    forall k | 0 <= k < |fields|
      ensures Space !in fields[k]
    {
      assert forall i :: 0 <= i < |fields[k]| ==> IsDigit(fields[k][i]);
    }
    SplitJoin(fields, Space);
    ParseZeroPadded(k1, l1);
    ParseZeroPadded(k2, o2);
    ParseZeroPadded(k3, l2);
  }

  /** A document whose first marker is followed by a laid-out range, ended
      by the buffer's first " ]", plans to exactly those numbers. */
  lemma PlanLaidOutDocument(pdf: seq<byte>, pos: nat, e: nat, k1: nat, l1: nat, k2: nat, o2: nat, k3: nat, l2: nat)
    requires OccursAt(pdf, Marker, pos) && forall j: nat :: j < pos ==> !OccursAt(pdf, Marker, j)
    requires OccursAt(pdf, EndMarker, e) && forall j: nat :: j < e ==> !OccursAt(pdf, EndMarker, j)
    requires pos + FieldsOffset <= e + 1 <= |pdf|
    requires pdf[pos + FieldsOffset .. e + 1] == LayoutText(k1, l1, k2, o2, k3, l2)
    ensures PlanByteRange(pdf) == Planned(ByteRange(l1, o2, Some(l2)))
  {
    var end := IndexOf(pdf, EndMarker);
    assert end == Some(e) by {
      assert end.Some?;
      assert !(end.value < e) && !(e < end.value);
    }
    var text := RangeText(pdf, pos);
    assert text == LayoutText(k1, l1, k2, o2, k3, l2);
    ParseFieldsLayout(k1, l1, k2, o2, k3, l2);
    PlanUsesFirstMarker(pdf, pos);
  }

  // ---------------------------------------------------------------------
  // Splicer (sign-pdf.js:60, 71-75, 89-105)

  /** `contentSign`: the slot's bytes strictly inside its delimiters. */
  function Interior(pdf: seq<byte>, l1: nat, o2: nat): (slot: seq<byte>)
    requires l1 + 2 <= o2 <= |pdf|
    ensures |slot| == o2 - l1 - 2
    ensures forall i :: 0 <= i < |slot| ==> slot[i] == pdf[l1 + 1 + i]
  {
    pdf[l1 + 1 .. o2 - 1]
  }

  /** `pdfTmp`: the document with the whole slot, delimiters included, cut out. */
  function Signable(pdf: seq<byte>, l1: nat, o2: nat): (s: seq<byte>)
    requires l1 <= o2 <= |pdf|
    ensures |s| == |pdf| - (o2 - l1)
    ensures forall i :: 0 <= i < l1 ==> s[i] == pdf[i]
    ensures forall i :: o2 <= i < |pdf| ==> s[i - (o2 - l1)] == pdf[i]
  {
    pdf[..l1] + pdf[o2..]
  }

  /** The slot content: the signature's hex followed by "00" for each byte
      of room left, filling `capacity` bytes of hex exactly. */
  function PadSignature(raw: seq<byte>, capacity: nat): (padded: seq<byte>)
    requires |raw| <= capacity
    ensures |padded| == 2 * capacity
    ensures padded[..2 * |raw|] == HexEncode(raw)
    ensures padded[2 * |raw|..] == ZeroDigits(2 * (capacity - |raw|))
    ensures HexDecode(padded) == Some(raw + ZeroBytes(capacity - |raw|))
  {
    var pad := ZeroBytes(capacity - |raw|);
    HexEncodeZeros(capacity - |raw|);
    HexEncodeAppend(raw, pad);
    HexDecodeEncode(raw + pad);
    HexEncode(raw) + HexEncode(pad)
  }

  /** The slot is well placed: both delimiters fit, it ends inside the
      buffer, and its interior has an even length. */
  predicate SlotFits(l1: nat, o2: nat, size: nat)
  {
    l1 + 2 <= o2 <= size && (o2 - l1) % 2 == 0
  }

  /** `Buffer.concat([pdf.slice(0, L1), "<" + content + ">", pdf.slice(O2)])`:
      content of the slot interior's length leaves every byte outside the slot
      where it was and changes nothing the signature covers. */
  function Reassemble(pdf: seq<byte>, l1: nat, o2: nat, content: seq<byte>): (out: seq<byte>)
    requires l1 + 2 <= o2 <= |pdf| && |content| == o2 - l1 - 2
    ensures |out| == |pdf|
    ensures forall i :: 0 <= i < l1 ==> out[i] == pdf[i]
    ensures forall i :: o2 <= i < |pdf| ==> out[i] == pdf[i]
    ensures out[l1] == Open && out[o2 - 1] == Close
    ensures Interior(out, l1, o2) == content
    ensures Signable(out, l1, o2) == Signable(pdf, l1, o2)
  {
    var before, after := pdf[..l1], pdf[o2..];
    var out := before + [Open] + content + [Close] + after;
    assert out == before + ([Open] + content + [Close] + after);
    assert out[..l1] == before;
    assert out[o2..] == after;
    assert out[l1 + 1 .. o2 - 1] == content;
    out
  }

  /** The splicer: sign the document without its slot and write the
      padded hex signature into the slot, or throw NoRoom.  L2 is not an
      input: it never affects the result. */
  function Splice(pdf: seq<byte>, l1: nat, o2: nat, sign: seq<byte> -> seq<byte>): (r: Result<seq<byte>, SignError>)
    requires SlotFits(l1, o2, |pdf|)
    ensures var raw := sign(Signable(pdf, l1, o2));
      (r.Failure? <==> |raw| > (o2 - l1 - 2) / 2) && (r.Failure? ==> r.error == NoRoom)
    ensures r.Success? ==> |r.value| == |pdf|
    ensures r.Success? ==> forall i :: 0 <= i < |pdf| && !(l1 <= i < o2) ==> r.value[i] == pdf[i]
    ensures r.Success? ==> r.value[l1] == Open && r.value[o2 - 1] == Close
    ensures r.Success? ==> Interior(r.value, l1, o2) == PadSignature(sign(Signable(pdf, l1, o2)), (o2 - l1 - 2) / 2)
    ensures r.Success? ==> Signable(r.value, l1, o2) == Signable(pdf, l1, o2)
  {
    var interior := Interior(pdf, l1, o2);
    var raw := sign(Signable(pdf, l1, o2));
    var capacity := |interior| / 2;
    assert capacity == (o2 - l1 - 2) / 2;
    if capacity - |raw| < 0 then Failure(NoRoom)
    else
      var padded := PadSignature(raw, capacity);
      assert |padded| == o2 - l1 - 2;
      Success(Reassemble(pdf, l1, o2, padded))
  }

  /** What `signPdf` needs of its input beyond what it checks: a readable
      range after the marker whose slot fits the buffer (the code would go on
      with NaN or out-of-range offsets otherwise).  A buffer without the
      marker needs nothing: that case throws. */
  predicate SlotLaidOut(pdf: seq<byte>)
  {
    match PlanByteRange(pdf)
    case NoPlaceholder => true
    case Unreadable => false
    case Planned(range) => SlotFits(range.l1, range.o2, |pdf|)
  }

  /** `signPdf(pdf, signer)` with the signer as the function `sign`. */
  function SignPdf(pdf: seq<byte>, sign: seq<byte> -> seq<byte>): (r: Result<seq<byte>, SignError>)
    requires SlotLaidOut(pdf)
    ensures r == Failure(PlaceholderNotFound) <==> forall i: nat :: !OccursAt(pdf, Marker, i)
    ensures r.Failure? ==> r.error == PlaceholderNotFound || r.error == NoRoom
    ensures r.Success? ==> PlanByteRange(pdf).Planned?
    ensures PlanByteRange(pdf).Planned? ==>
      var rg := PlanByteRange(pdf).range;
      (r == Failure(NoRoom) <==> |sign(Signable(pdf, rg.l1, rg.o2))| > (rg.o2 - rg.l1 - 2) / 2)
    ensures r.Success? ==>
      var rg := PlanByteRange(pdf).range;
      && |r.value| == |pdf|
      && (forall i :: 0 <= i < |pdf| && !(rg.l1 <= i < rg.o2) ==> r.value[i] == pdf[i])
      && r.value[rg.l1] == Open && r.value[rg.o2 - 1] == Close
      && Interior(r.value, rg.l1, rg.o2) == PadSignature(sign(Signable(pdf, rg.l1, rg.o2)), (rg.o2 - rg.l1 - 2) / 2)
      && Signable(r.value, rg.l1, rg.o2) == Signable(pdf, rg.l1, rg.o2)
  {
    var plan := PlanByteRange(pdf);
    if plan.NoPlaceholder? then Failure(PlaceholderNotFound)
    else
      assert plan.Planned?;
      var r := Splice(pdf, plan.range.l1, plan.range.o2, sign);
      r
  }
}
