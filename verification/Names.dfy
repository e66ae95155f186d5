/** Domain names: dns_name_from_bytes and dns_name_to_bytes. */
module Names {
  import opened Wire

  // the placeholder text at resource_record.c:31, in ASCII
  const PLACEHOLDER: seq<byte> := [80, 79, 73, 78, 84, 69, 82, 32, 78, 65, 77, 69]

  // ----- Decoding

  /** How the label loop ends. `Labels(text)` has left `text` in tmp_name[..|text|]. */
  datatype Scan = Labels(text: seq<byte>) | Pointer | Overrun

  function ScanLabels(s: seq<byte>, inLen: nat, text: seq<byte>): Scan
    decreases inLen - |text|
  {
    var i := |text|;
    if i >= inLen then Labels(text)
    else if i >= |s| then Overrun
    else if s[i] == 0 then Labels(text)
    else
      var l := s[i] as int;
      if l + i > inLen then Pointer
      else if i + l >= |s| then Overrun
      else ScanLabels(s, inLen, text + s[i + 1..i + 1 + l] + [DOT])
  }

  function NameFromBytes(s: seq<byte>, inLen: nat): Result<Parsed<seq<byte>>> {
    match ScanLabels(s, inLen, [])
    case Overrun => Err(OutOfBounds)
    case Pointer =>
      var j := FirstZero(s);
      if j == |s| then Err(OutOfBounds) else Ok(Parsed(PLACEHOLDER, j))
    case Labels(text) =>
      if |text| > inLen then Err(BadName)
      else if text == [] then Ok(Parsed([DOT], 1))
      else Ok(Parsed(text, |text| + 1))
  }

  /** The loop that copies one label and the dot behind it. */
  method CopyLabel(tmpName: array<byte>, i: nat, l: seq<byte>)
    requires i + |l| < tmpName.Length
    modifies tmpName
    ensures tmpName[..i + |l| + 1] == old(tmpName[..i]) + l + [DOT]
  {
    CopyBytes(tmpName, i, l);
    tmpName[i + |l|] := DOT;
    assert tmpName[..i + |l| + 1] == tmpName[..i] + tmpName[i..i + |l|] + [tmpName[i + |l|]];
  }

  /** dns_name_from_bytes, with its scratch buffer of inLen + 1 characters. */
  method DnsNameFromBytes(s: seq<byte>, inLen: nat) returns (r: Result<Parsed<seq<byte>>>)
    ensures r == NameFromBytes(s, inLen)
  {
    hide ScanLabels, FirstZero;
    var tmpName := new byte[inLen + 1];
    var i := 0;
    while i < inLen && i < |s| && s[i] != 0
      invariant 0 <= i <= inLen + 1
      invariant ScanLabels(s, inLen, []) == ScanLabels(s, inLen, tmpName[..i])
    {
      var labelLen := s[i] as int;
      ScanTurn(s, inLen, tmpName[..i]);
      if labelLen + i > inLen {
        var j := ScanToZero(s);
        return if j == |s| then Err(OutOfBounds) else Ok(Parsed(PLACEHOLDER, j));
      }
      if i + labelLen >= |s| {
        return Err(OutOfBounds);
      }
      CopyLabel(tmpName, i, s[i + 1..i + 1 + labelLen]);
      i := i + labelLen + 1;
    }
    ScanEnds(s, inLen, tmpName[..i]);
    if i < inLen && i >= |s| {
      return Err(OutOfBounds);
    }
    if i > inLen {
      return Err(BadName);
    }
    if i == 0 {
      tmpName[i] := DOT;
      return Ok(Parsed([DOT], 1));
    }
    return Ok(Parsed(tmpName[..i], i + 1));
  }

  /** One turn of the label loop. */
  lemma {:induction false} ScanTurn(s: seq<byte>, inLen: nat, text: seq<byte>)
    requires |text| < inLen && |text| < |s| && s[|text|] != 0
    ensures var i, l := |text|, s[|text|] as int;
      ScanLabels(s, inLen, text)
      == if l + i > inLen then Pointer
         else if i + l >= |s| then Overrun
         else ScanLabels(s, inLen, text + s[i + 1..i + 1 + l] + [DOT])
  {
  }

  lemma {:induction false} ScanEnds(s: seq<byte>, inLen: nat, text: seq<byte>)
    requires !(|text| < inLen && |text| < |s| && s[|text|] != 0)
    ensures ScanLabels(s, inLen, text) == if |text| < inLen && |text| >= |s| then Overrun else Labels(text)
  {
  }

  // ----- Encoding

  /** The index of the first dot at or after `i`, or |name|. */
  function NextDot(name: seq<byte>, i: nat): (j: nat)
    requires i <= |name|
    ensures i <= j <= |name|
    ensures j < |name| ==> name[j] == DOT
    ensures forall k :: i <= k < j ==> name[k] != DOT
    decreases |name| - i
  {
    if i == |name| || name[i] == DOT then i else NextDot(name, i + 1)
  }

  /** The encoder from position `i` on, with `out` already in tmp_out[..i]. */
  function LabelsToBytes(name: seq<byte>, out: seq<byte>): Result<seq<byte>>
    decreases |name| + 1 - |out|
  {
    var i := |out|;
    if i > |name| then Err(OutOfBounds)  // tmp_out[i] is past the buffer
    else if i == |name| then Ok(out + [0])
    else
      var j := NextDot(name, i);
      if j == i then Ok(out + [0])
      else LabelsToBytes(name, out + OneLabel(name[i..j]))
  }

  /** A label behind its length byte; (unsigned char) cuts a longer length off. */
  function OneLabel(l: seq<byte>): (s: seq<byte>)
    ensures |s| == |l| + 1
  {
    [(|l| % 0x100) as byte] + l
  }

  function NameToBytes(name: seq<byte>): Result<seq<byte>> {
    LabelsToBytes(name, [])
  }

  lemma {:induction false} EncodeIs(name: seq<byte>, out: seq<byte>)
    ensures var i := |out|;
      && (i > |name| ==> LabelsToBytes(name, out) == Err(OutOfBounds))
      && (i == |name| || (i < |name| && NextDot(name, i) == i) ==> LabelsToBytes(name, out) == Ok(out + [0]))
      && (i < |name| && NextDot(name, i) != i ==>
            LabelsToBytes(name, out) == LabelsToBytes(name, out + OneLabel(name[i..NextDot(name, i)])))
  {
  }

  /** dns_name_to_bytes, with its output buffer of |name| + 1 bytes. */
  method DnsNameToBytes(name: seq<byte>) returns (r: Result<seq<byte>>)
    ensures r == NameToBytes(name)
  {
    hide LabelsToBytes, NextDot, OneLabel;
    var tmpOut := new byte[|name| + 1];
    var i := 0;
    assert tmpOut[..0] == [];
    while i < |name|
      invariant 0 <= i <= |name| + 1
      invariant NameToBytes(name) == LabelsToBytes(name, tmpOut[..i])
    {
      ghost var done := tmpOut[..i];
      EncodeIs(name, done);
      var j := FindDot(name, i);
      if j == i {
        break;
      }
      WriteLabel(tmpOut, i, name[i..j]);
      assert tmpOut[..j + 1] == done + OneLabel(name[i..j]);
      i := j + 1;
    }
    EncodeIs(name, tmpOut[..i]);
    if i > |name| {
      return Err(OutOfBounds);
    }
    ghost var done := tmpOut[..i];
    tmpOut[i] := 0;
    assert tmpOut[..i + 1] == done + [0];
    return Ok(tmpOut[..i + 1]);
  }

  /** The inner search loop. */
  method FindDot(name: seq<byte>, i: nat) returns (j: nat)
    requires i <= |name|
    ensures j == NextDot(name, i)
  {
    j := i;
    while j < |name| && name[j] != DOT
      invariant i <= j <= |name|
      invariant NextDot(name, i) == NextDot(name, j)
    {
      j := j + 1;
    }
  }

  /** The length byte and the copying loop. */
  method WriteLabel(tmpOut: array<byte>, i: nat, l: seq<byte>)
    requires i + 1 + |l| <= tmpOut.Length
    modifies tmpOut
    ensures tmpOut[..i] == old(tmpOut[..i])
    ensures tmpOut[i..i + 1 + |l|] == OneLabel(l)
  {
    tmpOut[i] := (|l| % 0x100) as byte;
    CopyBytes(tmpOut, i + 1, l);
    assert tmpOut[..i + 1][..i] == tmpOut[..i];
    assert tmpOut[i] == tmpOut[..i + 1][i] == (|l| % 0x100) as byte;
    assert tmpOut[i..i + 1 + |l|] == [tmpOut[i]] + tmpOut[i + 1..i + 1 + |l|];
  }

  // ----- Names as lists of labels (section 3.1 of RFC 1035)

  type Label = seq<byte>

  ghost predicate ValidLabel(l: Label) {
    0 < |l| < 0x100 && forall k :: 0 <= k < |l| ==> l[k] != 0 && l[k] != DOT
  }

  ghost predicate ValidLabels(ls: seq<Label>) {
    forall k :: 0 <= k < |ls| ==> ValidLabel(ls[k])
  }

  /** Length-prefixed labels, without a terminator. */
  ghost function LabelBytes(ls: seq<Label>): seq<byte>
    requires ValidLabels(ls)
  {
    if ls == [] then [] else OneLabel(ls[0]) + LabelBytes(ls[1..])
  }

  /** Each label followed by a dot. */
  ghost function LabelText(ls: seq<Label>): seq<byte>
    requires ValidLabels(ls)
  {
    if ls == [] then [] else ls[0] + [DOT] + LabelText(ls[1..])
  }

  ghost function WireName(ls: seq<Label>): seq<byte>
    requires ValidLabels(ls)
  {
    LabelBytes(ls) + [0]
  }

  /** The canonical dotted form; the root is a single dot. */
  ghost function Dotted(ls: seq<Label>): seq<byte>
    requires ValidLabels(ls)
  {
    if ls == [] then [DOT] else LabelText(ls)
  }

  lemma {:induction false} LabelsShape(ls: seq<Label>)
    requires ValidLabels(ls)
    ensures |LabelBytes(ls)| == |LabelText(ls)|
    ensures forall k :: 0 <= k < |LabelBytes(ls)| ==> LabelBytes(ls)[k] != 0
    ensures ls != [] ==> LabelText(ls)[0] != DOT
  {
    if ls != [] {
      LabelsShape(ls[1..]);
    }
  }

  lemma {:induction false} NoLabels()
    ensures LabelBytes([]) == [] && LabelText([]) == []
  {
  }

  /** One turn of the decoder's loop takes one label. */
  lemma {:induction false} ScanTakesLabel(s: seq<byte>, inLen: nat, text: seq<byte>, l: Label)
    requires ValidLabel(l)
    requires |text| + |l| + 1 < |s| && |text| + |l| + 1 < inLen
    requires s[|text|] as int == |l| && s[|text| + 1..|text| + 1 + |l|] == l
    ensures ScanLabels(s, inLen, text) == ScanLabels(s, inLen, text + l + [DOT])
  {
  }

  lemma {:induction false} HeadOfBytes(s: seq<byte>, at: nat, ls: seq<Label>)
    requires ValidLabels(ls) && ls != []
    requires at + |LabelBytes(ls)| <= |s|
    requires s[at..at + |LabelBytes(ls)|] == LabelBytes(ls)
    ensures |LabelBytes(ls)| == |ls[0]| + 1 + |LabelBytes(ls[1..])|
    ensures s[at] as int == |ls[0]| && s[at + 1..at + 1 + |ls[0]|] == ls[0]
    ensures s[at + 1 + |ls[0]|..at + |LabelBytes(ls)|] == LabelBytes(ls[1..])
  {
    var l, rest := ls[0], LabelBytes(ls[1..]);
    assert LabelBytes(ls) == [|l| as byte] + l + rest;
    Slices(s, at, [|l| as byte], l, rest);
    assert s[at..at + 1][0] == |l| as byte;
  }

  lemma {:induction false} HeadFirst(ls: seq<Label>)
    requires ValidLabels(ls) && ls != []
    ensures LabelBytes(ls) == OneLabel(ls[0]) + LabelBytes(ls[1..])
    ensures LabelText(ls) == ls[0] + [DOT] + LabelText(ls[1..])
  {
  }

  /** The decoder's loop walks over whole labels. */
  lemma {:induction false} ScanSkipsLabels(s: seq<byte>, inLen: nat, text: seq<byte>, ls: seq<Label>)
    requires ValidLabels(ls)
    requires |text| + |LabelBytes(ls)| < |s|
    requires |text| + |LabelBytes(ls)| < inLen
    requires s[|text|..|text| + |LabelBytes(ls)|] == LabelBytes(ls)
    ensures ScanLabels(s, inLen, text) == ScanLabels(s, inLen, text + LabelText(ls))
    decreases |ls|
  {
    hide ScanLabels, LabelText, LabelBytes, ValidLabels, ValidLabel;
    if ls == [] {
      NoLabels();
      assert text + [] == text;
    } else {
      ValidTail(ls);
      var l, more := ls[0], ls[1..];
      HeadOfBytes(s, |text|, ls);
      ScanTakesLabel(s, inLen, text, l);
      ScanSkipsLabels(s, inLen, text + l + [DOT], more);
      HeadFirst(ls);
      Assoc(text, l, [DOT]);
      Assoc(text, l + [DOT], LabelText(more));
    }
  }

  lemma {:induction false} ScanFromStart(s: seq<byte>, inLen: nat, ls: seq<Label>)
    requires ValidLabels(ls) && |LabelBytes(ls)| < |s| && |LabelBytes(ls)| < inLen
    requires s[..|LabelBytes(ls)|] == LabelBytes(ls)
    ensures ScanLabels(s, inLen, []) == ScanLabels(s, inLen, LabelText(ls))
  {
    hide LabelBytes, LabelText, ValidLabels, ScanLabels;
    ScanSkipsLabels(s, inLen, [], ls);
    assert [] + LabelText(ls) == LabelText(ls);
  }

  /**
   The label that is not over before the first zero decides. If it takes in just the
   zero, the name is read with the zero in it and one byte too long; if it takes in one
   byte more, the name is refused; and only behind that is it taken for a pointer.
   */
  lemma {:induction false} LastLabelDecides(ls: seq<Label>, s: seq<byte>)
    requires ValidLabels(ls) && |LabelBytes(ls)| < FirstZero(s) < |s| && s[..|LabelBytes(ls)|] == LabelBytes(ls)
    requires |LabelBytes(ls)| + s[|LabelBytes(ls)|] as int >= FirstZero(s)
    ensures var n, z, r := |LabelBytes(ls)|, FirstZero(s), NameFromBytes(s, FirstZero(s) + 1);
      var l := s[n] as int;
      && (n + l == z ==> r == Ok(Parsed(LabelText(ls) + s[n + 1..z + 1] + [DOT], z + 2)))
      && (n + l == z + 1 ==> r == Err(if z + 1 == |s| then OutOfBounds else BadName))
      && (n + l > z + 1 ==> r == Ok(Parsed(PLACEHOLDER, z)))
  {
    hide LabelBytes, LabelText, ValidLabels, ScanLabels, FirstZero;
    var n, z, text := |LabelBytes(ls)|, FirstZero(s), LabelText(ls);
    var l := s[n] as int;
    LabelsShape(ls);
    ScanFromStart(s, z + 1, ls);
    ScanTurn(s, z + 1, text);
    if n + l <= z + 1 && n + l < |s| {
      ScanEnds(s, z + 1, text + s[n + 1..n + 1 + l] + [DOT]);
    }
  }

  lemma {:induction false} EncodeStep(name: seq<byte>, out: seq<byte>)
    requires |out| < |name| && name[|out|] != DOT
    ensures LabelsToBytes(name, out)
            == LabelsToBytes(name, out + OneLabel(name[|out|..NextDot(name, |out|)]))
  {
  }

  lemma {:induction false} NextDotIs(name: seq<byte>, i: nat, j: nat)
    requires i <= j < |name| && name[j] == DOT
    requires forall k :: i <= k < j ==> name[k] != DOT
    ensures NextDot(name, i) == j
  {
  }

  lemma {:induction false} LabelEndsAtDot(name: seq<byte>, i: nat, l: Label)
    requires ValidLabel(l)
    requires i + |l| < |name|
    requires name[i..i + |l|] == l && name[i + |l|] == DOT
    ensures name[i] != DOT && NextDot(name, i) == i + |l|
  {
    hide NextDot;
    forall k | i <= k < i + |l| ensures name[k] != DOT {
      assert name[k] == l[k - i];
    }
    NextDotIs(name, i, i + |l|);
  }

  lemma {:induction false} EncodeTakesLabel(name: seq<byte>, out: seq<byte>, l: Label)
    requires ValidLabel(l)
    requires |out| + |l| < |name|
    requires name[|out|..|out| + |l|] == l && name[|out| + |l|] == DOT
    ensures LabelsToBytes(name, out) == LabelsToBytes(name, out + OneLabel(l))
  {
    hide LabelsToBytes;
    LabelEndsAtDot(name, |out|, l);
    EncodeStep(name, out);
  }

  /** What a text that continues with `ls` looks like at its first label. */
  lemma {:induction false} HeadOfText(name: seq<byte>, at: nat, ls: seq<Label>)
    requires ValidLabels(ls) && ls != []
    requires at + |LabelText(ls)| <= |name|
    requires name[at..at + |LabelText(ls)|] == LabelText(ls)
    ensures |LabelText(ls)| == |ls[0]| + 1 + |LabelText(ls[1..])|
    ensures name[at..at + |ls[0]|] == ls[0] && name[at + |ls[0]|] == DOT
    ensures name[at + |ls[0]| + 1..at + |LabelText(ls)|] == LabelText(ls[1..])
  {
    var l, rest := ls[0], LabelText(ls[1..]);
    assert LabelText(ls) == l + [DOT] + rest;
    Slices(name, at, l, [DOT], rest);
    assert name[at + |l|..at + |l| + 1][0] == DOT;
  }

  lemma {:induction false} ValidTail(ls: seq<Label>)
    requires ValidLabels(ls) && ls != []
    ensures ValidLabel(ls[0]) && ValidLabels(ls[1..])
  {
  }

  /** The encoder's loop walks over whole labels. */
  lemma {:induction false} EncodeSkipsLabels(name: seq<byte>, out: seq<byte>, ls: seq<Label>)
    requires ValidLabels(ls)
    requires |out| + |LabelText(ls)| <= |name|
    requires name[|out|..|out| + |LabelText(ls)|] == LabelText(ls)
    ensures LabelsToBytes(name, out) == LabelsToBytes(name, out + LabelBytes(ls))
    decreases |ls|
  {
    hide LabelsToBytes, LabelText, LabelBytes, OneLabel, ValidLabels, ValidLabel, NextDot;
    if ls == [] {
      NoLabels();
      assert out + [] == out;
    } else {
      ValidTail(ls);
      var l := OneLabel(ls[0]);
      HeadOfText(name, |out|, ls);
      EncodeTakesLabel(name, out, ls[0]);
      var out' := out + l;
      assert |out'| == |out| + |ls[0]| + 1;
      EncodeSkipsLabels(name, out', ls[1..]);
      HeadFirst(ls);
      Assoc(out, l, LabelBytes(ls[1..]));
    }
  }

  lemma {:induction false} LiteralScan(ls: seq<Label>, s: seq<byte>)
    requires ValidLabels(ls) && |LabelBytes(ls)| < |s|
    requires s[..|LabelBytes(ls)|] == LabelBytes(ls) && s[|LabelBytes(ls)|] == 0
    ensures ScanLabels(s, |LabelBytes(ls)| + 1, []) == Labels(LabelText(ls))
  {
    hide LabelBytes, LabelText, ValidLabels, ScanLabels;
    var w := LabelBytes(ls);
    LabelsShape(ls);
    ScanFromStart(s, |w| + 1, ls);
    ScanEnds(s, |w| + 1, LabelText(ls));
  }

  /** Decoding a literal name gives its canonical text and consumes exactly the
      name, whatever follows it. */
  lemma {:induction false} LiteralNameDecodes(ls: seq<Label>, rest: seq<byte>)
    requires ValidLabels(ls)
    ensures var s := WireName(ls) + rest;
      && FirstZero(s) + 1 == |WireName(ls)|
      && NameFromBytes(s, |WireName(ls)|) == Ok(Parsed(Dotted(ls), |WireName(ls)|))
  {
    var w, s := LabelBytes(ls), WireName(ls) + rest;
    LabelsShape(ls);
    assert s[..|w|] == w && s[|w|] == 0;
    assert forall k :: 0 <= k < |w| ==> s[k] == w[k];
    FirstZeroIs(s, |w|);
    LiteralScan(ls, s);
    hide LabelBytes, LabelText, ScanLabels, FirstZero, ValidLabels;
  }

  lemma {:induction false} RootEncodes()
    ensures NameToBytes([]) == Ok([0]) && NameToBytes([DOT]) == Ok([0])
  {
    var none: seq<byte>, zero: seq<byte> := [], [0];
    assert none + zero == zero;
    assert LabelsToBytes([], none) == Ok(none + zero);
    assert NextDot([DOT], 0) == 0;
    assert LabelsToBytes([DOT], none) == Ok(none + zero);
  }

  /** The two codecs are inverse to each other: wire to text to wire, and text
      to wire to text. The empty text also encodes the root. */
  lemma {:induction false} NameRoundTrip(ls: seq<Label>, rest: seq<byte>)
    requires ValidLabels(ls)
    ensures NameToBytes(Dotted(ls)) == Ok(WireName(ls))
    ensures NameFromBytes(WireName(ls) + rest, |WireName(ls)|).Ok?
    ensures NameToBytes(NameFromBytes(WireName(ls) + rest, |WireName(ls)|).value.value) == Ok(WireName(ls))
    ensures NameFromBytes(NameToBytes(Dotted(ls)).value + rest, |WireName(ls)|)
            == Ok(Parsed(Dotted(ls), |WireName(ls)|))
    ensures NameToBytes([]) == NameToBytes([DOT]) == Ok([0])
  {
    LiteralNameDecodes(ls, rest);
    LabelsShape(ls);
    RootEncodes();
    if ls != [] {
      EncodeSkipsLabels(LabelText(ls), [], ls);
      assert [] + LabelBytes(ls) == LabelBytes(ls);
    }
  }

  /** A caller can tell beforehand whether the encoder stays inside its buffer:
      the text is empty, ends with a dot, or has an empty label that stops the
      encoder early. */
  ghost predicate EncoderStaysInside(name: seq<byte>) {
    || name == []
    || name[|name| - 1] == DOT
    || name[0] == DOT
    || exists k :: 0 < k < |name| && name[k - 1] == DOT && name[k] == DOT
  }

  lemma {:induction false} EncoderFrom(name: seq<byte>, out: seq<byte>)
    requires |out| <= |name| + 1
    requires 0 < |out| <= |name| ==> name[|out| - 1] == DOT
    ensures LabelsToBytes(name, out).Ok? <==>
      || |out| == |name|
      || (|out| < |name| && name[|out|] == DOT)
      || (|out| < |name| && name[|name| - 1] == DOT)
      || exists k {:trigger name[k]} :: |out| < k < |name| && name[k - 1] == DOT && name[k] == DOT
    decreases |name| + 1 - |out|
  {
    var i := |out|;
    if i < |name| && name[i] != DOT {
      var j := NextDot(name, i);
      var out' := out + OneLabel(name[i..j]);
      EncoderFrom(name, out');
      forall k | i < k < |name| && name[k - 1] == DOT && name[k] == DOT
        ensures k == j + 1 || j + 1 < k < |name|
      {
        if k <= j {
          assert false;
        }
      }
    }
  }

  lemma {:induction false} EncoderStaysInsideExactly(name: seq<byte>)
    ensures NameToBytes(name).Ok? <==> EncoderStaysInside(name)
  {
    EncoderFrom(name, []);
    if exists k :: 0 < k < |name| && name[k - 1] == DOT && name[k] == DOT {
      var k :| 0 < k < |name| && name[k - 1] == DOT && name[k] == DOT;
      assert name[k] == DOT;
    }
  }

  // ----- Compressed names (section 4.1.4 of RFC 1035)

  lemma {:induction false} ScanOnlyGrows(s: seq<byte>, inLen: nat, text: seq<byte>)
    ensures ScanLabels(s, inLen, text).Labels? ==> |ScanLabels(s, inLen, text).text| >= |text|
    decreases inLen - |text|
  {
    var i := |text|;
    if i < inLen && i < |s| && s[i] != 0 {
      var l := s[i] as int;
      if l + i <= inLen && i + l < |s| {
        ScanOnlyGrows(s, inLen, text + s[i + 1..i + 1 + l] + [DOT]);
      }
    }
  }

  /** A name that ends in a two-byte pointer carries no zero of its own, so the
      decoder's idea of its length depends on the byte behind it: the name is
      read correctly exactly when that byte is zero. */
  lemma {:induction false} CompressedNameDecodes(ls: seq<Label>, hi: byte, lo: byte, s: seq<byte>)
    requires ValidLabels(ls) && hi >= 192 && lo != 0
    requires At(s, 0, LabelBytes(ls) + [hi, lo])
    requires FirstZero(s) < |s|
    ensures var n, r := |LabelBytes(ls)| + 2, NameFromBytes(s, FirstZero(s) + 1);
      && FirstZero(s) >= n
      && (s[n] == 0 ==> FirstZero(s) == n && r == Ok(Parsed(PLACEHOLDER, n)))
      && (s[n] != 0 && r.Ok? ==> r.value.used > n)
  {
    hide LabelBytes, ScanLabels, FirstZero;
    CompressedScan(ls, hi, lo, s);
  }

  lemma {:induction false} CompressedScan(ls: seq<Label>, hi: byte, lo: byte, s: seq<byte>)
    requires ValidLabels(ls) && hi >= 192 && lo != 0
    requires At(s, 0, LabelBytes(ls) + [hi, lo])
    requires FirstZero(s) < |s|
    ensures var n, z := |LabelBytes(ls)| + 2, FirstZero(s);
      && z >= n
      && (s[n] == 0 ==> z == n && ScanLabels(s, z + 1, []) == Pointer)
      && (ScanLabels(s, z + 1, []).Labels? ==> |ScanLabels(s, z + 1, []).text| > n)
  {
    hide LabelBytes, LabelText, ScanLabels, FirstZero, At, ValidLabels;
    var w, z := LabelBytes(ls), FirstZero(s);
    LabelsShape(ls);
    NoZeroInCompressed(w, hi, lo, s);
    ScanFromStart(s, z + 1, ls);
    CompressedTail(s, z + 1, LabelText(ls), hi);
  }

  lemma {:induction false} NoZeroInCompressed(w: seq<byte>, hi: byte, lo: byte, s: seq<byte>)
    requires hi != 0 && lo != 0 && forall k :: 0 <= k < |w| ==> w[k] != 0
    requires At(s, 0, w + [hi, lo])
    ensures |w| + 2 <= |s| && s[..|w|] == w && s[|w|] == hi
    ensures FirstZero(s) >= |w| + 2
    ensures |w| + 2 < |s| && s[|w| + 2] == 0 ==> FirstZero(s) == |w| + 2
  {
    AtSplit(s, 0, w, [hi, lo]);
  }

  lemma {:induction false} CompressedTail(s: seq<byte>, inLen: nat, text: seq<byte>, hi: byte)
    requires |text| + 2 < inLen <= |s| && s[|text|] == hi >= 192
    ensures hi as int + |text| > inLen ==> ScanLabels(s, inLen, text) == Pointer
    ensures ScanLabels(s, inLen, text).Labels? ==> |ScanLabels(s, inLen, text).text| > |text| + 2
  {
    var l := hi as int;
    if l + |text| <= inLen && |text| + l < |s| {
      ScanOnlyGrows(s, inLen, text + s[|text| + 1..|text| + 1 + l] + [DOT]);
    }
  }
}
