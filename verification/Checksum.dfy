/** csum, the IP header checksum, against section 1 of RFC 1071. */
module Checksum {
  import opened Wire

  // ----- The reference: one's complement arithmetic

  /** 16-bit addition with the carry added back in. */
  function AddOnes(a: u16, b: u16): u16 {
    if a + b < 0x1_0000 then a + b else a + b - 0xffff
  }

  /** The bytes as 16-bit words, the last one filled up with a zero byte. */
  function Words(s: seq<byte>): (ws: seq<u16>)
    ensures |ws| == (|s| + 1) / 2
  {
    if s == [] then []
    else if |s| == 1 then [(s[0] as int) * 0x100]
    else [Get16(s, 0)] + Words(s[2..])
  }

  function OnesSum(ws: seq<u16>): u16 {
    if ws == [] then 0 else AddOnes(ws[0], OnesSum(ws[1..]))
  }

  function InternetChecksum(s: seq<byte>): u16 { 0xffff - OnesSum(Words(s)) }

  // ----- The code

  function Total(ws: seq<u16>): nat {
    if ws == [] then 0 else ws[0] + Total(ws[1..])
  }

  /** The words that the loop adds up: on a little-endian machine a last odd byte
      counts as the low byte of its word. */
  function Addends(s: seq<byte>): (ws: seq<u16>)
    ensures |ws| == (|s| + 1) / 2
  {
    if s == [] then []
    else if |s| == 1 then [s[0] as int]
    else [Get16(s, 0)] + Addends(s[2..])
  }

  /** The two folds, of which the second does not mask, and the complement. */
  function FoldDown(sum: nat): u16 {
    var once := sum / 0x1_0000 + sum % 0x1_0000;
    var twice := once + once / 0x1_0000;
    0xffff - twice % 0x1_0000
  }

  function CsumOf(s: seq<byte>): u16 { FoldDown(Total(Addends(s))) }

  /** csum. With at most 65536 bytes the 32-bit sum does not overflow. */
  method Csum(s: seq<byte>) returns (answer: u16)
    requires |s| <= 0x1_0000
    ensures answer == CsumOf(s)
  {
    hide Addends, Total, Get16;
    var sum, ptr, nbytes := 0, 0, |s|;
    assert s[0..] == s;
    while nbytes > 1
      invariant 0 <= nbytes && ptr + nbytes == |s| && ptr % 2 == 0
      invariant sum + Total(Addends(s[ptr..])) == Total(Addends(s))
      invariant sum <= ptr * 0x8000
    {
      AddendsStep(s, ptr);
      sum := sum + Get16(s, ptr);
      assert sum < 0x8000_0000;
      ptr, nbytes := ptr + 2, nbytes - 2;
    }
    AddendsEnd(s, ptr);
    if nbytes == 1 {
      sum := sum + s[ptr] as int;
      assert sum < 0x8000_0000;
    }
    assert sum == Total(Addends(s));
    sum := sum / 0x1_0000 + sum % 0x1_0000;
    sum := sum + sum / 0x1_0000;
    answer := 0xffff - sum % 0x1_0000;
  }

  lemma {:induction false} AddendsStep(s: seq<byte>, ptr: nat)
    requires ptr + 2 <= |s|
    ensures Total(Addends(s[ptr..])) == Get16(s, ptr) + Total(Addends(s[ptr + 2..]))
  {
  }

  lemma {:induction false} AddendsEnd(s: seq<byte>, ptr: nat)
    requires |s| - 1 <= ptr <= |s|
    ensures Total(Addends(s[ptr..])) == if ptr < |s| then s[ptr] as int else 0
  {
  }

  // ----- They agree

  lemma {:induction false} TotalBound(ws: seq<u16>)
    ensures Total(ws) <= |ws| * 0xffff
  {
    if ws != [] {
      TotalBound(ws[1..]);
    }
  }

  /** The residue modulo 65535, in which only a sum of zero gives zero. */
  function Residue(sum: nat): (r: u16)
    ensures r == 0 <==> sum == 0
    ensures sum >= r
    ensures (sum - r) % 0xffff == 0
  {
    if sum == 0 then 0 else (sum - 1) % 0xffff + 1
  }

  lemma {:induction false} ResidueUnique(sum: nat, r: u16, k: nat)
    requires sum == r + k * 0xffff && (r == 0 <==> sum == 0)
    ensures Residue(sum) == r
  {
  }

  lemma {:induction false} OnesSumIs(ws: seq<u16>) returns (k: nat)
    ensures Total(ws) == OnesSum(ws) + k * 0xffff
    ensures OnesSum(ws) == 0 <==> Total(ws) == 0
  {
    if ws == [] {
      k := 0;
    } else {
      k := OnesSumIs(ws[1..]);
      if ws[0] + OnesSum(ws[1..]) >= 0x1_0000 {
        k := k + 1;
      }
    }
  }

  lemma {:induction false} FoldIs(sum: nat)
    requires sum <= 0x8000 * 0xffff
    ensures FoldDown(sum) == 0xffff - Residue(sum)
  {
    var hi, lo := sum / 0x1_0000, sum % 0x1_0000;
    var once := hi + lo;
    if once < 0x1_0000 {
      ResidueUnique(sum, once, hi);
    } else {
      ResidueUnique(sum, once - 0xffff, hi + 1);
    }
  }

  /** The two folds are enough, although the second does not mask its result: csum
      is the complement of the one's complement sum of what it adds up. */
  lemma {:induction false} FoldsAreEnough(s: seq<byte>)
    requires |s| <= 0x1_0000
    ensures CsumOf(s) == 0xffff - OnesSum(Addends(s))
  {
    var ws := Addends(s);
    TotalBound(ws);
    var k := OnesSumIs(ws);
    ResidueUnique(Total(ws), OnesSum(ws), k);
    FoldIs(Total(ws));
  }

  lemma {:induction false} AddendsVersusWords(s: seq<byte>)
    ensures |s| % 2 == 0 ==> Addends(s) == Words(s)
    ensures |s| % 2 == 1 ==>
      && |Addends(s)| == |Words(s)| == |s| / 2 + 1
      && Addends(s)[..|s| / 2] == Words(s)[..|s| / 2]
      && Addends(s)[|s| / 2] == s[|s| - 1] as int && Words(s)[|s| / 2] == (s[|s| - 1] as int) * 0x100
  {
    if |s| > 1 {
      AddendsVersusWords(s[2..]);
    }
  }

  lemma {:induction false} TotalLast(ws: seq<u16>)
    requires ws != []
    ensures Total(ws) == Total(ws[..|ws| - 1]) + ws[|ws| - 1]
  {
    if |ws| > 1 {
      TotalLast(ws[1..]);
      assert ws[1..][..|ws| - 2] == ws[..|ws| - 1][1..];
    }
  }

  lemma {:induction false} ResiduesDiffer(p: nat, q: nat)
    requires p < q < p + 0xffff
    ensures Residue(p) != Residue(q)
  {
  }

  lemma {:induction false} OnesSumIsResidue(ws: seq<u16>)
    ensures OnesSum(ws) == Residue(Total(ws))
  {
    var k := OnesSumIs(ws);
    ResidueUnique(Total(ws), OnesSum(ws), k);
  }

  /** csum is the Internet checksum exactly for data of even length, and for data
      whose odd last byte is zero. */
  lemma {:induction false} CsumIsInternetChecksum(s: seq<byte>)
    requires |s| <= 0x1_0000
    ensures CsumOf(s) == InternetChecksum(s) <==> |s| % 2 == 0 || s[|s| - 1] == 0
  {
    hide CsumOf, Addends, Words, OnesSum;
    AddendsVersusWords(s);
    FoldsAreEnough(s);
    if |s| % 2 == 1 {
      OddSumsDiffer(Addends(s), Words(s), |s| / 2, s[|s| - 1] as int);
    }
  }

  /** The last byte as a word, and shifted to the front of one. */
  lemma {:induction false} OddSumsDiffer(ws: seq<u16>, vs: seq<u16>, n: nat, b: u16)
    requires |ws| == |vs| == n + 1 && ws[..n] == vs[..n] && b < 0x100 && ws[n] == b && vs[n] == b * 0x100
    ensures OnesSum(ws) == OnesSum(vs) <==> b == 0
  {
    hide OnesSum, Residue, Total;
    OnesSumIsResidue(ws);
    OnesSumIsResidue(vs);
    TotalLast(ws);
    TotalLast(vs);
    if b != 0 {
      ResiduesDiffer(Total(ws), Total(vs));
    }
  }

  // ----- Checking a header

  lemma {:induction false} TotalUpdate(ws: seq<u16>, i: nat, w: u16)
    requires i < |ws|
    ensures Total(ws[i := w]) + ws[i] == Total(ws) + w
  {
    if i == 0 {
      assert ws[i := w][1..] == ws[1..];
    } else {
      TotalUpdate(ws[1..], i - 1, w);
      assert ws[i := w][1..] == ws[1..][i - 1 := w];
    }
  }

  lemma {:induction false} AddendsAt(s: seq<byte>, i: nat)
    requires |s| % 2 == 0 && 2 * i < |s|
    ensures Addends(s)[i] == Get16(s, 2 * i)
  {
    if i > 0 {
      AddendsAt(s[2..], i - 1);
    }
  }

  lemma {:induction false} AddendsUpdate(s: seq<byte>, i: nat, c: u16)
    requires |s| % 2 == 0 && 2 * i < |s|
    ensures Addends(s[..2 * i] + Put16(c) + s[2 * i + 2..]) == Addends(s)[i := c]
  {
    hide Addends, Get16, Put16;
    var s' := s[..2 * i] + Put16(c) + s[2 * i + 2..];
    assert s'[2 * i..2 * i + 2] == Put16(c);
    Get16Put16(c, s', 2 * i);
    var ws, ws' := Addends(s), Addends(s');
    forall j | 0 <= j < |ws| ensures ws'[j] == ws[i := c][j] {
      AddendsAt(s, j);
      AddendsAt(s', j);
      if j != i {
        SameWord(s, s', 2 * i, c, 2 * j);
      }
    }
  }

  lemma {:induction false} SameWord(s: seq<byte>, s': seq<byte>, at: nat, c: u16, j: nat)
    requires at + 2 <= |s| && s' == s[..at] + Put16(c) + s[at + 2..] && j + 2 <= |s| && (j + 2 <= at || at + 2 <= j)
    ensures Get16(s', j) == Get16(s, j)
  {
  }

  /** The complement of a sum, added to it, gives all ones. */
  lemma {:induction false} ComplementCancels(sum: nat)
    requires sum + 0xffff - Residue(sum) <= 0x8000 * 0xffff
    ensures FoldDown(sum + 0xffff - Residue(sum)) == 0
  {
    hide Residue, FoldDown;
    var k := (sum - Residue(sum)) / 0xffff;
    assert sum == Residue(sum) + k * 0xffff;
    var all := sum + 0xffff - Residue(sum);
    ResidueUnique(all, 0xffff, k);
    FoldIs(all);
  }

  /** A header whose checksum field is zero, with the checksum stored in network
      order, has the checksum 0. */
  lemma {:induction false} HeaderChecks(s: seq<byte>, i: nat)
    requires |s| <= 0x1_0000 && |s| % 2 == 0 && 2 * i < |s|
    requires s[2 * i] == 0 && s[2 * i + 1] == 0
    ensures CsumOf(s[..2 * i] + Put16(CsumOf(s)) + s[2 * i + 2..]) == 0
  {
    hide Addends, Total, Residue, FoldDown, Put16;
    var c, ws := CsumOf(s), Addends(s);
    AddendsUpdate(s, i, c);
    AddendsAt(s, i);
    TotalUpdate(ws, i, c);
    TotalBound(ws);
    TotalBound(ws[i := c]);
    FoldIs(Total(ws));
    ComplementCancels(Total(ws));
  }
}
