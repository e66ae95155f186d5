/**
 Bytes, network-order integers and the outcomes shared by the whole model.

 The C code runs into undefined behaviour, failed assertions and endless loops
 on some inputs. The model never rules those inputs out: the operation returns
 `Err` with the reason.
 */
module Wire {

  newtype byte = x: int | 0 <= x < 0x100
  type u16 = x: int | 0 <= x < 0x1_0000
  type u32 = x: int | 0 <= x < 0x1_0000_0000

  datatype Option<+T> = None | Some(value: T)

  datatype Error =
    | OutOfBounds      // the C code would read or write outside a buffer
    | NullPointer      // the C code would follow a null pointer
    | Uninitialised    // the C code would use a value nobody has written
    | AssertionFailed  // assert or ERROR() ends the process
    | NeverTerminates  // a loop whose exit condition can no longer become true
    | UnknownRecord    // a lookup whose failure ends the process
    | BadName          // dns_name_from_bytes returns -1
    | IsFragment       // resource_record_from_bytes returns -3
    | NotFragment      // rrfrag_from_bytes returns -3
    | RdataTooLong     // resource_record_from_bytes returns -1

  datatype Result<+T> = Ok(value: T) | Err(error: Error) {
    predicate IsFailure() { Err? }

    function PropagateFailure<U>(): Result<U>
      requires Err?
    {
      Err(error)
    }

    function Extract(): T
      requires Ok?
    {
      value
    }
  }

  /** A parsed value together with the number of bytes it took. */
  datatype Parsed<+T> = Parsed(value: T, used: nat)

  const DOT: byte := 46
  const RRFRAG: u16 := 108

  // htons and htonl followed by memcpy, and the reverse.

  function Put16(x: u16): (s: seq<byte>)
    ensures |s| == 2
  {
    [(x / 0x100) as byte, (x % 0x100) as byte]
  }

  function Put32(x: u32): (s: seq<byte>)
    ensures |s| == 4
  {
    Put16(x / 0x1_0000) + Put16(x % 0x1_0000)
  }

  function Get16(s: seq<byte>, at: nat): u16
    requires at + 2 <= |s|
  {
    (s[at] as int) * 0x100 + s[at + 1] as int
  }

  function Get32(s: seq<byte>, at: nat): u32
    requires at + 4 <= |s|
  {
    (Get16(s, at) as int) * 0x1_0000 + Get16(s, at + 2) as int
  }

  lemma {:induction false} Get16Put16(x: u16, s: seq<byte>, at: nat)
    requires at + 2 <= |s| && s[at..at + 2] == Put16(x)
    ensures Get16(s, at) == x
  {
  }

  /** The index of the first zero byte at or after `i`, or |s| when there is none. */
  function FirstZero(s: seq<byte>, i: nat := 0): (z: nat)
    requires i <= |s|
    ensures i <= z <= |s|
    ensures z < |s| ==> s[z] == 0
    ensures forall j :: i <= j < z ==> s[j] != 0
    decreases |s| - i
  {
    if i == |s| || s[i] == 0 then i else FirstZero(s, i + 1)
  }

  lemma {:induction false} FirstZeroIs(s: seq<byte>, z: nat)
    requires z < |s| && s[z] == 0
    requires forall j :: 0 <= j < z ==> s[j] != 0
    ensures FirstZero(s) == z
  {
  }

  /** The scanning loop that the name, record and fragment parsers share. */
  method ScanToZero(s: seq<byte>) returns (z: nat)
    ensures z == FirstZero(s)
  {
    z := 0;
    while z < |s| && s[z] != 0
      invariant z <= |s|
      invariant FirstZero(s) == FirstZero(s, z)
    {
      z := z + 1;
    }
  }

  /** The copying loops (and memcpy): src goes to dst[at..]. */
  method CopyBytes(dst: array<byte>, at: nat, src: seq<byte>)
    requires at + |src| <= dst.Length
    modifies dst
    ensures dst[..at] == old(dst[..at])
    ensures dst[at..at + |src|] == src
    ensures dst[at + |src|..] == old(dst[at + |src|..])
  {
    var j := 0;
    while j < |src|
      invariant 0 <= j <= |src|
      invariant dst[..at] == old(dst[..at])
      invariant dst[at..at + j] == src[..j]
      invariant dst[at + |src|..] == old(dst[at + |src|..])
    {
      dst[at + j] := src[j];
      j := j + 1;
    }
  }

  lemma {:induction false} SubSlice<T>(s: seq<T>, at: nat, n: nat, p: nat, q: nat)
    requires at + n <= |s| && p <= q <= n
    ensures s[at..at + n][p..q] == s[at + p..at + q]
  {
    var w, l, r := s[at..at + n], s[at..at + n][p..q], s[at + p..at + q];
    forall k | 0 <= k < |l| ensures l[k] == r[k] {
      assert l[k] == w[p + k] == s[at + (p + k)];
      assert r[k] == s[(at + p) + k];
    }
    assert l == r;
  }

  /** The parts of a concatenation found at `at`. */
  lemma {:induction false} Slices<T>(s: seq<T>, at: nat, a: seq<T>, b: seq<T>, c: seq<T>)
    requires at + |a| + |b| + |c| <= |s|
    requires s[at..at + |a| + |b| + |c|] == a + b + c
    ensures s[at..at + |a|] == a
    ensures s[at + |a|..at + |a| + |b|] == b
    ensures s[at + |a| + |b|..at + |a| + |b| + |c|] == c
  {
    var n, w := |a| + |b| + |c|, a + b + c;
    SubSlice(s, at, n, 0, |a|);
    SubSlice(s, at, n, |a|, |a| + |b|);
    SubSlice(s, at, n, |a| + |b|, n);
    assert w[..|a|] == a && w[|a|..|a| + |b|] == b && w[|a| + |b|..] == c;
  }

  lemma {:induction false} Assoc<T>(a: seq<T>, b: seq<T>, c: seq<T>)
    ensures a + b + c == a + (b + c)
  {
  }

  /** memcpy(cur_pos, part, |part|); cur_pos += |part|. */
  method Emit(buf: array<byte>, curPos: nat, part: seq<byte>) returns (next: nat)
    requires curPos + |part| <= buf.Length
    modifies buf
    ensures next == curPos + |part|
    ensures buf[..next] == old(buf[..curPos]) + part
  {
    CopyBytes(buf, curPos, part);
    next := curPos + |part|;
    assert buf[..next] == buf[..curPos] + buf[curPos..next];
  }

  /** `part` sits in `s` at offset `at`. */
  ghost predicate At<T>(s: seq<T>, at: nat, part: seq<T>) {
    at + |part| <= |s| && s[at..at + |part|] == part
  }

  lemma {:induction false} AtSplit<T>(s: seq<T>, at: nat, a: seq<T>, b: seq<T>)
    requires At(s, at, a + b)
    ensures At(s, at, a) && At(s, at + |a|, b)
  {
    var none: seq<T> := [];
    assert a + b + none == a + b;
    Slices(s, at, a, b, none);
  }

  lemma {:induction false} AtFront<T>(a: seq<T>, b: seq<T>)
    ensures At(a + b, 0, a) && At(a + b, |a|, b)
  {
  }

  lemma {:induction false} AtIndex<T>(s: seq<T>, at: nat, part: seq<T>, k: nat)
    requires At(s, at, part) && k < |part|
    ensures s[at + k] == part[k]
  {
  }

  lemma {:induction false} AtGet16(s: seq<byte>, at: nat, x: u16)
    requires At(s, at, Put16(x))
    ensures Get16(s, at) == x
  {
  }

  lemma {:induction false} AtGet32(s: seq<byte>, at: nat, x: u32)
    requires At(s, at, Put32(x))
    ensures Get32(s, at) == x
  {
  }
}
