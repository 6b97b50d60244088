/**
 * `ASCIIString<LEN>`: a NUL-terminated buffer of `LEN` bytes holding printable ASCII.
 *
 * The buffer length `LEN`, a const generic in the source, is the length of the byte
 * sequence here (or an explicit argument where no buffer is given yet). A `str` argument
 * is modelled by its UTF-8 bytes.
 */
module AsciiStrings {
  import opened Wrappers
  import opened MachineInts

  /** `u8::is_ascii`. */
  predicate IsAscii(b: u8)
  {
    b < 0x80
  }

  /** `u8::is_ascii_control`: 0x00 to 0x1F and DEL. */
  predicate IsAsciiControl(b: u8)
  {
    b < 0x20 || b == 0x7F
  }

  /** The bytes a string may hold: ASCII and not a control character (so not NUL either). */
  predicate Printable(b: u8)
  {
    IsAscii(b) && !IsAsciiControl(b)
  }

  predicate AllPrintable(s: seq<u8>)
  {
    forall i :: 0 <= i < |s| ==> Printable(s[i])
  }

  function Zeros(n: nat): (r: seq<u8>)
    ensures |r| == n && forall i :: 0 <= i < n ==> r[i] == 0
  {
    seq(n, _ => 0)
  }

  /** The position of the first NUL byte, or the length when there is none. */
  function FirstNul(s: seq<u8>): (r: nat)
    ensures r <= |s|
    ensures forall i :: 0 <= i < r ==> s[i] != 0
    ensures r < |s| ==> s[r] == 0
  {
    if |s| == 0 || s[0] == 0 then 0 else 1 + FirstNul(s[1..])
  }

  datatype ASCIIString = ASCIIString(bytes: seq<u8>)
  {
    /** `string_len`: the length of the C string, up to the first NUL. */
    function StringLen(): (r: nat)
      ensures r <= |bytes|
      ensures forall i :: 0 <= i < r ==> bytes[i] != 0
      ensures r < |bytes| ==> bytes[r] == 0
    {
      FirstNul(bytes)
    }

    /** `as_str`: the text before the first NUL. */
    function AsStr(): (r: seq<u8>)
      ensures |r| <= |bytes| && r == bytes[..|r|]
      ensures forall i :: 0 <= i < |r| ==> r[i] != 0
      ensures |r| < |bytes| ==> bytes[|r|] == 0
    {
      bytes[..StringLen()]
    }

    /**
     * `ASCIIString == str` (and the mirrored `str == ASCIIString`): the text equals the
     * string. A string holding a NUL byte never equals one.
     */
    predicate EqualsStr(s: seq<u8>)
      ensures EqualsStr(s) <==> |s| == StringLen() && s == bytes[..|s|]
      ensures EqualsStr(s) ==> forall i :: 0 <= i < |s| ==> s[i] != 0
    {
      AsStr() == s
    }

    /**
     * What every constructor guarantees of a buffer of `len` bytes: printable text
     * followed by NUL bytes up to the end, the last byte among them.
     */
    predicate Valid(len: nat)
    {
      && |bytes| == len > 0
      && bytes[len - 1] == 0
      && AllPrintable(AsStr())
      && forall i :: StringLen() <= i < len ==> bytes[i] == 0
    }
  }

  /** `ASCIIString::new`: the all-zero buffer, that is the empty string. */
  function New(len: nat): (r: ASCIIString)
    requires len > 0
    ensures r.Valid(len)
    ensures r.bytes == Zeros(len) && r.StringLen() == 0 && r.EqualsStr([])
  {
    ASCIIString(Zeros(len))
  }

  /** `bytes` with everything from the first NUL on replaced by NUL. */
  function ZeroTail(b: seq<u8>): (r: seq<u8>)
    ensures |r| == |b|
    ensures forall i :: 0 <= i < FirstNul(b) ==> r[i] == b[i]
    ensures forall i :: FirstNul(b) <= i < |b| ==> r[i] == 0
  {
    b[..FirstNul(b)] + Zeros(|b| - FirstNul(b))
  }

  /**
   * `ASCIIString::from_bytes`: refused unless the last byte is NUL and every byte before the
   * first NUL is printable; accepted buffers have their tail after the first NUL zeroed.
   */
  function FromBytesSpec(b: seq<u8>): Option<ASCIIString>
    requires |b| > 0
  {
    if b[|b| - 1] != 0 then None
    else if !AllPrintable(b[..FirstNul(b)]) then None
    else Some(ASCIIString(ZeroTail(b)))
  }

  /** `ASCIIString::from_bytes`, walking the buffer in place as the source does. */
  method FromBytes(input: seq<u8>) returns (r: Option<ASCIIString>)
    requires |input| > 0
    ensures r == FromBytesSpec(input)
  {
    var len := |input|;
    var bytes := new u8[len](i => if 0 <= i < len then input[i] else 0);
    assert bytes[..] == input;
    if bytes[len - 1] != 0 {
      return None;
    }
    ghost var n := FirstNul(input);
    var q := 0;
    while q < len
      invariant 0 <= q <= n
      invariant bytes[..] == input
      invariant forall i :: 0 <= i < q ==> Printable(input[i])
    {
      var byte := bytes[q];
      if byte == 0 {
        q := q + 1;
        while q < len
          invariant n < q <= len
          invariant forall i :: 0 <= i < len ==> bytes[i] == if i < q then ZeroTail(input)[i] else input[i]
        {
          bytes[q] := 0;
          q := q + 1;
        }
        assert AllPrintable(input[..n]);
        break;
      }
      if !IsAscii(byte) || IsAsciiControl(byte) {
        assert input[..n][q] == byte;
        return None;
      }
      q := q + 1;
    }
    assert bytes[..] == ZeroTail(input);
    return Some(ASCIIString(bytes[..]));
  }

  /** `ASCIIString::from_str`: refused when too long, otherwise the zero-padded bytes. */
  function FromStrSpec(s: seq<u8>, len: nat): Option<ASCIIString>
    requires len > 0
  {
    if |s| >= len then None else FromBytesSpec(s + Zeros(len - |s|))
  }

  /** `ASCIIString::from_str`, filling a fresh zeroed buffer as the source does. */
  method FromStr(s: seq<u8>, len: nat) returns (r: Option<ASCIIString>)
    requires len > 0
    ensures r == FromStrSpec(s, len)
  {
    if |s| >= len {
      return None;
    }
    var bytes := new u8[len](_ => 0);
    var q := 0;
    while q < |s|
      invariant 0 <= q <= |s|
      invariant forall i :: 0 <= i < len ==> bytes[i] == if i < q then s[i] else 0
    {
      bytes[q] := s[q];
      q := q + 1;
    }
    assert bytes[..] == s + Zeros(len - |s|);
    r := FromBytes(bytes[..]);
  }

  // ---------------------------------------------------------------------------------
  // Properties.

  /** `from_bytes` refuses exactly the buffers without a final NUL or with a bad byte before the first NUL. */
  lemma FromBytesNoneIff(b: seq<u8>)
    requires |b| > 0
    ensures FromBytesSpec(b).None? <==>
      b[|b| - 1] != 0 || exists i :: 0 <= i < FirstNul(b) && !Printable(b[i])
  {
    if exists i :: 0 <= i < FirstNul(b) && !Printable(b[i]) {
      var i :| 0 <= i < FirstNul(b) && !Printable(b[i]);
      assert b[..FirstNul(b)][i] == b[i];
    }
  }

  /** An accepted buffer keeps its text and has every byte from the first NUL on zeroed. */
  lemma FromBytesKeepsText(b: seq<u8>)
    requires |b| > 0 && FromBytesSpec(b).Some?
    ensures FromBytesSpec(b).value.Valid(|b|)
    ensures FromBytesSpec(b).value.StringLen() == FirstNul(b) < |b|
    ensures FromBytesSpec(b).value.AsStr() == b[..FirstNul(b)]
    ensures forall i :: FirstNul(b) <= i < |b| ==> FromBytesSpec(b).value.bytes[i] == 0
  {
    var x := FromBytesSpec(b).value;
    var n := FirstNul(b);
    assert x.bytes[..n] == b[..n];
    FirstNulOfZeroTail(b);
  }

  lemma FirstNulOfZeroTail(b: seq<u8>)
    requires 0 < |b| && b[|b| - 1] == 0
    ensures FirstNul(ZeroTail(b)) == FirstNul(b)
  {
    var n := FirstNul(b);
    FirstNulAt(ZeroTail(b), n);
  }

  /** The first NUL is where every earlier byte is not NUL and the byte itself is. */
  lemma {:induction false} FirstNulAt(s: seq<u8>, n: nat)
    requires n < |s| && s[n] == 0
    requires forall i :: 0 <= i < n ==> s[i] != 0
    ensures FirstNul(s) == n
  {
    if n > 0 {
      FirstNulAt(s[1..], n - 1);
    }
  }

  /** The valid strings are exactly the buffers `from_bytes` accepts unchanged. */
  lemma FromBytesFixedPoints(x: ASCIIString, len: nat)
    requires |x.bytes| == len > 0
    ensures FromBytesSpec(x.bytes) == Some(x) <==> x.Valid(len)
  {
    if x.Valid(len) {
      assert ZeroTail(x.bytes) == x.bytes;
    }
    if FromBytesSpec(x.bytes) == Some(x) {
      FromBytesKeepsText(x.bytes);
    }
  }

  /** `from_bytes` is idempotent: it accepts its own output unchanged. */
  lemma FromBytesIdempotent(b: seq<u8>)
    requires |b| > 0 && FromBytesSpec(b).Some?
    ensures FromBytesSpec(FromBytesSpec(b).value.bytes) == FromBytesSpec(b)
  {
    FromBytesKeepsText(b);
    FromBytesFixedPoints(FromBytesSpec(b).value, |b|);
  }

  lemma PaddedBytes(s: seq<u8>, len: nat, p: seq<u8>)
    requires |s| < len && p == s + Zeros(len - |s|)
    ensures |p| == len
    ensures forall i :: 0 <= i < |s| ==> p[i] == s[i]
    ensures forall i :: |s| <= i < len ==> p[i] == 0
  {
  }

  lemma FirstNulOfPadded(s: seq<u8>, len: nat)
    requires |s| < len
    ensures FirstNul(s + Zeros(len - |s|)) == FirstNul(s)
    ensures (s + Zeros(len - |s|))[..FirstNul(s)] == s[..FirstNul(s)]
  {
    var p := s + Zeros(len - |s|);
    PaddedBytes(s, len, p);
    FirstNulAt(p, FirstNul(s));
    assert p[..FirstNul(s)] == s[..FirstNul(s)];
  }

  /**
   * `from_str` refuses a string exactly when it does not fit below the buffer length or has
   * a bad byte before its first NUL; otherwise it keeps the text up to that NUL.
   */
  lemma FromStrResult(s: seq<u8>, len: nat)
    requires len > 0
    ensures FromStrSpec(s, len).None? <==> |s| >= len || !AllPrintable(s[..FirstNul(s)])
    ensures FromStrSpec(s, len).Some? ==>
      FromStrSpec(s, len).value.Valid(len) && FromStrSpec(s, len).value.EqualsStr(s[..FirstNul(s)])
  {
    if |s| < len {
      var p := s + Zeros(len - |s|);
      FirstNulOfPadded(s, len);
      if FromBytesSpec(p).Some? {
        FromBytesKeepsText(p);
      }
    }
  }

  /** A printable string that fits is stored exactly. */
  lemma FromStrPrintable(s: seq<u8>, len: nat)
    requires |s| < len && AllPrintable(s)
    ensures FromStrSpec(s, len).Some? && FromStrSpec(s, len).value.EqualsStr(s)
  {
    assert FirstNul(s) == |s| by {
      if FirstNul(s) < |s| {
        assert false;
      }
    }
    assert s[..|s|] == s;
    FromStrResult(s, len);
  }

  /** The examples of the source's tests for `String32`. */
  lemma String32Examples()
    ensures New(32).EqualsStr([])
    ensures FromStrSpec(THIS_IS_A_STRING, 32).Some?
    ensures FromStrSpec(THIS_IS_A_STRING, 32).value.EqualsStr(THIS_IS_A_STRING)
  {
    FromStrPrintable(THIS_IS_A_STRING, 32);
  }

  /** "this is a string" in ASCII. */
  const THIS_IS_A_STRING: seq<u8> :=
    [0x74, 0x68, 0x69, 0x73, 0x20, 0x69, 0x73, 0x20, 0x61, 0x20, 0x73, 0x74, 0x72, 0x69, 0x6E, 0x67]
}
