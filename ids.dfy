/**
 * Salted 32-bit IDs and 16-bit indices.
 *
 * An ID of salt `salt` for index value `v` is the 32-bit word whose low half is `v` and
 * whose high half is `(salt ^ v) | 0x8000`. The all-ones word is the null ID of every salt.
 * The salt, a type parameter in the source, is an explicit argument here. Words are
 * bounded integers; the source's bit operations are written out arithmetically, with
 * exclusive or defined bit by bit.
 */
module Ids {
  import opened Wrappers
  import opened MachineInts

  /** The null ID, for any salt. */
  const NULL_ID: u32 := 0xFFFF_FFFF

  /** `u16::MAX`, the null index. */
  const NULL_INDEX: u16 := 0xFFFF

  /** The salt of tag IDs ("ta" read little endian). */
  const TAG_SALT: u16 := 0x6174

  /** The salt of script node IDs ("sc" read little endian). */
  const SCRIPT_NODE_SALT: u16 := 0x6373

  // ---------------------------------------------------------------------------------
  // Bit operations on bounded integers.

  function Pow2(n: nat): (r: nat)
    ensures r >= 1
  {
    if n == 0 then 1 else 2 * Pow2(n - 1)
  }

  /** The two powers the 16-bit words need. */
  lemma Pow2Values()
    ensures Pow2(15) == 0x8000 && Pow2(16) == U16_LIMIT
  {
    assert Pow2(0) == 1;
    assert Pow2(1) == 2;
    assert Pow2(2) == 4;
    assert Pow2(3) == 8;
    assert Pow2(4) == 0x10;
    assert Pow2(5) == 0x20;
    assert Pow2(6) == 0x40;
    assert Pow2(7) == 0x80;
    assert Pow2(8) == 0x100;
    assert Pow2(9) == 0x200;
    assert Pow2(10) == 0x400;
    assert Pow2(11) == 0x800;
    assert Pow2(12) == 0x1000;
    assert Pow2(13) == 0x2000;
    assert Pow2(14) == 0x4000;
  }

  /** The low `n` bits of `a`, that is `a & (2^n - 1)`. */
  function Low(a: nat, n: nat): (r: nat)
    ensures r < Pow2(n)
  {
    if n == 0 then 0 else a % 2 + 2 * Low(a / 2, n - 1)
  }

  /** The exclusive or of the low `n` bits of `a` and `b`. */
  function XorBits(a: nat, b: nat, n: nat): (r: nat)
    ensures r < Pow2(n)
  {
    if n == 0 then 0
    else (if a % 2 == b % 2 then 0 else 1) + 2 * XorBits(a / 2, b / 2, n - 1)
  }

  /** `a ^ b` on `u16`. */
  function Xor16(a: u16, b: u16): u16
  {
    Pow2Values();
    XorBits(a, b, 16)
  }

  /** `h | 0x8000` on `u16`: the top bit set, the others kept. */
  function SetTopBit(h: u16): (r: u16)
    ensures r == 0x8000 + h % 0x8000
  {
    if h >= 0x8000 then h else h + 0x8000
  }

  /** `x as u16`: the low 16 bits. */
  function TruncateU16(x: nat): (r: u16)
    ensures x < U16_LIMIT ==> r == x
  {
    x % U16_LIMIT
  }

  lemma ModUnique(a: int, p: int, q: int, r: int)
    requires p > 0 && 0 <= r < p && a == p * q + r
    ensures a % p == r && a / p == q
  {
    var q' := a / p;
    if q' > q {
      MulMonotone(p, q + 1, q');
      assert false;
    } else if q' < q {
      MulMonotone(p, q' + 1, q);
      assert false;
    }
  }

  lemma MulMonotone(p: int, x: int, y: int)
    requires p >= 0 && x <= y
    ensures p * x <= p * y
  {
    assert p * y - p * x == p * (y - x);
  }

  /** Splitting off the lowest bit, then dividing by `p`. */
  lemma HalfDecomposition(a: nat, p: nat)
    requires p > 0
    ensures a == (2 * p) * ((a / 2) / p) + (2 * ((a / 2) % p) + a % 2)
    ensures 0 <= 2 * ((a / 2) % p) + a % 2 < 2 * p
  {
    var h := a / 2;
    var q := h / p;
    assert h == p * q + h % p;
    assert (2 * p) * q == 2 * (p * q);
  }

  /** The low `n` bits are the remainder modulo `2^n`. */
  lemma {:induction false} LowIsMod(a: nat, n: nat)
    ensures Low(a, n) == a % Pow2(n)
  {
    if n > 0 {
      var p := Pow2(n - 1);
      LowIsMod(a / 2, n - 1);
      HalfDecomposition(a, p);
      ModUnique(a, 2 * p, (a / 2) / p, 2 * ((a / 2) % p) + a % 2);
    }
  }

  /** A value below `2^n` is its own low `n` bits. */
  lemma {:induction false} LowOfSmall(a: nat, n: nat)
    requires a < Pow2(n)
    ensures Low(a, n) == a
  {
    if n > 0 {
      LowOfSmall(a / 2, n - 1);
    }
  }

  /** Exclusive or is commutative. */
  lemma {:induction false} XorBitsComm(a: nat, b: nat, n: nat)
    ensures XorBits(a, b, n) == XorBits(b, a, n)
  {
    if n > 0 {
      XorBitsComm(a / 2, b / 2, n - 1);
    }
  }

  /** Exclusive or with zero keeps the low bits. */
  lemma {:induction false} XorBitsZero(a: nat, n: nat)
    ensures XorBits(a, 0, n) == Low(a, n)
  {
    if n > 0 {
      XorBitsZero(a / 2, n - 1);
    }
  }

  /** Exclusive or twice with the same operand gives back the low bits. */
  lemma {:induction false} XorBitsInvolution(a: nat, b: nat, n: nat)
    ensures XorBits(XorBits(a, b, n), b, n) == Low(a, n)
  {
    if n > 0 {
      XorBitsInvolution(a / 2, b / 2, n - 1);
    }
  }

  /** Only the low `n` bits of an operand take part. */
  lemma {:induction false} XorBitsLowArg(a: nat, b: nat, n: nat)
    ensures XorBits(a, b, n) == XorBits(Low(a, n), b, n)
  {
    if n > 0 {
      XorBitsLowArg(a / 2, b / 2, n - 1);
    }
  }

  /** The low `k` bits of an exclusive or over `n >= k` bits are the exclusive or over `k` bits. */
  lemma {:induction false} LowOfXorBits(a: nat, b: nat, n: nat, k: nat)
    requires k <= n
    ensures Low(XorBits(a, b, n), k) == XorBits(a, b, k)
  {
    if k > 0 {
      LowOfXorBits(a / 2, b / 2, n - 1, k - 1);
    }
  }

  /** Below bit 15, `a ^ v` and `b ^ v` agree exactly when `a` and `b` do. */
  lemma XorLowAgreement(a: nat, b: nat, v: nat)
    ensures XorBits(a, v, 15) == XorBits(b, v, 15) <==> a % 0x8000 == b % 0x8000
  {
    Pow2Values();
    LowIsMod(a, 15);
    LowIsMod(b, 15);
    XorBitsInvolution(a, v, 15);
    XorBitsInvolution(b, v, 15);
    XorBitsLowArg(a, v, 15);
    XorBitsLowArg(b, v, 15);
  }

  /** The bits of `a ^ b` below bit 15 are the exclusive or of those of `a` and `b`. */
  lemma Xor16Low15(a: u16, b: u16)
    ensures Xor16(a, b) % 0x8000 == XorBits(a, b, 15)
  {
    Pow2Values();
    LowIsMod(Xor16(a, b), 15);
    LowOfXorBits(a, b, 16, 15);
  }

  // ---------------------------------------------------------------------------------
  // Index.

  /** `Index`: a 16-bit index whose all-ones value is null. */
  datatype Index = Index(value: u16)
  {
    /** `Index::is_null`. */
    predicate IsNull()
      ensures IsNull() <==> value + 1 == U16_LIMIT
    {
      value == NULL_INDEX
    }

    /** `Index::index`: the value, unless the index is null. */
    function AsUsize(): (r: Option<usize>)
      ensures r.None? <==> IsNull()
      ensures r.Some? ==> r.value == value < NULL_INDEX
    {
      if IsNull() then None else Some(value)
    }
  }

  /** `Index::new`: the null index. */
  function NewIndex(): (r: Index)
    ensures r.IsNull()
  {
    Index(NULL_INDEX)
  }

  /** `Index::from_usize`: rejects the null value and everything above it. */
  function IndexFromUsize(i: usize): (r: Option<Index>)
    ensures r.None? <==> i >= NULL_INDEX
    ensures r.Some? ==> r.value.AsUsize() == Some(i)
  {
    if i >= NULL_INDEX then None else Some(Index(TruncateU16(i)))
  }

  /** Every index that is not null comes from `Index::from_usize` of its own value. */
  lemma IndexRoundTrip(x: Index)
    requires !x.IsNull()
    ensures IndexFromUsize(x.AsUsize().value) == Some(x)
  {
  }

  // ---------------------------------------------------------------------------------
  // ID.

  /** `ID`: a salted 32-bit ID word. */
  datatype ID = ID(raw: u32)
  {
    /** `ID::as_u32`. */
    function AsU32(): (r: u32)
      ensures ID(r) == this
    {
      raw
    }

    /** `ID::is_null`. */
    predicate IsNull()
      ensures IsNull() <==> raw / U16_LIMIT == 0xFFFF && raw % U16_LIMIT == 0xFFFF
    {
      raw == NULL_ID
    }

    /** `ID::index`: the low half of the word, unless the ID is null. */
    function AsUsize(): (r: Option<usize>)
      ensures r.None? <==> IsNull()
      ensures r.Some? ==> r.value < U16_LIMIT
    {
      if raw == NULL_ID then None else Some(raw % U16_LIMIT)
    }
  }

  /** `ID::new`: the null ID. */
  function NewId(): (r: ID)
    ensures r.IsNull() && r.AsU32() == 0xFFFF_FFFF
  {
    ID(NULL_ID)
  }

  /**
   * `id_from_index_value`: the salted high half above the value. The halves do not
   * overlap, so the source's shift and or is a multiply and add.
   */
  function IdFromIndexValue(salt: u16, value: u16): (r: ID)
    ensures r.raw % U16_LIMIT == value
    ensures r.raw / U16_LIMIT == SetTopBit(Xor16(salt, value)) >= 0x8000
  {
    var r := ID(SetTopBit(Xor16(salt, value)) * U16_LIMIT + value);
    ModUnique(r.raw, U16_LIMIT, SetTopBit(Xor16(salt, value)), value);
    r
  }

  /** The high half pins down the salt below its top bit, and nothing more. */
  lemma SaltedHighEq(s1: u16, s2: u16, value: u16)
    ensures SetTopBit(Xor16(s1, value)) == SetTopBit(Xor16(s2, value)) <==> s1 % 0x8000 == s2 % 0x8000
  {
    Xor16Low15(s1, value);
    Xor16Low15(s2, value);
    XorLowAgreement(s1, s2, value);
  }

  /** The low 15 bits of the all-ones value. */
  lemma AllOnesLow15()
    ensures XorBits(0, 0xFFFF, 15) == 0x7FFF
  {
    Pow2Values();
    XorBitsComm(0, 0xFFFF, 15);
    XorBitsZero(0xFFFF, 15);
    LowIsMod(0xFFFF, 15);
  }

  /** The high half of the encoding of the all-ones value is all ones exactly for salts with no low bits set. */
  lemma AllOnesHigh(salt: u16)
    ensures SetTopBit(Xor16(salt, 0xFFFF)) == 0xFFFF <==> salt % 0x8000 == 0
  {
    Xor16Low15(salt, 0xFFFF);
    XorLowAgreement(salt, 0, 0xFFFF);
    AllOnesLow15();
  }

  /** An ID word is null exactly when both of its halves are all ones. */
  lemma NullHalves(salt: u16, value: u16)
    ensures IdFromIndexValue(salt, value).IsNull() <==> value == 0xFFFF && SetTopBit(Xor16(salt, value)) == 0xFFFF
  {
    var r := IdFromIndexValue(salt, value);
    assert r.raw == SetTopBit(Xor16(salt, value)) * U16_LIMIT + value;
  }

  /** An encoded ID is null exactly for the all-ones value under a salt with no low bits set. */
  lemma IdFromIndexValueNull(salt: u16, value: u16)
    ensures IdFromIndexValue(salt, value).IsNull() <==> value == 0xFFFF && salt % 0x8000 == 0
  {
    NullHalves(salt, value);
    AllOnesHigh(salt);
  }

  /** An encoded ID that is not null answers its value. */
  lemma IdFromIndexValueIndex(salt: u16, value: u16)
    requires !(value == 0xFFFF && salt % 0x8000 == 0)
    ensures IdFromIndexValue(salt, value).AsUsize() == Some(value)
  {
    IdFromIndexValueNull(salt, value);
  }

  /** `ID::from_index`: the null index gives the null ID, any other the ID of its value. */
  function FromIndex(salt: u16, index: Index): (r: ID)
    ensures r.IsNull() <==> index.IsNull()
    ensures r.AsUsize() == index.AsUsize()
    ensures !index.IsNull() ==> r == IdFromIndexValue(salt, index.value)
  {
    match index.AsUsize()
    case None => ID(NULL_ID)
    case Some(i) =>
      IdFromIndexValueIndex(salt, TruncateU16(i));
      IdFromIndexValue(salt, TruncateU16(i))
  }

  /**
   * `ID::from_usize`: rejects values above 16 bits. Every other value is kept, except that
   * `0xFFFF` under a salt with no low bits set encodes the null ID.
   */
  function FromUsize(salt: u16, i: usize): (r: Option<ID>)
    ensures r.None? <==> i > 0xFFFF
    ensures r.Some? && !(i == 0xFFFF && salt % 0x8000 == 0) ==> r.value.AsUsize() == Some(i)
    ensures r.Some? && i == 0xFFFF && salt % 0x8000 == 0 ==> r.value.IsNull()
  {
    if i > 0xFFFF then None
    else
      IdFromIndexValueNull(salt, TruncateU16(i));
      if i == 0xFFFF && salt % 0x8000 == 0 then Some(IdFromIndexValue(salt, TruncateU16(i)))
      else
        IdFromIndexValueIndex(salt, TruncateU16(i));
        Some(IdFromIndexValue(salt, TruncateU16(i)))
  }

  /** The words `ID::from_u32` accepts under `salt`. */
  predicate WellSalted(salt: u16, id: u32)
  {
    id == 0 || id == NULL_ID || IdFromIndexValue(salt, TruncateU16(id)).raw == id
  }

  /**
   * `ID::from_u32`: zero and the all-ones word are read as null; any other word is kept
   * exactly when re-encoding its low half under `salt` gives it back.
   */
  function FromU32(salt: u16, id: u32): (r: Option<ID>)
    ensures r.Some? <==> WellSalted(salt, id)
    ensures r.Some? && (id == 0 || id == NULL_ID) ==> r.value.IsNull()
    ensures r.Some? && id != 0 ==> r.value.AsU32() == id
  {
    if id == 0 || id == NULL_ID then Some(ID(NULL_ID))
    else
      var candidate := IdFromIndexValue(salt, TruncateU16(id));
      if candidate.AsU32() == id then Some(candidate) else None
  }

  /** Reading back an encoded ID under its own salt gives it back. */
  lemma FromU32OfEncoded(salt: u16, value: u16)
    ensures FromU32(salt, IdFromIndexValue(salt, value).AsU32()) == Some(IdFromIndexValue(salt, value))
  {
  }

  /** Every ID `ID::from_index` gives back is read back by `ID::from_u32` under the same salt. */
  lemma FromU32OfFromIndex(salt: u16, index: Index)
    ensures FromU32(salt, FromIndex(salt, index).AsU32()) == Some(FromIndex(salt, index))
  {
    if !index.IsNull() {
      FromU32OfEncoded(salt, index.value);
    }
  }

  /** Every ID `ID::from_usize` gives back is read back by `ID::from_u32` under the same salt. */
  lemma FromU32OfFromUsize(salt: u16, i: usize)
    requires i <= 0xFFFF
    ensures FromU32(salt, FromUsize(salt, i).value.AsU32()) == FromUsize(salt, i)
  {
    FromU32OfEncoded(salt, i);
  }

  /**
   * An encoded ID that is not null is refused under another salt exactly when the two
   * salts differ below the top bit.
   */
  lemma FromU32SaltMismatch(salt: u16, other: u16, value: u16)
    requires !IdFromIndexValue(salt, value).IsNull()
    ensures FromU32(other, IdFromIndexValue(salt, value).AsU32()).None? <==> salt % 0x8000 != other % 0x8000
  {
    SaltedHighEq(salt, other, value);
    var r := IdFromIndexValue(salt, value);
    var c := IdFromIndexValue(other, value);
    if salt % 0x8000 == other % 0x8000 {
      assert c == r;
    } else {
      assert c.raw / U16_LIMIT != r.raw / U16_LIMIT;
    }
  }

  /** Exclusive or with zero keeps a 16-bit word. */
  lemma Xor16Zero(a: u16)
    ensures Xor16(a, 0) == a
  {
    Pow2Values();
    XorBitsZero(a, 16);
    LowOfSmall(a, 16);
  }

  /** Words that agree below bit 15 give the same exclusive or below bit 15. */
  lemma XorBitsSecondLow(a: nat, b: nat, c: nat)
    requires b % 0x8000 == c % 0x8000
    ensures XorBits(a, b, 15) == XorBits(a, c, 15)
  {
    Pow2Values();
    XorBitsComm(a, b, 15);
    XorBitsComm(a, c, 15);
    XorBitsLowArg(b, a, 15);
    XorBitsLowArg(c, a, 15);
    LowIsMod(b, 15);
    LowIsMod(c, 15);
  }

  /** The top bit of the value does not reach the high half of the ID word. */
  lemma HighIgnoresValueTopBit(salt: u16, value: u16, other: u16)
    requires value % 0x8000 == other % 0x8000
    ensures SetTopBit(Xor16(salt, value)) == SetTopBit(Xor16(salt, other))
  {
    Xor16Low15(salt, value);
    Xor16Low15(salt, other);
    XorBitsSecondLow(salt, value, other);
  }

  /** Exclusive or with one flips the lowest bit. */
  lemma Xor16One(a: u16)
    ensures Xor16(a, 1) == if a % 2 == 0 then a + 1 else a - 1
  {
    Pow2Values();
    assert Xor16(a, 1) == (if a % 2 == 1 then 0 else 1) + 2 * XorBits(a / 2, 0, 15);
    XorBitsZero(a / 2, 15);
    LowOfSmall(a / 2, 15);
  }

  /** `TAG_SALT ^ 1`. */
  lemma TagSaltXorOne()
    ensures Xor16(TAG_SALT, 1) == 0x6175
  {
    Xor16One(TAG_SALT);
  }

  /** The high half of the tag ID of index 0. */
  lemma TagHighZero()
    ensures SetTopBit(Xor16(TAG_SALT, 0)) == 0xE174
  {
    Xor16Zero(TAG_SALT);
  }

  /** The high half of the tag ID of index 1. */
  lemma TagHighOne()
    ensures SetTopBit(Xor16(TAG_SALT, 1)) == 0xE175
  {
    TagSaltXorOne();
  }

  /** Setting the top bit of an index leaves the high half of its tag ID alone. */
  lemma TagHighTopBit(value: u16, top: u16)
    requires value < 0x8000 && top == value + 0x8000
    ensures SetTopBit(Xor16(TAG_SALT, top)) == SetTopBit(Xor16(TAG_SALT, value))
  {
    HighIgnoresValueTopBit(TAG_SALT, top, value);
  }

  /** The high half of tag IDs with an even index. */
  lemma TagHighEven()
    ensures SetTopBit(Xor16(TAG_SALT, 0)) == 0xE174
    ensures SetTopBit(Xor16(TAG_SALT, 0x8000)) == 0xE174
  {
    TagHighZero();
    TagHighTopBit(0, 0x8000);
  }

  /** The high half of tag IDs with an odd index. */
  lemma TagHighOdd()
    ensures SetTopBit(Xor16(TAG_SALT, 1)) == 0xE175
    ensures SetTopBit(Xor16(TAG_SALT, 0x8001)) == 0xE175
  {
    TagHighOne();
    TagHighTopBit(1, 0x8001);
  }

  /** The tag IDs of indices 0 and 0x8000 the source's tests expect. */
  lemma TagIdExamplesEven()
    ensures FromUsize(TAG_SALT, 0) == Some(ID(0xE174_0000))
    ensures FromUsize(TAG_SALT, 0x8000) == Some(ID(0xE174_8000))
  {
    TagHighEven();
    assert IdFromIndexValue(TAG_SALT, 0).raw == 0xE174 * U16_LIMIT;
    assert IdFromIndexValue(TAG_SALT, 0x8000).raw == 0xE174 * U16_LIMIT + 0x8000;
  }

  /** The tag IDs of indices 1 and 0x8001 the source's tests expect. */
  lemma TagIdExamplesOdd()
    ensures FromUsize(TAG_SALT, 1) == Some(ID(0xE175_0001))
    ensures FromUsize(TAG_SALT, 0x8001) == Some(ID(0xE175_8001))
  {
    TagHighOdd();
    assert IdFromIndexValue(TAG_SALT, 1).raw == 0xE175 * U16_LIMIT + 1;
    assert IdFromIndexValue(TAG_SALT, 0x8001).raw == 0xE175 * U16_LIMIT + 0x8001;
  }

  /** Further tag ID values the source's tests expect: reading back, the index path and null. */
  lemma TagIdExamples()
    ensures FromU32(TAG_SALT, 0xE175_0001) == Some(ID(0xE175_0001))
    ensures NewId().AsU32() == 0xFFFF_FFFF
    ensures FromIndex(TAG_SALT, IndexFromUsize(1).value).AsU32() == 0xE175_0001
    ensures FromU32(TAG_SALT, 0xFFFF_FFFF).value.IsNull()
    ensures FromIndex(TAG_SALT, NewIndex()).IsNull()
  {
    TagSaltXorOne();
  }
}
