/** The heap's bitmap: one bit for each 16-byte granule, and what taking and returning runs of them does. */
module HeapBits {

  // ----- Bits in bytes

  /** 1 << k. */
  function Mask(k: nat): bv8
    requires k < 8
  {
    if k == 0 then 0x01 else if k == 1 then 0x02 else if k == 2 then 0x04 else if k == 3 then 0x08
    else if k == 4 then 0x10 else if k == 5 then 0x20 else if k == 6 then 0x40 else 0x80
  }

  /** Bit k of a byte, and the byte with it set or cleared. */
  predicate Has(b: bv8, k: nat)
    requires k < 8
  {
    b & Mask(k) != 0
  }

  function Raised(b: bv8, k: nat): bv8
    requires k < 8
  {
    b | Mask(k)
  }

  function Lowered(b: bv8, k: nat): bv8
    requires k < 8
  {
    b & !Mask(k)
  }

  lemma MaskApart(b: bv8, k: nat, j: nat)
    requires k < 8 && j < 8
    ensures Has(Raised(b, k), j) == (j == k || Has(b, j))
    ensures Has(Lowered(b, k), j) == (j != k && Has(b, j))
  {
    hide Has, Raised, Lowered;
    if k == j {
      SameBit(b, k);
    } else {
      OtherBit(b, k, j);
    }
  }

  lemma SameBit(b: bv8, k: nat)
    requires k < 8
    ensures Has(Raised(b, k), k) && !Has(Lowered(b, k), k)
  {
  }

  lemma OtherBit(b: bv8, k: nat, j: nat)
    requires k < 8 && j < 8 && k != j
    ensures Has(Raised(b, k), j) == Has(b, j) && Has(Lowered(b, k), j) == Has(b, j)
  {
    hide Mask;
    MasksApart(k, j);
    var m, n := Mask(k), Mask(j);
    OtherBits(b, m, n);
  }

  lemma MasksApart(k: nat, j: nat)
    requires k < 8 && j < 8 && k != j
    ensures Mask(k) & Mask(j) == 0
  {
  }

  lemma OtherBits(b: bv8, m: bv8, n: bv8)
    requires m & n == 0
    ensures (b | m) & n == b & n && (b & !m) & n == b & n
  {
  }

  function Bit(bytes: seq<bv8>, i: nat): bool
    requires i < 8 * |bytes|
  {
    Has(bytes[i / 8], i % 8)
  }

  function SetBit(bytes: seq<bv8>, i: nat): (m: seq<bv8>)
    requires i < 8 * |bytes|
    ensures |m| == |bytes|
  {
    bytes[i / 8 := Raised(bytes[i / 8], i % 8)]
  }

  function ClearBit(bytes: seq<bv8>, i: nat): (m: seq<bv8>)
    requires i < 8 * |bytes|
    ensures |m| == |bytes|
  {
    bytes[i / 8 := Lowered(bytes[i / 8], i % 8)]
  }

  lemma SameIndex(i: nat, j: nat)
    ensures i == j <==> i / 8 == j / 8 && i % 8 == j % 8
  {
  }

  lemma SetBitAt(bytes: seq<bv8>, i: nat, j: nat)
    requires i < 8 * |bytes| && j < 8 * |bytes|
    ensures Bit(SetBit(bytes, i), j) == (j == i || Bit(bytes, j))
    ensures Bit(ClearBit(bytes, i), j) == (j != i && Bit(bytes, j))
  {
    hide Has, Raised, Lowered;
    SameIndex(i, j);
    MaskApart(bytes[j / 8], i % 8, j % 8);
  }

  /** The first `total` bits. */
  function Bits(bytes: seq<bv8>, total: nat): (b: seq<bool>)
    requires total <= 8 * |bytes|
    ensures |b| == total
  {
    seq(total, i requires 0 <= i < total => Bit(bytes, i))
  }

  lemma SetBitBits(bytes: seq<bv8>, total: nat, i: nat)
    requires i < total <= 8 * |bytes|
    ensures Bits(SetBit(bytes, i), total) == Bits(bytes, total)[i := true]
    ensures Bits(ClearBit(bytes, i), total) == Bits(bytes, total)[i := false]
  {
    hide Bit, SetBit, ClearBit;
    forall j: nat | j < total
      ensures Bit(SetBit(bytes, i), j) == (j == i || Bit(bytes, j)) &&
              Bit(ClearBit(bytes, i), j) == (j != i && Bit(bytes, j))
    {
      SetBitAt(bytes, i, j);
    }
  }

  // ----- Runs of granules

  predicate Within(i: nat, n: nat, j: int) {
    i <= j < i + n
  }

  /** n granules from i on are free. */
  predicate Free(bits: seq<bool>, i: nat, n: nat) {
    i + n <= |bits| && forall j :: i <= j < i + n ==> !bits[j]
  }

  /** n granules from i on are all set to v, and no other changes. */
  function Marked(bits: seq<bool>, i: nat, n: nat, v: bool): (b: seq<bool>)
    requires i + n <= |bits|
    ensures |b| == |bits|
    ensures forall j :: 0 <= j < |b| ==> b[j] == if Within(i, n, j) then v else bits[j]
  {
    bits[..i] + seq(n, _ => v) + bits[i + n..]
  }

  lemma MarkedNext(bits: seq<bool>, i: nat, n: nat, v: bool)
    requires i + n < |bits|
    ensures Marked(bits, i, n + 1, v) == Marked(bits, i, n, v)[i + n := v]
  {
  }

  lemma MarkedNone(bits: seq<bool>, i: nat, v: bool)
    requires i <= |bits|
    ensures Marked(bits, i, 0, v) == bits
  {
  }

  /** Returning what was taken restores the bitmap exactly. */
  lemma ReturnUndoesTake(bits: seq<bool>, i: nat, n: nat)
    requires Free(bits, i, n)
    ensures Marked(Marked(bits, i, n, true), i, n, false) == bits
  {
    var taken := Marked(bits, i, n, true);
    forall j | 0 <= j < |bits| ensures Marked(taken, i, n, false)[j] == bits[j] {
    }
  }

  // ----- Sizes

  const GRANULE := 16
  const HEADER := 16
  const WORD := 0x1_0000_0000

  /** ALLOC_ALIGN, on 32-bit sizes. */
  function Align(size: nat): (a: nat)
    ensures a % GRANULE == 0 && a < WORD
  {
    (size + (GRANULE - 1)) % WORD / GRANULE * GRANULE
  }

  /** The granules kmalloc takes for n bytes and their header, and those kfree returns. */
  function Taken(n: nat): nat {
    (n + HEADER + (GRANULE - 1)) / GRANULE
  }

  function Returned(n: nat): nat {
    (n + HEADER) / GRANULE
  }

  /** kfree returns what kmalloc took exactly when the size is a multiple of 16; otherwise one granule less. */
  lemma TakenAndReturned(n: nat)
    ensures Returned(n) == Taken(n) <==> n % GRANULE == 0
    ensures n % GRANULE != 0 ==> Taken(n) == Returned(n) + 1
    ensures GRANULE * Taken(n) >= HEADER + n && Taken(n) >= 1
  {
  }

  /** kmalloc and then kfree of n bytes: the bitmap is restored exactly when 16 divides n; otherwise precisely
      the block's last granule stays set. */
  lemma FreeAfterAlloc(bits: seq<bool>, i: nat, n: nat)
    requires Free(bits, i, Taken(n))
    ensures i + Returned(n) <= |bits|
    ensures var after := Marked(Marked(bits, i, Taken(n), true), i, Returned(n), false);
            && (after == bits <==> n % GRANULE == 0)
            && (n % GRANULE != 0 ==> after == bits[i + Taken(n) - 1 := true])
  {
    TakenAndReturned(n);
    hide Taken, Returned;
    var taken := Marked(bits, i, Taken(n), true);
    var after := Marked(taken, i, Returned(n), false);
    if n % GRANULE == 0 {
      ReturnUndoesTake(bits, i, Taken(n));
    } else {
      var last := i + Taken(n) - 1;
      assert after[last] && !bits[last];
      forall j | 0 <= j < |bits| ensures after[j] == bits[last := true][j] {
      }
    }
  }
}
