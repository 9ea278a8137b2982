/**
  The byte layout of one 32-bit register on the bus.

  A register travels as REG_SIZE bytes, least-significant byte first, both
  when the master writes it (the slave accumulates the bytes one by one) and
  when the master reads it (the slave transmits the bytes of the value).
  `FromLE` folds such a byte sequence into a `bv32`; `ToLE` is its inverse.
 */
module LittleEndian {

  /** Width of one register in bytes (REG_SIZE in i2c_slave.h). */
  const RegSize: nat := 4

  /** A byte position inside one register: 0 is the least-significant byte. */
  type BytePos = k: nat | k < RegSize

  /** The in-memory bytes of one register value, lowest address first. */
  type Word = s: seq<bv8> | |s| == RegSize witness [0, 0, 0, 0]

  /** Byte `k` of `v`, counting from the least-significant end. */
  function ByteAt(v: bv32, k: BytePos): bv8 {
    if k == 0 then (v & 0xFF) as bv8
    else if k == 1 then ((v >> 8) & 0xFF) as bv8
    else if k == 2 then ((v >> 16) & 0xFF) as bv8
    else (v >> 24) as bv8
  }

  /** Two values with the same four bytes are the same value. */
  lemma ByteExtensionality(v: bv32, w: bv32)
    requires forall k: BytePos :: ByteAt(v, k) == ByteAt(w, k)
    ensures v == w
  {
    assert ByteAt(v, 0) == ByteAt(w, 0);
    assert ByteAt(v, 1) == ByteAt(w, 1);
    assert ByteAt(v, 2) == ByteAt(w, 2);
    assert ByteAt(v, 3) == ByteAt(w, 3);
  }

  /** Placing byte `b` below `x` shifts every byte of `x` up by one position. */
  lemma ByteAtPrepend(b: bv8, x: bv32, k: BytePos)
    ensures ByteAt((b as bv32) | (x << 8), k) == if k == 0 then b else ByteAt(x, k - 1)
  {
  }

  /**
    The little-endian value of at most REG_SIZE bytes: byte `k` of the result
    is `bs[k]`, and every byte position past the end of `bs` is zero.
   */
  function FromLE(bs: seq<bv8>): (v: bv32)
    requires |bs| <= RegSize
    ensures forall k: BytePos :: ByteAt(v, k) == if k < |bs| then bs[k] else 0
  {
    if |bs| == 0 then 0
    else
      var rest := FromLE(bs[1..]);
      var v := (bs[0] as bv32) | (rest << 8);
      forall k: BytePos ensures ByteAt(v, k) == if k < |bs| then bs[k] else 0 {
        ByteAtPrepend(bs[0], rest, k);
      }
      v
  }

  /** The REG_SIZE bytes of `v`, least-significant first; decoding them gives `v` back. */
  function ToLE(v: bv32): (bs: Word)
    ensures FromLE(bs) == v
  {
    var bs: Word := [ByteAt(v, 0), ByteAt(v, 1), ByteAt(v, 2), ByteAt(v, 3)];
    ByteExtensionality(FromLE(bs), v);
    bs
  }

  /** Encoding the value of a full word gives back the same bytes. */
  lemma ToLEFromLE(w: Word)
    ensures ToLE(FromLE(w)) == w
  {
    var bs := ToLE(FromLE(w));
    forall k: BytePos ensures bs[k] == w[k] {
      assert ByteAt(FromLE(bs), k) == ByteAt(FromLE(w), k);
    }
  }

  /** `n` zero bytes. */
  function Zeros(n: nat): (z: seq<bv8>)
    ensures |z| == n
    ensures forall i :: 0 <= i < n ==> z[i] == 0
  {
    seq(n, _ => 0)
  }

  /**
    Zero bytes appended above a short byte sequence do not change its value:
    a transfer of fewer than REG_SIZE bytes reads as zero-padded in the high bytes.
   */
  lemma ZeroPadding(bs: seq<bv8>, n: nat)
    requires |bs| + n <= RegSize
    ensures FromLE(bs + Zeros(n)) == FromLE(bs)
  {
    var padded := bs + Zeros(n);
    forall k: BytePos ensures ByteAt(FromLE(padded), k) == ByteAt(FromLE(bs), k) {
    }
    ByteExtensionality(FromLE(padded), FromLE(bs));
  }

  /** The value of `k` < REG_SIZE bytes is below 2^(8k): its high bytes are zero. */
  lemma ShortValueBound(bs: seq<bv8>)
    requires |bs| < RegSize
    ensures FromLE(bs) < (1 << (8 * |bs|))
  {
    var v := FromLE(bs);
    forall k: BytePos | |bs| <= k ensures ByteAt(v, k) == 0 {
    }
    if |bs| == 0 {
      ByteExtensionality(v, 0);
    } else if |bs| == 1 {
      assert ByteAt(v, 1) == 0 && ByteAt(v, 2) == 0 && ByteAt(v, 3) == 0;
    } else if |bs| == 2 {
      assert ByteAt(v, 2) == 0 && ByteAt(v, 3) == 0;
    } else {
      assert ByteAt(v, 3) == 0;
    }
  }
}
