/**
 * The older table-driven field (galois.c at the repository root).
 *
 * The table builders are the same walk and the same row filling as in
 * src/galois.c, so the builders of module Galois are reused.  Three things
 * differ: constructField guards itself with a function-local static that
 * shadows the file-level flag (so GFConstructed never reports 1),
 * galois_multiply has no short-cut for 1, and galois_divide has no
 * short-cut for a divisor of 1.
 */
module GaloisLegacy {
  import opened GaloisArith
  import opened Galois
  import opened GaloisPrimitive

  /** The static state of galois.c. */
  class LegacyField {
    /** The file-level `constructed`, the one GFConstructed reads. */
    var constructed: bool
    /** The function-local `static int constructed` of constructField. */
    var builtOnce: bool
    var log: seq<bv8>
    var ilog: seq<bv8>
    var mult: seq<bv8>
    var divi: seq<bv8>

    ghost predicate Sized()
      reads this
    {
      |log| == Size && |ilog| == Size && |mult| == TableSize && |divi| == TableSize
    }

    /** The tables describe GF(2^8) with generator x. */
    ghost predicate Valid()
      reads this
    {
      Sized() && PowersDistinct() && LogTablesValid(log, ilog) && ProductTablesBuilt(log, ilog, mult, divi)
    }

    constructor ()
      ensures Sized() && !constructed && !builtOnce
    {
      constructed := false;
      builtOnce := false;
      log := seq(Size, _ => 0);
      ilog := seq(Size, _ => 0);
      mult := seq(TableSize, _ => 0);
      divi := seq(TableSize, _ => 0);
    }

    /** GFConstructed: reports the file-level flag. */
    function GFConstructed(): (r: int)
      reads this
      ensures r == 1 <==> constructed
      ensures r == 0 <==> !constructed
    {
      if constructed then 1 else 0
    }

    /**
     * constructField: the tables are built on the first call only, guarded
     * by the local static; the file-level flag is never written.
     */
    method ConstructField(order: int) returns (ok: bool)
      requires Sized()
      modifies this
      ensures Sized() && constructed == old(constructed)
      ensures old(builtOnce) ==> ok && unchanged(this)
      ensures !old(builtOnce) && ok ==> builtOnce && ProductTablesBuilt(log, ilog, mult, divi)
      ensures !old(builtOnce) && order == Power ==> ok && Valid()
    {
      if builtOnce {
        return true;
      }
      PowersAreDistinct();
      var l, il, mt, dt;
      ok, l, il, mt, dt := CreateMultTable(order, log, ilog, mult, divi);
      log, ilog, mult, divi := l, il, mt, dt;
      if ok {
        builtOnce := true;
      }
    }

    /** galois_multiply: 0 if either operand is 0, otherwise the table entry at (a << 8) | b. */
    function Multiply(a: bv8, b: bv8): (r: bv8)
      reads this
      requires Sized()
      ensures a == 0 || b == 0 ==> r == 0
      ensures Valid() ==> r == Mul(a, b)
    {
      if a == 0 || b == 0 then LegacyTableProduct(a, b); ZeroColumn(a, b); 0
      else
        LegacyTableProduct(a, b);
        mult[a as int * 256 + b as int]
    }

    /** galois_divide: 255 (the C -1) for a zero divisor, 0 for a zero dividend, else the table. */
    function Divide(a: bv8, b: bv8): (r: bv8)
      reads this
      requires Sized()
      ensures b == 0 ==> r == 255
      ensures b != 0 && a == 0 ==> r == 0
      ensures Valid() && b != 0 ==> Mul(r, b) == a
    {
      if b == 0 then 255
      else if a == 0 then (LegacyZero(b); 0)
      else
        LegacyTableQuotient(a, b);
        divi[a as int * 256 + b as int]
    }

    /** galois_divide computes the field quotient, 255 for a zero divisor included. */
    lemma DivideIsDiv(a: bv8, b: bv8)
      requires Sized()
      ensures Valid() ==> Divide(a, b) == Div(a, b)
    {
      if Valid() && b != 0 {
        DivUnique(a, b, Divide(a, b));
      }
    }

    lemma LegacyZero(b: bv8)
      ensures Valid() ==> Mul(0, b) == 0
    {
    }

    lemma ZeroColumn(a: bv8, b: bv8)
      requires a == 0 || b == 0
      ensures Valid() ==> Mul(a, b) == 0
    {
      if Valid() {
        MulZero(a);
        MulZero(b);
      }
    }

    lemma LegacyTableProduct(a: bv8, b: bv8)
      requires Sized()
      ensures Valid() ==> mult[a as int * 256 + b as int] == Mul(a, b)
    {
      if Valid() {
        TableProduct(log, ilog, mult, divi, a, b);
      }
    }

    lemma LegacyTableQuotient(a: bv8, b: bv8)
      requires Sized() && a != 0 && b != 0
      ensures Valid() ==> Mul(divi[a as int * 256 + b as int], b) == a
    {
      if Valid() {
        TableQuotient(log, ilog, mult, divi, a, b);
      }
    }

    /** Row 0 and column 0 of the product table are 0; dividing by 0 in the table gives 255. */
    lemma ZeroRowsAndColumns(x: int)
      requires Sized() && ProductTablesBuilt(log, ilog, mult, divi) && 0 <= x < Size
      ensures mult[x] == 0 && mult[x * 256] == 0 && divi[x * 256] == 255
    {
      TableAt(log, ilog, mult, divi, 0, x);
      TableAt(log, ilog, mult, divi, x, 0);
    }

    /**
     * galois_multiply_add_region: a no-op for multiplier 0, a plain XOR for
     * 1, otherwise XOR of the table products; only dst[off .. off + bytes]
     * changes.
     */
    method MultiplyAddRegion(dst: array<bv8>, off: nat, src: seq<bv8>, multiplier: bv8, bytes: nat)
      requires Valid() && off + bytes <= dst.Length && bytes <= |src|
      modifies dst
      ensures dst[..off] == old(dst[..off]) && dst[off + bytes..] == old(dst[off + bytes..])
      ensures dst[off..off + bytes] == AddScaled(old(dst[off..off + bytes]), src, multiplier)
    {
      if multiplier == 0 {
        forall k | 0 <= k < bytes {
          MulZero(src[k]);
        }
        return;
      }
      var i := 0;
      while i < bytes
        invariant 0 <= i <= bytes
        invariant forall k :: 0 <= k < dst.Length && !(off <= k < off + i) ==> dst[k] == old(dst[k])
        invariant forall k :: off <= k < off + i ==> dst[k] == Add(old(dst[k]), Mul(src[k - off], multiplier))
      {
        if multiplier == 1 {
          MulOne(src[i]);
          dst[off + i] := dst[off + i] ^ src[i];
        } else {
          var s := src[i];
          LegacyTableProduct(s, multiplier);
          IndexBound(s as int, multiplier as int);
          dst[off + i] := dst[off + i] ^ mult[s as int * 256 + multiplier as int];
        }
        i := i + 1;
      }
    }
  }

  /**
   * The shadowed flag as written: after a successful first constructField,
   * GFConstructed still answers 0.
   */
  method ShadowedFlag() returns (ok: bool, reported: int)
    ensures ok && reported == 0
  {
    var f := new LegacyField();
    ok := f.ConstructField(Power);
    reported := f.GFConstructed();
  }

  /** The same sequence against src/galois.c, where the flag is the one constructField sets. */
  method ReportedFlag() returns (ok: bool, reported: int)
    ensures ok && reported == 1
  {
    var f := new Field();
    ok := f.ConstructField(Power);
    reported := f.GFConstructed();
  }
}
