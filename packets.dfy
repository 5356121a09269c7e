/**
 * Packets shared by the encoders, recoders and decoders: the cutting of a
 * data buffer into size_p-byte packets and its reassembly (the load loops
 * of snc_create_enc_context / create_gnc_context and snc_recover_data /
 * recover_data), and the GF(2^8) linear combinations that encode_packet
 * and perform_precoding accumulate with galois_multiply_add_region.
 */
module Packets {
  import opened GaloisArith
  import opened GaloisPrimitive
  import opened Arith

  // ---------------------------------------------------------------------
  // Cutting and reassembly
  // ---------------------------------------------------------------------

  /** n zero bytes. */
  function Zeros(n: nat): (r: seq<bv8>)
    ensures |r| == n && forall k :: 0 <= k < n ==> r[k] == 0
  {
    seq(n, _ => 0)
  }

  /** The packets laid end to end. */
  function Concat(pp: seq<seq<bv8>>): seq<bv8>
  {
    if |pp| == 0 then [] else Concat(pp[..|pp| - 1]) + pp[|pp| - 1]
  }

  /** Every packet holds exactly p bytes. */
  predicate Uniform(pp: seq<seq<bv8>>, p: nat)
  {
    forall i :: 0 <= i < |pp| ==> |pp[i]| == p
  }

  lemma ConcatSnoc(pp: seq<seq<bv8>>, x: seq<bv8>)
    ensures Concat(pp + [x]) == Concat(pp) + x
  {
    assert (pp + [x])[..|pp|] == pp;
  }

  /** n packets of p bytes lay out n * p bytes. */
  lemma {:induction false} ConcatLength(pp: seq<seq<bv8>>, p: nat)
    requires Uniform(pp, p)
    ensures |Concat(pp)| == |pp| * p
  {
    if |pp| > 0 {
      ConcatLength(pp[..|pp| - 1], p);
      assert (|pp| - 1) * p + p == |pp| * p;
    }
  }

  /** A prefix of the packets lays out a prefix of the bytes. */
  lemma {:induction false} ConcatPrefix(pp: seq<seq<bv8>>, n: nat)
    requires n <= |pp|
    ensures Concat(pp[..n]) <= Concat(pp)
    decreases |pp|
  {
    if n < |pp| {
      var front := pp[..|pp| - 1];
      assert pp[..n] == front[..n];
      ConcatPrefix(front, n);
    } else {
      assert pp[..n] == pp;
    }
  }

  /** Reading t more bytes into the next packet extends the loaded prefix. */
  lemma LoadStep(pp: seq<seq<bv8>>, data: seq<bv8>, off: nat, a: nat, t: nat, sizeP: nat)
    requires a <= off && a + t <= |data| && t <= sizeP
    requires a < off ==> a == |data|
    requires Concat(pp) == data[..a] + Zeros(off - a)
    ensures Concat(pp + [data[a..a + t] + Zeros(sizeP - t)])
         == data[..a + t] + Zeros(off + sizeP - (a + t))
  {
    ConcatSnoc(pp, data[a..a + t] + Zeros(sizeP - t));
    if a < off {
      assert data[..a + t] == data[..a];
      assert Zeros(off - a) + (data[a..a + t] + Zeros(sizeP - t)) == Zeros(off + sizeP - (a + t));
    } else {
      assert data[..a] + data[a..a + t] == data[..a + t];
    }
  }

  /** The state after loading one more packet in the load loop. */
  lemma LoadNext(pp: seq<seq<bv8>>, data: seq<bv8>, i: nat, off: nat, a: nat, sizeP: nat)
    returns (t: nat)
    requires sizeP > 0 && |pp| == i && Uniform(pp, sizeP)
    requires off == i * sizeP && a == (if off <= |data| then off else |data|)
    requires Concat(pp) == data[..a] + Zeros(off - a)
    ensures t == (if a + sizeP <= |data| then sizeP else |data| - a)
    ensures a + t <= |data| && t <= sizeP
    ensures off + sizeP == (i + 1) * sizeP
    ensures a + t == (if off + sizeP <= |data| then off + sizeP else |data|)
    ensures Uniform(pp + [data[a..a + t] + Zeros(sizeP - t)], sizeP)
    ensures Concat(pp + [data[a..a + t] + Zeros(sizeP - t)])
         == data[..a + t] + Zeros(off + sizeP - (a + t))
  {
    t := if a + sizeP <= |data| then sizeP else |data| - a;
    LoadStep(pp, data, off, a, t, sizeP);
    assert (i + 1) * sizeP == i * sizeP + sizeP;
  }

  /**
   * The load loop: snum packets of size_p bytes each; packet i takes the
   * next toread bytes of data (size_p while they last, then what is left,
   * then none) and is zero past them.
   */
  method Load(data: seq<bv8>, sizeP: nat, num: nat) returns (pp: seq<seq<bv8>>)
    requires sizeP > 0 && |data| <= num * sizeP
    ensures |pp| == num && Uniform(pp, sizeP)
    ensures Concat(pp) == data + Zeros(num * sizeP - |data|)
  {
    pp := [];
    var alread := 0;
    ghost var off := 0;
    var i := 0;
    while i < num
      invariant 0 <= i <= num && |pp| == i && Uniform(pp, sizeP)
      invariant off == i * sizeP && alread == if off <= |data| then off else |data|
      invariant Concat(pp) == data[..alread] + Zeros(off - alread)
    {
      var toread := if alread + sizeP <= |data| then sizeP else |data| - alread;
      ghost var t := LoadNext(pp, data, i, off, alread, sizeP);
      var piece := data[alread..alread + toread] + Zeros(sizeP - toread);
      pp := pp + [piece];
      alread := alread + toread;
      off := off + sizeP;
      i := i + 1;
    }
    assert data[..alread] == data;
  }

  /** Writing the first w bytes of packet pc extends the written prefix. */
  lemma RecoverStep(pp: seq<seq<bv8>>, sizeP: nat, pc: nat, data: seq<bv8>, w: nat)
    requires Uniform(pp, sizeP) && pc < |pp| && w <= sizeP
    requires |Concat(pp[..pc])| == pc * sizeP && data == Concat(pp[..pc])
    ensures |Concat(pp[..pc + 1])| == (pc + 1) * sizeP
    ensures data + pp[pc][..w] == Concat(pp[..pc + 1])[..pc * sizeP + w]
  {
    assert pp[..pc + 1] == pp[..pc] + [pp[pc]];
    ConcatSnoc(pp[..pc], pp[pc]);
    assert (pc + 1) * sizeP == pc * sizeP + sizeP;
  }

  /**
   * The recovery loop: while fewer than datasize bytes are written, the
   * next packet contributes size_p bytes, or only the bytes still missing.
   */
  method Recover(pp: seq<seq<bv8>>, sizeP: nat, datasize: nat) returns (data: seq<bv8>)
    requires sizeP > 0 && Uniform(pp, sizeP) && datasize <= |Concat(pp)|
    ensures data == Concat(pp)[..datasize]
  {
    ConcatLength(pp, sizeP);
    data := [];
    var alwrote := 0;
    var pc := 0;
    while alwrote < datasize
      invariant 0 <= pc <= |pp| && alwrote <= datasize
      invariant |Concat(pp[..pc])| == pc * sizeP && alwrote <= pc * sizeP
      invariant alwrote < datasize ==> alwrote == pc * sizeP
      invariant data == Concat(pp[..pc])[..alwrote]
      decreases datasize - alwrote
    {
      if pc == |pp| {
        MulMonotone(|pp|, pc, sizeP);
        assert false;
      }
      var towrite := if alwrote + sizeP <= datasize then sizeP else datasize - alwrote;
      RecoverStep(pp, sizeP, pc, data, towrite);
      data := data + pp[pc][..towrite];
      pc := pc + 1;
      alwrote := alwrote + towrite;
    }
    ConcatPrefix(pp, pc);
  }

  /** Recovering what was loaded gives the data back. */
  lemma RecoverLoaded(data: seq<bv8>, sizeP: nat, num: nat, pp: seq<seq<bv8>>)
    requires |data| <= num * sizeP && Concat(pp) == data + Zeros(num * sizeP - |data|)
    ensures Concat(pp)[..|data|] == data
  {
  }

  // ---------------------------------------------------------------------
  // Linear combinations
  // ---------------------------------------------------------------------

  /** Every listed packet exists and is at least n bytes long. */
  predicate Covers(pp: seq<seq<bv8>>, ids: seq<int>, n: nat)
  {
    forall i :: 0 <= i < |ids| ==> 0 <= ids[i] < |pp| && n <= |pp[ids[i]]|
  }

  /**
   * acc after galois_multiply_add_region(acc, pp[ids[i]], co[i]) for
   * i = 0 .. m - 1, in that order.
   */
  function Accumulate(acc: seq<bv8>, pp: seq<seq<bv8>>, ids: seq<int>, co: seq<bv8>, m: nat): (r: seq<bv8>)
    requires m <= |ids| && m <= |co| && Covers(pp, ids, |acc|)
    ensures |r| == |acc|
  {
    if m == 0 then acc else AddScaled(Accumulate(acc, pp, ids, co, m - 1), pp[ids[m - 1]], co[m - 1])
  }

  /** Byte k of the combination sum over i < m of co[i] * pp[ids[i]]. */
  function Dot(pp: seq<seq<bv8>>, ids: seq<int>, co: seq<bv8>, m: nat, k: nat): bv8
    requires m <= |ids| && m <= |co| && Covers(pp, ids, k + 1)
  {
    if m == 0 then 0 else Add(Dot(pp, ids, co, m - 1, k), Mul(pp[ids[m - 1]][k], co[m - 1]))
  }

  lemma XorZero(a: bv8)
    ensures Add(a, 0) == a
  {
  }

  /** One more XOR on the left is one more term on the right. */
  lemma XorStep(a: bv8, d: bv8, t: bv8, prev: bv8, r: bv8)
    requires prev == Add(a, d) && r == Add(prev, t)
    ensures r == Add(a, Add(d, t))
  {
  }

  /** The last accumulation step adds term m - 1 to byte k. */
  lemma AccumulateLast(acc: seq<bv8>, pp: seq<seq<bv8>>, ids: seq<int>, co: seq<bv8>, m: nat, k: nat)
    requires 0 < m <= |ids| && m <= |co| && Covers(pp, ids, |acc|) && k < |acc|
    ensures Accumulate(acc, pp, ids, co, m)[k]
         == Add(Accumulate(acc, pp, ids, co, m - 1)[k], Mul(pp[ids[m - 1]][k], co[m - 1]))
  {
    var prev := Accumulate(acc, pp, ids, co, m - 1);
    assert |pp[ids[m - 1]]| >= |acc|;
    assert Accumulate(acc, pp, ids, co, m) == AddScaled(prev, pp[ids[m - 1]], co[m - 1]);
  }

  /** Accumulating into acc adds the combination to each byte of acc. */
  lemma {:induction false} AccumulateAt(acc: seq<bv8>, pp: seq<seq<bv8>>, ids: seq<int>, co: seq<bv8>, m: nat, k: nat)
    requires m <= |ids| && m <= |co| && Covers(pp, ids, |acc|) && k < |acc|
    ensures Accumulate(acc, pp, ids, co, m)[k] == Add(acc[k], Dot(pp, ids, co, m, k))
  {
    if m > 0 {
      AccumulateAt(acc, pp, ids, co, m - 1, k);
      AccumulateLast(acc, pp, ids, co, m, k);
      var d := Dot(pp, ids, co, m - 1, k);
      var t := Mul(pp[ids[m - 1]][k], co[m - 1]);
      XorStep(acc[k], d, t, Accumulate(acc, pp, ids, co, m - 1)[k], Accumulate(acc, pp, ids, co, m)[k]);
      assert Dot(pp, ids, co, m, k) == Add(d, t);
    } else {
      XorZero(acc[k]);
    }
  }

  /** The unit vector with a 1 at position m, n entries long. */
  function Unit(n: nat, m: nat): (r: seq<bv8>)
    ensures |r| == n && forall i :: 0 <= i < n ==> r[i] == if i == m then 1 else 0
  {
    seq(n, i => if i == m then 1 else 0)
  }

  /** With a unit coefficient vector only the packet at position m counts. */
  lemma {:induction false} DotUnit(pp: seq<seq<bv8>>, ids: seq<int>, m: nat, n: nat, j: nat, k: nat)
    requires j <= n <= |ids| && m < n && Covers(pp, ids, k + 1)
    ensures Dot(pp, ids, Unit(n, m), j, k) == if m < j then pp[ids[m]][k] else 0
  {
    if j > 0 {
      PowersAreDistinct();
      DotUnit(pp, ids, m, n, j - 1, k);
      if j - 1 == m {
        MulOne(pp[ids[m]][k]);
      } else {
        MulZero(pp[ids[j - 1]][k]);
      }
    }
  }

  /**
   * The uncoded packet a systematic encoder sends for position m is the
   * coded packet with the unit coefficient vector: a zero accumulator
   * combined with Unit(n, m) is packet ids[m].
   */
  lemma UnitCombination(pp: seq<seq<bv8>>, ids: seq<int>, m: nat, n: nat, p: nat)
    requires m < n <= |ids| && Covers(pp, ids, p)
    ensures Accumulate(Zeros(p), pp, ids, Unit(n, m), n) == pp[ids[m]][..p]
  {
    var r := Accumulate(Zeros(p), pp, ids, Unit(n, m), n);
    forall k | 0 <= k < p
      ensures r[k] == pp[ids[m]][k]
    {
      AccumulateAt(Zeros(p), pp, ids, Unit(n, m), n, k);
      DotUnit(pp, ids, m, n, n, k);
    }
  }

  /** n coefficients equal to 1: the binary edges of the precode. */
  function Ones(n: nat): (r: seq<bv8>)
    ensures |r| == n && forall i :: 0 <= i < n ==> r[i] == 1
  {
    seq(n, _ => 1)
  }

  /**
   * A check packet built from zero by adding its neighbours satisfies the
   * parity equation: adding the neighbours once more gives zero.
   */
  lemma ParityEquation(pp: seq<seq<bv8>>, ids: seq<int>, p: nat)
    requires Covers(pp, ids, p)
    ensures Accumulate(Accumulate(Zeros(p), pp, ids, Ones(|ids|), |ids|), pp, ids, Ones(|ids|), |ids|) == Zeros(p)
  {
    var n := |ids|;
    var check := Accumulate(Zeros(p), pp, ids, Ones(n), n);
    var r := Accumulate(check, pp, ids, Ones(n), n);
    forall k | 0 <= k < p
      ensures r[k] == 0
    {
      AccumulateAt(Zeros(p), pp, ids, Ones(n), n, k);
      AccumulateAt(check, pp, ids, Ones(n), n, k);
    }
  }
}
