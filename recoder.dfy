/**
 * The recoding buffer of src/sncRecoder.c, src/gncRecoder.c and
 * src/slncRecoder.c.  The three files run the same algorithm on their own
 * packet types (snc_packet, coded_packet, slnc_packet, all a generation id,
 * size_g coefficient bytes and size_p payload bytes): a per-generation FIFO
 * of at most `size` packets, a scheduler choosing the generation to recode
 * from, and a recoded packet that is a random combination of the buffered
 * packets of that generation, applied alike to coefficients and payload.
 *
 * The values rand() would return are parameters (`draw`, `draws`).
 */
module Recoder {
  import opened Wrappers
  import opened GaloisArith
  import opened Packets
  import opened Linear
  import opened SncEncoder

  /** Scheduling types (include/sncRecoder.h, include/gncRecoder.h, include/slncRecoder.h). */
  const TrivSched: int := 0
  const RandSched: int := 1
  const MlpiSched: int := 2

  // ---------------------------------------------------------------------
  // The per-generation FIFO
  // ---------------------------------------------------------------------

  /** t reduced once modulo size, for 0 <= t < 2 * size. */
  function Wrap(t: int, size: int): int
  {
    if t >= size then t - size else t
  }

  /** The packet has generation g, size_g coefficient bytes and size_p payload bytes. */
  predicate Fits(p: Packet, g: int, sizeG: int, sizeP: int)
  {
    p.gid == g && |p.coes| == sizeG && |p.syms| == sizeP
  }

  /** The last n packets of hist, oldest first, each as a filled slot. */
  function Latest<T>(hist: seq<T>, n: int): (r: seq<Option<T>>)
    requires 0 <= n <= |hist|
    ensures |r| == n
  {
    seq(n, i requires 0 <= i < n => Some(hist[|hist| - n + i]))
  }

  /**
   * The n filled slots read from the oldest to the newest: with the next
   * packet going to slot p, the oldest of n sits n places before it,
   * counting cyclically.
   */
  function Ages<T>(slots: seq<Option<T>>, n: int, p: int, size: int): (r: seq<Option<T>>)
    requires |slots| == size && 0 <= n <= size && 0 <= p < size
    ensures |r| == n
  {
    seq(n, a requires 0 <= a < n => slots[Wrap(p + size - n + a, size)])
  }

  /** Exactly the slots 0 .. n-1 hold a packet. */
  predicate Filled<T>(slots: seq<Option<T>>, n: int)
  {
    forall k :: 0 <= k < |slots| ==> (slots[k].Some? <==> k < n)
  }

  /**
   * The buffer of one generation after the packets `hist` arrived for it:
   * n == min(|hist|, size) slots are filled, slots 0 .. n-1; p is n while
   * the buffer is not full; and read from the oldest, the filled slots
   * are the last n packets of hist, in arrival order.
   */
  ghost predicate Fifo<T>(slots: seq<Option<T>>, n: int, p: int, size: int, hist: seq<T>)
  {
    size >= 1 && |slots| == size && 0 <= n <= size && 0 <= p < size &&
    (n < size ==> p == n) && n == (if |hist| < size then |hist| else size) &&
    Filled(slots, n) && Ages(slots, n, p, size) == Latest(hist, n)
  }

  /**
   * The index arithmetic of a store: read from the oldest after the store,
   * the newest packet is in slot p and each other one is where the
   * packet one younger (full buffer) or of the same age (otherwise) was.
   */
  lemma StoreAge(n: int, p: int, size: int, a: int, n': int, p': int)
    requires size >= 1 && 0 <= n <= size && 0 <= p < size && (n < size ==> p == n)
    requires n' == (if n == size then n else n + 1) && p' == (if p + 1 == size then 0 else p + 1)
    requires 0 <= a < n'
    ensures var k := Wrap(p' + size - n' + a, size);
      0 <= k < size && (a == n' - 1 ==> k == p) &&
      (a < n' - 1 ==> k != p && k == Wrap(p + size - n + (if n == size then a + 1 else a), size))
  {
    if n < size {
      assert Wrap(p' + size - n' + a, size) == a;
    } else if p + 1 == size {
      assert Wrap(p' + size - n' + a, size) == a;
    } else {
      assert Wrap(p' + size - n' + a, size) == Wrap(p + 1 + a, size);
    }
  }

  /** One position of FifoStore: the packet of age a after the store. */
  lemma StoreAt<T>(slots: seq<Option<T>>, n: int, p: int, size: int, hist: seq<T>, pkt: T, a: int, n': int, p': int)
    requires Fifo(slots, n, p, size, hist)
    requires n' == (if n == size then n else n + 1) && p' == (if p + 1 == size then 0 else p + 1) && 0 <= a < n'
    ensures Ages(slots[p := Some(pkt)], n', p', size)[a] == Latest(hist + [pkt], n')[a]
  {
    var s, h := slots[p := Some(pkt)], hist + [pkt];
    StoreAge(n, p, size, a, n', p');
    var k := Wrap(p' + size - n' + a, size);
    assert Ages(s, n', p', size)[a] == s[k];
    if a < n' - 1 {
      var b := if n == size then a + 1 else a;
      assert s[k] == slots[k] == Ages(slots, n, p, size)[b];
      assert Ages(slots, n, p, size)[b] == Latest(hist, n)[b] == Some(hist[|hist| - n + b]);
      assert hist[|hist| - n + b] == h[|h| - n' + a];
    } else {
      assert Latest(h, n')[a] == Some(h[|hist|]) && h[|hist|] == pkt;
    }
  }

  /**
   * Storing a packet at slot p, counting it unless the buffer is full and
   * advancing p modulo size keeps the FIFO: the new packet is the newest
   * and, when the buffer was full, the oldest one is the one overwritten.
   */
  lemma FifoStore<T>(slots: seq<Option<T>>, n: int, p: int, size: int, hist: seq<T>, pkt: T)
    requires Fifo(slots, n, p, size, hist)
    ensures Fifo(slots[p := Some(pkt)], if n == size then n else n + 1, (p + 1) % size, size, hist + [pkt])
  {
    var n', p' := if n == size then n else n + 1, (p + 1) % size;
    assert p' == if p + 1 == size then 0 else p + 1;
    StoreFilled(slots, n, p, size, hist, pkt);
    StoreAges(slots, n, p, size, hist, pkt, n', p');
  }

  /** After a store exactly the first n' slots are filled. */
  lemma StoreFilled<T>(slots: seq<Option<T>>, n: int, p: int, size: int, hist: seq<T>, pkt: T)
    requires Fifo(slots, n, p, size, hist)
    ensures Filled(slots[p := Some(pkt)], if n == size then n else n + 1)
  {
    var s := slots[p := Some(pkt)];
    forall k | 0 <= k < size
      ensures s[k].Some? <==> k < (if n == size then n else n + 1)
    {
      if k != p {
        assert s[k] == slots[k];
      }
    }
  }

  /** After a store the filled slots, read from the oldest, are the last n' packets. */
  lemma StoreAges<T>(slots: seq<Option<T>>, n: int, p: int, size: int, hist: seq<T>, pkt: T, n': int, p': int)
    requires Fifo(slots, n, p, size, hist)
    requires n' == (if n == size then n else n + 1) && p' == (if p + 1 == size then 0 else p + 1)
    ensures Ages(slots[p := Some(pkt)], n', p', size) == Latest(hist + [pkt], n')
  {
    forall a | 0 <= a < n'
      ensures Ages(slots[p := Some(pkt)], n', p', size)[a] == Latest(hist + [pkt], n')[a]
    {
      StoreAt(slots, n, p, size, hist, pkt, a, n', p');
    }
  }

  /** Filled slot k holds the packet of age Wrap(k + n - p) among the last n that arrived. */
  lemma SlotHolds<T>(slots: seq<Option<T>>, n: int, p: int, size: int, hist: seq<T>, k: int)
    requires Fifo(slots, n, p, size, hist) && 0 <= k < n
    ensures 0 <= |hist| - n + Wrap(k + n - p, size) < |hist|
    ensures slots[k] == Some(hist[|hist| - n + Wrap(k + n - p, size)])
  {
    var a := Wrap(k + n - p, size);
    assert 0 <= a < n && Wrap(p + size - n + a, size) == k;
    assert slots[k] == Ages(slots, n, p, size)[a] == Latest(hist, n)[a] == Some(hist[|hist| - n + a]);
  }

  /** A full buffer keeps its oldest packet at slot p: the one the next arrival replaces. */
  lemma FullOldestAtPn<T>(slots: seq<Option<T>>, n: int, p: int, size: int, hist: seq<T>)
    requires Fifo(slots, n, p, size, hist) && n == size
    ensures |hist| >= size && slots[p] == Some(hist[|hist| - size])
  {
    assert Wrap(p + size - n, size) == p;
    assert slots[p] == Ages(slots, n, p, size)[0] == Latest(hist, n)[0];
  }

  /** The last min(|hist|, size) packets that reached a generation are all in its buffer. */
  lemma FifoKeepsLatest<T>(slots: seq<Option<T>>, n: int, p: int, size: int, hist: seq<T>, j: int)
    requires Fifo(slots, n, p, size, hist) && |hist| - n <= j < |hist|
    ensures Some(hist[j]) in slots
  {
    var a := j - (|hist| - n);
    var k := Wrap(p + size - n + a, size);
    assert slots[k] == Ages(slots, n, p, size)[a] == Latest(hist, n)[a] == Some(hist[j]);
  }

  /** The number of generations with at least one buffered packet. */
  function CountNonEmpty(nc: seq<int>): (r: nat)
    ensures r <= |nc|
  {
    if |nc| == 0 then 0 else CountNonEmpty(nc[..|nc| - 1]) + (if nc[|nc| - 1] != 0 then 1 else 0)
  }

  /** Changing one count changes the number of non-empty generations only if it crosses zero. */
  lemma {:induction false} CountUpdate(nc: seq<int>, g: int, v: int)
    requires 0 <= g < |nc|
    ensures CountNonEmpty(nc[g := v])
         == CountNonEmpty(nc) - (if nc[g] != 0 then 1 else 0) + (if v != 0 then 1 else 0)
    decreases |nc|
  {
    var m := nc[g := v];
    var last := |nc| - 1;
    if g < last {
      assert m[..last] == nc[..last][g := v];
      CountUpdate(nc[..last], g, v);
    } else {
      assert m[..last] == nc[..last];
    }
  }

  /** All counts zero: no generation is non-empty. */
  lemma {:induction false} CountZeros(n: nat)
    ensures CountNonEmpty(seq(n, _ => 0)) == 0
  {
    if n > 0 {
      assert seq(n, _ => 0)[..n - 1] == seq(n - 1, _ => 0);
      CountZeros(n - 1);
    }
  }

  /** One more generation in the prefix adds one exactly when it is non-empty. */
  lemma CountPrefixNext(nc: seq<int>, i: int)
    requires 0 <= i < |nc|
    ensures CountNonEmpty(nc[..i + 1]) == CountNonEmpty(nc[..i]) + (if nc[i] != 0 then 1 else 0)
  {
    assert nc[..i + 1][..i] == nc[..i];
  }

  // ---------------------------------------------------------------------
  // Schedulers
  // ---------------------------------------------------------------------

  /**
   * The scan of RAND scheduling: with i counting the non-empty
   * generations passed, walk until the index-th one.  It is the
   * generation gid with nc[gid] != 0 and exactly index non-empty ones
   * before it.
   */
  method NthNonEmpty(nc: seq<int>, index: int) returns (gid: int)
    requires 0 <= index < CountNonEmpty(nc)
    ensures 0 <= gid < |nc| && nc[gid] != 0 && CountNonEmpty(nc[..gid]) == index
  {
    assert nc[..|nc|] == nc;
    var i := -1;
    var next := 0;
    while i != index
      invariant 0 <= next <= |nc| && -1 <= i <= index && i == CountNonEmpty(nc[..next]) - 1
      invariant i < index ==> next < |nc|
      invariant i == index ==> next > 0 && nc[next - 1] != 0 && CountNonEmpty(nc[..next - 1]) == index
      decreases |nc| - next
    {
      CountPrefixNext(nc, next);
      if nc[next] != 0 {
        i := i + 1;
      }
      next := next + 1;
    }
    gid := next - 1;
  }

  /** The local potential of generation g for MLPI: buffered packets not yet matched by recoded ones. */
  function Potential(nc: seq<int>, nsched: seq<int>, g: int): int
    requires 0 <= g < |nc| == |nsched|
  {
    nc[g] - nsched[g]
  }

  /** The scan of MLPI scheduling: the first generation of largest potential. */
  method MostPotential(nc: seq<int>, nsched: seq<int>) returns (gid: int)
    requires 1 <= |nc| == |nsched|
    ensures 0 <= gid < |nc|
    ensures forall j :: 0 <= j < |nc| ==> Potential(nc, nsched, j) <= Potential(nc, nsched, gid)
    ensures forall j :: 0 <= j < gid ==> Potential(nc, nsched, j) < Potential(nc, nsched, gid)
  {
    gid := 0;
    var max := nc[gid] - nsched[gid];
    var j := 0;
    while j < |nc|
      invariant 0 <= j <= |nc| && 0 <= gid < |nc| && gid <= j && max == Potential(nc, nsched, gid)
      invariant forall k :: 0 <= k < j ==> Potential(nc, nsched, k) <= max
      invariant forall k :: 0 <= k < gid ==> Potential(nc, nsched, k) < max
    {
      if nc[j] - nsched[j] > max {
        max := nc[j] - nsched[j];
        gid := j;
      }
      j := j + 1;
    }
  }

  // ---------------------------------------------------------------------
  // Recoding
  // ---------------------------------------------------------------------

  /** The coefficient drawn for buffered packet i: rand() % 256. */
  function RecodeCoefficients(draws: seq<nat>): (co: seq<bv8>)
    ensures |co| == |draws|
  {
    seq(|draws|, i requires 0 <= i < |draws| => (draws[i] % 256) as bv8)
  }

  /**
   * A packet of generation gid whose coefficients and payload are the sum
   * of co[i] times buffered packet i, for i < n, starting from zero.
   */
  function Recoded(gid: int, held: seq<Packet>, co: seq<bv8>, n: nat, sizeG: nat, sizeP: nat): (r: Packet)
    requires n <= |held| && n <= |co|
    requires forall i :: 0 <= i < n ==> |held[i].coes| == sizeG && |held[i].syms| == sizeP
    ensures r.gid == gid && |r.coes| == sizeG && |r.syms| == sizeP
  {
    if n == 0 then Packet(gid, Zeros(sizeG), Zeros(sizeP))
    else
      var r := Recoded(gid, held, co, n - 1, sizeG, sizeP);
      Packet(gid, AddScaled(r.coes, held[n - 1].coes, co[n - 1]), AddScaled(r.syms, held[n - 1].syms, co[n - 1]))
  }

  /** The recoding loop: both multiply-adds for each buffered packet in turn. */
  method CombineBuffered(gid: int, held: seq<Packet>, co: seq<bv8>, sizeG: nat, sizeP: nat) returns (pkt: Packet)
    requires |held| <= |co|
    requires forall i :: 0 <= i < |held| ==> |held[i].coes| == sizeG && |held[i].syms| == sizeP
    ensures pkt == Recoded(gid, held, co, |held|, sizeG, sizeP)
  {
    pkt := Packet(gid, Zeros(sizeG), Zeros(sizeP));
    var i := 0;
    while i < |held|
      invariant 0 <= i <= |held| && pkt == Recoded(gid, held, co, i, sizeG, sizeP)
    {
      var coes := AddScaled(pkt.coes, held[i].coes, co[i]);
      var syms := AddScaled(pkt.syms, held[i].syms, co[i]);
      pkt := Packet(gid, coes, syms);
      i := i + 1;
    }
  }

  /**
   * The packet is a coded packet of the source packets X (size_g packets of
   * size_p bytes): every payload byte is its coefficient vector times the
   * matching column of X.
   */
  ghost predicate Consistent(p: Packet, X: Matrix, sizeG: nat, sizeP: nat)
  {
    |p.coes| == sizeG && |p.syms| == sizeP && |X| == sizeG && Rect(X, sizeP) &&
    forall c :: 0 <= c < sizeP ==> Linear.Dot(p.coes, Column(X, c)) == p.syms[c]
  }

  /**
   * Recoding keeps packets decodable: combining packets that are coded
   * packets of X, with the same coefficients on both parts, gives a coded
   * packet of X.
   */
  lemma {:induction false} RecodedConsistent(gid: int, held: seq<Packet>, co: seq<bv8>, n: nat, X: Matrix, sizeG: nat, sizeP: nat)
    requires n <= |held| && n <= |co|
    requires forall i :: 0 <= i < n ==> |held[i].coes| == sizeG && |held[i].syms| == sizeP
    requires forall i :: 0 <= i < n ==> Consistent(held[i], X, sizeG, sizeP)
    requires |X| == sizeG && Rect(X, sizeP)
    ensures Consistent(Recoded(gid, held, co, n, sizeG, sizeP), X, sizeG, sizeP)
  {
    var r := Recoded(gid, held, co, n, sizeG, sizeP);
    if n == 0 {
      forall c | 0 <= c < sizeP
        ensures Linear.Dot(r.coes, Column(X, c)) == r.syms[c]
      {
        DotZero(r.coes, Column(X, c));
      }
    } else {
      var q := Recoded(gid, held, co, n - 1, sizeG, sizeP);
      RecodedConsistent(gid, held, co, n - 1, X, sizeG, sizeP);
      var b := held[n - 1];
      forall c | 0 <= c < sizeP
        ensures Linear.Dot(r.coes, Column(X, c)) == r.syms[c]
      {
        DotAddScaled(q.coes, b.coes, co[n - 1], Column(X, c));
      }
    }
  }

  /** One generation's buffer: a FIFO of the packets that reached it, all of generation g and of the meta's sizes. */
  ghost predicate GenOk(slots: seq<Option<Packet>>, n: int, p: int, size: int, hist: seq<Packet>, g: int, sizeG: int, sizeP: int)
  {
    Fifo(slots, n, p, size, hist) && forall i :: 0 <= i < |hist| ==> Fits(hist[i], g, sizeG, sizeP)
  }

  /** The state of a recoding buffer: one GenOk buffer per generation and nemp counting the non-empty ones. */
  ghost predicate BufferOk(gnum: int, size: int, sizeG: int, sizeP: int, nemp: int, gbuf: seq<seq<Option<Packet>>>,
                           nc: seq<int>, pn: seq<int>, nsched: seq<int>, received: seq<seq<Packet>>)
  {
    gnum >= 0 && size >= 1 && sizeG >= 0 && sizeP >= 0 &&
    |gbuf| == gnum && |nc| == gnum && |pn| == gnum && |nsched| == gnum && |received| == gnum &&
    nemp == CountNonEmpty(nc) &&
    forall g {:trigger GenOk(gbuf[g], nc[g], pn[g], size, received[g], g, sizeG, sizeP)} :: 0 <= g < gnum ==> GenOk(gbuf[g], nc[g], pn[g], size, received[g], g, sizeG, sizeP)
  }

  /** Buffering a packet of generation g at slot pn[g] keeps the buffer state, whichever of the three cases applies. */
  lemma BufferStore(gnum: int, size: int, sizeG: int, sizeP: int, nemp: int, gbuf: seq<seq<Option<Packet>>>,
                    nc: seq<int>, pn: seq<int>, nsched: seq<int>, received: seq<seq<Packet>>, pkt: Packet)
    requires BufferOk(gnum, size, sizeG, sizeP, nemp, gbuf, nc, pn, nsched, received)
    requires 0 <= pkt.gid < gnum && Fits(pkt, pkt.gid, sizeG, sizeP)
    ensures var g := pkt.gid;
      |gbuf[g]| == size && 0 <= pn[g] < size && (nc[g] == 0 ==> pn[g] == 0) &&
      BufferOk(gnum, size, sizeG, sizeP, nemp + (if nc[g] == 0 then 1 else 0),
               gbuf[g := gbuf[g][pn[g] := Some(pkt)]], nc[g := if nc[g] == size then size else nc[g] + 1],
               pn[g := (pn[g] + 1) % size], nsched, received[g := received[g] + [pkt]])
  {
    var g := pkt.gid;
    assert GenOk(gbuf[g], nc[g], pn[g], size, received[g], g, sizeG, sizeP);
    FifoStore(gbuf[g], nc[g], pn[g], size, received[g], pkt);
    var n := if nc[g] == size then size else nc[g] + 1;
    CountUpdate(nc, g, n);
    var gbuf', nc', pn', received' := gbuf[g := gbuf[g][pn[g] := Some(pkt)]], nc[g := n], pn[g := (pn[g] + 1) % size], received[g := received[g] + [pkt]];
    forall h | 0 <= h < gnum
      ensures GenOk(gbuf'[h], nc'[h], pn'[h], size, received'[h], h, sizeG, sizeP)
    {
      if h != g {
        assert gbuf'[h] == gbuf[h] && nc'[h] == nc[h] && pn'[h] == pn[h] && received'[h] == received[h];
      } else {
        var hist := received[g] + [pkt];
        forall i | 0 <= i < |hist|
          ensures Fits(hist[i], g, sizeG, sizeP)
        {
          if i < |received[g]| {
            assert hist[i] == received[g][i];
          }
        }
      }
    }
  }

  /**
   * The three cases of buffering into one generation: an empty buffer
   * takes the packet in slot 0 and counts one more non-empty generation,
   * a full one overwrites slot p, any other stores at p and counts it.
   */
  method Store(slots: seq<Option<Packet>>, n: int, p: int, size: int, nemp: int, pkt: Packet)
    returns (slots': seq<Option<Packet>>, n': int, nemp': int)
    requires |slots| == size && 0 <= p < size && (n == 0 ==> p == 0)
    ensures slots' == slots[p := Some(pkt)] && n' == (if n == size then size else n + 1)
    ensures nemp' == nemp + (if n == 0 then 1 else 0)
  {
    slots', n', nemp' := slots, n, nemp;
    if n == 0 {
      slots' := slots'[0 := Some(pkt)];
      n' := n' + 1;
      nemp' := nemp' + 1;
    } else if n == size {
      slots' := slots'[p := Some(pkt)];
    } else {
      slots' := slots'[p := Some(pkt)];
      n' := n' + 1;
    }
  }

  // ---------------------------------------------------------------------
  // The buffer
  // ---------------------------------------------------------------------

  /** snc_buffer / gnc_buffer / slnc_buffer, with the size_g and size_p of the meta it was created from. */
  class RecodeBuffer {
    var gnum: int
    var size: int
    var sizeG: int
    var sizeP: int
    /** nemp: the number of generations with a buffered packet. */
    var nemp: int
    /** gbuf[g][k]: the packet in slot k of generation g, None for NULL. */
    var gbuf: seq<seq<Option<Packet>>>
    var nc: seq<int>
    var pn: seq<int>
    var nsched: seq<int>
    /** Every packet buffered for generation g so far, in arrival order. */
    ghost var received: seq<seq<Packet>>

    ghost predicate Valid()
      reads this
    {
      BufferOk(gnum, size, sizeG, sizeP, nemp, gbuf, nc, pn, nsched, received)
    }

    /**
     * snc_create_buffer / create_recoding_context: gnum empty generation
     * buffers of bufsize slots, and zero counters.
     */
    constructor (gnum: nat, bufsize: int, sizeG: nat, sizeP: nat)
      requires bufsize >= 1
      ensures Valid() && this.gnum == gnum && size == bufsize && this.sizeG == sizeG && this.sizeP == sizeP
      ensures nemp == 0 && nc == seq(gnum, _ => 0) && pn == seq(gnum, _ => 0) && nsched == seq(gnum, _ => 0)
      ensures gbuf == seq(gnum, _ => seq(bufsize, _ => None)) && received == seq(gnum, _ => [])
    {
      this.gnum, size, this.sizeG, this.sizeP := gnum, bufsize, sizeG, sizeP;
      nemp := 0;
      gbuf := seq(gnum, _ => seq(bufsize, _ => None));
      nc, pn, nsched := seq(gnum, _ => 0), seq(gnum, _ => 0), seq(gnum, _ => 0);
      received := seq(gnum, _ => []);
      CountZeros(gnum);
    }

    /**
     * snc_buffer_packet / buffer_packet / slnc_buffer_packet: an empty
     * generation stores the packet in slot 0 and becomes non-empty; a full
     * one overwrites its oldest packet at pn; otherwise the packet goes to
     * pn and the count grows.  pn advances modulo size; no other
     * generation changes.
     */
    method BufferPacket(pkt: Packet)
      requires Valid() && 0 <= pkt.gid < gnum && |pkt.coes| == sizeG && |pkt.syms| == sizeP
      modifies this`gbuf, this`nc, this`pn, this`nemp, this`received
      ensures Valid()
      ensures 0 <= old(pn)[pkt.gid] < |old(gbuf)[pkt.gid]|
      ensures var g := pkt.gid;
        gbuf == old(gbuf)[g := old(gbuf)[g][old(pn)[g] := Some(pkt)]] &&
        nc == old(nc)[g := if old(nc)[g] == size then size else old(nc)[g] + 1] &&
        pn == old(pn)[g := (old(pn)[g] + 1) % size] &&
        nemp == old(nemp) + (if old(nc)[g] == 0 then 1 else 0) &&
        received == old(received)[g := old(received)[g] + [pkt]]
      ensures old(nc)[pkt.gid] == 0 ==> old(pn)[pkt.gid] == 0
    {
      var g := pkt.gid;
      BufferStore(gnum, size, sizeG, sizeP, nemp, gbuf, nc, pn, nsched, received, pkt);
      var slots, count, empties := Store(gbuf[g], nc[g], pn[g], size, nemp, pkt);
      gbuf, nc, nemp := gbuf[g := slots], nc[g := count], empties;
      pn := pn[g := (pn[g] + 1) % size];
      received := received[g := received[g] + [pkt]];
    }

    /** The packets buffered for generation g, in slot order. */
    function Held(g: int): (held: seq<Packet>)
      requires Valid() && 0 <= g < gnum
      reads this
      ensures |held| == nc[g] <= size && forall i :: 0 <= i < |held| ==> Fits(held[i], g, sizeG, sizeP)
    {
      var n, slots := nc[g], gbuf[g];
      assert GenOk(slots, n, pn[g], size, received[g], g, sizeG, sizeP);
      assert forall i :: 0 <= i < n ==> slots[i].Some? && Fits(slots[i].value, g, sizeG, sizeP) by {
        forall i | 0 <= i < n
          ensures slots[i].Some? && Fits(slots[i].value, g, sizeG, sizeP)
        {
          SlotHolds(slots, n, pn[g], size, received[g], i);
        }
      }
      seq(n, i requires 0 <= i < n => slots[i].value)
    }

    /** TRIV scheduling of src/sncRecoder.c and src/slncRecoder.c: rand() % gnum, counted in nsched. */
    method ScheduleTriv(draw: nat) returns (gid: int)
      requires Valid() && gnum >= 1
      modifies this`nsched
      ensures Valid() && 0 <= gid < gnum && gid == draw % gnum
      ensures nsched == old(nsched)[gid := old(nsched)[gid] + 1]
    {
      gid := draw % gnum;
      nsched := nsched[gid := nsched[gid] + 1];
    }

    /** RAND scheduling: -1 when every generation is empty, otherwise the (rand() % nemp)-th non-empty generation, counted in nsched. */
    method ScheduleRand(draw: nat) returns (gid: int)
      requires Valid()
      modifies this`nsched
      ensures Valid()
      ensures gid == -1 <==> nemp == 0
      ensures gid == -1 ==> nsched == old(nsched)
      ensures gid != -1 ==> 0 <= gid < gnum && nc[gid] > 0 && CountNonEmpty(nc[..gid]) == draw % nemp
      ensures gid != -1 ==> nsched == old(nsched)[gid := old(nsched)[gid] + 1]
    {
      if nemp == 0 {
        return -1;
      }
      var index := draw % nemp;
      gid := NthNonEmpty(nc, index);
      assert GenOk(gbuf[gid], nc[gid], pn[gid], size, received[gid], gid, sizeG, sizeP);
      nsched := nsched[gid := nsched[gid] + 1];
    }

    /** MLPI scheduling: the first generation of largest nc - nsched, counted in nsched. */
    method ScheduleMlpi() returns (gid: int)
      requires Valid() && gnum >= 1
      modifies this`nsched
      ensures Valid() && 0 <= gid < gnum
      ensures forall j :: 0 <= j < gnum ==> Potential(nc, old(nsched), j) <= Potential(nc, old(nsched), gid)
      ensures forall j :: 0 <= j < gid ==> Potential(nc, old(nsched), j) < Potential(nc, old(nsched), gid)
      ensures nsched == old(nsched)[gid := old(nsched)[gid] + 1]
    {
      gid := MostPotential(nc, nsched);
      nsched := nsched[gid := nsched[gid] + 1];
    }

    /**
     * schedule_recode_generation of src/sncRecoder.c and src/slncRecoder.c,
     * for the three scheduling types it handles.
     */
    method Schedule(schedT: int, draw: nat) returns (gid: int)
      requires Valid() && gnum >= 1 && (schedT == TrivSched || schedT == RandSched || schedT == MlpiSched)
      modifies this`nsched
      ensures Valid() && -1 <= gid < gnum
      ensures gid == -1 <==> schedT == RandSched && nemp == 0
      ensures schedT == TrivSched ==> gid == draw % gnum
      ensures schedT == RandSched && gid != -1 ==> nc[gid] > 0 && CountNonEmpty(nc[..gid]) == draw % nemp
      ensures schedT == MlpiSched ==> (
        (forall j :: 0 <= j < gnum ==> Potential(nc, old(nsched), j) <= Potential(nc, old(nsched), gid)) &&
        (forall j :: 0 <= j < gid ==> Potential(nc, old(nsched), j) < Potential(nc, old(nsched), gid)))
      ensures gid != -1 ==> nsched == old(nsched)[gid := old(nsched)[gid] + 1]
      ensures gid == -1 ==> nsched == old(nsched)
    {
      if schedT == TrivSched {
        gid := ScheduleTriv(draw);
      } else if schedT == RandSched {
        gid := ScheduleRand(draw);
      } else {
        gid := ScheduleMlpi();
      }
    }

    /**
     * schedule_recode_generation of src/gncRecoder.c as written: TRIV is
     * rand() % gnum without counting, RAND as above, and for any other
     * type, MLPI_SCHED included, the function ends without returning a
     * value (None here).
     */
    method ScheduleGncAsWritten(schedT: int, draw: nat) returns (gid: Option<int>)
      requires Valid() && gnum >= 1
      modifies this`nsched
      ensures Valid()
      ensures gid.None? <==> schedT != TrivSched && schedT != RandSched
      ensures schedT == MlpiSched ==> gid.None?
      ensures schedT == TrivSched ==> gid == Some(draw % gnum) && nsched == old(nsched)
    {
      if schedT == TrivSched {
        return Some(draw % gnum);
      }
      if schedT == RandSched {
        var g := ScheduleRand(draw);
        return Some(g);
      }
      return None;
    }

    /**
     * schedule_recode_generation of src/gncRecoder.c with MLPI handled as
     * the SNC and SLNC recoders handle it; TRIV stays uncounted.
     */
    method ScheduleGnc(schedT: int, draw: nat) returns (gid: int)
      requires Valid() && gnum >= 1 && (schedT == TrivSched || schedT == RandSched || schedT == MlpiSched)
      modifies this`nsched
      ensures Valid() && -1 <= gid < gnum
      ensures gid == -1 <==> schedT == RandSched && nemp == 0
      ensures schedT == TrivSched ==> gid == draw % gnum && nsched == old(nsched)
      ensures schedT == RandSched && gid != -1 ==> nc[gid] > 0 && CountNonEmpty(nc[..gid]) == draw % nemp
      ensures schedT == MlpiSched ==> (
        (forall j :: 0 <= j < gnum ==> Potential(nc, old(nsched), j) <= Potential(nc, old(nsched), gid)) &&
        (forall j :: 0 <= j < gid ==> Potential(nc, old(nsched), j) < Potential(nc, old(nsched), gid)))
      ensures schedT != TrivSched && gid != -1 ==> nsched == old(nsched)[gid := old(nsched)[gid] + 1]
      ensures gid == -1 ==> nsched == old(nsched)
    {
      if schedT == TrivSched {
        gid := draw % gnum;
      } else if schedT == RandSched {
        gid := ScheduleRand(draw);
      } else {
        gid := ScheduleMlpi();
      }
    }

    /**
     * The recoding loop for a scheduled generation: every buffered packet
     * of gid, in slot order, weighted by its drawn coefficient on both
     * coefficients and payload.
     */
    method RecodeFrom(gid: int, draws: seq<nat>) returns (pkt: Packet)
      requires Valid() && 0 <= gid < gnum && |draws| >= size
      ensures pkt == Recoded(gid, Held(gid), RecodeCoefficients(draws), nc[gid], sizeG, sizeP)
    {
      pkt := CombineBuffered(gid, Held(gid), RecodeCoefficients(draws), sizeG, sizeP);
    }

    /**
     * snc_recode_packet / slnc_generate_recoded_packet: NULL when the
     * scheduler finds nothing, otherwise the recoded packet of the
     * scheduled generation.
     */
    method RecodePacket(schedT: int, draw: nat, draws: seq<nat>) returns (pkt: Option<Packet>)
      requires Valid() && gnum >= 1 && |draws| >= size
      requires schedT == TrivSched || schedT == RandSched || schedT == MlpiSched
      modifies this`nsched
      ensures Valid()
      ensures pkt.None? <==> schedT == RandSched && nemp == 0
      ensures pkt.Some? ==> 0 <= pkt.value.gid < gnum
      ensures pkt.Some? ==>
        pkt.value == Recoded(pkt.value.gid, Held(pkt.value.gid), RecodeCoefficients(draws), nc[pkt.value.gid], sizeG, sizeP)
      ensures schedT == TrivSched ==> pkt.Some? && pkt.value.gid == draw % gnum
      ensures schedT == RandSched && pkt.Some? ==>
        nc[pkt.value.gid] > 0 && CountNonEmpty(nc[..pkt.value.gid]) == draw % nemp
      ensures schedT == MlpiSched ==> (pkt.Some? &&
        (forall j :: 0 <= j < gnum ==> Potential(nc, old(nsched), j) <= Potential(nc, old(nsched), pkt.value.gid)) &&
        (forall j :: 0 <= j < pkt.value.gid ==> Potential(nc, old(nsched), j) < Potential(nc, old(nsched), pkt.value.gid)))
      ensures pkt.None? ==> nsched == old(nsched)
      ensures pkt.Some? ==> nsched == old(nsched)[pkt.value.gid := old(nsched)[pkt.value.gid] + 1]
    {
      var gid := Schedule(schedT, draw);
      if gid == -1 {
        return None;
      }
      var p := RecodeFrom(gid, draws);
      pkt := Some(p);
    }

    /** generate_recoded_packet of src/gncRecoder.c, with ScheduleGnc. */
    method RecodeGncPacket(schedT: int, draw: nat, draws: seq<nat>) returns (pkt: Option<Packet>)
      requires Valid() && gnum >= 1 && |draws| >= size
      requires schedT == TrivSched || schedT == RandSched || schedT == MlpiSched
      modifies this`nsched
      ensures Valid()
      ensures pkt.None? <==> schedT == RandSched && nemp == 0
      ensures pkt.Some? ==> 0 <= pkt.value.gid < gnum
      ensures pkt.Some? ==>
        pkt.value == Recoded(pkt.value.gid, Held(pkt.value.gid), RecodeCoefficients(draws), nc[pkt.value.gid], sizeG, sizeP)
      ensures schedT == TrivSched ==> pkt.Some? && pkt.value.gid == draw % gnum && nsched == old(nsched)
      ensures schedT == RandSched && pkt.Some? ==>
        nc[pkt.value.gid] > 0 && CountNonEmpty(nc[..pkt.value.gid]) == draw % nemp
      ensures schedT == MlpiSched ==> (pkt.Some? &&
        (forall j :: 0 <= j < gnum ==> Potential(nc, old(nsched), j) <= Potential(nc, old(nsched), pkt.value.gid)) &&
        (forall j :: 0 <= j < pkt.value.gid ==> Potential(nc, old(nsched), j) < Potential(nc, old(nsched), pkt.value.gid)))
      ensures pkt.None? ==> nsched == old(nsched)
      ensures schedT != TrivSched && pkt.Some? ==> nsched == old(nsched)[pkt.value.gid := old(nsched)[pkt.value.gid] + 1]
    {
      var gid := ScheduleGnc(schedT, draw);
      if gid == -1 {
        return None;
      }
      var p := RecodeFrom(gid, draws);
      pkt := Some(p);
    }
  }
}
