/**
 The block device under every reader: an immutable image behind a shared, mutable cursor, and a
 finite script of how the coming reads turn out.
 */
module BlockDevice {
  import opened Base

  /**
   * How one read turns out: everything there is, at most `limit` bytes, or an error, which may
   * leave anything in the caller's buffer. A device whose script has run out reports errors.
   */
  datatype Outcome = Full | Short(limit: nat) | Error(left: seq<byte>)

  /** Bytes of the image from block `lba` on that fit a buffer of `size` bytes */
  function Available(image: seq<byte>, lba: nat, size: nat): (n: nat)
    ensures n <= size && (n > 0 ==> lba * BLOCK + n <= |image|)
  {
    Max(0, Min(size, |image| - lba * BLOCK))
  }

  function Count(image: seq<byte>, lba: nat, size: nat, o: Outcome): (n: nat)
    ensures n <= Available(image, lba, size)
  {
    match o
    case Full => Available(image, lba, size)
    case Short(limit) => Min(limit, Available(image, lba, size))
    case Error(_) => 0
  }

  /** The caller's buffer after a read */
  function Transfer(image: seq<byte>, lba: nat, buf: seq<byte>, o: Outcome): (r: seq<byte>)
    ensures |r| == |buf|
  {
    if o.Error? then if |o.left| == |buf| then o.left else buf
    else
      var n := Count(image, lba, |buf|, o);
      if n == 0 then buf else image[lba * BLOCK..lba * BLOCK + n] + buf[n..]
  }

  /** How many reads something takes, if they ever end */
  datatype Cost = Finite(value: nat) | Endless

  function Plus(a: Cost, b: Cost): Cost {
    if a.Endless? || b.Endless? then Endless else Finite(a.value + b.value)
  }

  /** How the read at a place of the script turns out */
  function OutcomeAt(script: seq<Outcome>, k: nat): Outcome {
    if k < |script| then script[k] else Error([])
  }

  /** The reads from one place of the script to another all go well. */
  predicate AllFull(script: seq<Outcome>, from: nat, until: nat) {
    forall k :: from <= k < until ==> OutcomeAt(script, k).Full?
  }

  /** How many reads from one place of the script to another go wrong */
  function Faults(script: seq<Outcome>, from: nat, until: nat): nat
    decreases until
  {
    if until <= from then 0
    else Faults(script, from, until - 1) + if OutcomeAt(script, until - 1).Full? then 0 else 1
  }

  lemma {:induction false} FaultsSplit(script: seq<Outcome>, from: nat, mid: nat, until: nat)
    requires from <= mid <= until
    ensures Faults(script, from, until) == Faults(script, from, mid) + Faults(script, mid, until)
    decreases until
  {
    if mid < until {
      FaultsSplit(script, from, mid, until - 1);
    }
  }

  /** No read goes wrong exactly if all go well. */
  lemma {:induction false} FaultsCount(script: seq<Outcome>, from: nat, until: nat)
    ensures Faults(script, from, until) == 0 <==> AllFull(script, from, until)
    decreases until
  {
    if from < until {
      FaultsCount(script, from, until - 1);
      assert OutcomeAt(script, until - 1).Full? && AllFull(script, from, until - 1) ==> AllFull(script, from, until);
    }
  }

  /** Reads that all go well, and some of them */
  lemma AllFullWithin(script: seq<Outcome>, from: nat, from': nat, until': nat, until: nat)
    requires from <= from' && until' <= until && AllFull(script, from, until)
    ensures AllFull(script, from', until')
  {
  }

  /** A call that meets a fault is paid for by it. */
  lemma OneFaultMore(script: seq<Outcome>, from: nat, mid: nat, until: nat)
    requires from <= mid <= until
    ensures Faults(script, from, until) >= Faults(script, from, mid)
    ensures !AllFull(script, mid, until) ==> Faults(script, from, until) > Faults(script, from, mid)
  {
    FaultsSplit(script, from, mid, until);
    FaultsCount(script, mid, until);
  }

  class Device {
    const image: seq<byte>
    const script: seq<Outcome>
    var cursor: nat
    var served: nat

    constructor (image: seq<byte>, script: seq<Outcome>)
      ensures this.image == image && this.script == script && served == 0
    {
      this.image := image;
      this.script := script;
      cursor, served := 0, 0;
    }

    /** How the next read turns out */
    function Next(): Outcome
      reads this
    {
      OutcomeAt(script, served)
    }

    /** `read_at`: seek, then read once; short reads are passed on to the caller. */
    method ReadAt(buf: array<byte>, lba: nat) returns (r: Result<nat>)
      modifies this, buf
      ensures served == old(served) + 1
      ensures buf[..] == Transfer(image, lba, old(buf[..]), old(Next()))
      ensures r == if old(Next()).Error? then Err(Io) else Ok(Count(image, lba, buf.Length, old(Next())))
    {
      var o := Next();
      served := served + 1;
      cursor := lba * BLOCK;
      if o.Error? {
        if |o.left| == buf.Length {
          forall k | 0 <= k < buf.Length {
            buf[k] := o.left[k];
          }
        }
        return Err(Io);
      }
      var n := Count(image, lba, buf.Length, o);
      forall k | 0 <= k < n {
        buf[k] := image[cursor + k];
      }
      cursor := cursor + n;
      return Ok(n);
    }

    /** The image consists of whole blocks. */
    predicate WholeBlocks() {
      |image| % BLOCK == 0
    }

    /** No read has gone wrong since there were `before`. */
    predicate FaultFreeSince(before: nat)
      reads this
    {
      AllFull(script, before, served)
    }

    /** The same on an image of whole blocks */
    predicate CalmSince(before: nat)
      reads this
    {
      FaultFreeSince(before) && WholeBlocks()
    }

    /** The last read made since there were `before` failed. */
    predicate LastFailed(before: nat)
      reads this
    {
      served > before && OutcomeAt(script, served - 1).Error?
    }

    /** The coming reads, as many as the cost, will go well. */
    predicate Lasts(cost: Cost)
      reads this
    {
      cost.Finite? && AllFull(script, served, served + cost.value)
    }

    /** The same on an image of whole blocks */
    predicate Quiet(cost: Cost)
      reads this
    {
      Lasts(cost) && WholeBlocks()
    }

    /** Since there were `before`, at most that many reads have been made; it is endless only if one went wrong. */
    predicate SpentAtMost(before: nat, cost: Cost)
      reads this
    {
      && served >= before
      && (cost.Finite? ==> served <= before + cost.value)
      && (CalmSince(before) ==> cost.Finite?)
    }

    /**
     * At most that many, and exactly that many if none of them went wrong. So if the coming reads go
     * well, as many as that, then none has gone wrong (`LastedSince`), whatever happened before.
     */
    predicate Spent(before: nat, cost: Cost)
      reads this
    {
      && served >= before
      && (cost.Finite? ==> served <= before + cost.value)
      && (CalmSince(before) ==> cost == Finite(served - before))
    }

    /** Where the coming reads go well, those made meanwhile have gone well. */
    lemma LastedSince(before: nat, cost: Cost)
      requires cost.Finite? && AllFull(script, before, before + cost.value) && served <= before + cost.value
      ensures FaultFreeSince(before)
    {
    }
  }

  /** The contents of a whole block, if the image has it */
  function BlockAt(image: seq<byte>, lba: nat): Option<seq<byte>> {
    if (lba + 1) * BLOCK <= |image| then Some(image[lba * BLOCK..(lba + 1) * BLOCK]) else None
  }

  /** A full-length read leaves the image block in the buffer, whatever the outcome was called. */
  lemma WholeBlockRead(image: seq<byte>, lba: nat, buf: seq<byte>, o: Outcome)
    requires |buf| == BLOCK && !o.Error? && Count(image, lba, BLOCK, o) == BLOCK
    ensures BlockAt(image, lba) == Some(Transfer(image, lba, buf, o))
  {
    var at := lba * BLOCK;
    assert buf[BLOCK..] == [] && at + BLOCK == (lba + 1) * BLOCK;
    assert image[at..at + BLOCK] + [] == image[at..at + BLOCK];
  }

  /** What a read delivered is what the image holds. */
  lemma DeliveredBytes(image: seq<byte>, lba: nat, buf: seq<byte>, o: Outcome, n: nat)
    requires !o.Error? && n <= Count(image, lba, |buf|, o)
    ensures n > 0 ==>
              && lba * BLOCK + n <= |image|
              && Transfer(image, lba, buf, o)[..n] == image[lba * BLOCK..lba * BLOCK + n]
  {
  }
}
