/**
 Reading files through a one-block cache over the shared device.
 */
module Files {
  import opened Base
  import opened BlockDevice

  /** The buffer agrees with the image wherever the image has bytes for that block. */
  ghost predicate Agrees(image: seq<byte>, lba: nat, block: seq<byte>) {
    forall k :: 0 <= k < |block| && lba * BLOCK + k < |image| ==> block[k] == image[lba * BLOCK + k]
  }

  /** A read of a whole block that may end this way does not spoil a cache whose owner ignores the count. */
  predicate Harmless(o: Outcome) {
    match o
    case Full => true
    case Short(limit) => limit >= BLOCK
    case Error(left) => |left| != BLOCK
  }

  /** After the read the buffer agrees with the block read, or is unchanged if the read failed. */
  ghost predicate KeepsCache(image: seq<byte>, lba: nat, buf: seq<byte>, o: Outcome) {
    if o.Error? then Transfer(image, lba, buf, o) == buf else Agrees(image, lba, Transfer(image, lba, buf, o))
  }

  /** The reader ignores how many bytes a read delivered: its cache stays right exactly for these outcomes. */
  lemma HarmlessIffCacheKept(o: Outcome)
    ensures Harmless(o) <==>
              forall image: seq<byte>, lba: nat, buf: seq<byte> :: |buf| == BLOCK ==> KeepsCache(image, lba, buf, o)
  {
    if !Harmless(o) {
      if o.Short? {
        var image, buf := seq(BLOCK, _ => 1), Zeros(BLOCK);
        assert Transfer(image, 0, buf, o)[o.limit] == 0;
        assert !KeepsCache(image, 0, buf, o);
      } else {
        var buf := o.left[0 := if o.left[0] == 0 then 1 else 0];
        assert !KeepsCache([], 0, buf, o);
      }
    }
  }

  /** No read leaves a buffer half filled or scribbled over. */
  predicate Trusty(script: seq<Outcome>) {
    forall k :: 0 <= k < |script| ==> Harmless(script[k])
  }

  function ToI64(x: int): int {
    (x + 0x8000_0000_0000_0000) % 0x1_0000_0000_0000_0000 - 0x8000_0000_0000_0000
  }

  datatype SeekFrom = FromStart(offset: nat) | FromEnd(delta: int) | FromCurrent(delta: int)

  /** `seek`: 64-bit signed arithmetic, which wraps; a negative position is refused. */
  function SeekTarget(size: nat, position: nat, from: SeekFrom): int {
    match from
    case FromStart(offset) => ToI64(offset)
    case FromEnd(delta) => ToI64(size + delta)
    case FromCurrent(delta) => ToI64(position + delta)
  }

  /** A seek goes to the sum modulo 2^64, as a signed number: to the plain sum exactly when that is one. */
  lemma SeekIsExact(size: nat, position: nat, from: SeekFrom)
    ensures var sum := match from
                       case FromStart(offset) => offset
                       case FromEnd(delta) => size + delta
                       case FromCurrent(delta) => position + delta;
            var target := SeekTarget(size, position, from);
            && (target == sum <==> -0x8000_0000_0000_0000 <= sum < 0x8000_0000_0000_0000)
            && -0x8000_0000_0000_0000 <= target < 0x8000_0000_0000_0000
            && (target - sum) % 0x1_0000_0000_0000_0000 == 0
  {
  }

  /** How many bytes a read of `n` bytes at a position yields */
  function ReadCount(size: nat, position: nat, n: nat): nat {
    Max(0, Min(n, size - position))
  }

  /** How many blocks the bytes from one position to another lie in */
  function BlocksBetween(from: nat, to: nat): nat
    requires from <= to
  {
    if from == to then 0 else (to - 1) / BLOCK - from / BLOCK + 1
  }

  /** How many blocks the bytes of a read lie in */
  function BlocksRead(size: nat, position: nat, n: nat): nat {
    BlocksBetween(position, position + ReadCount(size, position, n))
  }

  /** Going on at the start of a block, up to the end of the block, comes to one block more. */
  lemma OneMoreBlock(from: nat, seek: nat, n: nat)
    requires from <= seek && (seek == from || seek % BLOCK == 0)
    requires 0 < n && seek % BLOCK + n <= BLOCK
    ensures BlocksBetween(from, seek + n) == BlocksBetween(from, seek) + 1
  {
    assert (seek + n - 1) / BLOCK == seek / BLOCK;
    if seek > from {
      assert (seek - 1) / BLOCK + 1 == seek / BLOCK;
    }
  }

  lemma FewerBlocks(from: nat, seek: nat, to: nat)
    requires from <= seek <= to
    ensures BlocksBetween(from, seek) <= BlocksBetween(from, to)
  {
  }

  /** The file's bytes at a position, as the image has them */
  ghost predicate ShowsFile(image: seq<byte>, start: nat, position: nat, bytes: seq<byte>) {
    forall k :: 0 <= k < |bytes| && start * BLOCK + position + k < |image| ==>
      bytes[k] == image[start * BLOCK + position + k]
  }

  class FileReader {
    const dev: Device
    const start: u32
    const size: u32
    const buf: array<byte>
    var cached: Option<nat>
    var position: nat

    ghost predicate Valid()
      reads this
    {
      buf.Length == BLOCK
    }

    /** A cached block number means that the buffer holds that block. */
    ghost predicate Sound()
      reads this, buf
    {
      Valid() && (cached.Some? ==> Agrees(dev.image, cached.value, buf[..]))
    }

    /** `ISOFile::read` */
    constructor (dev: Device, start: u32, size: u32)
      ensures this.dev == dev && this.start == start && this.size == size && position == 0
      ensures Sound() && fresh(buf)
    {
      this.dev, this.start, this.size := dev, start, size;
      buf := new byte[BLOCK](_ => 0);
      cached, position := None, 0;
    }

    /**
     * `Read::read`: fills `out` from the current position up to its end or the end of the file, with
     * at most one read for each block the bytes lie in. It fails exactly when the last of these reads
     * has failed, so never if as many reads to come go well, whatever happened before.
     */
    method Read(out: array<byte>) returns (r: Result<nat>)
      requires Valid() && out != buf
      modifies this, dev, buf, out
      ensures Valid() && dev.served >= old(dev.served)
      ensures r.Ok? ==> r.value == ReadCount(size, old(position), out.Length) && position == old(position) + r.value
      ensures r.Ok? ==> out[r.value..] == old(out[..])[r.value..]
      ensures r.Err? ==> r.error == Io && position == old(position)
      ensures dev.served <= old(dev.served) + BlocksRead(size, old(position), out.Length)
      ensures r.Err? <==> dev.LastFailed(old(dev.served))
      ensures old(dev.Lasts(Finite(BlocksRead(size, position, out.Length)))) ==> r.Ok?
      ensures old(Sound()) && Trusty(dev.script) ==>
                Sound() && (r.Ok? ==> ShowsFile(dev.image, start, old(position), out[..r.value]))
    {
      hide Agrees, ShowsFile, Trusty, BlocksBetween, Harmless, AllFull, Device.WholeBlocks;
      ghost var begun := dev.served;
      ghost var lasts := dev.Lasts(Finite(BlocksRead(size, position, out.Length)));
      var seek, done := position, 0;
      ghost var good := Sound() && Trusty(dev.script);
      ReadBegins(dev.image, start, position);
      assert out[..0] == [];
      while done < out.Length && seek < size
        invariant 0 <= done <= out.Length && seek == old(position) + done && (done > 0 ==> seek <= size)
        invariant position == old(position) && dev.served >= old(dev.served) && !dev.LastFailed(old(dev.served))
        invariant forall k :: done <= k < out.Length ==> out[k] == old(out[k])
        invariant dev.served <= old(dev.served) + BlocksBetween(old(position), seek)
        invariant done == 0 || done == out.Length || seek >= size || seek % BLOCK == 0
        invariant good ==> Sound() && ShowsFile(dev.image, start, old(position), out[..done])
        decreases out.Length - done
      {
        ghost var before := out[..];
        OneMoreBlock(position, seek, 1);
        FewerBlocks(position, seek + 1, position + ReadCount(size, position, out.Length));
        var hit := Load(start + seek / BLOCK);
        if hit.Err? {
          if lasts {
            WithinGood(dev, begun, begun + BlocksRead(size, position, out.Length));
          }
          return Err(hit.error);
        }
        assert out[..] == before && before[..done] == out[..done];
        var n := WriteTo(out, done, seek);
        if good {
          assert Agrees(dev.image, start + seek / BLOCK, buf[..]);
          var bytes := buf[seek % BLOCK..seek % BLOCK + n];
          CopiedFromBlock(dev.image, start, old(position), seek, buf[..], before[..done], bytes);
        }
        OneMoreBlock(position, seek, n);
        done, seek := done + n, seek + n;
      }
      position := seek;
      return Ok(done);
    }

    /** Copies from the cached block at `seek` to the rest of `out`, as far as block, file and `out` go. */
    method WriteTo(out: array<byte>, done: nat, seek: nat) returns (n: nat)
      requires Valid() && out != buf && done < out.Length && seek < size
      modifies out
      ensures 0 < n && seek + n <= size && done + n <= out.Length && seek % BLOCK + n <= BLOCK
      ensures done + n == out.Length || seek + n == size || seek % BLOCK + n == BLOCK
      ensures out[..done + n] == old(out[..])[..done] + buf[seek % BLOCK..seek % BLOCK + n]
      ensures forall k :: done + n <= k < out.Length ==> out[k] == old(out[k])
    {
      var from := seek % BLOCK;
      var end := Min(size - seek / BLOCK * BLOCK, BLOCK);
      n := Min(out.Length - done, end - from);
      forall k | 0 <= k < n {
        out[done + k] := buf[from + k];
      }
      assert forall k :: done <= k < done + n ==> out[k] == buf[from + (k - done)];
      assert out[done..done + n] == buf[from..from + n];
      assert out[..done + n] == out[..done] + out[done..done + n];
    }

    /** Brings a block into the cache by at most one read; the number of bytes read is ignored. */
    method Load(lba: nat) returns (r: Result<()>)
      requires Valid()
      modifies this`cached, dev, buf
      ensures Valid() && dev.served >= old(dev.served)
      ensures r.Ok? ==> cached == Some(lba)
      ensures r.Err? ==> r.error == Io
      ensures dev.served == old(dev.served) + if old(cached) == Some(lba) then 0 else 1
      ensures r.Err? <==> dev.LastFailed(old(dev.served))
      ensures old(Sound()) && Trusty(dev.script) ==> Sound()
    {
      if cached != Some(lba) {
        ghost var before, o := buf[..], dev.Next();
        var count := dev.ReadAt(buf, lba);
        if Harmless(o) {
          HarmlessIffCacheKept(o);
          assert KeepsCache(dev.image, lba, before, o);
        }
        if count.Err? {
          return Err(count.error);
        }
        cached := Some(lba);
      }
      r := Ok(());
    }

    /** `Seek::seek` */
    method Seek(from: SeekFrom) returns (r: Result<nat>)
      modifies this`position
      ensures var target := SeekTarget(size, old(position), from);
              if target < 0 then r == Err(InvalidSeek) && position == old(position)
              else r == Ok(target) && position == target
    {
      var seek := SeekTarget(size, position, from);
      if seek < 0 {
        return Err(InvalidSeek);
      }
      position := seek;
      return Ok(seek);
    }
  }

  /** Where the coming reads go well, the last one has not failed. */
  lemma WithinGood(dev: Device, before: nat, until: nat)
    requires AllFull(dev.script, before, until) && dev.served <= until
    ensures !dev.LastFailed(before)
  {
  }

  lemma ReadBegins(image: seq<byte>, start: nat, position: nat)
    ensures ShowsFile(image, start, position, []) && BlocksBetween(position, position) == 0
  {
  }

  lemma CopiedFromBlock(image: seq<byte>, start: nat, position: nat, seek: nat, block: seq<byte>,
                        before: seq<byte>, bytes: seq<byte>)
    requires |block| == BLOCK && Agrees(image, start + seek / BLOCK, block)
    requires seek == position + |before| && ShowsFile(image, start, position, before)
    requires seek % BLOCK + |bytes| <= BLOCK && bytes == block[seek % BLOCK..seek % BLOCK + |bytes|]
    ensures ShowsFile(image, start, position, before + bytes)
  {
    var from := seek % BLOCK;
    assert (start + seek / BLOCK) * BLOCK + from == start * BLOCK + seek;
    forall k | |before| <= k < |before + bytes| && start * BLOCK + position + k < |image|
      ensures (before + bytes)[k] == image[start * BLOCK + position + k]
    {
      var i := k - |before|;
      assert (before + bytes)[k] == bytes[i] == block[from + i];
    }
  }
}
