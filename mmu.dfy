/**
 * The `Mmu` of fuzzing/src/riscv.rs: byte memory, per-byte permissions, a
 * dirty-block list with its bitmap, and a bump-allocation cursor, updated
 * in place. Each method is specified by the value-level functions of
 * MmuSpec.
 */
module Riscv {
  import opened Wrappers
  import opened MmuSpec

  /** A word of the dirty bitmap: its 64 bits, lowest first. */
  type Word = w: seq<bool> | |w| == 64 witness seq(64, _ => false)

  /** The all-clear word. */
  const ZERO_WORD: Word := seq(64, _ => false)

  /** The bitmap bit of block `b`: bit `b % 64` of word `b / 64`. */
  predicate IsSet(bitmap: seq<Word>, b: nat)
    requires b / 64 < |bitmap|
  {
    bitmap[b / 64][b % 64]
  }

  /** Setting the bit of `block` sets that bit and no other. */
  lemma SetBit(bitmap: seq<Word>, block: nat)
    requires block / 64 < |bitmap|
    ensures var after := bitmap[block / 64 := bitmap[block / 64][block % 64 := true]];
      forall b: nat :: b / 64 < |bitmap| ==> (IsSet(after, b) <==> IsSet(bitmap, b) || b == block)
  {
    var after := bitmap[block / 64 := bitmap[block / 64][block % 64 := true]];
    forall b: nat | b / 64 < |bitmap|
      ensures IsSet(after, b) <==> IsSet(bitmap, b) || b == block
    {
      assert b / 64 == block / 64 && b % 64 == block % 64 <==> b == block;
    }
  }

  /** The dirty list holds distinct blocks of a memory of `size` bytes, and
      the bitmap has a bit set exactly for each of them. */
  ghost predicate Tracks(bitmap: seq<Word>, list: seq<nat>, size: nat) {
    && |bitmap| == BitmapWords(size)
    && (forall k, l :: 0 <= k < l < |list| ==> list[k] != list[l])
    && (forall b :: b in list ==> b <= size / DIRTY_BLOCK_SIZE)
    && (forall b: nat :: b / 64 < |bitmap| ==> (IsSet(bitmap, b) <==> b in list))
  }

  /** Setting the bit of a block whose bit is clear appends the block to
      the list. */
  lemma AppendTracks(bitmap: seq<Word>, list: seq<nat>, size: nat, block: nat)
    requires Tracks(bitmap, list, size) && block <= size / DIRTY_BLOCK_SIZE
    requires block / 64 < |bitmap| && !IsSet(bitmap, block)
    ensures block !in list
    ensures Tracks(bitmap[block / 64 := bitmap[block / 64][block % 64 := true]], list + [block], size)
  {
    var longer := list + [block];
    SetBit(bitmap, block);
    forall k, l | 0 <= k < l < |longer| ensures longer[k] != longer[l] {
      if l == |list| {
        assert longer[k] == list[k];
      } else {
        assert longer[k] == list[k] && longer[l] == list[l];
      }
    }
  }

  /** Zeroing the word of the first block of `rest` leaves set only bits of
      blocks in the remainder. */
  lemma ClearWord(bitmap: seq<Word>, rest: seq<nat>)
    requires |rest| > 0 && rest[0] / 64 < |bitmap|
    requires forall b: nat :: b / 64 < |bitmap| && IsSet(bitmap, b) ==> b in rest
    ensures forall b: nat :: b / 64 < |bitmap| && IsSet(bitmap[rest[0] / 64 := ZERO_WORD], b) ==> b in rest[1..]
  {
    var w := rest[0] / 64;
    forall b: nat | b / 64 < |bitmap| && IsSet(bitmap[w := ZERO_WORD], b) ensures b in rest[1..] {
      assert b / 64 != w && IsSet(bitmap, b);
      assert rest == [rest[0]] + rest[1..];
    }
  }

  /** Isolated memory space. */
  class Mmu {
    var memory: array<bv8>
    var permissions: array<Perm>
    /** Dirty block indices, each once, in the order they were first written. */
    var dirty: seq<nat>
    /** One bit per block, set exactly for the blocks in `dirty`. */
    var dirtyBitmap: seq<Word>
    /** Bump-allocation cursor. */
    var curAlc: nat

    ghost function Repr(): set<object>
      reads this
    {
      {this, memory, permissions}
    }

    ghost predicate Valid()
      reads this
    {
      && memory != permissions
      && memory.Length == permissions.Length <= USIZE_MAX
      && Tracks(dirtyBitmap, dirty, memory.Length)
    }

    ghost function DirtyBlocks(): set<nat>
      reads this
    {
      set b | b in dirty
    }

    /** `Mmu::new`: zeroed memory, no permissions, nothing dirty, the cursor
        at 0x10000. */
    constructor (size: nat)
      requires size <= USIZE_MAX
      ensures Valid() && fresh(memory) && fresh(permissions)
      ensures memory[..] == seq(size, _ => 0) && permissions[..] == seq(size, _ => 0)
      ensures dirty == [] && curAlc == INITIAL_CURSOR
    {
      memory := new bv8[size](_ => 0);
      permissions := new Perm[size](_ => 0);
      dirty := [];
      dirtyBitmap := seq(BitmapWords(size), _ => ZERO_WORD);
      curAlc := INITIAL_CURSOR;
    }

    /** `Mmu::fork`: a copy of the parent's memory, permissions and cursor,
        in arrays of its own, with nothing dirty. The parent is not
        modified. */
    constructor Fork(parent: Mmu)
      requires parent.Valid()
      ensures Valid() && fresh(memory) && fresh(permissions)
      ensures memory[..] == parent.memory[..] && permissions[..] == parent.permissions[..]
      ensures dirty == [] && curAlc == parent.curAlc
    {
      var size := parent.memory.Length;
      var mem := new bv8[size];
      forall i | 0 <= i < size {
        mem[i] := parent.memory[i];
      }
      var perms := new Perm[size];
      forall i | 0 <= i < size {
        perms[i] := parent.permissions[i];
      }
      memory := mem;
      permissions := perms;
      dirty := [];
      dirtyBitmap := seq(BitmapWords(size), _ => ZERO_WORD);
      curAlc := parent.curAlc;
    }

    /** `Mmu::reset`: every byte of a dirty block gets the memory and the
        permission of `other`, every other byte is left as it is, and nothing
        is dirty afterwards.
        The range restored for each block is `block * BS .. (block + 1) * BS`
        cut at the end of memory; fuzzing/src/riscv.rs:94-95 computes
        `block + BS .. (block + 1) + BS` instead (see ResetRangeAsWritten). */
    method Reset(other: Mmu)
      requires Valid() && other.Valid()
      requires Repr() !! other.Repr()
      requires other.memory.Length == memory.Length
      modifies memory, permissions, this`dirtyBitmap, this`dirty
      ensures Valid() && dirty == []
      ensures memory[..] == Restore(old(memory[..]), other.memory[..], old(DirtyBlocks()))
      ensures permissions[..] == Restore(old(permissions[..]), other.permissions[..], old(DirtyBlocks()))
    {
      var i := 0;
      while i < |dirty|
        invariant 0 <= i <= |dirty| && dirty == old(dirty)
        invariant |dirtyBitmap| == BitmapWords(memory.Length)
        invariant forall k :: 0 <= k < memory.Length ==>
          memory[k] == if BlockOf(k) in dirty[..i] then other.memory[k] else old(memory[k])
        invariant forall k :: 0 <= k < permissions.Length ==>
          permissions[k] == if BlockOf(k) in dirty[..i] then other.permissions[k] else old(permissions[k])
        invariant forall b: nat :: b / 64 < |dirtyBitmap| && IsSet(dirtyBitmap, b) ==> b in dirty[i..]
      {
        var block := dirty[i];
        assert block in dirty;
        assert dirty[..i + 1] == dirty[..i] + [block];
        ghost var before := dirtyBitmap;
        BlockInBitmap(block, memory.Length);
        ClearWord(before, dirty[i..]);
        assert dirty[i..][1..] == dirty[i + 1..];
        // Zero the bitmap word.
        dirtyBitmap := dirtyBitmap[block / 64 := ZERO_WORD];
        RestoreBlock(other, block);
        i := i + 1;
      }
      dirty := [];
    }

    /** The body of `reset` for one dirty block: its bytes, cut at the end
        of memory, get the memory and the permissions of `other`. */
    method RestoreBlock(other: Mmu, block: nat)
      requires memory != permissions && memory.Length == permissions.Length
      requires other.memory.Length == memory.Length && other.permissions.Length == permissions.Length
      requires {memory, permissions} !! {other.memory, other.permissions}
      modifies memory, permissions
      ensures forall k :: 0 <= k < memory.Length ==>
        memory[k] == if BlockOf(k) == block then other.memory[k] else old(memory[k])
      ensures forall k :: 0 <= k < permissions.Length ==>
        permissions[k] == if BlockOf(k) == block then other.permissions[k] else old(permissions[k])
    {
      var (start, end) := ResetRange(block, memory.Length);
      ResetRangeCoversBlock(block, memory.Length);
      forall k | start <= k < end {
        memory[k] := other.memory[k];
      }
      forall k | start <= k < end {
        permissions[k] := other.permissions[k];
      }
    }

    /** `Mmu::write_from`: refused, with nothing changed, when the range does
        not fit or a byte lacks WRITE; otherwise the range holds `buf`, its
        RAW bytes become readable, and the blocks it touches are dirty.
        The bitmap bit is taken from the loop's own `block`;
        fuzzing/src/riscv.rs:131-132 takes it from `start` (see
        MarkAsWritten). */
    method WriteFrom(addr: nat, buf: seq<bv8>) returns (ok: bool)
      requires Valid()
      modifies memory, permissions, this`dirtyBitmap, this`dirty
      ensures Valid()
      ensures var w := Write(old(memory[..]), old(permissions[..]), addr, buf);
        ok == w.Some? &&
        (ok ==> memory[..] == w.value.0 && permissions[..] == w.value.1 &&
                DirtyBlocks() == old(DirtyBlocks()) + Touched(addr, |buf|) &&
                |old(dirty)| <= |dirty| && dirty[..|old(dirty)|] == old(dirty)) &&
        (!ok ==> memory[..] == old(memory[..]) && permissions[..] == old(permissions[..]) &&
                 dirty == old(dirty) && dirtyBitmap == old(dirtyBitmap))
    {
      var end := CheckedAdd(addr, |buf|);
      if end.None? || end.value > permissions.Length {
        return false;
      }
      var stop := end.value;

      // All bytes must have write permission.
      var hasRaw := false;
      var i := addr;
      while i < stop
        invariant addr <= i <= stop
        invariant forall k :: addr <= k < i ==> Has(permissions[k], PERM_WRITE)
        invariant hasRaw <==> exists k :: addr <= k < i && Has(permissions[k], PERM_RAW)
      {
        hasRaw := hasRaw || Has(permissions[i], PERM_RAW);
        if !Has(permissions[i], PERM_WRITE) {
          return false;
        }
        i := i + 1;
      }

      forall k | addr <= k < stop {
        memory[k] := buf[k - addr];
      }
      assert memory[..] == Splice(old(memory[..]), addr, buf);

      // Compute the dirty blocks.
      TouchedCoversWrite(addr, |buf|, memory.Length);
      MarkDirty(addr / DIRTY_BLOCK_SIZE, stop / DIRTY_BLOCK_SIZE);
      assert DirtyBlocks() == old(DirtyBlocks()) + Touched(addr, |buf|);

      // Readable once written.
      if hasRaw {
        forall k | addr <= k < stop && Has(permissions[k], PERM_RAW) {
          permissions[k] := permissions[k] | PERM_READ;
        }
      }
      assert permissions[..] == UpgradeRaw(old(permissions[..]), addr, stop);
      return true;
    }

    /** The dirty-marking loop of `write_from`: every block of
        `start ..= last` that is not yet dirty is appended to `dirty` and its
        bitmap bit set. */
    method MarkDirty(start: nat, last: nat)
      requires Valid()
      requires last <= memory.Length / DIRTY_BLOCK_SIZE
      modifies this`dirtyBitmap, this`dirty
      ensures Valid()
      ensures DirtyBlocks() == old(DirtyBlocks()) + Span(start, last)
      ensures |old(dirty)| <= |dirty| && dirty[..|old(dirty)|] == old(dirty)
    {
      var block := start;
      while block <= last
        invariant start <= block <= last + 1 || (block == start && start > last)
        invariant Valid()
        invariant |old(dirty)| <= |dirty| && dirty[..|old(dirty)|] == old(dirty)
        invariant forall b :: b in dirty <==> b in old(dirty) || start <= b < block
      {
        MarkBlock(block);
        block := block + 1;
      }
    }

    /** One step of the dirty-marking loop: `block` is appended to `dirty`
        and its bit set unless its bit is already set. */
    method MarkBlock(block: nat)
      requires Valid()
      requires block <= memory.Length / DIRTY_BLOCK_SIZE
      modifies this`dirtyBitmap, this`dirty
      ensures Valid()
      ensures block in old(dirty) ==> dirty == old(dirty)
      ensures block !in old(dirty) ==> dirty == old(dirty) + [block]
    {
      // Bitmap position of the dirty block.
      var idx := block / 64;
      var bit := block % 64;
      BlockInBitmap(block, memory.Length);
      if !dirtyBitmap[idx][bit] {
        // Block is not dirty: add it to the bitmap and the list.
        ghost var before := dirtyBitmap;
        AppendTracks(before, dirty, memory.Length, block);
        dirty := dirty + [block];
        dirtyBitmap := dirtyBitmap[idx := dirtyBitmap[idx][bit := true]];
      } else {
        assert IsSet(dirtyBitmap, block);
      }
    }

    /** `Mmu::read_into`: fills `buf` with the bytes at `addr` when they are
        all readable; otherwise refuses and leaves `buf` alone. */
    method ReadInto(addr: nat, buf: array<bv8>) returns (ok: bool)
      requires Valid()
      requires buf != memory && buf != permissions
      modifies buf
      ensures var r := Read(memory[..], permissions[..], addr, buf.Length);
        ok == r.Some? && (ok ==> buf[..] == r.value) && (!ok ==> buf[..] == old(buf[..]))
    {
      var end := CheckedAdd(addr, buf.Length);
      if end.None? || end.value > permissions.Length {
        return false;
      }
      var stop := end.value;
      var i := addr;
      while i < stop
        invariant addr <= i <= stop
        invariant forall k :: addr <= k < i ==> Has(permissions[k], PERM_READ)
      {
        if !Has(permissions[i], PERM_READ) {
          return false;
        }
        i := i + 1;
      }
      forall k | 0 <= k < buf.Length {
        buf[k] := memory[addr + k];
      }
      return true;
    }

    /** `Mmu::allocate`: the old cursor, with `[base, base + size)` marked
        WRITE|RAW and the cursor moved past the size rounded up to 16; or
        None with nothing changed when that would pass the end of memory.
        The size is rounded by `(size + 0xf) & !0xf`, not by the
        `(size * 0xf) & !0xf` of fuzzing/src/riscv.rs:170, and the cursor is
        stored only once the bound check has passed, not before it as at
        fuzzing/src/riscv.rs:175-178 (see AllocateAsWritten). */
    method Allocate(size: nat) returns (r: Option<nat>)
      requires Valid()
      modifies this`curAlc, permissions
      ensures Valid()
      ensures MmuSpec.Allocate(old(curAlc), size, memory.Length) == AllocStep(r, curAlc)
      ensures r.Some? ==> permissions[..] == Fill(old(permissions[..]), r.value, r.value + size, PERM_WRITE | PERM_RAW)
      ensures r.None? ==> permissions[..] == old(permissions[..])
    {
      var alignSize := (size + 0xf) - (size + 0xf) % 16;
      var base := curAlc;
      if base >= memory.Length {
        return None;
      }
      var next := CheckedAdd(curAlc, alignSize);
      if next.None? || next.value > memory.Length {
        return None;
      }
      curAlc := next.value;
      // Mark as uninitialized and writable.
      var granted := SetPermissions(base, size, PERM_RAW | PERM_WRITE);
      assert granted;
      return Some(base);
    }

    /** `Mmu::set_permissions`: every byte of `[addr, addr + size)` gets
        `perm`, or None with nothing changed when the range does not fit. */
    method SetPermissions(addr: nat, size: nat, perm: Perm) returns (ok: bool)
      requires Valid()
      modifies permissions
      ensures Valid()
      ensures var q := MmuSpec.SetPermissions(old(permissions[..]), addr, size, perm);
        ok == q.Some? && permissions[..] == (if ok then q.value else old(permissions[..]))
    {
      var end := CheckedAdd(addr, size);
      if end.None? || end.value > permissions.Length {
        return false;
      }
      forall k | addr <= k < end.value {
        permissions[k] := perm;
      }
      return true;
    }
  }

  /** The test at fuzzing/src/riscv.rs:29-39: allocate 4096 bytes in a 1 MiB
      space, write "asdf" to them, then read 32 bytes back, which is refused
      because 28 of them were never written. */
  method AllocateThenWriteThenRead() returns (allocOk: bool, writeOk: bool, readOk: bool)
    ensures allocOk && writeOk && !readOk
  {
    var mmu := new Mmu(1024 * 1024);
    var tmp := mmu.Allocate(4096);
    allocOk := tmp.Some?;
    var base := tmp.value;
    ghost var mem, perms := mmu.memory[..], mmu.permissions[..];
    UnwrittenRawUnreadable(mem, seq(1024 * 1024, _ => 0), base, 4096, [0x61, 0x73, 0x64, 0x66], 32);
    writeOk := mmu.WriteFrom(base, [0x61, 0x73, 0x64, 0x66]);
    var buf := new bv8[32](_ => 0);
    readOk := mmu.ReadInto(base, buf);
  }

  /** The first half of the test at fuzzing/src/riscv.rs:5-28: "asdf"
      written to a fresh 4-byte allocation reads back. */
  method WriteAsdf() returns (mmu: Mmu, base: nat, before: seq<bv8>)
    ensures fresh(mmu.Repr()) && mmu.Valid()
    ensures Read(mmu.memory[..], mmu.permissions[..], base, 4) == Some([0x61, 0x73, 0x64, 0x66])
    ensures before == [0x61, 0x73, 0x64, 0x66]
  {
    var asdf: seq<bv8> := [0x61, 0x73, 0x64, 0x66];
    mmu := new Mmu(1024 * 1024);
    var tmp := mmu.Allocate(4096);
    base := tmp.value;
    ghost var mem0, perms0 := mmu.memory[..], mmu.permissions[..];
    ReadAfterWrite(mem0, perms0, base, asdf);
    var ok := mmu.WriteFrom(base, asdf);
    var buf := new bv8[4](_ => 0);
    ok := mmu.ReadInto(base, buf);
    before := buf[..];
  }

  /** The middle of the test at fuzzing/src/riscv.rs:5-28: a fork of `mmu`
      that writes zeros where `mmu` holds "asdf". The fork differs from its
      parent only inside its dirty blocks, and the parent is untouched. */
  method ForkAndOverwrite(mmu: Mmu, base: nat) returns (forked: Mmu)
    requires mmu.Valid()
    ensures fresh(forked.Repr()) && forked.Valid()
    ensures forked.memory.Length == mmu.memory.Length
    ensures CleanOutside(forked.memory[..], mmu.memory[..], forked.DirtyBlocks())
    ensures CleanOutside(forked.permissions[..], mmu.permissions[..], forked.DirtyBlocks())
  {
    forked := new Mmu.Fork(mmu);
    ghost var mem1, perms1 := mmu.memory[..], mmu.permissions[..];
    var ok := forked.WriteFrom(base, [0, 0, 0, 0]);
    if ok {
      WriteKeepsClean(mem1, perms1, mem1, perms1, {}, base, [0, 0, 0, 0]);
    }
  }

  /** Fork, write and reset (the test at fuzzing/src/riscv.rs:5-28): "asdf"
      written to a fresh allocation reads back; a fork that overwrites it with
      zeros leaves the parent's bytes alone; after `reset` from the parent the
      fork reads "asdf" again. */
  method ForkWriteReset() returns (before: seq<bv8>, parentAfter: seq<bv8>, forkAfter: seq<bv8>)
    ensures before == parentAfter == forkAfter == [0x61, 0x73, 0x64, 0x66]
  {
    var mmu, base;
    mmu, base, before := WriteAsdf();
    var forked := ForkAndOverwrite(mmu, base);
    var buf := new bv8[4](_ => 0);
    var ok := mmu.ReadInto(base, buf);
    parentAfter := buf[..];

    RestoreUndoes(forked.memory[..], mmu.memory[..], forked.DirtyBlocks());
    RestoreUndoes(forked.permissions[..], mmu.permissions[..], forked.DirtyBlocks());
    forked.Reset(mmu);
    var buf2 := new bv8[4](_ => 0);
    ok := forked.ReadInto(base, buf2);
    forkAfter := buf2[..];
  }
}
