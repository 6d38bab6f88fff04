/**
 * The emulator's isolated memory space (fuzzing/src/riscv.rs), as values.
 *
 * The functions here give the meaning of each `Mmu` operation on the two
 * byte sequences `memory` and `permissions`; the class in mmu.dfy updates
 * arrays in place and is proved against them. Integers are unbounded; the
 * `usize` overflow checks of the source (`checked_add`) are modelled
 * against USIZE_MAX.
 */
module MmuSpec {
  import opened Wrappers

  /** Per-byte permission flags, `Perm(u8)`. */
  type Perm = bv8

  const PERM_READ: Perm := 1
  const PERM_WRITE: Perm := 2
  const PERM_EXEC: Perm := 4
  /** Read-after-write: writable, becomes readable once written. */
  const PERM_RAW: Perm := 8

  /** Bytes per dirty-tracking block. */
  const DIRTY_BLOCK_SIZE: nat := 4096
  const USIZE_MAX: nat := 0xffff_ffff_ffff_ffff
  /** First address handed out by the bump allocator. */
  const INITIAL_CURSOR: nat := 0x10000

  predicate Has(p: Perm, flag: Perm) {
    p & flag != 0
  }

  /** `a.checked_add(b)` on `usize`. */
  function CheckedAdd(a: nat, b: nat): Option<nat> {
    if a + b <= USIZE_MAX then Some(a + b) else None
  }

  /** `slice.get(addr..addr.checked_add(len)?)` yields a slice. */
  predicate InBounds(addr: nat, len: nat, size: nat) {
    var e := CheckedAdd(addr, len);
    e.Some? && e.value <= size
  }

  /** Since no vector is longer than `usize::MAX`, the overflow check never
      rejects a range the length check would accept. */
  lemma InBoundsIsFit(addr: nat, len: nat, size: nat)
    requires size <= USIZE_MAX
    ensures InBounds(addr, len, size) <==> addr + len <= size
  {
  }

  predicate AllHave(perms: seq<Perm>, lo: nat, hi: nat, flag: Perm)
    requires lo <= hi <= |perms|
  {
    forall i :: lo <= i < hi ==> Has(perms[i], flag)
  }

  predicate WriteAllowed(perms: seq<Perm>, addr: nat, len: nat) {
    InBounds(addr, len, |perms|) && AllHave(perms, addr, addr + len, PERM_WRITE)
  }

  predicate ReadAllowed(perms: seq<Perm>, addr: nat, len: nat) {
    InBounds(addr, len, |perms|) && AllHave(perms, addr, addr + len, PERM_READ)
  }

  /** `memory[addr..addr + buf.len()].copy_from_slice(buf)` */
  function Splice(mem: seq<bv8>, addr: nat, buf: seq<bv8>): (r: seq<bv8>)
    requires addr + |buf| <= |mem|
    ensures |r| == |mem|
    ensures r[addr..addr + |buf|] == buf
    ensures forall i :: 0 <= i < |mem| && !(addr <= i < addr + |buf|) ==> r[i] == mem[i]
  {
    mem[..addr] + buf + mem[addr + |buf|..]
  }

  /** The RAW upgrade applied to one written byte. */
  function Upgrade(p: Perm): Perm {
    if Has(p, PERM_RAW) then p | PERM_READ else p
  }

  /** A written byte is readable afterwards exactly when it was readable or
      RAW, and the upgrade changes no flag other than READ. */
  lemma UpgradeGrantsRead(p: Perm)
    ensures Has(Upgrade(p), PERM_READ) <==> Has(p, PERM_READ) || Has(p, PERM_RAW)
    ensures Upgrade(p) & !PERM_READ == p & !PERM_READ
  {
  }

  /** Permissions after the RAW upgrade of `[lo, hi)`. */
  function UpgradeRaw(perms: seq<Perm>, lo: nat, hi: nat): seq<Perm>
    requires lo <= hi <= |perms|
  {
    seq(|perms|, i requires 0 <= i < |perms| => if lo <= i < hi then Upgrade(perms[i]) else perms[i])
  }

  /** Permissions after every byte of `[lo, hi)` is set to `p`. */
  function Fill(perms: seq<Perm>, lo: nat, hi: nat, p: Perm): seq<Perm>
    requires lo <= hi <= |perms|
  {
    seq(|perms|, i requires 0 <= i < |perms| => if lo <= i < hi then p else perms[i])
  }

  /** `write_from`: the new memory and permissions, or None. */
  function Write(mem: seq<bv8>, perms: seq<Perm>, addr: nat, buf: seq<bv8>): Option<(seq<bv8>, seq<Perm>)>
    requires |mem| == |perms|
  {
    if WriteAllowed(perms, addr, |buf|) then
      Some((Splice(mem, addr, buf), UpgradeRaw(perms, addr, addr + |buf|)))
    else
      None
  }

  /** `read_into`: the bytes read, or None. */
  function Read(mem: seq<bv8>, perms: seq<Perm>, addr: nat, len: nat): Option<seq<bv8>>
    requires |mem| == |perms|
  {
    if ReadAllowed(perms, addr, len) then Some(mem[addr..addr + len]) else None
  }

  /** `set_permissions`: the new permissions, or None. */
  function SetPermissions(perms: seq<Perm>, addr: nat, size: nat, perm: Perm): Option<seq<Perm>> {
    if InBounds(addr, size, |perms|) then Some(Fill(perms, addr, addr + size, perm)) else None
  }

  /** `set_permissions` changes exactly the bytes of `[addr, addr + size)`,
      each to `perm`, and fails with no change when the range does not fit. */
  lemma SetPermissionsExact(perms: seq<Perm>, addr: nat, size: nat, perm: Perm)
    requires |perms| <= USIZE_MAX
    ensures SetPermissions(perms, addr, size, perm).Some? <==> addr + size <= |perms|
    ensures SetPermissions(perms, addr, size, perm).Some? ==>
      var q := SetPermissions(perms, addr, size, perm).value;
      |q| == |perms| &&
      (forall i :: 0 <= i < |q| ==> (q[i] == perm || q[i] == perms[i])) &&
      (forall i :: 0 <= i < |q| ==> (addr <= i < addr + size ==> q[i] == perm) && (!(addr <= i < addr + size) ==> q[i] == perms[i]))
  {
  }

  /** A failed write changes nothing; a write is refused when the range does
      not fit or when some targeted byte lacks WRITE. */
  lemma WriteFailsExactly(mem: seq<bv8>, perms: seq<Perm>, addr: nat, buf: seq<bv8>)
    requires |mem| == |perms| <= USIZE_MAX
    ensures Write(mem, perms, addr, buf).None? <==>
      addr + |buf| > |perms| || exists i :: addr <= i < addr + |buf| && !Has(perms[i], PERM_WRITE)
  {
  }

  /** After a successful write the range holds the buffer, every RAW byte of
      the range is readable, and nothing outside the range changed. */
  lemma WriteEffect(mem: seq<bv8>, perms: seq<Perm>, addr: nat, buf: seq<bv8>)
    requires |mem| == |perms|
    requires Write(mem, perms, addr, buf).Some?
    ensures var (m, p) := Write(mem, perms, addr, buf).value;
      |m| == |mem| && |p| == |perms| &&
      m[addr..addr + |buf|] == buf &&
      (forall i :: addr <= i < addr + |buf| && Has(p[i], PERM_RAW) ==> Has(p[i], PERM_READ)) &&
      (forall i :: addr <= i < addr + |buf| ==> Has(p[i], PERM_WRITE)) &&
      (forall i :: 0 <= i < |mem| && !(addr <= i < addr + |buf|) ==> m[i] == mem[i] && p[i] == perms[i])
  {
    var (m, p) := Write(mem, perms, addr, buf).value;
    forall i | addr <= i < addr + |buf|
      ensures Has(p[i], PERM_RAW) ==> Has(p[i], PERM_READ)
      ensures Has(p[i], PERM_WRITE)
    {
      UpgradeGrantsRead(perms[i]);
    }
  }

  /** `read_into` succeeds exactly when the range fits and every byte in it
      is readable, and then yields exactly those bytes. */
  lemma ReadExactly(mem: seq<bv8>, perms: seq<Perm>, addr: nat, len: nat)
    requires |mem| == |perms| <= USIZE_MAX
    ensures Read(mem, perms, addr, len).Some? <==>
      addr + len <= |perms| && forall i :: addr <= i < addr + len ==> Has(perms[i], PERM_READ)
    ensures Read(mem, perms, addr, len).Some? ==>
      var r := Read(mem, perms, addr, len).value;
      |r| == len && forall k :: 0 <= k < len ==> r[k] == mem[addr + k]
  {
  }

  /** Write-then-read round trip: once written, a range whose bytes were each
      readable or RAW reads back as exactly what was written. */
  lemma ReadAfterWrite(mem: seq<bv8>, perms: seq<Perm>, addr: nat, buf: seq<bv8>)
    requires |mem| == |perms|
    requires Write(mem, perms, addr, buf).Some?
    requires forall i :: addr <= i < addr + |buf| ==> Has(perms[i], PERM_READ) || Has(perms[i], PERM_RAW)
    ensures var (m, p) := Write(mem, perms, addr, buf).value;
      Read(m, p, addr, |buf|) == Some(buf)
  {
    var (m, p) := Write(mem, perms, addr, buf).value;
    forall i | addr <= i < addr + |buf|
      ensures Has(p[i], PERM_READ)
    {
      UpgradeGrantsRead(perms[i]);
    }
  }

  /** Reading past the written prefix of a fresh WRITE|RAW region fails:
      the unwritten bytes are RAW without READ (the test at
      fuzzing/src/riscv.rs:29-39 writes 4 bytes and reads 32). */
  lemma UnwrittenRawUnreadable(mem: seq<bv8>, perms: seq<Perm>, base: nat, size: nat, buf: seq<bv8>, len: nat)
    requires |mem| == |perms| <= USIZE_MAX
    requires base + size <= |perms|
    requires |buf| < len <= size
    ensures var region := Fill(perms, base, base + size, PERM_WRITE | PERM_RAW);
      Write(mem, region, base, buf).Some? &&
      var (m, p) := Write(mem, region, base, buf).value;
      Read(m, p, base, len).None?
  {
    var region := Fill(perms, base, base + size, PERM_WRITE | PERM_RAW);
    assert forall i :: base <= i < base + |buf| ==> Has(region[i], PERM_WRITE);
    var (m, p) := Write(mem, region, base, buf).value;
    var gap := base + |buf|;
    assert p[gap] == PERM_WRITE | PERM_RAW;
    assert !Has(p[gap], PERM_READ);
  }

  // ---------------------------------------------------------------------
  // Dirty blocks, fork and reset

  function BlockOf(i: nat): nat {
    i / DIRTY_BLOCK_SIZE
  }

  /** Blocks `write_from` marks dirty: `addr / BS ..= (addr + len) / BS`,
      both boundary blocks included. */
  function Touched(addr: nat, len: nat): set<nat> {
    Span(addr / DIRTY_BLOCK_SIZE, (addr + len) / DIRTY_BLOCK_SIZE)
  }

  /** The block indices `lo ..= hi`. */
  function Span(lo: nat, hi: nat): set<nat> {
    set b: nat | b <= hi && InSpan(b, lo, hi)
  }

  predicate InSpan(b: nat, lo: nat, hi: nat) {
    lo <= b <= hi
  }

  /** Number of `u64` words in the dirty bitmap of a space of `size` bytes. */
  function BitmapWords(size: nat): nat {
    size / DIRTY_BLOCK_SIZE / 64 + 1
  }

  /** A block inside memory, or the block just past it, has a bitmap bit. */
  lemma BlockInBitmap(block: nat, size: nat)
    requires block <= size / DIRTY_BLOCK_SIZE
    ensures block / 64 < BitmapWords(size)
  {
    assert block / 64 <= size / DIRTY_BLOCK_SIZE / 64 by {
      var q := size / DIRTY_BLOCK_SIZE;
      assert block / 64 * 64 <= block <= q;
    }
  }

  /** Every byte written lies in a block marked dirty, and every block marked
      dirty has a bit in the bitmap. */
  lemma TouchedCoversWrite(addr: nat, len: nat, size: nat)
    requires addr + len <= size
    ensures forall i :: addr <= i < addr + len ==> BlockOf(i) in Touched(addr, len)
    ensures forall b :: b in Touched(addr, len) ==> b <= size / DIRTY_BLOCK_SIZE < 64 * BitmapWords(size)
  {
  }

  /** `reset`: every byte of a dirty block takes the baseline's value; every
      other byte keeps its own. */
  function Restore(cur: seq<bv8>, base: seq<bv8>, dirty: set<nat>): seq<bv8>
    requires |cur| == |base|
  {
    seq(|cur|, i requires 0 <= i < |cur| => if BlockOf(i) in dirty then base[i] else cur[i])
  }

  /** `cur` differs from `base` only inside dirty blocks. */
  predicate CleanOutside(cur: seq<bv8>, base: seq<bv8>, dirty: set<nat>)
    requires |cur| == |base|
  {
    forall i :: 0 <= i < |cur| && BlockOf(i) !in dirty ==> cur[i] == base[i]
  }

  /** Restoring from the baseline undoes every change kept inside dirty
      blocks, and restoring with no dirty block is the identity. */
  lemma RestoreUndoes(cur: seq<bv8>, base: seq<bv8>, dirty: set<nat>)
    requires |cur| == |base|
    ensures CleanOutside(cur, base, dirty) <==> Restore(cur, base, dirty) == base
    ensures Restore(cur, base, {}) == cur
  {
    if Restore(cur, base, dirty) == base {
      forall i | 0 <= i < |cur| && BlockOf(i) !in dirty
        ensures cur[i] == base[i]
      {
        assert Restore(cur, base, dirty)[i] == base[i];
      }
    }
  }

  /** A successful write keeps memory and permissions equal to the baseline
      outside the dirty blocks, once the blocks it touched are added. */
  lemma WriteKeepsClean(mem: seq<bv8>, perms: seq<Perm>, baseMem: seq<bv8>, basePerms: seq<Perm>,
                        dirty: set<nat>, addr: nat, buf: seq<bv8>)
    requires |mem| == |perms| == |baseMem| == |basePerms|
    requires CleanOutside(mem, baseMem, dirty) && CleanOutside(perms, basePerms, dirty)
    requires Write(mem, perms, addr, buf).Some?
    ensures var (m, p) := Write(mem, perms, addr, buf).value;
      var d := dirty + Touched(addr, |buf|);
      |m| == |baseMem| && |p| == |basePerms| && CleanOutside(m, baseMem, d) && CleanOutside(p, basePerms, d)
  {
    TouchedCoversWrite(addr, |buf|, |mem|);
  }

  datatype WriteOp = WriteOp(addr: nat, data: seq<bv8>)

  /** The state of a forked space: its bytes, permissions and dirty blocks. */
  datatype Snapshot = Snapshot(memory: seq<bv8>, perms: seq<Perm>, dirty: set<nat>)

  /** A fork: the parent's bytes and permissions with no dirty block. */
  function Fork(mem: seq<bv8>, perms: seq<Perm>): Snapshot {
    Snapshot(mem, perms, {})
  }

  /** One `write_from` on a snapshot; a refused write leaves it as it is. */
  function WriteStep(s: Snapshot, op: WriteOp): Snapshot
    requires |s.memory| == |s.perms|
  {
    match Write(s.memory, s.perms, op.addr, op.data)
    case None => s
    case Some((m, p)) => Snapshot(m, p, s.dirty + Touched(op.addr, |op.data|))
  }

  function WriteAll(s: Snapshot, ops: seq<WriteOp>): (t: Snapshot)
    requires |s.memory| == |s.perms|
    ensures |t.memory| == |t.perms| == |s.memory|
    decreases |ops|
  {
    if ops == [] then s else WriteAll(WriteStep(s, ops[0]), ops[1..])
  }

  lemma {:induction false} WriteAllKeepsClean(s: Snapshot, ops: seq<WriteOp>, baseMem: seq<bv8>, basePerms: seq<Perm>)
    requires |s.memory| == |s.perms| == |baseMem| == |basePerms|
    requires CleanOutside(s.memory, baseMem, s.dirty) && CleanOutside(s.perms, basePerms, s.dirty)
    ensures var t := WriteAll(s, ops);
      CleanOutside(t.memory, baseMem, t.dirty) && CleanOutside(t.perms, basePerms, t.dirty)
    decreases |ops|
  {
    if ops != [] {
      var op := ops[0];
      if Write(s.memory, s.perms, op.addr, op.data).Some? {
        WriteKeepsClean(s.memory, s.perms, baseMem, basePerms, s.dirty, op.addr, op.data);
      }
      WriteAllKeepsClean(WriteStep(s, op), ops[1..], baseMem, basePerms);
    }
  }

  /** Fork isolation and reset: whatever sequence of writes a fork goes
      through, resetting it from its parent restores the parent's memory and
      permissions exactly. */
  lemma ResetUndoesWrites(mem: seq<bv8>, perms: seq<Perm>, ops: seq<WriteOp>)
    requires |mem| == |perms|
    ensures var t := WriteAll(Fork(mem, perms), ops);
      Restore(t.memory, mem, t.dirty) == mem && Restore(t.perms, perms, t.dirty) == perms
  {
    WriteAllKeepsClean(Fork(mem, perms), ops, mem, perms);
    var t := WriteAll(Fork(mem, perms), ops);
    RestoreUndoes(t.memory, mem, t.dirty);
    RestoreUndoes(t.perms, perms, t.dirty);
  }

  // ---------------------------------------------------------------------
  // Bump allocation

  /** `(size + 0xf) & !0xf`: the size rounded up to a multiple of 16. */
  function AlignUp(size: nat): (r: nat)
    ensures r % 16 == 0 && size <= r < size + 16
  {
    (size + 0xf) - (size + 0xf) % 16
  }

  datatype AllocStep = AllocStep(result: Option<nat>, cursor: nat)

  /** `allocate`: the address handed out and the new cursor. A refused
      allocation leaves the cursor where it was; a granted one returns the old
      cursor and moves it past the rounded-up region, which fits in memory. */
  function Allocate(cursor: nat, size: nat, len: nat): (r: AllocStep)
    ensures r.result.None? ==> r.cursor == cursor
    ensures r.result.Some? ==> r.result.value == cursor && r.cursor == cursor + AlignUp(size)
    ensures r.result.Some? ==> cursor + size <= r.cursor <= len
    ensures len <= USIZE_MAX ==> (r.result.Some? <==> cursor < len && cursor + AlignUp(size) <= len)
  {
    if cursor >= len then AllocStep(None, cursor)
    else match CheckedAdd(cursor, AlignUp(size))
      case None => AllocStep(None, cursor)
      case Some(next) => if next > len then AllocStep(None, cursor) else AllocStep(Some(cursor), next)
  }

  /** Successive `allocate(sizes[i])` calls: the results and the final cursor. */
  function AllocateAll(cursor: nat, sizes: seq<nat>, len: nat): (r: (seq<Option<nat>>, nat))
    ensures |r.0| == |sizes|
    decreases |sizes|
  {
    if sizes == [] then ([], cursor)
    else
      var step := Allocate(cursor, sizes[0], len);
      var rest := AllocateAll(step.cursor, sizes[1..], len);
      ([step.result] + rest.0, rest.1)
  }

  /** Every region handed out starts at or after the cursor, ends at or
      before the final cursor and inside memory; starting from a 16-aligned
      cursor every region is 16-aligned. */
  lemma {:induction false} AllocateAllBounds(cursor: nat, sizes: seq<nat>, len: nat)
    ensures var (rs, fin) := AllocateAll(cursor, sizes, len);
      cursor <= fin && (fin == cursor || fin <= len) &&
      forall i :: 0 <= i < |sizes| && rs[i].Some? ==>
        cursor <= rs[i].value && rs[i].value + sizes[i] <= fin && fin <= len &&
        (cursor % 16 == 0 ==> rs[i].value % 16 == 0)
    decreases |sizes|
  {
    if sizes != [] {
      var step := Allocate(cursor, sizes[0], len);
      AllocateAllBounds(step.cursor, sizes[1..], len);
      var (rs, fin) := AllocateAll(cursor, sizes, len);
      var rest := AllocateAll(step.cursor, sizes[1..], len);
      assert rs == [step.result] + rest.0;
      forall i | 0 <= i < |sizes| && rs[i].Some?
        ensures cursor <= rs[i].value && rs[i].value + sizes[i] <= fin && fin <= len
        ensures cursor % 16 == 0 ==> rs[i].value % 16 == 0
      {
        if i > 0 {
          assert rs[i] == rest.0[i - 1];
        }
      }
    }
  }

  /** Successive allocations never overlap: an earlier region ends at or
      before the start of any later one. */
  lemma {:induction false} AllocationsDisjoint(cursor: nat, sizes: seq<nat>, len: nat)
    ensures var rs := AllocateAll(cursor, sizes, len).0;
      forall i, j :: 0 <= i < j < |sizes| && rs[i].Some? && rs[j].Some? ==>
        rs[i].value + sizes[i] <= rs[j].value
    decreases |sizes|
  {
    if sizes != [] {
      var step := Allocate(cursor, sizes[0], len);
      AllocationsDisjoint(step.cursor, sizes[1..], len);
      AllocateAllBounds(step.cursor, sizes[1..], len);
      var rs := AllocateAll(cursor, sizes, len).0;
      var rest := AllocateAll(step.cursor, sizes[1..], len).0;
      assert rs == [step.result] + rest;
      forall i, j | 0 <= i < j < |sizes| && rs[i].Some? && rs[j].Some?
        ensures rs[i].value + sizes[i] <= rs[j].value
      {
        assert rs[j] == rest[j - 1];
        if i > 0 {
          assert rs[i] == rest[i - 1];
        }
      }
    }
  }

  /** A refused allocation is refused again when retried: it moved nothing. */
  lemma RefusalRepeats(cursor: nat, size: nat, len: nat)
    requires Allocate(cursor, size, len).result.None?
    ensures Allocate(Allocate(cursor, size, len).cursor, size, len).result.None?
  {
  }

  // ---------------------------------------------------------------------
  // The source as written (see README, Findings)

  /** `reset` at fuzzing/src/riscv.rs:94-95 restores `block + BS .. (block + 1) + BS`. */
  function ResetRangeAsWritten(block: nat): (nat, nat) {
    (block + DIRTY_BLOCK_SIZE, (block + 1) + DIRTY_BLOCK_SIZE)
  }

  /** The range restored for a block: the block, cut at the end of memory
      (the inclusive end block of `write_from` can lie just past it). */
  function ResetRange(block: nat, size: nat): (nat, nat) {
    var lo := block * DIRTY_BLOCK_SIZE;
    var hi := (block + 1) * DIRTY_BLOCK_SIZE;
    (if lo < size then lo else size, if hi < size then hi else size)
  }

  /** The corrected range holds exactly the in-memory bytes of the block. */
  lemma ResetRangeCoversBlock(block: nat, size: nat)
    ensures var (lo, hi) := ResetRange(block, size);
      lo <= hi <= size && forall i :: 0 <= i < size ==> (lo <= i < hi <==> BlockOf(i) == block)
  {
  }

  /** As written, the range is a single byte, and it is never the first byte
      of the block. */
  lemma ResetRangeAsWrittenMissesBlock(block: nat)
    ensures var (lo, hi) := ResetRangeAsWritten(block);
      hi == lo + 1 && !(lo <= block * DIRTY_BLOCK_SIZE < hi)
  {
  }

  /** The dirty-marking loop of fuzzing/src/riscv.rs:129-140 as written: the
      bitmap test and update use `start` for every `block`. */
  function MarkAsWritten(list: seq<nat>, marked: set<nat>, start: nat, block: nat, end: nat): (seq<nat>, set<nat>)
    decreases end + 1 - block
  {
    if block > end then (list, marked)
    else if start !in marked then MarkAsWritten(list + [block], marked + {start}, start, block + 1, end)
    else MarkAsWritten(list, marked, start, block + 1, end)
  }

  /** A clean write of two bytes at 4095 touches blocks 0 and 1, but as
      written only block 0 is recorded, so a reset leaves byte 4096 as
      written. */
  lemma MarkAsWrittenMissesSecondBlock()
    ensures var (list, marked) := MarkAsWritten([], {}, 4095 / DIRTY_BLOCK_SIZE, 4095 / DIRTY_BLOCK_SIZE, 4097 / DIRTY_BLOCK_SIZE);
      list == [0] && marked == {0} && Touched(4095, 2) == {0, 1}
    ensures var base := seq(8192, _ => 0 as bv8);
      var written := Splice(base, 4095, [1, 1]);
      Restore(written, base, {0}) != base
  {
    assert Touched(4095, 2) == {0, 1} by {
      forall b | b in Touched(4095, 2) ensures b == 0 || b == 1 {}
    }
    var base := seq(8192, _ => 0 as bv8);
    var written := Splice(base, 4095, [1, 1]);
    assert Restore(written, base, {0})[4096] == 1;
  }

  /** `(size * 0xf) & !0xf` of fuzzing/src/riscv.rs:170, with `usize`
      wrap-around. */
  function AlignAsWritten(size: nat): nat {
    var x := (size * 0xf) % (USIZE_MAX + 1);
    x - x % 16
  }

  /** `allocate` as written: the alignment above, and the cursor stored
      before the final bound check (fuzzing/src/riscv.rs:175-178). */
  function AllocateAsWritten(cursor: nat, size: nat, len: nat): AllocStep {
    if cursor >= len then AllocStep(None, cursor)
    else match CheckedAdd(cursor, AlignAsWritten(size))
      case None => AllocStep(None, cursor)
      case Some(next) => if next > len then AllocStep(None, next) else AllocStep(Some(cursor), next)
  }

  /** As written, `allocate(1)` advances the cursor by 0, so two calls return
      the same address; `allocate(16)` reserves 240 bytes. */
  lemma AsWrittenAllocationsOverlap()
    ensures var a := AllocateAsWritten(INITIAL_CURSOR, 1, 0x100000);
      var b := AllocateAsWritten(a.cursor, 1, 0x100000);
      a.result == Some(INITIAL_CURSOR) && b.result == Some(INITIAL_CURSOR)
    ensures AlignAsWritten(16) == 240
  {
  }

  /** As written, a refused allocation still moves the cursor, and from then
      on even `allocate(0)` is refused. */
  lemma AsWrittenRefusalMovesCursor()
    ensures var a := AllocateAsWritten(INITIAL_CURSOR, 3, 0x10010);
      a.result.None? && a.cursor == 0x10020 &&
      AllocateAsWritten(a.cursor, 0, 0x10010).result.None? &&
      Allocate(INITIAL_CURSOR, 0, 0x10010).result == Some(INITIAL_CURSOR)
  {
  }
}
