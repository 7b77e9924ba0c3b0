/** The state the character device keeps between calls: the file position `lseek` moves and the
    global mode `write` selects, which decides the algorithm a later `read` runs. */
module Device {
  import opened Machine
  import Fibonacci

  /** The largest position a seek reaches (`MAX_LENGTH`, fibdrv.c:24). */
  const MAX_POS: int64 := Fibonacci.MAX_LENGTH as int64

  const SEEK_SET: int32 := 0
  const SEEK_CUR: int32 := 1
  const SEEK_END: int32 := 2

  /** The position `fib_device_lseek` computes before clamping: `new_pos` after the switch, with
      the 64-bit sums wrapping and 0 for an unknown `orig`. */
  function Target(pos: int64, offset: int64, whence: int32): (r: int64)
    ensures whence == SEEK_SET ==> r == offset
    ensures whence == SEEK_CUR
            ==> r % 0x1_0000_0000_0000_0000 == (pos + offset) % 0x1_0000_0000_0000_0000
    ensures whence == SEEK_CUR && -0x8000_0000_0000_0000 <= pos + offset < 0x8000_0000_0000_0000
            ==> r == pos + offset
    ensures whence == SEEK_END
            ==> r % 0x1_0000_0000_0000_0000 == (MAX_POS - offset) % 0x1_0000_0000_0000_0000
    ensures whence == SEEK_END && MAX_POS - offset < 0x8000_0000_0000_0000 ==> r == MAX_POS - offset
    ensures whence != SEEK_SET && whence != SEEK_CUR && whence != SEEK_END ==> r == 0
  {
    if whence == SEEK_SET then offset
    else if whence == SEEK_CUR then Wrap64(pos + offset)
    else if whence == SEEK_END then Wrap64(MAX_POS as int - offset)
    else 0
  }

  /** The target clamped into [0, MAX_LENGTH]. */
  function Clamp(p: int64): (r: int64)
    ensures 0 <= r <= MAX_POS
    ensures 0 <= p <= MAX_POS ==> r == p
    ensures p > MAX_POS ==> r == MAX_POS
    ensures p < 0 ==> r == 0
  {
    if p > MAX_POS then MAX_POS else if p < 0 then 0 else p
  }

  /** The position a seek from `pos` lands on. */
  function SeekPosition(pos: int64, offset: int64, whence: int32): int64
  {
    Clamp(Target(pos, offset, whence))
  }

  /** SEEK_SET goes to `offset`, clamped into the range. */
  lemma SeekSet(pos: int64, offset: int64)
    ensures 0 <= offset <= MAX_POS ==> SeekPosition(pos, offset, SEEK_SET) == offset
    ensures offset > MAX_POS ==> SeekPosition(pos, offset, SEEK_SET) == MAX_POS
    ensures offset < 0 ==> SeekPosition(pos, offset, SEEK_SET) == 0
  {
  }

  /** From a position in range, SEEK_CUR moves by `offset`, clamped, as long as the sum does not
      leave the 64-bit range; SEEK_CUR by 0 stays put. */
  lemma SeekCur(pos: int64, offset: int64)
    requires 0 <= pos <= MAX_POS && offset < 0x8000_0000_0000_0000 - MAX_POS
    ensures 0 <= pos + offset <= MAX_POS ==> SeekPosition(pos, offset, SEEK_CUR) == pos + offset
    ensures pos + offset > MAX_POS ==> SeekPosition(pos, offset, SEEK_CUR) == MAX_POS
    ensures pos + offset < 0 ==> SeekPosition(pos, offset, SEEK_CUR) == 0
    ensures offset == 0 ==> SeekPosition(pos, offset, SEEK_CUR) == pos
  {
    WrapSmall(pos + offset);
  }

  /** SEEK_END goes `offset` back from MAX_LENGTH, clamped, while the difference fits 64 bits. */
  lemma SeekEnd(pos: int64, offset: int64)
    requires offset > -0x8000_0000_0000_0000 + MAX_POS
    ensures 0 <= offset <= MAX_POS ==> SeekPosition(pos, offset, SEEK_END) == MAX_POS - offset
    ensures offset < 0 ==> SeekPosition(pos, offset, SEEK_END) == MAX_POS
    ensures offset > MAX_POS ==> SeekPosition(pos, offset, SEEK_END) == 0
  {
    WrapSmall(MAX_POS as int - offset);
  }

  /** Any other `orig` goes to position 0. */
  lemma SeekOther(pos: int64, offset: int64, whence: int32)
    requires whence != SEEK_SET && whence != SEEK_CUR && whence != SEEK_END
    ensures SeekPosition(pos, offset, whence) == 0
  {
  }

  /** Every position in range is reached from anywhere by SEEK_SET to it and by SEEK_END to
      its distance from the end. */
  lemma SeekRoundTrip(pos: int64, p: int64)
    requires 0 <= p <= MAX_POS
    ensures SeekPosition(pos, p, SEEK_SET) == p
    ensures SeekPosition(pos, MAX_POS - p, SEEK_END) == p
  {
    WrapSmall(p as int);
  }

  /** Far seeks wrap: SEEK_CUR by the largest offset from position 1, and SEEK_END by the
      smallest offset, overflow the 64-bit sum and land on 0 instead of MAX_LENGTH. */
  lemma SeekWraps()
    ensures SeekPosition(1, 0x7fff_ffff_ffff_ffff, SEEK_CUR) == 0
    ensures SeekPosition(0, -0x8000_0000_0000_0000, SEEK_END) == 0
  {
    WrapBelow(1 + 0x7fff_ffff_ffff_ffff);
    WrapBelow(MAX_POS as int + 0x8000_0000_0000_0000);
  }

  lemma WrapSmall(x: int)
    requires -0x8000_0000_0000_0000 <= x < 0x8000_0000_0000_0000
    ensures Wrap64(x) == x
  {
  }

  lemma WrapBelow(x: int)
    requires 0x8000_0000_0000_0000 <= x < 0x8000_0000_0000_0000 + 0x8000_0000_0000_0000
    ensures Wrap64(x) == x - 0x1_0000_0000_0000_0000 && Wrap64(x) < 0
  {
  }

  /** An open file of the device; only its position matters here. */
  class File {
    var fPos: int64

    /** A file opens at position 0. */
    constructor ()
      ensures fPos == 0
    {
      fPos := 0;
    }

    /** `fib_device_lseek` (fibdrv.c:265-286). */
    method Lseek(offset: int64, whence: int32) returns (pos: int64)
      modifies this
      ensures pos == SeekPosition(old(fPos), offset, whence)
      ensures 0 <= pos <= MAX_POS && fPos == pos
    {
      var newPos: int64 := 0;
      if whence == SEEK_SET {
        newPos := offset;
      } else if whence == SEEK_CUR {
        newPos := Wrap64(fPos + offset);
      } else if whence == SEEK_END {
        newPos := Wrap64(MAX_POS as int - offset);
      }
      if newPos > MAX_POS {
        newPos := MAX_POS;
      }
      if newPos < 0 {
        newPos := 0;
      }
      fPos := newPos;
      pos := newPos;
    }
  }

  /** `enum fibdrv_mode` (fibdrv.h:4-11). */
  const FIBDRV_BIGNUM_FAST: uint32 := 0
  const FIBDRV_BIGNUM_ORIG: uint32 := 1
  const FIBDRV_LL_FAST: uint32 := 2
  const FIBDRV_LL_ORIG: uint32 := 3
  const FIBDRV_TIME: uint32 := 4
  const FIBDRV_MODE_SIZE: uint32 := 5

  /** `sizeof(mode)`: the enum is stored in 4 bytes. */
  const MODE_BYTES: uint64 := 4

  /** The mode a write leaves behind, and what it returns: the written word when the write is
      one mode-sized word naming a mode, unchanged if copying it fails, the first mode otherwise.
      A write that returns -1 changes nothing; one that returns 1 selects the word or the first
      mode. */
  function WriteOutcome(mode: uint32, size: uint64, word: uint32, copyFails: bool)
    : (r: (uint32, int64))
    ensures r.1 == 1 || r.1 == -1
    ensures r.1 == -1 ==> r.0 == mode
    ensures r.1 == 1 ==> r.0 == word || r.0 == FIBDRV_BIGNUM_FAST
  {
    if size == MODE_BYTES && word < FIBDRV_MODE_SIZE then
      if copyFails then (mode, -1) else (word, 1)
    else (FIBDRV_BIGNUM_FAST, 1)
  }

  /** A write never leaves the mode outside the table of read algorithms, whatever it writes. */
  lemma WriteKeepsMode(mode: uint32, size: uint64, word: uint32, copyFails: bool)
    requires mode < FIBDRV_MODE_SIZE
    ensures WriteOutcome(mode, size, word, copyFails).0 < FIBDRV_MODE_SIZE
  {
  }

  /** Unless the copy fails, the mode a write selects does not depend on the mode before it,
      and it is the written word exactly when that word names a mode in a mode-sized write. */
  lemma WriteForgets(mode1: uint32, mode2: uint32, size: uint64, word: uint32)
    ensures WriteOutcome(mode1, size, word, false) == WriteOutcome(mode2, size, word, false)
    ensures WriteOutcome(mode1, size, word, false).0 == word
            <==> (size == MODE_BYTES && word < FIBDRV_MODE_SIZE) || word == FIBDRV_BIGNUM_FAST
  {
  }

  /** The write returns -1 exactly when a valid mode word fails to copy in, and 1 otherwise. */
  lemma WriteResult(mode: uint32, size: uint64, word: uint32, copyFails: bool)
    ensures WriteOutcome(mode, size, word, copyFails).1 == -1
            <==> size == MODE_BYTES && word < FIBDRV_MODE_SIZE && copyFails
    ensures WriteOutcome(mode, size, word, copyFails).1 != -1
            ==> WriteOutcome(mode, size, word, copyFails).1 == 1
  {
  }

  /** The driver's global state. */
  class Driver {
    var mode: uint32

    ghost predicate Valid()
      reads this
    {
      mode < FIBDRV_MODE_SIZE
    }

    /** The module loads in the first mode, `FIBDRV_BIGNUM_FAST` (fibdrv.c:33). */
    constructor ()
      ensures mode == FIBDRV_BIGNUM_FAST && Valid()
    {
      mode := FIBDRV_BIGNUM_FAST;
    }

    /** `fib_write` (fibdrv.c:252-263). `word` is the 32-bit word at the start of the user
        buffer, which the source inspects only when `size` is 4; `copyFails` is whether
        `copy_from_user` reports bytes it could not copy. */
    method Write(size: uint64, word: uint32, copyFails: bool) returns (r: int64)
      modifies this
      ensures (mode, r) == WriteOutcome(old(mode), size, word, copyFails)
      ensures old(Valid()) ==> Valid()
    {
      if size == MODE_BYTES && word < FIBDRV_MODE_SIZE {
        if copyFails {
          return -1;
        }
        mode := word;
      } else {
        mode := FIBDRV_BIGNUM_FAST;
      }
      r := 1;
    }
  }
}
