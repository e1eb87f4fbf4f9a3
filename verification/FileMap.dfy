/** The size of the mapping and of the file, in the integer widths of the source. */
module FileMaps {
  import opened Common

  const MAX_MAP_SIZE: nat := 0x7fff_ffff
  const ALLOC_SIZE: nat := 16 * 1024 * 1024

  function Pow2(i: nat): nat {
    if i == 0 then 1 else 2 * Pow2(i - 1)
  }

  lemma {:induction false} Pow2Grows(i: nat, j: nat)
    requires i < j
    ensures Pow2(i) < Pow2(j)
    ensures 1 <= Pow2(i)
    decreases j
  {
    Pow2Positive(i);
    if i < j - 1 {
      Pow2Grows(i, j - 1);
    }
  }

  lemma {:induction false} Pow2Positive(i: nat)
    ensures 1 <= Pow2(i)
  {
    if i > 0 {
      Pow2Positive(i - 1);
    }
  }

  lemma Pow2Limits()
    ensures Pow2(15) == 0x8000 && Pow2(30) == 0x4000_0000
  {
    assert Pow2(5) == 32;
    assert Pow2(10) == 1024;
    assert Pow2(15) == 0x8000;
    assert Pow2(20) == 0x10_0000;
    assert Pow2(25) == 0x200_0000;
  }

  /** The least power of two from 2^15 to 2^30 that covers `target`. */
  ghost predicate IsMapSize(target: nat, size: nat) {
    exists i :: 15 <= i <= 30 && IsPower(size, i) && target <= size && (i == 15 || Pow2(i - 1) < target)
  }

  ghost predicate IsPower(size: nat, i: nat) {
    size == Pow2(i)
  }

  /** Of all sizes the loop may pick, the one it picks is the smallest that fits. */
  lemma MapSizeLeast(target: nat, size: nat, k: nat)
    requires IsMapSize(target, size) && 15 <= k <= 30 && target <= Pow2(k)
    ensures size <= Pow2(k) && 0x8000 <= size <= 0x4000_0000
  {
    Pow2Limits();
    var i :| 15 <= i <= 30 && IsPower(size, i) && target <= size && (i == 15 || Pow2(i - 1) < target);
    if k < i {
      if k < i - 1 {
        Pow2Grows(k, i - 1);
      }
    } else if i < k {
      Pow2Grows(i, k);
    }
    if i > 15 {
      Pow2Grows(15, i);
    }
    if i < 30 {
      Pow2Grows(i, 30);
    }
  }

  datatype SizeResult = Size(bytes: nat) | TooLarge | AssertionFails

  method GetMmapSize(target: nat) returns (r: SizeResult)
    requires target < UINT32_LIMIT
    ensures r.Size? <==> target <= 0x4000_0000
    ensures r.Size? ==> IsMapSize(target, r.bytes) && target <= r.bytes && 0x8000 <= r.bytes <= 0x4000_0000
    ensures r.TooLarge? <==> target > MAX_MAP_SIZE
  {
    Pow2Limits();
    for i := 15 to 31
      invariant i > 15 ==> Pow2(i - 1) < target
    {
      if target <= Pow2(i) {
        assert IsPower(Pow2(i), i);
        if i < 30 {
          Pow2Grows(i, 30);
        }
        MapSizeLeast(target, Pow2(i), 30);
        return Size(Pow2(i));
      }
    }
    return if target > MAX_MAP_SIZE then TooLarge else AssertionFails;
  }

  /** Conversion to the 32-bit signed type of `minLen`. */
  function ToInt32(x: nat): int {
    var low := x % UINT32_LIMIT;
    if low < 0x8000_0000 then low else low - UINT32_LIMIT
  }

  function Larger(a: nat, b: nat): nat {
    if a < b then b else a
  }

  predicate Spans(bytes: nat, pages: nat) {
    pages * PAGE_SIZE <= bytes
  }

  /** What `initMeta` makes of a mapping of `before` bytes: unchanged while the size or `munmap` fails, lost when
      `mmap` fails, else of the least size, also when neither meta in it is valid. */
  ghost predicate Remaps(before: nat, filesz: nat, want: nat, unmapped: bool, mapped: bool, valid: bool, after: nat, ok: bool) {
    if filesz < 2 * PAGE_SIZE || Larger(filesz, want) > 0x4000_0000 || !unmapped then !ok && after == before
    else if !mapped then !ok && after == 0
    else IsMapSize(Larger(filesz, want), after) && Larger(filesz, want) <= after && ok == valid
  }

  /** The old mapping goes and no new one comes. */
  predicate Loses(filesz: nat, want: nat, unmapped: bool, mapped: bool) {
    2 * PAGE_SIZE <= filesz && Larger(filesz, want) <= 0x4000_0000 && unmapped && !mapped
  }

  /** Whether a file that has to grow reaches `sz`: small mappings cap it, large sizes wrap. */
  ghost predicate Reaches(sz: nat, datasz: nat) {
    if datasz <= ALLOC_SIZE then sz <= datasz else sz + ALLOC_SIZE < UINT32_LIMIT
  }

  class FileMap {
    var datasz: nat
    var filesz: nat

    ghost predicate Valid() reads this {
      datasz <= 0x4000_0000 && filesz < UINT32_LIMIT
    }

    /** The mapping reaches one page past the high-water mark. */
    ghost predicate Covers(total: nat) reads this {
      Spans(datasz, total + 1)
    }

    constructor (filesz: nat)
      requires filesz < UINT32_LIMIT
      ensures Valid() && datasz == 0 && this.filesz == filesz
    {
      datasz, this.filesz := 0, filesz;
    }

    /** `unmapped`, `mapped`: whether the system calls succeed; `valid`: whether one of the mapped metas is valid. */
    method InitMeta(initial: nat, unmapped: bool, mapped: bool, valid: bool) returns (ok: bool)
      requires Valid() && initial < UINT32_LIMIT
      modifies this`datasz
      ensures Valid() && Remaps(old(datasz), filesz, initial, unmapped, mapped, valid, datasz, ok)
    {
      if filesz < PAGE_SIZE * 2 {
        return false;
      }
      var target := if filesz < initial then initial else filesz;
      var size := GetMmapSize(target);
      if !size.Size? || !unmapped {
        return false;
      }
      datasz := 0;
      if !mapped {
        return false;
      }
      datasz := size.bytes;
      return valid;
    }

    /** The part of an allocation that moves the high-water mark from `total` to `total + n`. */
    method Reserve(total: nat, n: nat, unmapped: bool, mapped: bool, valid: bool) returns (ok: bool)
      requires Valid() && n < MAX_ALLOCATION
      requires total * PAGE_SIZE <= 0x4000_0000
      modifies this`datasz
      ensures Valid()
      ensures if old(Covers(total + n)) then ok && datasz == old(datasz)
              else Remaps(old(datasz), filesz, (total + n + 1) * PAGE_SIZE, unmapped, mapped, valid, datasz, ok)
      ensures ok ==> Covers(total + n)
      ensures Covers(total + n) || datasz == old(datasz) || datasz == 0
    {
      var minLen := ToInt32((total + n + 1) * PAGE_SIZE);
      assert minLen == (total + n + 1) * PAGE_SIZE;
      if minLen > datasz {
        ok := InitMeta(minLen, unmapped, mapped, valid);
        return ok;
      }
      return true;
    }

    /** Grows the file in steps; `truncated`: whether the system calls succeed. */
    method Grow(sz: nat, truncated: bool) returns (ok: bool)
      requires Valid() && sz < UINT32_LIMIT
      modifies this`filesz
      ensures Valid()
      ensures ok <==> sz <= old(filesz) || truncated
      ensures !ok || sz <= old(filesz) ==> filesz == old(filesz)
      ensures ok ==> (sz <= filesz <==> sz <= old(filesz) || Reaches(sz, datasz))
      ensures ok && (sz <= old(filesz) || Reaches(sz, datasz)) ==> old(filesz) <= filesz
      ensures ok && old(filesz) < sz ==>
                filesz == if datasz <= 0x100_0000 then datasz else (sz + 0x100_0000) % UINT32_LIMIT
    {
      if sz <= filesz {
        return true;
      }
      var size := if datasz <= ALLOC_SIZE then datasz else (sz + ALLOC_SIZE) % UINT32_LIMIT;
      if !truncated {
        return false;
      }
      filesz := size;
      return true;
    }
  }

  lemma PagesEnd(pages: nat, total: nat, bytes: nat)
    requires bytes == 4096 * pages && 4096 * total <= bytes
    ensures 4096 * (total + 1) <= bytes <==> bytes != 4096 * total
  {
  }

  lemma PickedItself(target: nat, size: nat)
    requires IsMapSize(target, size)
    ensures IsMapSize(target, target) <==> target == size
  {
    hide Pow2;
    if IsMapSize(target, target) {
      var i :| 15 <= i <= 30 && IsPower(target, i);
      MapSizeLeast(target, size, i);
    }
  }

  /** A page past the last one is mapped, unless what is to be mapped ends with the last page and has a size the loop
      picks. */
  lemma SpareUnlessExact(total: nat, target: nat, datasz: nat)
    requires IsMapSize(target, datasz) && Spans(target, total)
    ensures Spans(datasz, total + 1) <==> !(target == total * PAGE_SIZE && IsMapSize(target, target))
  {
    hide IsMapSize, Pow2;
    var pages := MappedPages(target, datasz);
    PagesEnd(pages, total, datasz);
    PickedItself(target, datasz);
  }

  lemma MappedPages(target: nat, datasz: nat) returns (pages: nat)
    requires IsMapSize(target, datasz)
    ensures datasz == 4096 * pages && target <= datasz
  {
    hide Pow2;
    var i :| 15 <= i <= 30 && IsPower(datasz, i) && target <= datasz;
    Pow2Pages(i);
    Pow2Positive(i - 12);
    pages := Pow2(i - 12);
  }

  /** Eight pages in a file of 32 KB: the mapping ends with them. */
  lemma ExactMapping()
    ensures IsMapSize(0x8000, 0x8000) && Spans(0x8000, 8) && !Spans(0x8000, 9)
  {
    Pow2Limits();
    assert IsPower(0x8000, 15);
  }

  lemma {:induction false} Pow2Pages(i: nat)
    requires 12 <= i
    ensures Pow2(i) == 4096 * Pow2(i - 12)
  {
    if i == 12 {
      assert Pow2(6) == 64;
    } else {
      Pow2Pages(i - 1);
    }
  }
}
