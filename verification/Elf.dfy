/** The loader a 64-bit ELF program names (src/preload.rs; System V ABI, chapter 5, "Program Header"). */
module Elf {
  import opened Text

  const PATH_MAX: nat := 4096
  const PT_INTERP := 3
  const HEADER_SIZE: nat := 64
  const ENTRY_SIZE: nat := 56
  const U64: nat := 0x1_0000_0000_0000_0000
  const OFF_MAX: nat := 0x8000_0000_0000_0000

  /** `pread(fd, dst, n, off)`: an offset beyond `off_t` is negative and fails. */
  function Pread(file: string, n: nat, off: nat): Option<string> {
    if off >= OFF_MAX then None
    else if off >= |file| then Some("")
    else if off + n <= |file| then Some(file[off..off + n])
    else Some(file[off..])
  }

  /** The whole of an `n`-byte record, or nothing. */
  function Record(file: string, n: nat, off: nat): (r: Option<string>)
    ensures r.Some? ==> |r.value| == n
  {
    match Pread(file, n, off)
    case Some(b) => if |b| == n then Some(b) else None
    case None => None
  }

  predicate IsHeader(eh: string)
    requires |eh| == HEADER_SIZE
  {
    eh[..4] == "\U{7f}ELF" && eh[4] as int == 2 && eh[5] as int == 1 && LittleEndian(eh[54..56]) >= ENTRY_SIZE
  }

  /** The header of a 64-bit little-endian program with entries of a usable size. */
  function Header(file: string): (eh: Option<string>)
    ensures eh.Some? ==> |eh.value| == HEADER_SIZE && IsHeader(eh.value)
  {
    match Record(file, HEADER_SIZE, 0)
    case Some(eh) => if IsHeader(eh) then Some(eh) else None
    case None => None
  }

  function EntryCount(eh: string): nat
    requires |eh| == HEADER_SIZE
  {
    LittleEndian(eh[56..58])
  }

  /** Program header entry `i`; the offset is a 64-bit sum. */
  function ProgramHeader(file: string, eh: string, i: nat): (ph: Option<string>)
    requires |eh| == HEADER_SIZE
    ensures ph.Some? ==> |ph.value| == ENTRY_SIZE
  {
    Record(file, ENTRY_SIZE, (LittleEndian(eh[32..40]) + i * LittleEndian(eh[54..56])) % U64)
  }

  predicate NamesInterp(ph: string)
    requires |ph| == ENTRY_SIZE
  {
    LittleEndian(ph[..4]) == PT_INTERP
  }

  /** The path an entry points at: at most `PATH_MAX - 1` bytes, up to a NUL. */
  function PathAt(file: string, ph: string): Option<string>
    requires |ph| == ENTRY_SIZE
  {
    match Pread(file, Min(LittleEndian(ph[32..40]), PATH_MAX - 1), LittleEndian(ph[8..16]))
    case Some(b) => if b == "" then None else Some(UpToNul(b))
    case None => None
  }

  function ScanFrom(file: string, eh: string, i: nat): Option<string>
    requires |eh| == HEADER_SIZE
    decreases EntryCount(eh) - i
  {
    if i >= EntryCount(eh) then None
    else
      match ProgramHeader(file, eh, i)
      case None => None
      case Some(ph) => if NamesInterp(ph) then PathAt(file, ph) else ScanFrom(file, eh, i + 1)
  }

  function Interp(file: string): Option<string> {
    match Header(file)
    case Some(eh) => ScanFrom(file, eh, 0)
    case None => None
  }

  /** The loader's path, NUL-terminated in `buf`; how long it is, or nothing for a program that names none. */
  method ElfInterp(file: string, buf: array<char>) returns (len: Option<nat>)
    requires buf.Length == PATH_MAX
    modifies buf
    ensures len.None? ==> Interp(file).None?
    ensures len.Some? ==> len.value < PATH_MAX && buf[len.value] == NUL && Interp(file) == Some(buf[..len.value])
  {
    hide LittleEndian;
    var eh := Pread(file, HEADER_SIZE, 0);
    if eh.None? || |eh.value| != HEADER_SIZE || eh.value[..4] != "\U{7f}ELF"
       || eh.value[4] as int != 2 || eh.value[5] as int != 1 {
      return None;
    }
    var h := eh.value;
    var phoff, phentsize, phnum := LittleEndian(h[32..40]), LittleEndian(h[54..56]), LittleEndian(h[56..58]);
    if phentsize < ENTRY_SIZE {
      return None;
    }
    for i := 0 to phnum
      invariant Header(file) == Some(h) && Interp(file) == ScanFrom(file, h, i)
    {
      var ph := Pread(file, ENTRY_SIZE, (phoff + i * phentsize) % U64);
      if ph.None? || |ph.value| != ENTRY_SIZE {
        return None;
      }
      if LittleEndian(ph.value[..4]) != PT_INTERP {
        continue;
      }
      var size := Min(LittleEndian(ph.value[32..40]), buf.Length - 1);
      var b := Pread(file, size, LittleEndian(ph.value[8..16]));
      if b.None? || b.value == "" {
        return None;
      }
      CopyInto(b.value, buf);
      var n := IndexOf(b.value, NUL);
      buf[n] := NUL;
      assert buf[..n] == b.value[..n];
      return Some(n);
    }
    return None;
  }

  method CopyInto(src: string, buf: array<char>)
    requires |src| <= buf.Length
    modifies buf
    ensures buf[..|src|] == src
    ensures forall j :: |src| <= j < buf.Length ==> buf[j] == old(buf[j])
  {
    for i := 0 to |src|
      invariant buf[..i] == src[..i]
      invariant forall j :: i <= j < buf.Length ==> buf[j] == old(buf[j])
    {
      buf[i] := src[i];
    }
  }

  /** `i` is the first entry naming a loader, and every entry before it can be read. */
  ghost predicate FirstInterp(file: string, eh: string, i: nat)
    requires |eh| == HEADER_SIZE
  {
    && i < EntryCount(eh)
    && (forall j :: 0 <= j <= i ==> ProgramHeader(file, eh, j).Some?)
    && (forall j :: 0 <= j < i ==> !NamesInterp(ProgramHeader(file, eh, j).value))
    && NamesInterp(ProgramHeader(file, eh, i).value)
  }

  lemma {:induction false} ScanFinds(file: string, eh: string, from: nat, i: nat)
    requires |eh| == HEADER_SIZE && FirstInterp(file, eh, i) && from <= i
    ensures ScanFrom(file, eh, from) == PathAt(file, ProgramHeader(file, eh, i).value)
    decreases i - from
  {
    if from < i {
      ScanFinds(file, eh, from + 1, i);
    }
  }

  lemma {:induction false} ScanFound(file: string, eh: string, from: nat) returns (i: nat)
    requires |eh| == HEADER_SIZE && ScanFrom(file, eh, from).Some?
    requires forall j :: 0 <= j < from ==> ProgramHeader(file, eh, j).Some? && !NamesInterp(ProgramHeader(file, eh, j).value)
    ensures FirstInterp(file, eh, i)
    decreases EntryCount(eh) - from
  {
    if NamesInterp(ProgramHeader(file, eh, from).value) {
      i := from;
    } else {
      i := ScanFound(file, eh, from + 1);
    }
  }

  /** The reader is exact: it answers the path of the first loader entry, and nothing else. */
  lemma {:induction false} InterpIsExact(file: string, path: string)
    ensures Interp(file) == Some(path) <==>
            Header(file).Some? &&
            exists i: nat :: FirstInterp(file, Header(file).value, i) &&
                             PathAt(file, ProgramHeader(file, Header(file).value, i).value) == Some(path)
    ensures Interp(file) == Some(path) ==> |path| < PATH_MAX && Free(path, NUL)
  {
    if Header(file).Some? {
      var eh := Header(file).value;
      if Interp(file) == Some(path) {
        var i := ScanFound(file, eh, 0);
        ScanFinds(file, eh, 0, i);
      }
      if i: nat :| FirstInterp(file, eh, i) && PathAt(file, ProgramHeader(file, eh, i).value) == Some(path) {
        ScanFinds(file, eh, 0, i);
      }
    }
  }

  // What the reader makes of a program's bytes.

  /** A file that starts like a 64-bit little-endian program and holds a whole table of `n` entries of
      `size` bytes from `start` on. */
  ghost predicate HoldsTable(file: string, start: nat, size: nat, n: nat) {
    && 64 <= |file| < OFF_MAX
    && file[..4] == "\U{7f}ELF" && file[4] as int == 2 && file[5] as int == 1
    && LittleEndian(file[32..40]) == start && LittleEndian(file[54..56]) == size && LittleEndian(file[56..58]) == n
    && size >= 56 && EntryAt(start, size, n) <= |file|
  }

  function EntryAt(start: nat, size: nat, i: nat): nat {
    start + i * size
  }

  /** The entry's type is PT_INTERP. */
  predicate LoaderEntry(file: string, at: nat)
    requires at + 56 <= |file|
  {
    LittleEndian(file[at..at + 4]) == 3
  }

  lemma {:induction false} EntryInside(start: nat, size: nat, n: nat, i: nat, end: nat)
    requires i < n && size >= 56 && EntryAt(start, size, n) <= end
    ensures EntryAt(start, size, i) + 56 <= end
    decreases n
  {
    OneFurther(start, size, n - 1);
    if i < n - 1 {
      hide EntryAt;
      EntryInside(start, size, n - 1, i, end);
    }
  }

  lemma OneFurther(start: nat, size: nat, i: nat)
    ensures EntryAt(start, size, i + 1) == EntryAt(start, size, i) + size
  {
  }

  /** None of the first `k` entries names a loader. */
  ghost predicate NoLoaderBefore(file: string, start: nat, size: nat, k: nat) {
    forall i :: 0 <= i < k ==> EntryAt(start, size, i) + 56 <= |file| ==> !LoaderEntry(file, EntryAt(start, size, i))
  }

  lemma {:induction false} EntryRead(file: string, start: nat, size: nat, n: nat, i: nat)
    requires HoldsTable(file, start, size, n) && i < n
    ensures Header(file) == Some(file[..64]) && EntryCount(file[..64]) == n
    ensures EntryAt(start, size, i) + 56 <= |file|
    ensures ProgramHeader(file, file[..64], i) == Some(file[EntryAt(start, size, i)..EntryAt(start, size, i) + 56])
    ensures NamesInterp(file[EntryAt(start, size, i)..EntryAt(start, size, i) + 56])
            <==> LoaderEntry(file, EntryAt(start, size, i))
  {
    hide LittleEndian;
    HeaderRead(file, start, size, n);
    EntryInside(start, size, n, i, |file|);
    var at := EntryAt(start, size, i);
    assert file[at..at + 56][..4] == file[at..at + 4];
  }

  lemma {:induction false} HeaderRead(file: string, start: nat, size: nat, n: nat)
    requires HoldsTable(file, start, size, n)
    ensures Header(file) == Some(file[..64]) && EntryCount(file[..64]) == n
    ensures LittleEndian(file[..64][32..40]) == start && LittleEndian(file[..64][54..56]) == size
  {
    hide LittleEndian;
    assert file[0..64] == file[..64];
    assert file[..64][..4] == file[..4];
    assert file[..64][32..40] == file[32..40];
    assert file[..64][54..56] == file[54..56] && file[..64][56..58] == file[56..58];
  }

  lemma {:induction false} ScanSkips(file: string, start: nat, size: nat, n: nat, k: nat, from: nat)
    requires HoldsTable(file, start, size, n) && from <= k <= n && NoLoaderBefore(file, start, size, k)
    ensures ScanFrom(file, file[..64], from) == ScanFrom(file, file[..64], k)
    decreases k - from
  {
    hide ProgramHeader, NamesInterp, LoaderEntry, EntryAt, EntryCount, HoldsTable;
    if from < k {
      EntryRead(file, start, size, n, from);
      ScanSkips(file, start, size, n, k, from + 1);
    }
  }

  /** For a table of any number of entries of any size: entry `k`, the first of type PT_INTERP, gives
      the path at its offset, up to a NUL, its size, the buffer's or the file's end; an empty range
      gives none. */
  lemma {:induction false} FirstLoaderIsNamed(file: string, start: nat, size: nat, n: nat, k: nat)
    requires HoldsTable(file, start, size, n) && k < n && NoLoaderBefore(file, start, size, k)
    ensures EntryAt(start, size, k) + 56 <= |file|
    ensures LoaderEntry(file, EntryAt(start, size, k)) ==>
              var at := EntryAt(start, size, k);
              var off, len := LittleEndian(file[at + 8..at + 16]), LittleEndian(file[at + 32..at + 40]);
              Interp(file) ==
              if off >= |file| || len == 0 then None
              else Some(UpToNul(file[off..Min(|file|, off + Min(len, 4095))]))
  {
    hide *;
    TableFits(file, start, size, n);
    EntryRead(file, start, size, n, k);
    ScanSkips(file, start, size, n, k, 0);
    var at := EntryAt(start, size, k);
    if LoaderEntry(file, at) {
      LoaderScanned(file, file[..64], k, file[at..at + 56]);
      PathRead(file, at);
    }
  }

  lemma LoaderScanned(file: string, eh: string, k: nat, ph: string)
    requires |eh| == HEADER_SIZE && Header(file) == Some(eh) && k < EntryCount(eh)
    requires ProgramHeader(file, eh, k) == Some(ph) && |ph| == ENTRY_SIZE && NamesInterp(ph)
    requires ScanFrom(file, eh, 0) == ScanFrom(file, eh, k)
    ensures Interp(file) == PathAt(file, ph)
  {
  }

  lemma TableFits(file: string, start: nat, size: nat, n: nat)
    requires HoldsTable(file, start, size, n)
    ensures 64 <= |file| < OFF_MAX && HEADER_SIZE == 64 && ENTRY_SIZE == 56
  {
  }

  lemma SliceOfSlice(s: string, at: nat, n: nat, i: nat, j: nat)
    requires at + n <= |s| && i <= j <= n
    ensures s[at..at + n][i..j] == s[at + i..at + j]
  {
    var t := s[at..at + n];
    assert forall k :: i <= k < j ==> t[k] == s[at + k];
    assert |t[i..j]| == |s[at + i..at + j]|;
    assert forall k :: 0 <= k < j - i ==> t[i..j][k] == s[at + i..at + j][k];
  }

  lemma {:induction false} PathRead(file: string, at: nat)
    requires at + 56 <= |file| < OFF_MAX
    ensures var off, len := LittleEndian(file[at + 8..at + 16]), LittleEndian(file[at + 32..at + 40]);
            PathAt(file, file[at..at + 56]) ==
            if off >= |file| || len == 0 then None
            else Some(UpToNul(file[off..Min(|file|, off + Min(len, 4095))]))
  {
    hide LittleEndian, UpToNul;
    SliceOfSlice(file, at, 56, 8, 16);
    SliceOfSlice(file, at, 56, 32, 40);
    var off, len := LittleEndian(file[at + 8..at + 16]), LittleEndian(file[at + 32..at + 40]);
    var n := Min(len, 4095);
    if off < |file| {
      assert file[off..|file|] == file[off..];
    }
  }

  /** A program without such an entry names no loader. */
  lemma {:induction false} StaticNamesNone(file: string, start: nat, size: nat, n: nat)
    requires HoldsTable(file, start, size, n) && NoLoaderBefore(file, start, size, n)
    ensures Interp(file) == None
  {
    hide LittleEndian, HoldsTable, NoLoaderBefore;
    HeaderRead(file, start, size, n);
    ScanSkips(file, start, size, n, n, 0);
  }

  /** Nor does anything but a 64-bit little-endian program with entries of at least 56 bytes. */
  lemma {:induction false} OthersNameNone(file: string)
    requires || |file| < 64 || file[..4] != "\U{7f}ELF" || file[4] as int != 2 || file[5] as int != 1
             || LittleEndian(file[54..56]) < 56
    ensures Interp(file) == None
  {
    hide LittleEndian;
    if |file| >= 64 {
      assert file[0..64] == file[..64] && file[..64][..4] == file[..4] && file[..64][54..56] == file[54..56];
    }
  }
}
