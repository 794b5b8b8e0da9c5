/** A smallest program file that names a loader. */
module TinyPrograms {
  import opened Text
  import opened Elf
  import opened Exec

  /** A small number in `n` bytes, lowest first. */
  function Small(v: nat, n: nat): (b: string)
    requires v < 256 && n > 0
    ensures |b| == n
  {
    [v as char] + Zeros(n - 1)
  }

  lemma {:induction false} ZerosAreZero(n: nat)
    ensures LittleEndian(Zeros(n)) == 0
  {
    if n > 0 {
      assert Zeros(n)[1..] == Zeros(n - 1);
      ZerosAreZero(n - 1);
    }
  }

  lemma {:induction false} SmallReadsBack(v: nat, n: nat)
    requires v < 256 && n > 0
    ensures LittleEndian(Small(v, n)) == v
  {
    assert Small(v, n)[1..] == Zeros(n - 1);
    ZerosAreZero(n - 1);
  }

  function TinyHeader(): (h: string)
    ensures |h| == HEADER_SIZE
  {
    "\U{7f}ELF" + [2 as char, 1 as char] + Zeros(26) + Small(64, 8) + Zeros(14) + Small(56, 2) + Small(1, 2) + Zeros(6)
  }

  function TinyEntry(size: nat): (ph: string)
    requires size < 256
    ensures |ph| == ENTRY_SIZE
  {
    Small(3, 4) + Zeros(4) + Small(120, 8) + Zeros(16) + Small(size, 8) + Zeros(16)
  }

  function ProgramFile(interp: string): string
    requires |interp| < 255
  {
    TinyHeader() + TinyEntry(|interp| + 1) + (interp + [NUL])
  }

  lemma Middle(a: string, b: string, c: string)
    ensures (a + b + c)[|a|..|a| + |b|] == b
  {
  }

  lemma {:induction false} HeaderFields()
    ensures IsHeader(TinyHeader()) && EntryCount(TinyHeader()) == 1
    ensures LittleEndian(TinyHeader()[32..40]) == 64
  {
    hide LittleEndian, Zeros;
    var h := TinyHeader();
    assert h[..4] == "\U{7f}ELF" && h[4] == 2 as char && h[5] == 1 as char;
    var front := "\U{7f}ELF" + [2 as char, 1 as char] + Zeros(26);
    var mid, end := front + Small(64, 8) + Zeros(14), Small(1, 2) + Zeros(6);
    assert |front| == 32 && |mid| == 54;
    assert h == front + Small(64, 8) + (Zeros(14) + Small(56, 2) + end);
    Middle(front, Small(64, 8), Zeros(14) + Small(56, 2) + end);
    assert h == mid + Small(56, 2) + end;
    Middle(mid, Small(56, 2), end);
    assert h == mid + Small(56, 2) + Small(1, 2) + Zeros(6);
    Middle(mid + Small(56, 2), Small(1, 2), Zeros(6));
    SmallReadsBack(64, 8);
    SmallReadsBack(56, 2);
    SmallReadsBack(1, 2);
  }

  lemma {:induction false} EntryFields(size: nat)
    requires size < 256
    ensures NamesInterp(TinyEntry(size))
    ensures LittleEndian(TinyEntry(size)[8..16]) == 120 && LittleEndian(TinyEntry(size)[32..40]) == size
  {
    hide LittleEndian, Zeros;
    var ph := TinyEntry(size);
    var front := Small(3, 4) + Zeros(4);
    var mid := front + Small(120, 8) + Zeros(16);
    assert |front| == 8 && |mid| == 32;
    assert ph[..4] == Small(3, 4);
    assert ph == front + Small(120, 8) + (Zeros(16) + Small(size, 8) + Zeros(16));
    Middle(front, Small(120, 8), Zeros(16) + Small(size, 8) + Zeros(16));
    assert ph == mid + Small(size, 8) + Zeros(16);
    Middle(mid, Small(size, 8), Zeros(16));
    SmallReadsBack(3, 4);
    SmallReadsBack(120, 8);
    SmallReadsBack(size, 8);
  }

  /** Such a file exists for every short loader path, and names exactly it. */
  lemma {:induction false} TinyNames(interp: string)
    requires |interp| < 255 && Free(interp, NUL)
    ensures Interp(ProgramFile(interp)) == Some(interp) && IsElf(ProgramFile(interp))
  {
    hide TinyHeader, TinyEntry, LittleEndian, IsHeader, NamesInterp, EntryCount, UpToNul;
    var file, h, size := ProgramFile(interp), TinyHeader(), |interp| + 1;
    HeaderFields();
    EntryFields(size);
    assert file[0..HEADER_SIZE] == h && file[HEADER_SIZE..HEADER_SIZE + ENTRY_SIZE] == TinyEntry(size);
    assert file[120..120 + size] == interp + [NUL];
    assert Header(file) == Some(h);
    assert ProgramHeader(file, h, 0) == Some(TinyEntry(size));
    UpToNulOf(interp, "");
    assert interp + [NUL] + "" == interp + [NUL];
    assert PathAt(file, TinyEntry(size)) == Some(interp);
    assert h[..4] == "\U{7f}ELF" by {
      MagicOf();
    }
    assert file[..4] == h[..4];
  }

  lemma MagicOf()
    ensures TinyHeader()[..4] == "\U{7f}ELF"
  {
  }
}
