/** Section lookup does not depend on the byte order a file is written in: transcoding a file's headers
    to the other order changes no lookup. */
module ElfOrder {
  import opened Words
  import opened Memory
  import opened Bits
  import opened Elf

  /* ---------- all header fields of a file ---------- */

  function ShdrFields(p: nat): (fs: seq<Field>)
    ensures |fs| == 9 && forall j :: 0 <= j < 9 ==> fs[j] == Field(p + SHDR_FLIPPED[j].off, SHDR_FLIPPED[j].sz)
  {
    seq(9, j requires 0 <= j < 9 => Field(p + SHDR_FLIPPED[j].off, SHDR_FLIPPED[j].sz))
  }

  // The fields of num section headers, entsize bytes apart from shoff on.
  function TableFields(shoff: nat, entsize: nat, num: nat): (fs: seq<Field>)
    ensures |fs| == 9 * num
  {
    if num == 0 then []
    else TableFields(shoff, entsize, num - 1) + ShdrFields(shoff + (num - 1) * entsize)
  }

  function HeaderFields(shoff: nat, entsize: nat, num: nat): seq<Field> {
    EHDR_FLIPPED + TableFields(shoff, entsize, num)
  }

  lemma {:induction false} TableField(shoff: nat, entsize: nat, num: nat, i: nat, j: nat)
    requires i < num && j < 9
    ensures 9 * i + j < 9 * num
    ensures TableFields(shoff, entsize, num)[9 * i + j] ==
            Field(shoff + i * entsize + SHDR_FLIPPED[j].off, SHDR_FLIPPED[j].sz)
    decreases num
  {
    if i < num - 1 {
      TableField(shoff, entsize, num - 1, i, j);
    }
  }

  // Headers at least 40 bytes apart do not overlap.
  lemma {:induction false} TableLayout(shoff: nat, entsize: nat, num: nat)
    requires entsize >= SHDR_SIZE
    ensures num * entsize >= 0 && Layout(TableFields(shoff, entsize, num), shoff + num * entsize)
    ensures forall q :: 0 <= q < 9 * num ==> TableFields(shoff, entsize, num)[q].off >= shoff
    decreases num
  {
    if num > 0 {
      var k := num - 1;
      TableLayout(shoff, entsize, k);
      assert num * entsize == k * entsize + entsize;
      var p := shoff + k * entsize;
      Layouts();
      AppendLayout(TableFields(shoff, entsize, k), ShdrFields(p), p, shoff + num * entsize);
    }
  }

  lemma AppendLayout(a: seq<Field>, b: seq<Field>, p: nat, n: nat)
    requires Layout(a, p) && Layout(b, n) && p <= n && forall j :: 0 <= j < |b| ==> b[j].off >= p
    ensures Layout(a + b, n)
  {
  }

  lemma HeaderLayout(shoff: nat, entsize: nat, num: nat, n: nat)
    requires EHDR_SIZE <= n
    requires num == 0 || (entsize >= SHDR_SIZE && shoff >= EHDR_SIZE && shoff + num * entsize <= n)
    ensures Layout(HeaderFields(shoff, entsize, num), n)
    ensures forall q :: 0 <= q < |HeaderFields(shoff, entsize, num)| ==>
            HeaderFields(shoff, entsize, num)[q].off > EI_DATA
  {
    Layouts();
    if num == 0 {
      AppendLayout(EHDR_FLIPPED, [], EHDR_SIZE, n);
    } else {
      TableLayout(shoff, entsize, num);
      AppendLayout(EHDR_FLIPPED, TableFields(shoff, entsize, num), shoff, n);
    }
  }

  /* ---------- transcoding ---------- */

  function Shoff(file: seq<byte>, e: Order): nat
    requires |file| >= EHDR_SIZE
  {
    Get(e, file, E_SHOFF)
  }

  function Entsize(file: seq<byte>, e: Order): nat
    requires |file| >= EHDR_SIZE
  {
    Get(e, file, E_SHENTSIZE)
  }

  function Num(file: seq<byte>, e: Order): nat
    requires |file| >= EHDR_SIZE
  {
    Get(e, file, E_SHNUM)
  }

  function FieldsOf(file: seq<byte>, e: Order): seq<Field>
    requires |file| >= EHDR_SIZE
  {
    HeaderFields(Shoff(file, e), Entsize(file, e), Num(file, e))
  }

  function Strndx(file: seq<byte>, e: Order): nat
    requires |file| >= EHDR_SIZE
  {
    Get(e, file, E_SHSTRNDX)
  }

  function HeaderOf(file: seq<byte>, e: Order, i: nat): Option<Entry>
    requires |file| >= EHDR_SIZE
  {
    EntryAt(file, e, EntryPos(Shoff(file, e), Entsize(file, e), i))
  }

  // A file with an ordinary header table: none at all, or one behind the file header, inside the file,
  // and apart from the bytes a lookup reads: those of the names table and of every section that has
  // bytes in the file.
  ghost predicate Regular(file: seq<byte>, e: Order) {
    && Readable(file) && OrderOf(file[EI_DATA]) == e
    && (Num(file, e) == 0 ||
        (&& Shoff(file, e) >= EHDR_SIZE && Entsize(file, e) >= SHDR_SIZE
         && Shoff(file, e) + Num(file, e) * Entsize(file, e) <= |file|
         && Shoff(file, e) + Num(file, e) * Entsize(file, e) <= 0x1_0000_0000
         && Strndx(file, e) < Num(file, e)
         && forall i :: 0 <= i < Num(file, e) ==> Apart(file, e, HeaderOf(file, e, i), i == Strndx(file, e))))
  }

  // No header field, and not the byte that names the order, among the bytes read through g.
  ghost predicate Apart(file: seq<byte>, e: Order, g: Option<Entry>, names: bool)
    requires |file| >= EHDR_SIZE
  {
    g.Some? && g.value.content.Some? && (names || g.value.kind != SHT_NOBITS) ==>
      forall k :: g.value.offset <= k < g.value.offset + g.value.size ==> k != EI_DATA && !Covered(FieldsOf(file, e), k)
  }

  // What a lookup reads of an entry: of a SHT_NOBITS section, not the bytes at its offset.
  function Visible(g: Option<Entry>): Option<Entry> {
    if g.Some? && g.value.kind == SHT_NOBITS then Some(g.value.(content := None)) else g
  }

  // Two headers that say the same to a lookup.
  ghost predicate Alike(g: Headers, h: Headers) {
    && g.names == h.names && |g.entries| == |h.entries|
    && forall i :: 0 <= i < |g.entries| ==> Visible(g.entries[i]) == Visible(h.entries[i])
  }

  // Whatever two files look like otherwise, if their headers say the same, each read in its own order,
  // every name gives the same section in both.
  lemma SameHeadersSameSection(g: Headers, h: Headers, name: seq<byte>)
    requires Alike(g, h)
    ensures Select(g, name) == Select(h, name)
  {
    if g.names.Some? {
      SelectVisible(g.names.value, g.entries, h.entries, name);
    }
  }

  lemma {:induction false} SelectVisible(names: seq<byte>, es: seq<Option<Entry>>, fs: seq<Option<Entry>>,
      name: seq<byte>)
    requires |es| == |fs| && forall i :: 0 <= i < |es| ==> Visible(es[i]) == Visible(fs[i])
    ensures SelectFrom(names, es, name) == SelectFrom(names, fs, name)
    decreases |es|
  {
    if es != [] {
      assert Visible(es[0]) == Visible(fs[0]);
      SelectVisible(names, es[1..], fs[1..], name);
    }
  }

  // The same file in the other byte order.
  function Transcode(file: seq<byte>, e: Order): (r: seq<byte>)
    requires |file| >= EHDR_SIZE && forall f :: f in FieldsOf(file, e) ==> f.off + f.sz <= |file|
    ensures |r| == |file|
  {
    FlipFields(file, FieldsOf(file, e))[EI_DATA := if e == LSB then 2 else 1]
  }

  lemma RegularLayout(file: seq<byte>, e: Order)
    requires Regular(file, e)
    ensures |file| >= EHDR_SIZE
    ensures Layout(FieldsOf(file, e), |file|)
    ensures forall f :: f in FieldsOf(file, e) ==> f.off + f.sz <= |file|
    ensures forall q :: 0 <= q < |FieldsOf(file, e)| ==> FieldsOf(file, e)[q].off > EI_DATA
  {
    hide Get, Apart, HeaderFields;
    HeaderLayout(Shoff(file, e), Entsize(file, e), Num(file, e), |file|);
    LayoutFits(FieldsOf(file, e), |file|);
  }

  // Every header field of the transcoded file reads, in the other order, as it did before.
  lemma TranscodedField(file: seq<byte>, e: Order, q: nat)
    requires Regular(file, e) && q < |FieldsOf(file, e)|
    requires Layout(FieldsOf(file, e), |file|) && forall f :: f in FieldsOf(file, e) ==> f.off + f.sz <= |file|
    ensures Get(Other(e), Transcode(file, e), FieldsOf(file, e)[q]) == Get(e, file, FieldsOf(file, e)[q])
  {
    hide FlipFields, ReadAs, FieldsOf, Regular;
    RegularLayout(file, e);
    var fs := FieldsOf(file, e);
    FlipRecordReads(file, fs, e, Other(e), q);
    var flipped := FlipFields(file, fs);
    assert FieldBytes(Transcode(file, e), fs[q]) == FieldBytes(flipped, fs[q]);
  }

  // Bytes that belong to no header are the same.
  lemma TranscodedBytes(file: seq<byte>, e: Order, g: Entry, names: bool)
    requires Regular(file, e) && forall f :: f in FieldsOf(file, e) ==> f.off + f.sz <= |file|
    requires Apart(file, e, Some(g), names) && (names || g.kind != SHT_NOBITS)
    requires g.content == FRead(file, g.offset, g.size)
    ensures FRead(Transcode(file, e), g.offset, g.size) == g.content
  {
    hide FlipFields, FieldsOf, Regular, Covered;
    var off, sz := g.offset, g.size;
    RegularLayout(file, e);
    if g.content.Some? {
      var t := Transcode(file, e);
      forall k | off <= k < off + sz
        ensures t[k] == file[k]
      {
        OutsideByte(file, FieldsOf(file, e), k);
      }
      assert t[off..off + sz] == file[off..off + sz];
    }
  }

  lemma HeaderField(so: nat, es: nat, nm: nat, i: nat, j: nat)
    requires i < nm && j < 9
    ensures i * es >= 0 && 13 + 9 * i + j < |HeaderFields(so, es, nm)|
    ensures HeaderFields(so, es, nm)[13 + 9 * i + j] == Shifted(so + i * es, SHDR_FLIPPED[j])
  {
    hide TableFields;
    MulNonNegative(i, es);
    TableField(so, es, nm, i, j);
    assert |EHDR_FLIPPED| == 13;
  }

  // Where the i-th header is, and where its fields are in the list.
  lemma EntryPlace(file: seq<byte>, e: Order, i: nat) returns (p: nat)
    requires Regular(file, e) && i < Num(file, e)
    ensures p == EntryPos(Shoff(file, e), Entsize(file, e), i) && p + SHDR_SIZE <= |file|
    ensures Apart(file, e, EntryAt(file, e, p), i == Strndx(file, e))
    ensures var (fs, q) := (FieldsOf(file, e), 13 + 9 * i);
            && q + 5 < |fs| && fs[q] == Shifted(p, SH_NAME) && fs[q + 1] == Shifted(p, SH_TYPE)
            && fs[q + 4] == Shifted(p, SH_OFFSET) && fs[q + 5] == Shifted(p, SH_SIZE)
  {
    hide Get, EntryAt, HeaderFields, Shoff, Entsize, Num, Strndx, Apart;
    var so, es, nm := Shoff(file, e), Entsize(file, e), Num(file, e);
    p := EntryPos(so, es, i);
    assert Apart(file, e, HeaderOf(file, e, i), i == Strndx(file, e));
    EntryInside(so, es, nm, i, |file|);
    HeaderField(so, es, nm, i, 0);
    HeaderField(so, es, nm, i, 1);
    HeaderField(so, es, nm, i, 4);
    HeaderField(so, es, nm, i, 5);
  }

  lemma TranscodedEntry(file: seq<byte>, e: Order, i: nat)
    requires Regular(file, e) && i < Num(file, e)
    requires Layout(FieldsOf(file, e), |file|) && forall f :: f in FieldsOf(file, e) ==> f.off + f.sz <= |file|
    ensures var pos := EntryPos(Shoff(file, e), Entsize(file, e), i);
            var (g, t) := (EntryAt(file, e, pos), EntryAt(Transcode(file, e), Other(e), pos));
            Visible(t) == Visible(g) && (i == Strndx(file, e) ==> t == g)
  {
    hide Get, Transcode, Covered, FieldsOf, Shoff, Entsize, Num, Strndx, Layout, EntryAt, FRead, FlipFields,
         Regular, EntryPos, Apart;
    RegularLayout(file, e);
    var p := EntryPlace(file, e, i);
    TranscodedField(file, e, 13 + 9 * i);
    TranscodedField(file, e, 13 + 9 * i + 1);
    TranscodedField(file, e, 13 + 9 * i + 4);
    TranscodedField(file, e, 13 + 9 * i + 5);
    EntryInPlace(file, e, p);
    EntryInPlace(Transcode(file, e), Other(e), p);
    var g := EntryAt(file, e, p).value;
    if i == Strndx(file, e) || g.kind != SHT_NOBITS {
      TranscodedBytes(file, e, g, i == Strndx(file, e));
    }
  }

  lemma EntryInside(so: nat, es: nat, nm: nat, i: nat, n: nat)
    requires i < nm && es >= SHDR_SIZE && so + nm * es <= n && so + nm * es <= 0x1_0000_0000
    ensures i * es >= 0 && so + i * es + SHDR_SIZE <= n && ToWord(so + i * es) == so + i * es
  {
    MulNonNegative(nm - 1 - i, es);
    MulNonNegative(i, es);
    assert nm * es == (nm - 1 - i) * es + i * es + es;
  }

  lemma TranscodedHeader(file: seq<byte>, e: Order)
    requires Regular(file, e)
    requires Layout(FieldsOf(file, e), |file|) && forall f :: f in FieldsOf(file, e) ==> f.off + f.sz <= |file|
    ensures var t := Transcode(file, e);
            && Readable(t) && OrderOf(t[EI_DATA]) == Other(e)
            && Shoff(t, Other(e)) == Shoff(file, e) && Entsize(t, Other(e)) == Entsize(file, e)
            && Num(t, Other(e)) == Num(file, e) && Strndx(t, Other(e)) == Strndx(file, e)
  {
    hide FlipFields, ReadAs, Get, FieldsOf, Apart;
    EhdrFieldsFirst(file, e);
    TranscodedField(file, e, 5);
    TranscodedField(file, e, 10);
    TranscodedField(file, e, 11);
    TranscodedField(file, e, 12);
    ClassKept(file, e);
  }

  lemma EhdrFieldsFirst(file: seq<byte>, e: Order)
    requires |file| >= EHDR_SIZE
    ensures var fs := FieldsOf(file, e);
            |fs| >= 13 && fs[5] == E_SHOFF && fs[10] == E_SHENTSIZE && fs[11] == E_SHNUM && fs[12] == E_SHSTRNDX
  {
    hide Get;
  }

  lemma ClassKept(file: seq<byte>, e: Order)
    requires Regular(file, e) && forall f :: f in FieldsOf(file, e) ==> f.off + f.sz <= |file|
    ensures Transcode(file, e)[EI_CLASS] == file[EI_CLASS]
  {
    hide FlipFields, FieldsOf, Regular;
    RegularLayout(file, e);
    assert !Covered(FieldsOf(file, e), EI_CLASS);
    OutsideByte(file, FieldsOf(file, e), EI_CLASS);
  }

  // A file and its transcription say the same, each read in its own order: the same names, the same
  // headers and the same bytes behind them. So, on any host, they give the same section for every name.
  lemma OrderIndependent(file: seq<byte>, e: Order)
    requires Regular(file, e)
    ensures forall f :: f in FieldsOf(file, e) ==> f.off + f.sz <= |file|
    ensures var t := Transcode(file, e);
            && Readable(t) && OrderOf(t[EI_DATA]) == Other(e)
            && var (g, h) := (ReadHeaders(file, e), ReadHeaders(t, Other(e)));
               Alike(g, h) && (forall name :: Select(h, name) == Select(g, name))
  {
    hide FlipFields, Get, FieldsOf, Transcode, SelectFrom, EntryAt, Apart, Visible;
    RegularLayout(file, e);
    TranscodedHeader(file, e);
    var t := Transcode(file, e);
    var g, h := ReadHeaders(file, e), ReadHeaders(t, Other(e));
    forall i | 0 <= i < Num(file, e)
      ensures Visible(h.entries[i]) == Visible(g.entries[i])
    {
      TranscodedEntry(file, e, i);
    }
    if Num(file, e) > 0 {
      TranscodedEntry(file, e, Strndx(file, e));
    }
    assert Alike(g, h);
    forall name
      ensures Select(h, name) == Select(g, name)
    {
      SameHeadersSameSection(g, h, name);
    }
  }

  /* ---------- a file with a section that has no bytes ---------- */

  // A little-endian file of 136 bytes: the file header, two section headers, and a names table of four
  // bytes. The first section is SHT_NOBITS, and its nominal extent [0, 100) runs over the file
  // header and over its own.
  function BssFile(): (file: seq<byte>)
    ensures |file| == 136 && forall k :: 0 <= k < 136 ==> file[k] == BssByte(k)
  {
    seq(136, (k: nat) => BssByte(k))
  }

  function BssByte(k: nat): byte {
    if k == EI_CLASS then 1 else if k == EI_DATA then 1
    else if k == 32 then 52 else if k == 46 then 40 else if k == 48 then 2 else if k == 50 then 1
    else if k == 56 then SHT_NOBITS as byte else if k == 72 then 100
    else if k == 96 then 3 else if k == 108 then 132 else if k == 112 then 4
    else 0
  }

  lemma BssHeader()
    ensures var b := BssFile(); Shoff(b, LSB) == 52 && Entsize(b, LSB) == 40 && Num(b, LSB) == 2 && Strndx(b, LSB) == 1
  {
    hide Get;
    FourByteValue(BssFile(), LSB, 32);
    TwoByteValue(BssFile(), LSB, 46);
    TwoByteValue(BssFile(), LSB, 48);
    TwoByteValue(BssFile(), LSB, 50);
  }

  lemma BssEntries()
    ensures EntryAt(BssFile(), LSB, 52) == Some(Entry(0, SHT_NOBITS, 0, 100, Some(BssFile()[0..100])))
    ensures EntryAt(BssFile(), LSB, 92) == Some(Entry(0, 3, 132, 4, Some(BssFile()[132..136])))
  {
    hide Get, EntryAt, BssFile;
    EntryInPlace(BssFile(), LSB, 52);
    EntryInPlace(BssFile(), LSB, 92);
    BssFields();
  }

  lemma BssFields()
    ensures var b := BssFile();
            && Get(LSB, b, Field(52, 4)) == 0 && Get(LSB, b, Field(56, 4)) == SHT_NOBITS
            && Get(LSB, b, Field(68, 4)) == 0 && Get(LSB, b, Field(72, 4)) == 100
            && Get(LSB, b, Field(92, 4)) == 0 && Get(LSB, b, Field(96, 4)) == 3
            && Get(LSB, b, Field(108, 4)) == 132 && Get(LSB, b, Field(112, 4)) == 4
  {
    hide Get, BssFile;
    SmallField(52, 0);
    SmallField(56, SHT_NOBITS);
    SmallField(68, 0);
    SmallField(72, 100);
    SmallField(92, 0);
    SmallField(96, 3);
    SmallField(108, 132);
    SmallField(112, 4);
  }

  lemma SmallField(off: nat, v: nat)
    requires off + 4 <= 136 && BssByte(off) == v && BssByte(off + 1) == BssByte(off + 2) == BssByte(off + 3) == 0
    ensures Get(LSB, BssFile(), Field(off, 4)) == v
  {
    hide Get, BssFile, BssByte;
    FourByteValue(BssFile(), LSB, off);
  }

  // Such a file is within the theorem.
  lemma BssIsRegular()
    ensures Regular(BssFile(), LSB)
  {
    hide Get, EntryAt, FieldsOf;
    var b := BssFile();
    BssHeader();
    BssEntries();
    assert b[EI_CLASS] == 1 && b[EI_DATA] == 1;
    assert FieldsOf(b, LSB) == HeaderFields(52, 40, 2) by { FieldsAre(b); }
    HeaderLayout(52, 40, 2, 132);
    forall i | 0 <= i < 2
      ensures Apart(b, LSB, HeaderOf(b, LSB, i), i == 1)
    {
      assert i == 0 || i == 1;
    }
  }

  lemma FieldsAre(b: seq<byte>)
    requires |b| >= EHDR_SIZE
    ensures FieldsOf(b, LSB) == HeaderFields(Shoff(b, LSB), Entsize(b, LSB), Num(b, LSB))
  {
  }
}
