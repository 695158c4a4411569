/** The 32-bit paths of the ELF reader (src/elf.c): header flips, section lookup by name. A file is an
    immutable sequence of bytes; layouts are those of chapter 4 of the System V ABI, as declared in
    include/elf/elf.h. */
module Elf {
  import opened Words
  import opened Memory
  import opened Bits

  /* ---------- record layouts ---------- */

  const EHDR_SIZE: nat := 52
  const SHDR_SIZE: nat := 40
  const SYM_SIZE: nat := 16
  const REL_SIZE: nat := 8
  const EI_NIDENT: nat := 16
  const EI_CLASS: nat := 4
  const EI_DATA: nat := 5
  const SHT_NOBITS: nat := 8

  const E_SHOFF := Field(32, 4)
  const E_SHENTSIZE := Field(46, 2)
  const E_SHNUM := Field(48, 2)
  const E_SHSTRNDX := Field(50, 2)

  // The fields the flip functions reverse, in record order.
  const EHDR_FLIPPED: seq<Field> :=
    [Field(16, 2), Field(18, 2), Field(20, 4), Field(24, 4), Field(28, 4), E_SHOFF, Field(36, 4), Field(40, 2),
     Field(42, 2), Field(44, 2), E_SHENTSIZE, E_SHNUM, E_SHSTRNDX]

  const SH_NAME := Field(0, 4)
  const SH_TYPE := Field(4, 4)
  const SH_OFFSET := Field(16, 4)
  const SH_SIZE := Field(20, 4)
  const SH_LINK := Field(24, 4)

  // sh_link is not in the list.
  const SHDR_FLIPPED: seq<Field> :=
    [SH_NAME, SH_TYPE, Field(8, 4), Field(12, 4), SH_OFFSET, SH_SIZE, Field(28, 4), Field(32, 4), Field(36, 4)]

  // st_info and st_other, at 12 and 13, are single bytes.
  const SYM_FLIPPED: seq<Field> := [Field(0, 4), Field(4, 4), Field(8, 4), Field(14, 2)]

  const REL_FLIPPED: seq<Field> := [Field(0, 4), Field(4, 4)]

  // The 64-bit file header.
  const EHDR64_SIZE: nat := 64
  const EHDR64_FLIPPED: seq<Field> :=
    [Field(16, 2), Field(18, 2), Field(20, 4), Field(24, 8), Field(32, 8), Field(40, 8), Field(48, 4), Field(52, 2),
     Field(54, 2), Field(56, 2), Field(58, 2), Field(60, 2), Field(62, 2)]

  lemma Layouts()
    ensures Layout(EHDR_FLIPPED, EHDR_SIZE) && Layout(SHDR_FLIPPED, SHDR_SIZE)
    ensures Layout(SYM_FLIPPED, SYM_SIZE) && Layout(REL_FLIPPED, REL_SIZE) && Layout(EHDR64_FLIPPED, EHDR64_SIZE)
  {
  }

  // The fields of a record whose members have these sizes, one after another from off on.
  function Members(off: nat, sizes: seq<nat>): seq<Field>
    decreases |sizes|
  {
    if sizes == [] then [] else [Field(off, sizes[0])] + Members(off + sizes[0], sizes[1..])
  }

  function Extent(off: nat, sizes: seq<nat>): nat
    decreases |sizes|
  {
    if sizes == [] then off else Extent(off + sizes[0], sizes[1..])
  }

  lemma MembersStep(off: nat, n: nat, sizes: seq<nat>)
    ensures Members(off, [n] + sizes) == [Field(off, n)] + Members(off + n, sizes)
    ensures Extent(off, [n] + sizes) == Extent(off + n, sizes)
  {
    assert ([n] + sizes)[1..] == sizes;
  }

  // Four members at a time.
  lemma MembersFour(off: nat, a: nat, b: nat, c: nat, d: nat, sizes: seq<nat>)
    ensures Members(off, [a, b, c, d] + sizes) ==
            [Field(off, a), Field(off + a, b), Field(off + a + b, c), Field(off + a + b + c, d)]
            + Members(off + a + b + c + d, sizes)
    ensures Extent(off, [a, b, c, d] + sizes) == Extent(off + a + b + c + d, sizes)
  {
    hide Members, Extent;
    assert [a, b, c, d] + sizes == [a] + ([b] + ([c] + ([d] + sizes)));
    MembersStep(off, a, [b] + ([c] + ([d] + sizes)));
    MembersStep(off + a, b, [c] + ([d] + sizes));
    MembersStep(off + a + b, c, [d] + sizes);
    MembersStep(off + a + b + c, d, sizes);
  }

  lemma NoMembers(off: nat)
    ensures Members(off, []) == [] && Extent(off, []) == off
  {
  }

  // The members of the ABI's records after e_ident, by size. All of the file header's are flipped; of a
  // section header all but the seventh, sh_link; of a symbol all but st_info and st_other; of a relocation both.
  const EHDR_MEMBERS: seq<nat> := [2, 2, 4, 4] + ([4, 4, 4, 2] + ([2, 2, 2, 2] + [2]))
  const EHDR64_MEMBERS: seq<nat> := [2, 2, 4, 8] + ([8, 8, 4, 2] + ([2, 2, 2, 2] + [2]))
  const SHDR_MEMBERS: seq<nat> := [4, 4, 4, 4] + ([4, 4, 4, 4] + ([4] + [4]))
  const SYM_MEMBERS: seq<nat> := [4, 4, 4, 1] + ([1] + [2])
  const REL_MEMBERS: seq<nat> := [4] + [4]

  lemma AbiEhdr()
    ensures EHDR_FLIPPED == Members(16, EHDR_MEMBERS) && Extent(16, EHDR_MEMBERS) == EHDR_SIZE
    ensures EHDR64_FLIPPED == Members(16, EHDR64_MEMBERS) && Extent(16, EHDR64_MEMBERS) == EHDR64_SIZE
  {
    hide Members, Extent;
    MembersFour(16, 2, 2, 4, 4, [4, 4, 4, 2] + ([2, 2, 2, 2] + [2]));
    MembersFour(28, 4, 4, 4, 2, [2, 2, 2, 2] + [2]);
    MembersFour(42, 2, 2, 2, 2, [2]);
    MembersFour(16, 2, 2, 4, 8, [8, 8, 4, 2] + ([2, 2, 2, 2] + [2]));
    MembersFour(32, 8, 8, 4, 2, [2, 2, 2, 2] + [2]);
    MembersFour(54, 2, 2, 2, 2, [2]);
    LastMember(50, 2);
    LastMember(62, 2);
  }

  lemma LastMember(off: nat, n: nat)
    ensures Members(off, [n]) == [Field(off, n)] && Extent(off, [n]) == off + n
  {
    assert [n] == [n] + [];
    MembersStep(off, n, []);
    NoMembers(off + n);
  }

  lemma AbiOthers()
    ensures var s := Members(0, SHDR_MEMBERS);
            |s| == 10 && SHDR_FLIPPED == s[..6] + s[7..] && s[6] == SH_LINK && Extent(0, SHDR_MEMBERS) == SHDR_SIZE
    ensures var s := Members(0, SYM_MEMBERS);
            |s| == 6 && SYM_FLIPPED == s[..3] + s[5..] && Extent(0, SYM_MEMBERS) == SYM_SIZE
    ensures REL_FLIPPED == Members(0, REL_MEMBERS) && Extent(0, REL_MEMBERS) == REL_SIZE
  {
    hide Members, Extent;
    MembersFour(0, 4, 4, 4, 4, [4, 4, 4, 4] + ([4] + [4]));
    MembersFour(16, 4, 4, 4, 4, [4] + [4]);
    MembersStep(32, 4, [4]);
    LastMember(36, 4);
    MembersFour(0, 4, 4, 4, 1, [1] + [2]);
    MembersStep(13, 1, [2]);
    LastMember(14, 2);
    MembersStep(0, 4, [4]);
    LastMember(4, 4);
  }

  // For all records: flipping twice restores them, and every flipped field then reads, in host
  // order, as it did in target order.
  lemma RecordsFlip(b: seq<byte>, e: Order, host: Order, fs: seq<Field>, i: nat)
    requires (fs, |b|) in {(EHDR_FLIPPED, EHDR_SIZE), (SHDR_FLIPPED, SHDR_SIZE), (SYM_FLIPPED, SYM_SIZE),
                           (REL_FLIPPED, REL_SIZE), (EHDR64_FLIPPED, EHDR64_SIZE)}
    requires i < |fs|
    ensures Layout(fs, |b|)
    ensures FlipRecord(FlipRecord(b, fs, e, host), fs, e, host) == b
    ensures ReadAs(host, FieldBytes(FlipRecord(b, fs, e, host), fs[i])) == ReadAs(e, FieldBytes(b, fs[i]))
  {
    Layouts();
    FlipRecordTwice(b, fs, e, host);
    FlipRecordReads(b, fs, e, host, i);
  }

  // sh_link keeps the file's byte order; st_info, st_other and e_ident are left as they were.
  lemma RecordsKeep(e: Order, host: Order, shdr: seq<byte>, sym: seq<byte>, ehdr: seq<byte>)
    requires |shdr| == SHDR_SIZE && |sym| == SYM_SIZE && |ehdr| == EHDR_SIZE
    ensures Layout(SHDR_FLIPPED, |shdr|) && Layout(SYM_FLIPPED, |sym|) && Layout(EHDR_FLIPPED, |ehdr|)
    ensures FieldBytes(FlipRecord(shdr, SHDR_FLIPPED, e, host), SH_LINK) == FieldBytes(shdr, SH_LINK)
    ensures FieldBytes(FlipRecord(sym, SYM_FLIPPED, e, host), Field(12, 2)) == FieldBytes(sym, Field(12, 2))
    ensures FieldBytes(FlipRecord(ehdr, EHDR_FLIPPED, e, host), Field(0, 16)) == FieldBytes(ehdr, Field(0, 16))
  {
    Layouts();
    FlipRecordKeeps(shdr, SHDR_FLIPPED, e, host, SH_LINK);
    FlipRecordKeeps(sym, SYM_FLIPPED, e, host, Field(12, 2));
    FlipRecordKeeps(ehdr, EHDR_FLIPPED, e, host, Field(0, 16));
  }

  /* ---------- the file and its headers, read directly ---------- */

  // fread(buffer, n, 1, fp) after fseek(fp, pos): nothing on a short read or for zero bytes.
  function FRead(file: seq<byte>, pos: nat, n: nat): (r: Option<seq<byte>>)
    ensures r.Some? ==> |r.value| == n
  {
    if n == 0 || pos + n > |file| then None else Some(file[pos..pos + n])
  }

  // ident[EI_DATA]==ELFDATA2LSB?LSB:MSB
  function OrderOf(data: byte): Order {
    if data == 1 then LSB else MSB
  }

  // A field of a record that is stored in order e.
  function Get(e: Order, rec: seq<byte>, f: Field): (v: nat)
    requires f.off + f.sz <= |rec|
    ensures v < Pow2(8 * f.sz)
  {
    ReadFits(e, FieldBytes(rec, f));
    ReadAs(e, FieldBytes(rec, f))
  }

  // What a section header says, free of byte order, with the bytes it points at.
  datatype Entry = Entry(name: nat, kind: nat, offset: nat, size: nat, content: Option<seq<byte>>)

  function EntryAt(file: seq<byte>, e: Order, pos: nat): Option<Entry> {
    match FRead(file, pos, SHDR_SIZE)
    case None => None
    case Some(h) =>
      var off, sz := Get(e, h, SH_OFFSET), Get(e, h, SH_SIZE);
      Some(Entry(Get(e, h, SH_NAME), Get(e, h, SH_TYPE), off, sz, FRead(file, off, sz)))
  }

  // Everything section lookup depends on.
  datatype Headers = Headers(names: Option<seq<byte>>, entries: seq<Option<Entry>>)

  function EntryPos(shoff: nat, entsize: nat, i: nat): nat {
    ToWord(shoff + i * entsize)
  }

  function ReadHeaders(file: seq<byte>, e: Order): Headers
    requires |file| >= EHDR_SIZE
  {
    var shoff, entsize := Get(e, file, E_SHOFF), Get(e, file, E_SHENTSIZE);
    var num, strndx := Get(e, file, E_SHNUM), Get(e, file, E_SHSTRNDX);
    var strings := if strndx == 0 || num == 0 then None else EntryAt(file, e, EntryPos(shoff, entsize, strndx));
    Headers(if strings.None? then None else strings.value.content,
            seq(num, i requires 0 <= i < num => EntryAt(file, e, EntryPos(shoff, entsize, i))))
  }

  /* ---------- the lookup, on headers ---------- */

  // 0 == strncmp(&tab[at], name, strlen(name)); a read past the table counts as a mismatch.
  predicate NameAt(tab: seq<byte>, at: nat, name: seq<byte>) {
    at + |name| <= |tab| && tab[at..at + |name|] == name
  }

  // content is None for a SHT_NOBITS section, whose buffer is never filled.
  datatype Lookup = Nothing | Found(size: nat, offset: nat, content: Option<seq<byte>>)

  function Deliver(g: Entry): Lookup {
    if g.kind == SHT_NOBITS then Found(g.size, g.offset, None)
    else if g.size == 0 then Found(0, g.offset, Some([]))
    else if g.content.None? then Nothing
    else Found(g.size, g.offset, g.content)
  }

  function SelectFrom(names: seq<byte>, entries: seq<Option<Entry>>, name: seq<byte>): Lookup {
    if entries == [] || entries[0].None? then Nothing
    else if NameAt(names, entries[0].value.name, name) then Deliver(entries[0].value)
    else SelectFrom(names, entries[1..], name)
  }

  function Select(h: Headers, name: seq<byte>): Lookup {
    if h.names.None? then Nothing else SelectFrom(h.names.value, h.entries, name)
  }

  // The lookup is that of the first section whose name matches, provided every header before it
  // could be read; there is nothing otherwise.
  lemma {:induction false} SelectsFirst(names: seq<byte>, entries: seq<Option<Entry>>, name: seq<byte>, i: nat)
    requires i < |entries| && forall j :: 0 <= j < i ==> entries[j].Some? && !NameAt(names, entries[j].value.name, name)
    ensures entries[i].None? ==> SelectFrom(names, entries, name) == Nothing
    ensures entries[i].Some? && NameAt(names, entries[i].value.name, name) ==>
              SelectFrom(names, entries, name) == Deliver(entries[i].value)
    decreases i
  {
    if i > 0 {
      assert entries[0].Some?;
      SelectsFirst(names, entries[1..], name, i - 1);
    }
  }

  lemma {:induction false} SelectsNone(names: seq<byte>, entries: seq<Option<Entry>>, name: seq<byte>)
    requires forall j :: 0 <= j < |entries| && entries[j].Some? ==> !NameAt(names, entries[j].value.name, name)
    ensures SelectFrom(names, entries, name) == Nothing
  {
    if entries != [] {
      SelectsNone(names, entries[1..], name);
    }
  }

  // The NUL-terminated string at an offset of a table.
  function CString(tab: seq<byte>, at: nat): (s: seq<byte>)
    decreases |tab| - at
  {
    if at >= |tab| || tab[at] == 0 then [] else [tab[at]] + CString(tab, at + 1)
  }

  // Comparing strlen(name) bytes asks whether name is a prefix of the string found there.
  lemma {:induction false} NameIsPrefix(tab: seq<byte>, at: nat, name: seq<byte>)
    requires 0 !in name && at <= |tab|
    ensures NameAt(tab, at, name) <==> name <= CString(tab, at)
    decreases |name|
  {
    var c := CString(tab, at);
    if name == [] {
    } else if at >= |tab| {
    } else if tab[at] != name[0] {
      assert at + |name| <= |tab| ==> tab[at..at + |name|][0] == tab[at];
    } else {
      assert name[0] in name;
      NameIsPrefix(tab, at + 1, name[1..]);
      assert name == [name[0]] + name[1..];
      assert c == [tab[at]] + CString(tab, at + 1);
      assert at + |name| <= |tab| ==> tab[at..at + |name|] == [tab[at]] + tab[at + 1..at + |name|];
      PrefixOfCons(name[0], name[1..], CString(tab, at + 1));
    }
  }

  lemma PrefixOfCons(x: byte, p: seq<byte>, q: seq<byte>)
    ensures [x] + p <= [x] + q <==> p <= q
  {
    assert ([x] + q)[1..] == q;
    if p <= q {
      assert q == p + q[|p|..];
      assert [x] + q == [x] + p + q[|p|..];
    }
    if [x] + p <= [x] + q {
      assert p == ([x] + p)[1..] == ([x] + q)[..1 + |p|][1..] == q[..|p|];
    }
  }

  /* ---------- the lookup, as the source performs it ---------- */

  // A record as read from the file and flipped.
  function FlippedAt(file: seq<byte>, fs: seq<Field>, e: Order, host: Order, pos: nat, n: nat): (r: Option<seq<byte>>)
    requires forall f :: f in fs ==> f.off + f.sz <= n
    ensures r.Some? ==> |r.value| == n
  {
    match FRead(file, pos, n)
    case None => None
    case Some(b) => Some(FlipRecord(b, fs, e, host))
  }

  // A section header read back from its flipped bytes, in host order.
  function EntryFrom(file: seq<byte>, host: Order, h: seq<byte>): Entry
    requires |h| == SHDR_SIZE
  {
    var off, sz := Get(host, h, SH_OFFSET), Get(host, h, SH_SIZE);
    Entry(Get(host, h, SH_NAME), Get(host, h, SH_TYPE), off, sz, FRead(file, off, sz))
  }

  // Flipping and then reading natively is reading in the file's order: for section headers,
  lemma FlippedEntry(file: seq<byte>, e: Order, host: Order, pos: nat)
    requires forall f :: f in SHDR_FLIPPED ==> f.off + f.sz <= SHDR_SIZE
    ensures match FlippedAt(file, SHDR_FLIPPED, e, host, pos, SHDR_SIZE)
            case None => EntryAt(file, e, pos) == None
            case Some(h) => EntryAt(file, e, pos) == Some(EntryFrom(file, host, h))
  {
    hide FlipRecord, ReadAs, FieldBytes;
    Layouts();
    if FRead(file, pos, SHDR_SIZE).Some? {
      var b := FRead(file, pos, SHDR_SIZE).value;
      FlipRecordReads(b, SHDR_FLIPPED, e, host, 0);
      FlipRecordReads(b, SHDR_FLIPPED, e, host, 1);
      FlipRecordReads(b, SHDR_FLIPPED, e, host, 4);
      FlipRecordReads(b, SHDR_FLIPPED, e, host, 5);
    }
  }

  // and for the file header.
  lemma FlippedEhdr(b: seq<byte>, e: Order, host: Order)
    requires |b| == EHDR_SIZE && forall f :: f in EHDR_FLIPPED ==> f.off + f.sz <= EHDR_SIZE
    ensures var h := FlipRecord(b, EHDR_FLIPPED, e, host);
            && Get(host, h, E_SHOFF) == Get(e, b, E_SHOFF) && Get(host, h, E_SHENTSIZE) == Get(e, b, E_SHENTSIZE)
            && Get(host, h, E_SHNUM) == Get(e, b, E_SHNUM) && Get(host, h, E_SHSTRNDX) == Get(e, b, E_SHSTRNDX)
            && h[EI_CLASS] == b[EI_CLASS] && h[EI_DATA] == b[EI_DATA]
  {
    hide FlipRecord, ReadAs;
    Layouts();
    FlipRecordReads(b, EHDR_FLIPPED, e, host, 5);
    FlipRecordReads(b, EHDR_FLIPPED, e, host, 10);
    FlipRecordReads(b, EHDR_FLIPPED, e, host, 11);
    FlipRecordReads(b, EHDR_FLIPPED, e, host, 12);
    IdentKept(b, e, host);
  }

  lemma IdentKept(b: seq<byte>, e: Order, host: Order)
    requires |b| == EHDR_SIZE && Layout(EHDR_FLIPPED, |b|)
    ensures var h := FlipRecord(b, EHDR_FLIPPED, e, host);
            h[EI_CLASS] == b[EI_CLASS] && h[EI_DATA] == b[EI_DATA]
  {
    hide FlipRecord;
    var f := Field(0, 16);
    FlipRecordKeeps(b, EHDR_FLIPPED, e, host, f);
    var h := FlipRecord(b, EHDR_FLIPPED, e, host);
    assert FieldBytes(h, f)[EI_CLASS] == h[EI_CLASS] && FieldBytes(b, f)[EI_CLASS] == b[EI_CLASS];
    assert FieldBytes(h, f)[EI_DATA] == h[EI_DATA] && FieldBytes(b, f)[EI_DATA] == b[EI_DATA];
  }

  function Shifted(p: nat, f: Field): Field {
    Field(p + f.off, f.sz)
  }

  // A section header read in place.
  lemma EntryInPlace(file: seq<byte>, e: Order, p: nat)
    requires p + SHDR_SIZE <= |file|
    ensures var (off, sz) := (Get(e, file, Shifted(p, SH_OFFSET)), Get(e, file, Shifted(p, SH_SIZE)));
            EntryAt(file, e, p) ==
            Some(Entry(Get(e, file, Shifted(p, SH_NAME)), Get(e, file, Shifted(p, SH_TYPE)), off, sz,
                       FRead(file, off, sz)))
  {
    hide Get;
    SliceGet(e, file, p, SH_NAME);
    SliceGet(e, file, p, SH_TYPE);
    SliceGet(e, file, p, SH_OFFSET);
    SliceGet(e, file, p, SH_SIZE);
  }

  lemma SliceGet(o: Order, b: seq<byte>, p: nat, f: Field)
    requires p + SHDR_SIZE <= |b| && f.off + f.sz <= SHDR_SIZE
    ensures Get(o, b[p..p + SHDR_SIZE], f) == Get(o, b, Shifted(p, f))
  {
    hide ReadAs;
    SliceOfSlice(b, p, SHDR_SIZE, f.off, f.sz);
  }

  lemma SliceOfSlice(b: seq<byte>, p: nat, n: nat, o: nat, k: nat)
    requires p + n <= |b| && o + k <= n
    ensures b[p..p + n][o..o + k] == b[p + o..p + o + k]
  {
    var x, y := b[p..p + n][o..o + k], b[p + o..p + o + k];
    assert |x| == |y| && forall i :: 0 <= i < k ==> x[i] == b[p + o + i] == y[i];
  }

  /* ---------- what a lookup must find, in the bytes of the file ---------- */

  // Two and four bytes at p, in order e.
  function Half(b: seq<byte>, e: Order, p: nat): nat
    requires p + 2 <= |b|
  {
    if e == LSB then b[p] as nat + 0x100 * b[p + 1] as nat else b[p + 1] as nat + 0x100 * b[p] as nat
  }

  function Long(b: seq<byte>, e: Order, p: nat): nat
    requires p + 4 <= |b|
  {
    if e == LSB then Half(b, e, p) + 0x1_0000 * Half(b, e, p + 2) else Half(b, e, p + 2) + 0x1_0000 * Half(b, e, p)
  }

  // The place of the i-th section header: e_shoff + i * e_shentsize, as uint32_t.
  function HeaderPlace(b: seq<byte>, e: Order, i: nat): nat
    requires |b| >= 52
  {
    (Long(b, e, 32) + i * Half(b, e, 46)) % 0x1_0000_0000
  }

  predicate HeaderPresent(b: seq<byte>, e: Order, i: nat)
    requires |b| >= 52
  {
    HeaderPlace(b, e, i) + 40 <= |b|
  }

  // The bytes of the section e_shstrndx names, if there is one and it can be read.
  function NamesTable(b: seq<byte>, e: Order): Option<seq<byte>>
    requires |b| >= 52
  {
    var p := HeaderPlace(b, e, Half(b, e, 50));
    if Half(b, e, 50) == 0 || Half(b, e, 48) == 0 || p + 40 > |b| then None
    else
      var (off, sz) := (Long(b, e, p + 16), Long(b, e, p + 20));
      if sz == 0 || off + sz > |b| then None else Some(b[off..off + sz])
  }

  // The i-th section's name starts with the one asked for.
  predicate HeaderNamed(b: seq<byte>, e: Order, names: seq<byte>, i: nat, name: seq<byte>)
    requires |b| >= 52 && HeaderPresent(b, e, i)
  {
    var at := Long(b, e, HeaderPlace(b, e, i));
    at + |name| <= |names| && forall k :: 0 <= k < |name| ==> names[at + k] == name[k]
  }

  // The size, offset and bytes of the i-th section; type 8 has no bytes, and a short read is a failure.
  function SectionAt(b: seq<byte>, e: Order, i: nat): Lookup
    requires |b| >= 52 && HeaderPresent(b, e, i)
  {
    var p := HeaderPlace(b, e, i);
    var (kind, off, sz) := (Long(b, e, p + 4), Long(b, e, p + 16), Long(b, e, p + 20));
    if kind == 8 then Found(sz, off, None)
    else if sz == 0 then Found(sz, off, Some([]))
    else if off + sz <= |b| then Found(sz, off, Some(b[off..off + sz]))
    else Nothing
  }

  // The i-th section is the first of that name, every header up to it being readable.
  ghost predicate FirstNamed(b: seq<byte>, e: Order, names: seq<byte>, i: nat, name: seq<byte>)
    requires |b| >= 52
  {
    && i < Half(b, e, 48)
    && (forall j :: 0 <= j <= i ==> HeaderPresent(b, e, j))
    && (forall j :: 0 <= j < i ==> !HeaderNamed(b, e, names, j, name))
    && HeaderNamed(b, e, names, i, name)
  }

  // r is the lookup's answer: the first section of that name, or nothing if there is none, or the names
  // table or a header before it cannot be read.
  ghost predicate Answers(b: seq<byte>, e: Order, name: seq<byte>, r: Lookup)
    requires |b| >= 52
  {
    match NamesTable(b, e)
    case None => r == Nothing
    case Some(names) =>
      && (forall i: nat :: FirstNamed(b, e, names, i, name) ==> r == SectionAt(b, e, i))
      && ((forall i: nat :: !FirstNamed(b, e, names, i, name)) ==> r == Nothing)
  }

  lemma LittleStep(s: seq<byte>)
    ensures LittleValue(s) == if s == [] then 0 else s[0] as int + 0x100 * LittleValue(s[1..])
  {
  }

  lemma LittleTwo(x: byte, y: byte)
    ensures LittleValue([x, y]) == x as int + 0x100 * y as int
  {
    hide LittleValue;
    LittleStep([x, y]);
    assert [x, y][1..] == [y] && [y][1..] == [];
    LittleStep([y]);
    LittleStep([]);
  }

  lemma LittleFour(x: byte, y: byte, z: byte, w: byte)
    ensures LittleValue([x, y, z, w]) == x as int + 0x100 * y as int + 0x1_0000 * (z as int + 0x100 * w as int)
  {
    hide LittleValue;
    LittleStep([x, y, z, w]);
    assert [x, y, z, w][1..] == [y, z, w];
    LittleStep([y, z, w]);
    assert [y, z, w][1..] == [z, w];
    LittleTwo(z, w);
  }

  lemma TwoByteValue(b: seq<byte>, e: Order, p: nat)
    requires p + 2 <= |b|
    ensures Get(e, b, Field(p, 2)) == Half(b, e, p)
  {
    hide LittleValue;
    var f := FieldBytes(b, Field(p, 2));
    assert f == [b[p], b[p + 1]];
    assert Reversed(f) == [b[p + 1], b[p]];
    LittleTwo(b[p], b[p + 1]);
    LittleTwo(b[p + 1], b[p]);
  }

  lemma FourByteValue(b: seq<byte>, e: Order, p: nat)
    requires p + 4 <= |b|
    ensures Get(e, b, Field(p, 4)) == Long(b, e, p)
  {
    hide LittleValue;
    var f := FieldBytes(b, Field(p, 4));
    assert f == [b[p], b[p + 1], b[p + 2], b[p + 3]];
    assert Reversed(f) == [b[p + 3], b[p + 2], b[p + 1], b[p]];
    LittleFour(b[p], b[p + 1], b[p + 2], b[p + 3]);
    LittleFour(b[p + 3], b[p + 2], b[p + 1], b[p]);
  }

  // A header as the reader sees it, in those terms.
  lemma EntryBytes(b: seq<byte>, e: Order, p: nat)
    ensures EntryAt(b, e, p).None? <==> p + 40 > |b|
    ensures p + 40 <= |b| ==>
              var (off, sz) := (Long(b, e, p + 16), Long(b, e, p + 20));
              EntryAt(b, e, p) == Some(Entry(Long(b, e, p), Long(b, e, p + 4), off, sz, FRead(b, off, sz)))
  {
    hide Get, Long;
    if p + 40 <= |b| {
      EntryInPlace(b, e, p);
      FourByteValue(b, e, p);
      FourByteValue(b, e, p + 4);
      FourByteValue(b, e, p + 16);
      FourByteValue(b, e, p + 20);
    }
  }

  lemma HeadersBytes(b: seq<byte>, e: Order)
    requires |b| >= 52
    ensures var h := ReadHeaders(b, e);
            && |h.entries| == Half(b, e, 48) && h.names == NamesTable(b, e)
            && forall i :: 0 <= i < |h.entries| ==> h.entries[i] == EntryAt(b, e, HeaderPlace(b, e, i))
  {
    hide Get, Long, Half, EntryAt;
    FourByteValue(b, e, 32);
    TwoByteValue(b, e, 46);
    TwoByteValue(b, e, 48);
    TwoByteValue(b, e, 50);
    EntryBytes(b, e, HeaderPlace(b, e, Half(b, e, 50)));
  }

  lemma NamedBytes(b: seq<byte>, e: Order, names: seq<byte>, i: nat, name: seq<byte>)
    requires |b| >= 52 && HeaderPresent(b, e, i)
    ensures NameAt(names, Long(b, e, HeaderPlace(b, e, i)), name) <==> HeaderNamed(b, e, names, i, name)
  {
    hide Long, HeaderPlace;
    var at := Long(b, e, HeaderPlace(b, e, i));
    if at + |name| <= |names| {
      var x := names[at..at + |name|];
      assert forall k :: 0 <= k < |name| ==> x[k] == names[at + k];
      if forall k :: 0 <= k < |name| ==> names[at + k] == name[k] {
        assert x == name;
      }
    }
  }

  // The search from the k-th header on, nothing before it having matched.
  lemma {:induction false} SearchFrom(b: seq<byte>, e: Order, names: seq<byte>, name: seq<byte>, k: nat)
    requires |b| >= 52 && NamesTable(b, e) == Some(names) && k <= Half(b, e, 48) == |ReadHeaders(b, e).entries|
    requires forall j :: 0 <= j < k ==> HeaderPresent(b, e, j) && !HeaderNamed(b, e, names, j, name)
    ensures Answers(b, e, name, SelectFrom(names, ReadHeaders(b, e).entries[k..], name))
    decreases Half(b, e, 48) - k
  {
    hide Half, Long, EntryAt, SelectFrom, NameAt, HeaderNamed, HeaderPlace, Deliver, NamesTable, ReadHeaders;
    HeadersBytes(b, e);
    var es := ReadHeaders(b, e).entries;
    SelectStep(names, es[k..], name);
    if k < |es| {
      assert es[k..][0] == EntryAt(b, e, HeaderPlace(b, e, k)) && es[k..][1..] == es[k + 1..];
      EntryBytes(b, e, HeaderPlace(b, e, k));
      if HeaderPresent(b, e, k) {
        NamedBytes(b, e, names, k, name);
        if HeaderNamed(b, e, names, k, name) {
          DeliverBytes(b, e, k);
          OnlyFirst(b, e, names, k, name);
        } else {
          SearchFrom(b, e, names, name, k + 1);
        }
      }
    }
  }

  lemma OnlyFirst(b: seq<byte>, e: Order, names: seq<byte>, k: nat, name: seq<byte>)
    requires |b| >= 52 && FirstNamed(b, e, names, k, name)
    ensures forall i: nat :: FirstNamed(b, e, names, i, name) ==> i == k
  {
    hide HeaderNamed, HeaderPresent;
  }

  lemma DeliverBytes(b: seq<byte>, e: Order, k: nat)
    requires |b| >= 52 && HeaderPresent(b, e, k)
    ensures EntryAt(b, e, HeaderPlace(b, e, k)).Some?
    ensures Deliver(EntryAt(b, e, HeaderPlace(b, e, k)).value) == SectionAt(b, e, k)
  {
    hide Long, EntryAt, HeaderPlace;
    EntryBytes(b, e, HeaderPlace(b, e, k));
  }

  // The selection among the headers is the answer in the bytes of the file.
  lemma SelectAnswers(b: seq<byte>, e: Order, name: seq<byte>)
    requires |b| >= 52
    ensures Answers(b, e, name, Select(ReadHeaders(b, e), name))
  {
    hide SelectFrom, ReadHeaders, NamesTable, HeaderNamed, FirstNamed;
    HeadersBytes(b, e);
    match NamesTable(b, e)
    case None =>
    case Some(names) =>
      SearchFrom(b, e, names, name, 0);
      assert ReadHeaders(b, e).entries[0..] == ReadHeaders(b, e).entries;
  }

  // A 32-bit file the reader accepts.
  predicate Readable(file: seq<byte>) {
    |file| >= EHDR_SIZE && file[EI_CLASS] == 1 && file[EI_DATA] in {1, 2}
  }

  // fread into a fresh record
  method ReadRecord(file: seq<byte>, pos: nat, n: nat) returns (b: array?<byte>)
    ensures b == null <==> FRead(file, pos, n).None?
    ensures b != null ==> fresh(b) && Some(b[..]) == FRead(file, pos, n)
  {
    if n == 0 || pos + n > |file| {
      return null;
    }
    b := new byte[n](i requires 0 <= i < n => file[pos + i]);
    assert b[..] == file[pos..pos + n];
  }

  // The size of the file header and its flipped fields, by class: 1 is 32-bit, 2 is 64-bit.
  function EhdrSize(class_: byte): nat {
    if class_ == 1 then EHDR_SIZE else EHDR64_SIZE
  }

  function EhdrFields(class_: byte): (fs: seq<Field>)
    ensures forall f :: f in fs ==> f.off + f.sz <= EhdrSize(class_)
  {
    Layouts();
    LayoutFits(EHDR_FLIPPED, EHDR_SIZE);
    LayoutFits(EHDR64_FLIPPED, EHDR64_SIZE);
    if class_ == 1 then EHDR_FLIPPED else EHDR64_FLIPPED
  }

  // __elf_get_ehdr
  method GetEhdr(file: seq<byte>, host: Order) returns (ehdr: array?<byte>)
    ensures ehdr != null <==> |file| > EI_CLASS && file[EI_CLASS] in {1, 2} && |file| >= EhdrSize(file[EI_CLASS])
    ensures ehdr != null ==>
              var n := EhdrSize(file[EI_CLASS]);
              fresh(ehdr) && ehdr[..] == FlipRecord(file[..n], EhdrFields(file[EI_CLASS]), OrderOf(file[EI_DATA]), host)
  {
    var ident := ReadRecord(file, 0, EI_NIDENT);
    if ident == null {
      return null;
    }
    assert ident[..][EI_DATA] == file[EI_DATA] && ident[..][EI_CLASS] == file[EI_CLASS];
    var endian := OrderOf(ident[EI_DATA]);
    if ident[EI_CLASS] != 1 && ident[EI_CLASS] != 2 {
      return null;
    }
    ehdr := ReadRecord(file, 0, EhdrSize(ident[EI_CLASS]));
    if ehdr == null {
      return null;
    }
    FlipRecordInPlace(ehdr, EhdrFields(ident[EI_CLASS]), endian, host);
  }

  // fread of a section header, followed by its flip
  method ReadShdr(file: seq<byte>, pos: nat, e: Order, host: Order) returns (shdr: array?<byte>)
    ensures shdr == null <==> EntryAt(file, e, pos).None?
    ensures shdr != null ==>
              && fresh(shdr) && shdr.Length == SHDR_SIZE
              && EntryAt(file, e, pos) == Some(EntryFrom(file, host, shdr[..]))
  {
    hide EntryAt, EntryFrom;
    Layouts();
    LayoutFits(SHDR_FLIPPED, SHDR_SIZE);
    FlippedEntry(file, e, host, pos);
    shdr := ReadRecord(file, pos, SHDR_SIZE);
    if shdr != null {
      FlipRecordInPlace(shdr, SHDR_FLIPPED, e, host);
    }
  }

  // What the converted 32-bit header says in host order is what the file says in its own.
  lemma HostHeader(file: seq<byte>, host: Order)
    requires |file| >= EHDR_SIZE
    ensures var (h, e) := (FlipRecord(file[..EHDR_SIZE], EhdrFields(1), OrderOf(file[EI_DATA]), host),
            OrderOf(file[EI_DATA]));
            && Get(host, h, E_SHOFF) == Get(e, file, E_SHOFF) && Get(host, h, E_SHENTSIZE) == Get(e, file, E_SHENTSIZE)
            && Get(host, h, E_SHNUM) == Get(e, file, E_SHNUM) && Get(host, h, E_SHSTRNDX) == Get(e, file, E_SHSTRNDX)
            && h[EI_CLASS] == file[EI_CLASS] && h[EI_DATA] == file[EI_DATA]
  {
    hide FlipRecord, Get;
    Layouts();
    LayoutFits(EHDR_FLIPPED, EHDR_SIZE);
    FlippedEhdr(file[..EHDR_SIZE], OrderOf(file[EI_DATA]), host);
    HeaderPrefix(file, OrderOf(file[EI_DATA]));
  }

  // elf_extract_section_names
  method ExtractSectionNames(file: seq<byte>, host: Order) returns (sstab: Option<seq<byte>>)
    requires |file| > EI_CLASS ==> file[EI_CLASS] != 2
    ensures Readable(file) ==> sstab == ReadHeaders(file, OrderOf(file[EI_DATA])).names
    ensures |file| >= 52 && file[4] == 1 && file[5] in {1, 2} ==>
              sstab == NamesTable(file, if file[5] == 1 then LSB else MSB)
    ensures !Readable(file) ==> sstab == None
  {
    hide FlipRecord, EntryAt, EntryFrom, EhdrFields;
    var ehdr := GetEhdr(file, host);
    if ehdr == null {
      return None;
    }
    HostHeader(file, host);
    HeadersBytes(file, OrderOf(file[EI_DATA]));
    if ehdr[EI_DATA] != 1 && ehdr[EI_DATA] != 2 {
      return None;
    }
    var e := OrderOf(ehdr[EI_DATA]);
    var strndx := Get(host, ehdr[..], E_SHSTRNDX);
    if strndx == 0 || Get(host, ehdr[..], E_SHNUM) == 0 {
      return None;
    }
    var pos := EntryPos(Get(host, ehdr[..], E_SHOFF), Get(host, ehdr[..], E_SHENTSIZE), strndx);
    var shdr := ReadShdr(file, pos, e, host);
    if shdr == null {
      return None;
    }
    EntryContent(file, host, shdr[..]);
    return FRead(file, Get(host, shdr[..], SH_OFFSET), Get(host, shdr[..], SH_SIZE));
  }

  lemma EntryContent(file: seq<byte>, host: Order, h: seq<byte>)
    requires |h| == SHDR_SIZE
    ensures var g := EntryFrom(file, host, h);
            && g.name == Get(host, h, SH_NAME) && g.kind == Get(host, h, SH_TYPE)
            && g.offset == Get(host, h, SH_OFFSET) && g.size == Get(host, h, SH_SIZE)
            && g.content == FRead(file, g.offset, g.size)
  {
  }

  lemma PrefixField(b: seq<byte>, n: nat, f: Field)
    requires f.off + f.sz <= n <= |b|
    ensures FieldBytes(b[..n], f) == FieldBytes(b, f)
  {
    var x, y := FieldBytes(b[..n], f), FieldBytes(b, f);
    assert |x| == |y| && forall k :: 0 <= k < f.sz ==> x[k] == b[f.off + k] == y[k];
  }

  lemma HeaderPrefix(file: seq<byte>, e: Order)
    requires |file| >= EHDR_SIZE
    ensures var b := file[..EHDR_SIZE];
            && Get(e, file, E_SHOFF) == Get(e, b, E_SHOFF) && Get(e, file, E_SHENTSIZE) == Get(e, b, E_SHENTSIZE)
            && Get(e, file, E_SHNUM) == Get(e, b, E_SHNUM) && Get(e, file, E_SHSTRNDX) == Get(e, b, E_SHSTRNDX)
  {
    hide ReadAs, FieldBytes;
    PrefixField(file, EHDR_SIZE, E_SHOFF);
    PrefixField(file, EHDR_SIZE, E_SHENTSIZE);
    PrefixField(file, EHDR_SIZE, E_SHNUM);
    PrefixField(file, EHDR_SIZE, E_SHSTRNDX);
  }

  // elf_extract_scn_by_name, given the header __elf_get_ehdr returned for this file. Whatever the
  // host's byte order, the result is the one the headers determine.
  method ExtractScnByName(ehdr: array<byte>, file: seq<byte>, name: seq<byte>, host: Order) returns (r: Lookup)
    requires |file| >= EHDR_SIZE && file[EI_CLASS] == 1
    requires ehdr[..] == FlipRecord(file[..EHDR_SIZE], EhdrFields(1), OrderOf(file[EI_DATA]), host)
    ensures !Readable(file) ==> r == Nothing
    ensures file[5] in {1, 2} ==> Answers(file, if file[5] == 1 then LSB else MSB, name, r)
    ensures Readable(file) ==> r == Select(ReadHeaders(file, OrderOf(file[EI_DATA])), name)
  {
    hide FlipRecord, EntryAt, EntryFrom, SelectFrom, Get, EhdrFields;
    var sstab := ExtractSectionNames(file, host);
    HostHeader(file, host);
    SelectAnswers(file, OrderOf(file[EI_DATA]), name);
    var endian := OrderOf(ehdr[EI_DATA]);
    ghost var entries := ReadHeaders(file, endian).entries;
    if sstab == None {
      return Nothing;
    }
    var shoff, entsize := Get(host, ehdr[..], E_SHOFF), Get(host, ehdr[..], E_SHENTSIZE);
    var num := Get(host, ehdr[..], E_SHNUM);
    var i := 0;
    while i < num
      invariant 0 <= i <= num == |entries|
      invariant SelectFrom(sstab.value, entries, name) == SelectFrom(sstab.value, entries[i..], name)
    {
      assert entries[i..] != [] && entries[i..][0] == EntryAt(file, endian, EntryPos(shoff, entsize, i));
      SelectStep(sstab.value, entries[i..], name);
      assert entries[i..][1..] == entries[i + 1..];
      var shdr := ReadShdr(file, EntryPos(shoff, entsize, i), endian, host);
      if shdr == null {
        return Nothing;
      }
      EntryContent(file, host, shdr[..]);
      if NameAt(sstab.value, Get(host, shdr[..], SH_NAME), name) {
        r := DeliverFrom(file, shdr, host);
        return;
      }
      i := i + 1;
    }
    SelectStep(sstab.value, entries[i..], name);
    return Nothing;
  }

  lemma SelectStep(names: seq<byte>, entries: seq<Option<Entry>>, name: seq<byte>)
    ensures SelectFrom(names, entries, name) ==
            if entries == [] || entries[0].None? then Nothing
            else if NameAt(names, entries[0].value.name, name) then Deliver(entries[0].value)
            else SelectFrom(names, entries[1..], name)
  {
  }

  // The section a matching header points at.
  method DeliverFrom(file: seq<byte>, shdr: array<byte>, host: Order) returns (r: Lookup)
    requires shdr.Length == SHDR_SIZE
    ensures r == Deliver(EntryFrom(file, host, shdr[..]))
  {
    var secsz, offset := Get(host, shdr[..], SH_SIZE), Get(host, shdr[..], SH_OFFSET);
    if Get(host, shdr[..], SH_TYPE) != SHT_NOBITS {
      var section := FRead(file, offset, secsz);
      if secsz > 0 && section.None? {
        return Nothing;
      }
      return Found(secsz, offset, if secsz > 0 then section else Some([]));
    }
    return Found(secsz, offset, None);
  }
}
