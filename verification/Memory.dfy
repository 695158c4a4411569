/** The segmented virtual memory as the engine uses it (loadmem and storemem in src/asm.c). */
module Memory {
  import opened Words

  datatype Option<+T> = None | Some(value: T)

  // The value of one segment. The empty content is the null pointer of a segment that was never
  // filled. A buffer carries SLACK bytes beyond its size: the segment test includes the end address,
  // so a word access may reach that far past the allocation.
  datatype Segment = Segment(name: Option<string>, content: seq<byte>, start: word, size: word, attr: word)

  const SLACK: nat := 4

  type Image = seq<Segment>

  predicate ValidSegment(g: Segment) {
    && (if g.content == [] then g.start == 0 && g.size == 0 else |g.content| == g.size + SLACK)
    && g.start + g.size + SLACK < 0x1_0000_0000
  }

  ghost predicate ValidImage(m: Image) {
    forall i :: 0 <= i < |m| ==> ValidSegment(m[i])
  }

  // The engine's segment test, in uint32_t arithmetic; the end address is included.
  predicate Covers(start: word, size: word, a: word) {
    start <= a && a <= ToWord(start + size)
  }

  predicate Hit(g: Segment, a: word) {
    Covers(g.start, g.size, a)
  }

  // The scan keeps the last segment that passes the test.
  function Resolve(m: Image, a: word): (n: int)
    ensures -1 <= n < |m|
    ensures n >= 0 ==> Hit(m[n], a)
    ensures forall i :: n < i < |m| ==> !Hit(m[i], a)
  {
    if |m| == 0 then -1
    else if Hit(m[|m| - 1], a) then |m| - 1
    else Resolve(m[..|m| - 1], a)
  }

  // Where an access at a lands: no segment, the null pointer of a segment never filled, or an index
  // into a segment's buffer. The second ends the C program; the model goes on, reading zero or
  // storing nothing with the code SEGV. Only address 0 can land there.
  datatype Place = Nowhere | Fault | At(n: nat, i: nat)

  const SEGV := 139

  function Locate(m: Image, a: word): (p: Place)
    requires ValidImage(m)
    ensures p.At? ==> p.n < |m| && p.i + 3 < |m[p.n].content| && p.i == a - m[p.n].start
    ensures p.At? ==> a < 0x1_0000_0000 - SLACK
    ensures p.Nowhere? <==> forall j :: 0 <= j < |m| ==> !Hit(m[j], a)
    ensures p.Fault? ==> a == 0
  {
    var n := Resolve(m, a);
    if n == -1 then Nowhere
    else
      assert ValidSegment(m[n]);
      if m[n].content == [] then Fault else At(n, a - m[n].start)
  }

  function BigEndian(b0: byte, b1: byte, b2: byte, b3: byte): word {
    b0 * 0x100_0000 + b1 * 0x1_0000 + b2 * 0x100 + b3
  }

  function WordAt(c: seq<byte>, i: nat): int32
    requires i + 3 < |c|
  {
    ToInt32(BigEndian(c[i], c[i + 1], c[i + 2], c[i + 3]))
  }

  // loadmem(a, m, "WORD"): zero when no segment answers.
  function LoadWord(m: Image, a: word): int32
    requires ValidImage(m)
  {
    var p := Locate(m, a);
    if p.At? then WordAt(m[p.n].content, p.i) else 0
  }

  // loadmem(a, m, "BYTE").
  function LoadByte(m: Image, a: word): byte
    requires ValidImage(m)
  {
    var p := Locate(m, a);
    if p.At? then m[p.n].content[p.i] else 0
  }

  // Byte k (0 is the most significant) of a stored word.
  function ByteOf(data: int, k: nat): byte
    requires k < 4
  {
    var w := ToWord(data);
    if k == 0 then w / 0x100_0000 else if k == 1 then w / 0x1_0000 % 0x100
    else if k == 2 then w / 0x100 % 0x100 else w % 0x100
  }

  function PutWord(c: seq<byte>, i: nat, data: int): (c': seq<byte>)
    requires i + 3 < |c|
    ensures |c'| == |c|
    ensures forall j :: 0 <= j < |c| ==> c'[j] == if i <= j < i + 4 then ByteOf(data, j - i) else c[j]
  {
    c[i := ByteOf(data, 0)][i + 1 := ByteOf(data, 1)][i + 2 := ByteOf(data, 2)][i + 3 := ByteOf(data, 3)]
  }

  function PutContent(m: Image, n: nat, c: seq<byte>): (m': Image)
    requires ValidImage(m) && n < |m| && |c| == |m[n].content|
    ensures SameShape(m, m') && ValidImage(m')
  {
    assert ValidSegment(m[n]);
    m[n := m[n].(content := c)]
  }

  // storemem(a, data, m, "WORD"): the return code and the new memory.
  function StoreWord(m: Image, a: word, data: int): (r: (int, Image))
    requires ValidImage(m)
    ensures SameShape(m, r.1) && ValidImage(r.1)
  {
    var p := Locate(m, a);
    if p.Nowhere? then (-1, m) else if p.Fault? then (SEGV, m)
    else (0, PutContent(m, p.n, PutWord(m[p.n].content, p.i, data)))
  }

  // storemem(a, data, m, "BYTE").
  function StoreByte(m: Image, a: word, data: int): (r: (int, Image))
    requires ValidImage(m)
    ensures SameShape(m, r.1) && ValidImage(r.1)
  {
    var p := Locate(m, a);
    if p.Nowhere? then (-1, m) else if p.Fault? then (SEGV, m)
    else (0, PutContent(m, p.n, m[p.n].content[p.i := data % 0x100]))
  }

  // Nothing but buffer bytes differs.
  ghost predicate SameShape(m: Image, m': Image) {
    && |m| == |m'|
    && forall i :: 0 <= i < |m| ==>
         m'[i] == m[i].(content := m'[i].content) && |m'[i].content| == |m[i].content|
  }

  lemma {:induction false} ResolveShape(m: Image, m': Image, a: word)
    requires SameShape(m, m')
    ensures Resolve(m, a) == Resolve(m', a)
  {
    if |m| > 0 {
      var k := |m| - 1;
      assert Hit(m[k], a) == Hit(m'[k], a);
      if !Hit(m[k], a) {
        assert SameShape(m[..k], m'[..k]);
        ResolveShape(m[..k], m'[..k], a);
      }
    }
  }

  lemma LocateShape(m: Image, m': Image, a: word)
    requires ValidImage(m) && ValidImage(m') && SameShape(m, m')
    ensures Locate(m, a) == Locate(m', a)
  {
    ResolveShape(m, m', a);
  }

  /* ---------- what the memory operations mean ---------- */

  // A word just stored is read back, whichever segment answers.
  lemma LoadAfterStore(m: Image, a: word, data: int)
    requires ValidImage(m)
    ensures StoreWord(m, a, data).0 == 0 ==> LoadWord(StoreWord(m, a, data).1, a) == ToInt32(data)
    ensures StoreWord(m, a, data).0 == -1 <==> forall i :: 0 <= i < |m| ==> !Hit(m[i], a)
    ensures StoreWord(m, a, data).0 == 0 <==> Locate(m, a).At?
    ensures StoreWord(m, a, data).0 != 0 ==> StoreWord(m, a, data).1 == m
  {
    hide Locate, Resolve, BigEndian, ByteOf, Hit, ToWord, ToInt32;
    LocateShape(m, StoreWord(m, a, data).1, a);
    BytesReassemble(data);
  }

  lemma BytesReassemble(data: int)
    ensures ToInt32(BigEndian(ByteOf(data, 0), ByteOf(data, 1), ByteOf(data, 2), ByteOf(data, 3))) == ToInt32(data)
  {
    hide ToInt32, ToWord;
    var w := ToWord(data);
    Digits(w);
    SameInt32(data);
  }

  lemma Digits(w: word)
    ensures w == w / 0x100_0000 * 0x100_0000 + w / 0x1_0000 % 0x100 * 0x1_0000 + w / 0x100 % 0x100 * 0x100 + w % 0x100
  {
    PeelByte(w, 0x1_0000);
    PeelByte(w, 0x100);
    PeelByte(w, 1);
  }

  lemma PeelByte(u: nat, d: int)
    requires d > 0
    ensures u / d == u / (0x100 * d) * 0x100 + u / d % 0x100
  {
    DivDiv(u, d, 0x100);
  }

  lemma SameInt32(x: int)
    ensures ToInt32(ToWord(x)) == ToInt32(x)
  {
  }

  // The effect of a word store on every byte address: four addresses, where the same segment answers.
  lemma StoreWordBytes(m: Image, a: word, data: int, b: word)
    requires ValidImage(m)
    ensures var (p, q) := (Locate(m, a), Locate(m, b));
            LoadByte(StoreWord(m, a, data).1, b) ==
            if p.At? && q.At? && q.n == p.n && a <= b < a + 4 then ByteOf(data, b - a) else LoadByte(m, b)
  {
    hide Locate, Resolve, ByteOf;
    LocateShape(m, StoreWord(m, a, data).1, b);
  }

  lemma StoreByteBytes(m: Image, a: word, data: int, b: word)
    requires ValidImage(m)
    ensures LoadByte(StoreByte(m, a, data).1, b) ==
            if Locate(m, a).At? && b == a then data % 0x100 else LoadByte(m, b)
  {
    hide Locate, Resolve;
    LocateShape(m, StoreByte(m, a, data).1, b);
  }

  // The codes of a byte store, and that a store that fails changes nothing.
  lemma StoreByteCodes(m: Image, a: word, data: int)
    requires ValidImage(m)
    ensures StoreByte(m, a, data).0 == -1 <==> forall i :: 0 <= i < |m| ==> !Hit(m[i], a)
    ensures StoreByte(m, a, data).0 == 0 <==> Locate(m, a).At?
    ensures StoreByte(m, a, data).0 in {0, -1, SEGV}
    ensures StoreByte(m, a, data).0 != 0 ==> StoreByte(m, a, data).1 == m
  {
    hide Hit;
  }

  // A valid segment answers for its addresses and for the one just past its end.
  lemma HitExactly(g: Segment, a: word)
    requires ValidSegment(g)
    ensures Hit(g, a) <==> g.start <= a <= g.start + g.size
  {
  }

  // Where no segment answers, reads give zero.
  lemma UnmappedReadsZero(m: Image, a: word)
    requires ValidImage(m) && forall i :: 0 <= i < |m| ==> !(m[i].start <= a <= m[i].start + m[i].size)
    ensures LoadWord(m, a) == 0 && LoadByte(m, a) == 0
  {
    hide Hit, Resolve;
    forall i | 0 <= i < |m|
      ensures !Hit(m[i], a)
    {
      assert ValidSegment(m[i]);
      HitExactly(m[i], a);
    }
  }

  // A byte read is the byte of the last segment that answers.
  lemma LoadByteExactly(m: Image, a: word, n: nat)
    requires ValidImage(m) && n < |m| && m[n].start <= a <= m[n].start + m[n].size && m[n].content != []
    requires forall i :: n < i < |m| ==> !(m[i].start <= a <= m[i].start + m[i].size)
    ensures LoadByte(m, a) == m[n].content[a - m[n].start]
  {
    hide Hit, Resolve;
    assert ValidSegment(m[n]);
    HitExactly(m[n], a);
    forall i | n < i < |m|
      ensures !Hit(m[i], a)
    {
      assert ValidSegment(m[i]);
      HitExactly(m[i], a);
    }
  }

  /* ---------- refinement of a flat memory ---------- */

  predicate Inside(g: Segment, a: int) {
    g.start <= a < g.start + g.size
  }

  // Segments in ascending, non-overlapping order.
  ghost predicate Ascending(m: Image) {
    forall i, j :: 0 <= i < j < |m| ==> m[i].start + m[i].size <= m[j].start
  }

  // The last-match scan is harmless on an ascending image.
  lemma LocateInside(m: Image, a: word, i: nat)
    requires ValidImage(m) && Ascending(m) && i < |m| && Inside(m[i], a)
    ensures Locate(m, a) == At(i, a - m[i].start)
  {
    assert ValidSegment(m[i]);
    assert Hit(m[i], a);
    forall j | i < j < |m|
      ensures !Hit(m[j], a)
    {
      assert m[i].start + m[i].size <= m[j].start;
    }
  }

  // Every address holding a byte, with that byte.
  ghost function Flat(m: Image): map<word, byte>
    requires ValidImage(m)
  {
    map a: word | 0 <= a < 0x1_0000_0000 && Mapped(m, a) :: LoadByte(m, a)
  }

  ghost predicate Mapped(m: Image, a: int) {
    exists i :: 0 <= i < |m| && Inside(m[i], a)
  }

  ghost predicate WordMapped(m: Image, a: int) {
    exists i :: 0 <= i < |m| && Inside(m[i], a) && Inside(m[i], a + 3)
  }

  lemma WordOwner(m: Image, a: word) returns (i: nat)
    requires ValidImage(m) && Ascending(m) && WordMapped(m, a)
    ensures i < |m| && Inside(m[i], a) && Inside(m[i], a + 3) && ValidSegment(m[i])
    ensures forall b: word :: a <= b < a + 4 ==> Locate(m, b) == At(i, b - m[i].start) && Mapped(m, b)
  {
    i :| 0 <= i < |m| && Inside(m[i], a) && Inside(m[i], a + 3);
    forall b: word | a <= b < a + 4
      ensures Locate(m, b) == At(i, b - m[i].start) && Mapped(m, b)
    {
      LocateInside(m, b, i);
      assert Inside(m[i], b);
    }
  }

  lemma WordEnd(m: Image, i: nat, a: word)
    requires i < |m| && ValidSegment(m[i]) && Inside(m[i], a + 3)
    ensures a + 3 < 0x1_0000_0000
  {
  }

  // A word load inside a segment is the big-endian value of four flat bytes.
  lemma LoadWordFlat(m: Image, a: word)
    requires ValidImage(m) && Ascending(m) && WordMapped(m, a)
    ensures a + 3 < 0x1_0000_0000
    ensures a in Flat(m) && a + 1 in Flat(m) && a + 2 in Flat(m) && a + 3 in Flat(m)
    ensures LoadWord(m, a) == ToInt32(BigEndian(Flat(m)[a], Flat(m)[a + 1], Flat(m)[a + 2], Flat(m)[a + 3]))
  {
    hide Locate, Resolve, BigEndian, ToInt32, Inside, WordMapped, ValidSegment, Ascending;
    var i := WordOwner(m, a);
    WordEnd(m, i, a);
    assert Mapped(m, a) && Mapped(m, a + 1) && Mapped(m, a + 2) && Mapped(m, a + 3);
  }

  lemma MappedShape(m: Image, m': Image, b: int)
    requires SameShape(m, m')
    ensures Mapped(m', b) == Mapped(m, b) && WordMapped(m', b) == WordMapped(m, b)
  {
    assert forall j :: 0 <= j < |m| ==>
             Inside(m'[j], b) == Inside(m[j], b) && Inside(m'[j], b + 3) == Inside(m[j], b + 3);
  }

  ghost function FlatPut(f: map<word, byte>, a: word, data: int): map<word, byte>
    requires a + 3 < 0x1_0000_0000
  {
    f[a := ByteOf(data, 0)][a + 1 := ByteOf(data, 1)][a + 2 := ByteOf(data, 2)][a + 3 := ByteOf(data, 3)]
  }

  // A word store inside a segment updates exactly those four flat bytes.
  lemma StoreWordFlat(m: Image, a: word, data: int)
    requires ValidImage(m) && Ascending(m) && WordMapped(m, a)
    ensures a + 3 < 0x1_0000_0000
    ensures StoreWord(m, a, data).0 == 0
    ensures Flat(StoreWord(m, a, data).1) == FlatPut(Flat(m), a, data)
  {
    hide Locate, Resolve, ByteOf;
    var i := WordOwner(m, a);
    assert Locate(m, a).At?;
    var m' := StoreWord(m, a, data).1;
    forall b: word
      ensures Mapped(m', b) == Mapped(m, b)
      ensures LoadByte(m', b) == if a <= b < a + 4 then ByteOf(data, b - a) else LoadByte(m, b)
    {
      MappedShape(m, m', b);
      StoreWordBytes(m, a, data, b);
    }
    assert Mapped(m, a) && Mapped(m, a + 1) && Mapped(m, a + 2) && Mapped(m, a + 3);
    FlatAgree(m, m', a, data);
  }

  lemma FlatAgree(m: Image, m': Image, a: word, data: int)
    requires ValidImage(m) && ValidImage(m') && a + 3 < 0x1_0000_0000
    requires forall b: word :: Mapped(m', b) == Mapped(m, b)
    requires Mapped(m, a) && Mapped(m, a + 1) && Mapped(m, a + 2) && Mapped(m, a + 3)
    requires forall b: word :: LoadByte(m', b) == if a <= b < a + 4 then ByteOf(data, b - a) else LoadByte(m, b)
    ensures Flat(m') == FlatPut(Flat(m), a, data)
  {
    hide LoadByte, Mapped, ByteOf;
    var f, f' := FlatPut(Flat(m), a, data), Flat(m');
    assert forall b :: b in f <==> b in f';
    assert forall b :: b in f ==> f[b] == f'[b];
  }

  lemma AscendingShape(m: Image, m': Image)
    requires SameShape(m, m') && Ascending(m)
    ensures Ascending(m')
  {
    assert forall i :: 0 <= i < |m| ==> m'[i].start == m[i].start && m'[i].size == m[i].size;
  }

  // No segment reaches the last SLACK addresses, so a fetch there gives 0.
  lemma TopIsUnmapped(m: Image, a: word)
    requires ValidImage(m) && a >= 0x1_0000_0000 - SLACK
    ensures LoadWord(m, a) == 0
  {
    assert Locate(m, a).Nowhere?;
  }
}
