/** The segment table in the heap: loadmem and storemem (src/asm.c) and the table's builder (src/mem.c),
    with buffers that are updated in place. Each method is tied to its counterpart on values. */
module VirtualMem {
  import opened Words
  import opened Memory
  import opened Segments

  // The access width, a string in the source; any third string is Other.
  datatype Width = Word | Byte | Other

  class MemSegment {
    var name: Option<string>
    var content: array?<byte>
    var start: word
    var size: word
    var attr: word

    constructor ()
      ensures View() == FREE && content == null
    {
      name, content, start, size, attr := None, null, 0, 0, 0;
    }

    function View(): Segment
      reads this, content
    {
      Segment(name, if content == null then [] else content[..], start, size, attr)
    }
  }

  class VirtualMemory {
    const seg: seq<MemSegment>

    ghost function Buffers(): set<object>
      reads seg
    {
      set g | g in seg && g.content != null :: g.content
    }

    // No two segments share a record or a buffer, and no buffer is empty.
    ghost predicate Separate()
      reads seg
    {
      && (forall i, j :: 0 <= i < j < |seg| ==>
            seg[i] != seg[j] && (seg[i].content == null || seg[i].content != seg[j].content))
      && (forall g :: g in seg && g.content != null ==> g.content.Length > 0)
    }

    // The table as a value.
    ghost function Table(): (m: Image)
      reads seg, Buffers()
      ensures |m| == |seg| && forall i :: 0 <= i < |m| ==> m[i] == seg[i].View()
    {
      seq(|seg|, i requires 0 <= i < |seg| reads seg, Buffers() => seg[i].View())
    }

    // init_mem
    constructor (nseg: nat)
      ensures fresh(seg) && Buffers() == {} && Separate()
      ensures Table() == InitMem(nseg)
    {
      var table: seq<MemSegment> := [];
      while |table| < nseg
        invariant |table| <= nseg
        invariant fresh(table) && forall g :: g in table ==> g.content == null && g.View() == FREE
        invariant forall i, j :: 0 <= i < j < |table| ==> table[i] != table[j]
      {
        var g := new MemSegment();
        table := table + [g];
      }
      seg := table;
    }

    // attach_scn_to_mem
    method AttachScn(name: string, attr: word) returns (code: int)
      requires Separate()
      modifies seg
      ensures Separate() && Buffers() == old(Buffers())
      ensures (code, Table()) == Attach(old(Table()), name, attr)
    {
      ghost var m := Table();
      var i := 0;
      while i < |seg|
        invariant 0 <= i <= |seg|
        invariant i <= FirstFree(m)
        invariant Table() == m && Separate() && Buffers() == old(Buffers())
      {
        if seg[i].name.None? {
          assert FirstFree(m) == i by {
            assert m[i].name.None?;
          }
          Take(i, name, attr);
          return 0;
        }
        assert m[i].name.Some?;
        i := i + 1;
      }
      return 1;
    }

    // The two assignments of attach_scn_to_mem.
    method Take(i: nat, name: string, attr: word)
      requires i < |seg| && Separate()
      modifies seg[i]
      ensures Separate() && Buffers() == old(Buffers())
      ensures Table() == old(Table()[i := Table()[i].(name := Some(name), attr := attr)])
    {
      seg[i].attr := attr;
      seg[i].name := Some(name);
    }

    // fill_mem_scn
    method FillScn(name: string, sz: word, start: word, content: array?<byte>) returns (code: int)
      requires Separate() && Searchable(Table(), name)
      requires content != null ==> sz <= content.Length
      modifies seg
      ensures Separate() && fresh(Buffers() - old(Buffers()))
      ensures (code, Table()) ==
              old(Fill(Table(), name, sz, start, if content == null then None else Some(content[..])))
    {
      ghost var m := Table();
      ghost var source := if content == null then None else Some(content[..]);
      var i := 0;
      while i < |seg|
        invariant 0 <= i <= |seg|
        invariant i <= FirstMatch(m, name)
        invariant Table() == m && Separate() && Buffers() == old(Buffers())
        invariant content != null ==> source == Some(content[..])
      {
        assert m[i] == seg[i].View();
        if seg[i].name.Some? && CasePrefix(name, seg[i].name.value) {
          assert FirstMatch(m, name) == i;
          if ScnWidth(seg[i].attr) != 32 && ScnWidth(seg[i].attr) != 64 {
            return 1;
          }
          Allocate(i, sz, start, content);
          return 0;
        }
        i := i + 1;
      }
      return 1;
    }

    // A new buffer for the segment found.
    method Allocate(i: nat, sz: word, start: word, content: array?<byte>)
      requires i < |seg| && Separate()
      requires content != null ==> sz <= content.Length
      modifies seg[i]
      ensures Separate() && fresh(Buffers() - old(Buffers()))
      ensures Table() == old(Table()[i := Table()[i].(size := sz, start := start,
                content := Buffer(sz, if content == null then None else Some(content[..])))])
    {
      hide Separate, Buffer;
      var buffer := NewBuffer(sz, content);
      Install(i, sz, start, buffer);
    }

    // The three assignments of fill_mem_scn.
    method Install(i: nat, sz: word, start: word, buffer: array<byte>)
      requires i < |seg| && Separate() && buffer !in Buffers() && buffer.Length > 0
      modifies seg[i]
      ensures Separate() && Buffers() <= old(Buffers()) + {buffer}
      ensures Table() == old(Table()[i := Table()[i].(size := sz, start := start, content := buffer[..])])
    {
      seg[i].size := sz;
      seg[i].start := start;
      seg[i].content := buffer;
    }

    // calloc, then memcpy when there is something to copy
    static method NewBuffer(sz: word, content: array?<byte>) returns (b: array<byte>)
      requires content != null ==> sz <= content.Length
      ensures fresh(b) && b[..] == Buffer(sz, if content == null then None else Some(content[..]))
    {
      b := new byte[sz + SLACK](_ => 0);
      if content != null {
        var k := 0;
        while k < sz
          invariant 0 <= k <= sz
          invariant forall j :: 0 <= j < b.Length ==> b[j] == if j < k then content[j] else 0
        {
          b[k] := content[k];
          k := k + 1;
        }
      }
    }

    // loadmem
    method LoadMem(vAddr: word, width: Width) returns (data: int32)
      requires Separate() && ValidImage(Table())
      ensures width == Word ==> data == LoadWord(Table(), vAddr)
      ensures width == Byte ==> data == LoadByte(Table(), vAddr)
      ensures width == Other ==> data == 0
    {
      hide Combine, ToInt32, Resolve, BigEndian, ToWord, ValidSegment;
      var n := Scan(vAddr);
      if n == -1 {
        return 0;
      }
      assert Table()[n] == seg[n].View();
      var c, start := seg[n].content, seg[n].start;
      if c == null {
        return 0;
      }
      BufferIndex(Table(), n, vAddr);
      if width == Word {
        return ToInt32(Combine(c[ToWord(vAddr as int - start)], c[ToWord(vAddr as int + 1 - start)],
                               c[ToWord(vAddr as int + 2 - start)], c[ToWord(vAddr as int + 3 - start)]));
      }
      if width == Byte {
        return c[ToWord(vAddr as int - start)];
      }
      return 0;
    }

    // The segment scan both accesses start with.
    method Scan(vAddr: word) returns (n: int)
      ensures n == Resolve(Table(), vAddr)
    {
      n := -1;
      var i := 0;
      while i < |seg|
        invariant 0 <= i <= |seg|
        invariant n == Resolve(Table()[..i], vAddr)
      {
        assert Table()[..i + 1][..i] == Table()[..i];
        assert Table()[i] == seg[i].View();
        if seg[i].start <= vAddr && vAddr <= ToWord(seg[i].start as int + seg[i].size) {
          n := i;
        }
        i := i + 1;
      }
      assert Table()[..i] == Table();
    }

    // storemem
    method StoreMem(vAddr: word, data: int32, width: Width) returns (code: int)
      requires Separate() && ValidImage(Table())
      modifies Buffers()
      ensures Separate() && Buffers() == old(Buffers())
      ensures width == Word ==> (code, Table()) == StoreWord(old(Table()), vAddr, data)
      ensures width == Byte ==> (code, Table()) == StoreByte(old(Table()), vAddr, data)
      ensures width == Other ==> code == -1 && Table() == old(Table())
    {
      hide Resolve, PutContent, PutWord, ByteOf, ToWord, ValidSegment, StoreWord, StoreByte, Locate, Separate;
      ghost var m := Table();
      var n := Scan(vAddr);
      if n == -1 {
        NothingStored(m, n, vAddr, data);
        return -1;
      }
      NullIsEmpty(n);
      if seg[n].content == null {
        NothingStored(m, n, vAddr, data);
        return if width == Other then -1 else SEGV;
      }
      if width == Other {
        return -1;
      }
      BufferIndex(m, n, vAddr);
      BytesStored(m, n, vAddr, data);
      WriteAt(n, vAddr, data, width);
      return 0;
    }

    lemma NullIsEmpty(n: nat)
      requires Separate() && n < |Table()|
      ensures n < |seg| && (seg[n].content == null <==> Table()[n].content == [])
    {
    }

    // The bytes written to the segment the scan picked.
    method WriteAt(n: nat, vAddr: word, data: int32, width: Width)
      requires Separate() && ValidImage(Table()) && width != Other
      requires n < |seg| && Table()[n].content != [] && n == Resolve(Table(), vAddr)
      requires 0 <= vAddr - Table()[n].start && vAddr - Table()[n].start + 3 < |Table()[n].content|
      modifies Buffers()
      ensures Separate() && Buffers() == old(Buffers())
      ensures var m, o := old(Table()), vAddr - old(Table())[n].start;
              Table() == PutContent(m, n, if width == Word then PutWord(m[n].content, o, data)
                                          else m[n].content[o := data % 0x100])
    {
      hide Resolve, PutContent, PutWord, ByteOf, ToWord, ValidSegment;
      ghost var m := Table();
      assert m[n] == seg[n].View();
      BufferIndex(m, n, vAddr);
      var c: array<byte>, start := seg[n].content, seg[n].start;
      if width == Word {
        WriteBytes(c, vAddr, start, data);
      } else {
        c[ToWord(vAddr as int - start)] := data % 0x100;
      }
      TableAfterWrite(n, m, c);
    }

    lemma TableAfterWrite(n: nat, m: Image, c: array<byte>)
      requires n < |seg| == |m| && Separate() && seg[n].content == c && ValidImage(m) && |m[n].content| == c.Length
      requires forall i :: 0 <= i < |m| ==>
               m[i] == (if i == n then seg[i].View().(content := m[i].content) else seg[i].View())
      ensures Table() == PutContent(m, n, c[..])
    {
    }

    static method WriteBytes(c: array<byte>, vAddr: word, start: word, data: int32)
      requires start <= vAddr && vAddr - start + 3 < c.Length < 0x1_0000_0000
      modifies c
      ensures c[..] == PutWord(old(c[..]), vAddr - start, data)
    {
      hide MaskByte, ToWord, ByteOf;
      Offsets(vAddr, start);
      c[ToWord(vAddr as int - start)] := MaskByte(data, 0);
      c[ToWord(vAddr as int + 1 - start)] := MaskByte(data, 1);
      c[ToWord(vAddr as int + 2 - start)] := MaskByte(data, 2);
      c[ToWord(vAddr as int + 3 - start)] := MaskByte(data, 3);
    }
  }

  lemma Offsets(vAddr: word, start: word)
    requires start <= vAddr && vAddr - start + 3 < 0x1_0000_0000
    ensures ToWord(vAddr as int - start) == vAddr - start && ToWord(vAddr as int + 1 - start) == vAddr - start + 1
    ensures ToWord(vAddr as int + 2 - start) == vAddr - start + 2
            && ToWord(vAddr as int + 3 - start) == vAddr - start + 3
  {
  }

  // The buffer indices an access uses, computed in uint32_t arithmetic, are consecutive.
  lemma BufferIndex(m: Image, n: nat, a: word)
    requires ValidImage(m) && n < |m| && n == Resolve(m, a) && m[n].content != []
    ensures Locate(m, a) == At(n, a - m[n].start) && m[n].start <= a
            && a - m[n].start + 3 < |m[n].content| < 0x1_0000_0000
    ensures ToWord(a as int - m[n].start) == a - m[n].start && ToWord(a as int + 1 - m[n].start) == a - m[n].start + 1
    ensures ToWord(a as int + 2 - m[n].start) == a - m[n].start + 2
            && ToWord(a as int + 3 - m[n].start) == a - m[n].start + 3
  {
    assert ValidSegment(m[n]);
  }

  lemma NothingStored(m: Image, n: int, a: word, data: int)
    requires ValidImage(m) && n == Resolve(m, a) && (n == -1 || m[n].content == [])
    ensures StoreWord(m, a, data) == StoreByte(m, a, data) == (if n == -1 then -1 else SEGV, m)
  {
  }

  lemma BytesStored(m: Image, n: nat, a: word, data: int)
    requires ValidImage(m) && n < |m| && n == Resolve(m, a) && m[n].content != []
    requires 0 <= a - m[n].start && a - m[n].start + 3 < |m[n].content|
    ensures StoreWord(m, a, data) == (0, PutContent(m, n, PutWord(m[n].content, a - m[n].start, data)))
    ensures StoreByte(m, a, data) == (0, PutContent(m, n, m[n].content[a - m[n].start := data % 0x100]))
  {
    hide PutWord, PutContent, Resolve;
  }

  // b0 << 24 | b1 << 16 | b2 << 8 | b3
  function Combine(b0: byte, b1: byte, b2: byte, b3: byte): (w: word)
    ensures w == BigEndian(b0, b1, b2, b3)
  {
    OrBytes(b0, b1, b2, b3);
    Or(Or(Or(b0 as int * 0x100_0000, b1 as int * 0x1_0000), b2 as int * 0x100), b3)
  }

  // (data & 0xFF000000) >> 24, and so on down to (data & 0x000000FF)
  function MaskByte(data: int32, k: nat): (b: byte)
    requires k < 4
    ensures b == ByteOf(data, k)
  {
    MaskedBytes(ToWord(data));
    if k == 0 then And(ToWord(data), 0xFF00_0000) / 0x100_0000
    else if k == 1 then And(ToWord(data), 0x00FF_0000) / 0x1_0000
    else if k == 2 then And(ToWord(data), 0x0000_FF00) / 0x100
    else And(ToWord(data), 0x0000_00FF)
  }

  lemma OrBytes(b0: byte, b1: byte, b2: byte, b3: byte)
    ensures Or(Or(Or(b0 as int * 0x100_0000, b1 as int * 0x1_0000), b2 as int * 0x100), b3) == BigEndian(b0, b1, b2, b3)
  {
    hide Or;
    Pow2Values();
    OrDisjoint(b0, b1 as int * 0x1_0000, 24);
    OrDisjoint(b0 as int * 0x100 + b1, b2 as int * 0x100, 16);
    OrDisjoint(b0 as int * 0x1_0000 + b1 as int * 0x100 + b2, b3, 8);
  }

  lemma MaskedBytes(w: word)
    ensures And(w, 0xFF00_0000) == w / 0x100_0000 * 0x100_0000
    ensures And(w, 0x00FF_0000) == w / 0x1_0000 % 0x100 * 0x1_0000
    ensures And(w, 0x0000_FF00) == w / 0x100 % 0x100 * 0x100
    ensures And(w, 0x0000_00FF) == w % 0x100
  {
    hide And;
    Pow2Values();
    assert Pow2(8) == 0x100;
    AndMask(w, 24, 31);
    AndMask(w, 16, 23);
    AndMask(w, 8, 15);
    AndMask(w, 0, 7);
  }
}
