/** Byte order (src/bits.c): reversing a block in place, and reading a block in either order. */
module Bits {
  import opened Words

  // LSB and MSB of the source's endianness type; the host's own order is a parameter throughout.
  datatype Order = LSB | MSB

  function Other(o: Order): Order {
    if o == LSB then MSB else LSB
  }

  function Reversed(s: seq<byte>): (r: seq<byte>)
    ensures |r| == |s|
  {
    seq(|s|, i requires 0 <= i < |s| => s[|s| - 1 - i])
  }

  // b with the sz bytes from off on reversed.
  function FlipAt(b: seq<byte>, off: nat, sz: nat): (r: seq<byte>)
    requires off + sz <= |b|
    ensures |r| == |b|
    ensures forall i :: 0 <= i < |b| ==> r[i] == if off <= i < off + sz then b[off + off + sz - 1 - i] else b[i]
  {
    b[..off] + Reversed(b[off..off + sz]) + b[off + sz..]
  }

  // __flip_endianness on the block of sz bytes at off.
  method FlipEndianness(blocks: array<byte>, off: nat, sz: nat)
    requires off + sz <= blocks.Length
    modifies blocks
    ensures blocks[..] == FlipAt(old(blocks[..]), off, sz)
  {
    ghost var b := blocks[..];
    var i := 0;
    while i < sz / 2
      invariant 0 <= i <= sz / 2
      invariant forall k :: off <= k < off + i ==> blocks[k] == b[off + off + sz - 1 - k]
      invariant forall k :: off + sz - i <= k < off + sz ==> blocks[k] == b[off + off + sz - 1 - k]
      invariant forall k :: 0 <= k < blocks.Length && !(off <= k < off + i || off + sz - i <= k < off + sz) ==>
                  blocks[k] == b[k]
    {
      var tmp := blocks[off + i];
      blocks[off + i] := blocks[off + sz - 1 - i];
      blocks[off + sz - 1 - i] := tmp;
      i := i + 1;
    }
    Mirrored(b, blocks[..], off, sz);
  }

  // A block whose two halves hold each other's mirror image is the flipped one.
  lemma Mirrored(b: seq<byte>, c: seq<byte>, off: nat, sz: nat)
    requires off + sz <= |b| == |c|
    requires forall k :: off <= k < off + sz / 2 ==> c[k] == b[off + off + sz - 1 - k]
    requires forall k :: off + sz - sz / 2 <= k < off + sz ==> c[k] == b[off + off + sz - 1 - k]
    requires forall k :: 0 <= k < |b| && !(off <= k < off + sz / 2 || off + sz - sz / 2 <= k < off + sz) ==>
               c[k] == b[k]
    ensures c == FlipAt(b, off, sz)
  {
  }

  // Reversing the same block twice restores it, for every length.
  lemma FlipTwice(b: seq<byte>, off: nat, sz: nat)
    requires off + sz <= |b|
    ensures FlipAt(FlipAt(b, off, sz), off, sz) == b
  {
  }

  function LittleValue(s: seq<byte>): nat {
    if s == [] then 0 else s[0] + 0x100 * LittleValue(s[1..])
  }

  // The number a block of bytes stands for in a byte order.
  function ReadAs(o: Order, s: seq<byte>): nat {
    if o == LSB then LittleValue(s) else LittleValue(Reversed(s))
  }

  // Reading a reversed block in one order is reading the block in the other.
  lemma ReadReversed(o: Order, s: seq<byte>)
    ensures ReadAs(o, Reversed(s)) == ReadAs(Other(o), s)
  {
    assert Reversed(Reversed(s)) == s;
  }

  lemma {:induction false} ReadFits(o: Order, s: seq<byte>)
    ensures ReadAs(o, s) < Pow2(8 * |s|)
  {
    LittleFits(if o == LSB then s else Reversed(s));
  }

  lemma {:induction false} LittleFits(s: seq<byte>)
    ensures LittleValue(s) < Pow2(8 * |s|)
  {
    if s != [] {
      LittleFits(s[1..]);
      Pow2Add(8, 8 * |s[1..]|);
      assert Pow2(8) == 0x100;
    }
  }

  /* ---------- records ---------- */

  datatype Field = Field(off: nat, sz: nat)

  // Fields in ascending order, inside a record of n bytes.
  ghost predicate Layout(fs: seq<Field>, n: nat) {
    && (forall i :: 0 <= i < |fs| ==> fs[i].off + fs[i].sz <= n)
    && (forall i, j :: 0 <= i < j < |fs| ==> fs[i].off + fs[i].sz <= fs[j].off)
  }

  function FlipFields(b: seq<byte>, fs: seq<Field>): (r: seq<byte>)
    requires forall f :: f in fs ==> f.off + f.sz <= |b|
    ensures |r| == |b|
  {
    if fs == [] then b
    else FlipAt(FlipFields(b, fs[..|fs| - 1]), fs[|fs| - 1].off, fs[|fs| - 1].sz)
  }

  ghost predicate Covered(fs: seq<Field>, k: nat) {
    exists i :: 0 <= i < |fs| && fs[i].off <= k < fs[i].off + fs[i].sz
  }

  function Mirror(f: Field, k: nat): nat
    requires f.off <= k < f.off + f.sz
  {
    f.off + f.off + f.sz - 1 - k
  }

  lemma Peel(fs: seq<Field>, n: nat)
    requires fs != [] && Layout(fs, n)
    ensures Layout(fs[..|fs| - 1], n)
    ensures forall k: nat :: Covered(fs[..|fs| - 1], k) ==> Covered(fs, k) && k < fs[|fs| - 1].off
  {
    var rest := fs[..|fs| - 1];
    assert forall i :: 0 <= i < |rest| ==> rest[i] == fs[i];
    forall k: nat | Covered(rest, k)
      ensures Covered(fs, k) && k < fs[|fs| - 1].off
    {
      var i :| 0 <= i < |rest| && rest[i].off <= k < rest[i].off + rest[i].sz;
      assert fs[i].off <= k < fs[i].off + fs[i].sz;
    }
  }

  lemma LayoutFits(fs: seq<Field>, n: nat)
    requires Layout(fs, n)
    ensures forall f :: f in fs ==> f.off + f.sz <= n
    ensures forall i, j :: 0 <= i < j < |fs| ==> fs[i].off + fs[i].sz <= fs[j].off
  {
  }

  lemma FlipLast(b: seq<byte>, fs: seq<Field>)
    requires forall f :: f in fs ==> f.off + f.sz <= |b|
    ensures fs == [] ==> FlipFields(b, fs) == b
    ensures fs != [] ==>
              FlipFields(b, fs) == FlipAt(FlipFields(b, fs[..|fs| - 1]), fs[|fs| - 1].off, fs[|fs| - 1].sz)
  {
  }

  lemma {:induction false} OutsideByte(b: seq<byte>, fs: seq<Field>, k: nat)
    requires Layout(fs, |b|) && k < |b| && !Covered(fs, k)
    ensures FlipFields(b, fs)[k] == b[k]
    decreases |fs|
  {
    hide FlipFields;
    FlipLast(b, fs);
    if fs != [] {
      Peel(fs, |b|);
      assert !(fs[|fs| - 1].off <= k < fs[|fs| - 1].off + fs[|fs| - 1].sz);
      OutsideByte(b, fs[..|fs| - 1], k);
    }
  }

  lemma {:induction false} InsideByte(b: seq<byte>, fs: seq<Field>, i: nat, k: nat)
    requires Layout(fs, |b|) && i < |fs| && fs[i].off <= k < fs[i].off + fs[i].sz
    ensures FlipFields(b, fs)[k] == b[Mirror(fs[i], k)]
    decreases |fs|
  {
    hide FlipFields, Layout;
    var n := |fs| - 1;
    LayoutFits(fs, |b|);
    FlipLast(b, fs);
    Peel(fs, |b|);
    if i < n {
      assert fs[..n][i] == fs[i];
      InsideByte(b, fs[..n], i, k);
    } else {
      OutsideByte(b, fs[..n], Mirror(fs[n], k));
    }
  }

  // Each listed field is reversed, and no byte outside the list moves.
  lemma FlipFieldsBytes(b: seq<byte>, fs: seq<Field>)
    requires Layout(fs, |b|)
    ensures forall i, k :: 0 <= i < |fs| && fs[i].off <= k < fs[i].off + fs[i].sz ==>
              FlipFields(b, fs)[k] == b[Mirror(fs[i], k)]
    ensures forall k :: 0 <= k < |b| && !Covered(fs, k) ==> FlipFields(b, fs)[k] == b[k]
  {
    hide FlipFields;
    forall i, k | 0 <= i < |fs| && fs[i].off <= k < fs[i].off + fs[i].sz
      ensures FlipFields(b, fs)[k] == b[Mirror(fs[i], k)]
    {
      InsideByte(b, fs, i, k);
    }
    forall k | 0 <= k < |b| && !Covered(fs, k)
      ensures FlipFields(b, fs)[k] == b[k]
    {
      OutsideByte(b, fs, k);
    }
  }

  // Flipping a record twice restores it.
  lemma FlipFieldsTwice(b: seq<byte>, fs: seq<Field>)
    requires Layout(fs, |b|)
    ensures FlipFields(FlipFields(b, fs), fs) == b
  {
    hide FlipFields;
    var r := FlipFields(b, fs);
    forall k | 0 <= k < |b|
      ensures FlipFields(r, fs)[k] == b[k]
    {
      if Covered(fs, k) {
        var i :| 0 <= i < |fs| && fs[i].off <= k < fs[i].off + fs[i].sz;
        InsideByte(r, fs, i, k);
        InsideByte(b, fs, i, Mirror(fs[i], k));
      } else {
        OutsideByte(r, fs, k);
        OutsideByte(b, fs, k);
      }
    }
  }

  // The record as it is after the conditional flip: nothing happens when the orders agree.
  function FlipRecord(b: seq<byte>, fs: seq<Field>, e: Order, host: Order): (r: seq<byte>)
    requires forall f :: f in fs ==> f.off + f.sz <= |b|
    ensures |r| == |b|
  {
    if e == host then b else FlipFields(b, fs)
  }

  function FieldBytes(b: seq<byte>, f: Field): seq<byte>
    requires f.off + f.sz <= |b|
  {
    b[f.off..f.off + f.sz]
  }

  lemma FieldReversed(b: seq<byte>, fs: seq<Field>, i: nat)
    requires Layout(fs, |b|) && i < |fs|
    ensures FieldBytes(FlipFields(b, fs), fs[i]) == Reversed(FieldBytes(b, fs[i]))
  {
    hide FlipFields, Layout, FieldBytes, Reversed;
    LayoutFits(fs, |b|);
    var f := fs[i];
    var flipped := FlipFields(b, fs);
    FieldAt(flipped, f);
    FieldAt(b, f);
    forall k | 0 <= k < f.sz
      ensures FieldBytes(flipped, f)[k] == Reversed(FieldBytes(b, f))[k]
    {
      InsideByte(b, fs, i, f.off + k);
      ReversedAt(FieldBytes(b, f), k);
    }
  }

  lemma FieldAt(b: seq<byte>, f: Field)
    requires f.off + f.sz <= |b|
    ensures |FieldBytes(b, f)| == f.sz && forall k :: 0 <= k < f.sz ==> FieldBytes(b, f)[k] == b[f.off + k]
  {
  }

  lemma ReversedAt(s: seq<byte>, k: nat)
    requires k < |s|
    ensures Reversed(s)[k] == s[|s| - 1 - k]
  {
  }

  // After the flip, reading a listed field in the host's order gives its value in the target order.
  lemma FlipRecordReads(b: seq<byte>, fs: seq<Field>, e: Order, host: Order, i: nat)
    requires Layout(fs, |b|) && i < |fs|
    ensures ReadAs(host, FieldBytes(FlipRecord(b, fs, e, host), fs[i])) == ReadAs(e, FieldBytes(b, fs[i]))
  {
    hide FlipFields, ReadAs;
    if e != host {
      FieldReversed(b, fs, i);
      ReadReversed(host, FieldBytes(b, fs[i]));
    }
  }

  // A field that is not listed keeps its bytes.
  lemma FlipRecordKeeps(b: seq<byte>, fs: seq<Field>, e: Order, host: Order, f: Field)
    requires Layout(fs, |b|) && f.off + f.sz <= |b|
    requires forall k :: f.off <= k < f.off + f.sz ==> !Covered(fs, k)
    ensures FieldBytes(FlipRecord(b, fs, e, host), f) == FieldBytes(b, f)
  {
    FlipFieldsBytes(b, fs);
  }

  // The conditional flip undoes itself.
  lemma FlipRecordTwice(b: seq<byte>, fs: seq<Field>, e: Order, host: Order)
    requires Layout(fs, |b|)
    ensures FlipRecord(FlipRecord(b, fs, e, host), fs, e, host) == b
  {
    FlipFieldsTwice(b, fs);
  }

  // The conditional flip in place, field after field.
  method FlipRecordInPlace(b: array<byte>, fs: seq<Field>, e: Order, host: Order)
    requires forall f :: f in fs ==> f.off + f.sz <= b.Length
    modifies b
    ensures b[..] == FlipRecord(old(b[..]), fs, e, host)
  {
    if e == host {
      return;
    }
    var i := 0;
    assert fs[..0] == [];
    while i < |fs|
      invariant 0 <= i <= |fs|
      invariant forall f :: f in fs[..i] ==> f in fs
      invariant b[..] == FlipFields(old(b[..]), fs[..i])
    {
      FlipEndianness(b, fs[i].off, fs[i].sz);
      assert fs[..i + 1][..i] == fs[..i];
      i := i + 1;
    }
    assert fs[..i] == fs;
  }
}
