/** Building the segment table (init_mem, attach_scn_to_mem and fill_mem_scn in src/mem.c), on values,
    and what the engine then finds in it. */
module Segments {
  import opened Words
  import opened Memory

  /* ---------- attributes and names ---------- */

  // SCN_ATTR, SCN_WIDTH (include/mem.h)
  function ScnAttr(width: word, rights: word): word
    requires rights <= 0xff
  {
    (if width == 1 then 32 else 64) * 0x100 + rights
  }

  function ScnWidth(attr: word): word {
    attr / 0x100
  }

  function Lower(c: char): char {
    if 'A' <= c <= 'Z' then ((c as int) + 32) as char else c
  }

  // 0 == strncasecmp(s, p, strlen(p))
  predicate CasePrefix(p: string, s: string) {
    |p| <= |s| && forall k :: 0 <= k < |p| ==> Lower(p[k]) == Lower(s[k])
  }

  const UPPER: string := "ABCDEFGHIJKLMNOPQRSTUVWXYZ"
  const LOWER: string := "abcdefghijklmnopqrstuvwxyz"

  // One letter in two cases.
  predicate CasePair(c: char, d: char) {
    exists k :: 0 <= k < 26 && UPPER[k] == c && LOWER[k] == d
  }

  lemma Alphabets()
    ensures |UPPER| == |LOWER| == 26
    ensures forall k :: 0 <= k < 26 ==> UPPER[k] as int == 'A' as int + k && LOWER[k] as int == 'a' as int + k
  {
  }

  // Two characters count as equal exactly when they are the same or one letter in two cases.
  lemma LowerExactly(c: char, d: char)
    ensures Lower(c) == Lower(d) <==> c == d || CasePair(c, d) || CasePair(d, c)
  {
    hide CasePair;
    PairExactly(c, d);
    PairExactly(d, c);
  }

  lemma PairExactly(c: char, d: char)
    ensures CasePair(c, d) <==> 'A' <= c <= 'Z' && d as int == c as int + 32
  {
    hide UPPER, LOWER;
    Alphabets();
    if 'A' <= c <= 'Z' && d as int == c as int + 32 {
      var k := c as int - 'A' as int;
      assert UPPER[k] == c && LOWER[k] == d;
    }
  }

  // The characters of s, each replaced by the lower-case one if it is an upper-case letter.
  function Folded(s: string): (r: string)
    ensures |r| == |s|
  {
    if s == "" then ""
    else [FoldChar(s[0])] + Folded(s[1..])
  }

  function FoldChar(c: char): char {
    if 'A' <= c <= 'Z' then LOWER[c as int - 'A' as int] else c
  }

  lemma FoldCharIs(c: char)
    ensures FoldChar(c) == Lower(c)
  {
    hide LOWER;
    Alphabets();
  }

  // The comparison asks whether one name begins with the other once case is folded.
  lemma {:induction false} PrefixExactly(p: string, s: string)
    ensures CasePrefix(p, s) <==> Folded(p) <= Folded(s)
    decreases |p|
  {
    if p != "" && s != "" {
      PrefixExactly(p[1..], s[1..]);
      FoldedHead(p);
      FoldedHead(s);
      var x, y := Folded(p), Folded(s);
      assert x <= y <==> x[0] == y[0] && x[1..] <= y[1..] by { PrefixOfPair(x, y); }
      assert CasePrefix(p, s) <==> Lower(p[0]) == Lower(s[0]) && CasePrefix(p[1..], s[1..]) by { PrefixTail(p, s); }
    }
  }

  lemma FoldedHead(s: string)
    requires s != ""
    ensures Folded(s)[0] == Lower(s[0]) && Folded(s)[1..] == Folded(s[1..])
  {
    hide FoldChar, Lower;
    FoldCharIs(s[0]);
  }

  lemma PrefixOfPair(x: string, y: string)
    requires x != "" && y != ""
    ensures x <= y <==> x[0] == y[0] && x[1..] <= y[1..]
  {
    if x[0] == y[0] && x[1..] <= y[1..] {
      assert forall k :: 1 <= k < |x| ==> x[k] == x[1..][k - 1] == y[1..][k - 1] == y[k];
    }
    if x <= y {
      assert forall k :: 0 <= k < |x| - 1 ==> x[1..][k] == x[k + 1] == y[k + 1] == y[1..][k];
    }
  }

  lemma PrefixTail(p: string, s: string)
    requires p != "" && s != ""
    ensures CasePrefix(p, s) <==> Lower(p[0]) == Lower(s[0]) && CasePrefix(p[1..], s[1..])
  {
    hide Lower;
    if Lower(p[0]) == Lower(s[0]) && CasePrefix(p[1..], s[1..]) {
      forall k | 0 <= k < |p|
        ensures k < |s| && Lower(p[k]) == Lower(s[k])
      {
        if k > 0 {
          assert p[k] == p[1..][k - 1] && s[k] == s[1..][k - 1];
        }
      }
    }
    if CasePrefix(p, s) {
      assert forall k :: 0 <= k < |p| - 1 ==> p[1..][k] == p[k + 1] && s[1..][k] == s[k + 1];
    }
  }

  /* ---------- the three operations ---------- */

  function Zeros(n: nat): (c: seq<byte>)
    ensures |c| == n && forall k :: 0 <= k < n ==> c[k] == 0
  {
    seq(n, _ => 0)
  }

  // content = NULL
  const FREE: Segment := Segment(None, [], 0, 0, 0)

  function InitMem(nseg: nat): Image {
    seq(nseg, _ => FREE)
  }

  // Index of the first segment without a name, or |m|.
  function FirstFree(m: Image): (n: nat)
    ensures n <= |m| && (n < |m| ==> m[n].name.None?)
    ensures forall i :: 0 <= i < n ==> m[i].name.Some?
  {
    if m == [] then 0 else if m[0].name.None? then 0
    else
      var n := FirstFree(m[1..]);
      assert forall i :: 1 <= i < n + 1 ==> m[i] == m[1..][i - 1];
      n + 1
  }

  function Attach(m: Image, name: string, attr: word): (int, Image) {
    var n := FirstFree(m);
    if n == |m| then (1, m) else (0, m[n := m[n].(name := Some(name), attr := attr)])
  }

  predicate Matches(g: Segment, name: string) {
    g.name.Some? && CasePrefix(name, g.name.value)
  }

  function FirstMatch(m: Image, name: string): (n: nat)
    ensures n <= |m| && (n < |m| ==> Matches(m[n], name))
    ensures forall i :: 0 <= i < n ==> !Matches(m[i], name)
  {
    if m == [] then 0 else if Matches(m[0], name) then 0
    else
      var n := FirstMatch(m[1..], name);
      assert forall i :: 1 <= i < n + 1 ==> m[i] == m[1..][i - 1];
      n + 1
  }

  // The scan hands every name it passes to strncasecmp, which a NULL name must not reach.
  predicate Searchable(m: Image, name: string) {
    forall i :: 0 <= i < FirstMatch(m, name) ==> m[i].name.Some?
  }

  // What calloc and memcpy leave in a buffer of sz bytes.
  function Buffer(sz: word, content: Option<seq<byte>>): (c: seq<byte>)
    requires content.Some? ==> sz <= |content.value|
    ensures |c| == sz + SLACK
    ensures forall k :: 0 <= k < sz ==> c[k] == if content.Some? then content.value[k] else 0
  {
    (if content.Some? then content.value[..sz] else Zeros(sz)) + Zeros(SLACK)
  }

  function Fill(m: Image, name: string, sz: word, start: word, content: Option<seq<byte>>): (int, Image)
    requires Searchable(m, name) && (content.Some? ==> sz <= |content.value|)
  {
    var n := FirstMatch(m, name);
    if n == |m| || ScnWidth(m[n].attr) !in {32, 64} then (1, m)
    else (0, m[n := m[n].(size := sz, start := start, content := Buffer(sz, content))])
  }

  /* ---------- what they keep ---------- */

  // Attributes made by SCN_ATTR always select the 32- or the 64-bit branch.
  lemma AttrWidth(width: word, rights: word)
    requires rights <= 0xff
    ensures ScnWidth(ScnAttr(width, rights)) == if width == 1 then 32 else 64
    ensures ScnAttr(width, rights) % 0x100 == rights
    ensures ScnAttr(width, rights) == 0x100 * ScnWidth(ScnAttr(width, rights)) + rights
  {
  }

  // A fill touches only the first segment whose name starts with the one asked for.
  lemma FillIsLocal(m: Image, name: string, sz: word, start: word, content: Option<seq<byte>>)
    requires Searchable(m, name) && (content.Some? ==> sz <= |content.value|)
    ensures var (code, m') := Fill(m, name, sz, start, content);
            && |m'| == |m|
            && (forall i :: 0 <= i < |m| && i != FirstMatch(m, name) ==> m'[i] == m[i])
            && (forall i :: 0 <= i < |m| ==> m'[i].name == m[i].name && m'[i].attr == m[i].attr)
            && (code == 0 <==> FirstMatch(m, name) < |m| && ScnWidth(m[FirstMatch(m, name)].attr) in {32, 64})
            && (code != 0 ==> code == 1 && m' == m)
  {
  }

  datatype Section = Section(name: string, attr: word, start: word, size: word, content: Option<seq<byte>>)

  function AttachAll(m: Image, secs: seq<Section>): (seq<int>, Image)
    decreases |secs|
  {
    if secs == [] then ([], m)
    else
      var (code, m1) := Attach(m, secs[0].name, secs[0].attr);
      var (codes, m2) := AttachAll(m1, secs[1..]);
      ([code] + codes, m2)
  }

  function Attached(g: Section): Segment {
    FREE.(name := Some(g.name), attr := g.attr)
  }

  ghost predicate WellSized(g: Section) {
    g.content.Some? ==> g.size <= |g.content.value|
  }

  function Filled(g: Section): Segment
    requires WellSized(g)
  {
    Segment(Some(g.name), Buffer(g.size, g.content), g.start, g.size, g.attr)
  }

  // The table with the first `filled` sections filled and the first `attached` attached.
  ghost function Stage(n: nat, secs: seq<Section>, attached: nat, filled: nat): (m: Image)
    requires filled <= attached <= |secs| && attached <= n && forall g :: g in secs ==> WellSized(g)
    ensures |m| == n
  {
    seq(n, i requires 0 <= i < n =>
      if i < filled then Filled(secs[i]) else if i < attached then Attached(secs[i]) else FREE)
  }

  lemma AttachStage(n: nat, secs: seq<Section>, attached: nat, filled: nat)
    requires filled <= attached < |secs| && attached < n && forall g :: g in secs ==> WellSized(g)
    ensures Attach(Stage(n, secs, attached, filled), secs[attached].name, secs[attached].attr) ==
            (0, Stage(n, secs, attached + 1, filled))
  {
    var m := Stage(n, secs, attached, filled);
    assert m[attached].name.None?;
    assert forall i :: 0 <= i < attached ==> m[i].name.Some?;
    assert FirstFree(m) == attached;
    assert m[attached := Attached(secs[attached])] == Stage(n, secs, attached + 1, filled);
  }

  // After init_mem(n) the attached segments are exactly a prefix of the table, in call order; a call
  // that finds no free segment returns 1 and changes nothing.
  lemma {:induction false} AttachPrefix(n: nat, secs: seq<Section>, k: nat)
    requires k <= |secs| && k <= n && forall g :: g in secs ==> WellSized(g)
    ensures var k' := if |secs| <= n then |secs| else n;
            var (codes, m) := AttachAll(Stage(n, secs, k, 0), secs[k..]);
            && m == Stage(n, secs, k', 0)
            && |codes| == |secs| - k
            && forall i :: 0 <= i < |codes| ==> codes[i] == if k + i < n then 0 else 1
    decreases |secs| - k
  {
    var m := Stage(n, secs, k, 0);
    if k < |secs| {
      assert secs[k..][1..] == secs[k + 1..];
      if k < n {
        AttachStage(n, secs, k, 0);
        AttachPrefix(n, secs, k + 1);
      } else {
        TableFull(n, secs, m);
        AttachNone(m, secs[k..]);
      }
    }
  }

  lemma TableFull(n: nat, secs: seq<Section>, m: Image)
    requires n <= |secs| && (forall g :: g in secs ==> WellSized(g)) && m == Stage(n, secs, n, 0)
    ensures FirstFree(m) == |m|
  {
    assert forall i :: 0 <= i < n ==> m[i].name.Some?;
  }

  lemma {:induction false} AttachNone(m: Image, secs: seq<Section>)
    requires FirstFree(m) == |m|
    ensures AttachAll(m, secs).1 == m && |AttachAll(m, secs).0| == |secs|
    ensures forall i :: 0 <= i < |secs| ==> AttachAll(m, secs).0[i] == 1
    decreases |secs|
  {
    if secs != [] {
      AttachNone(m, secs[1..]);
    }
  }

  lemma InitIsStage(n: nat, secs: seq<Section>)
    requires forall g :: g in secs ==> WellSized(g)
    ensures InitMem(n) == Stage(n, secs, 0, 0)
  {
  }

  /* ---------- loading a whole image ---------- */

  // The k-th name is no case-insensitive prefix of an earlier one, so a fill by it passes these by.
  predicate Reaches(secs: seq<Section>, k: nat)
    requires k < |secs|
  {
    forall i :: 0 <= i < k ==> !CasePrefix(secs[k].name, secs[i].name)
  }

  ghost predicate NamesApart(secs: seq<Section>) {
    forall k :: 0 <= k < |secs| ==> Reaches(secs, k)
  }

  ghost predicate Fillable(secs: seq<Section>) {
    forall g :: g in secs ==> WellSized(g) && ScnWidth(g.attr) in {32, 64}
  }

  ghost predicate Loadable(secs: seq<Section>) {
    && NamesApart(secs) && Fillable(secs)
    && (forall g :: g in secs ==> g.start + g.size + SLACK < 0x1_0000_0000)
    && (forall i, j :: 0 <= i < j < |secs| ==> secs[i].start + secs[i].size <= secs[j].start)
  }

  // One section: attach it, then fill it, as the loader does; both codes are reported.
  function LoadSection(m: Image, g: Section): (r: (int, Image))
    requires WellSized(g)
  {
    var (code, m1) := Attach(m, g.name, g.attr);
    if code != 0 || !Searchable(m1, g.name) then (1, m1)
    else Fill(m1, g.name, g.size, g.start, g.content)
  }

  function LoadAll(m: Image, secs: seq<Section>): (int, Image)
    requires forall g :: g in secs ==> WellSized(g)
    decreases |secs|
  {
    if secs == [] then (0, m)
    else
      var (code, m1) := LoadSection(m, secs[0]);
      if code != 0 then (code, m1) else LoadAll(m1, secs[1..])
  }

  lemma FillStage(n: nat, secs: seq<Section>, attached: nat, k: nat)
    requires Fillable(secs) && k < attached <= |secs| && attached <= n && Reaches(secs, k)
    ensures var m := Stage(n, secs, attached, k);
            && Searchable(m, secs[k].name)
            && Fill(m, secs[k].name, secs[k].size, secs[k].start, secs[k].content) ==
                (0, Stage(n, secs, attached, k + 1))
  {
    var m := Stage(n, secs, attached, k);
    var g := secs[k];
    assert CasePrefix(g.name, g.name);
    assert Matches(m[k], g.name);
    forall i | 0 <= i < k
      ensures !Matches(m[i], g.name) && m[i].name.Some?
    {
      assert !CasePrefix(secs[k].name, secs[i].name);
    }
    assert FirstMatch(m, g.name) == k;
    assert m[k := Filled(g)] == Stage(n, secs, attached, k + 1);
  }

  // As long as every name reaches its own segment, the table grows stage by stage.
  lemma {:induction false} LoadStages(n: nat, secs: seq<Section>, a: nat, k: nat)
    requires Fillable(secs) && a <= k <= |secs| <= n && forall j :: a <= j < k ==> Reaches(secs, j)
    ensures LoadAll(Stage(n, secs, a, a), secs[a..]) == LoadAll(Stage(n, secs, k, k), secs[k..])
    decreases k - a
  {
    if a < k {
      AttachStage(n, secs, a, a);
      FillStage(n, secs, a + 1, a);
      assert secs[a..][1..] == secs[a + 1..];
      LoadStages(n, secs, a + 1, k);
    }
  }

  // The first j segments have the names of the first j sections and the others have none.
  ghost predicate Named(m: Image, secs: seq<Section>, j: nat)
    requires j <= |secs|
  {
    j <= |m| && forall x :: 0 <= x < |m| ==> m[x].name == if x < j then Some(secs[x].name) else None
  }

  lemma NamedFree(m: Image, secs: seq<Section>, j: nat)
    requires j <= |secs| && Named(m, secs, j)
    ensures FirstFree(m) == j
  {
    assert forall x :: 0 <= x < j ==> m[x].name.Some?;
    assert j < |m| ==> m[j].name.None?;
  }

  lemma PrefixTransitive(p: string, q: string, s: string)
    requires CasePrefix(p, q) && CasePrefix(q, s)
    ensures CasePrefix(p, s)
  {
  }

  // A segment whose name is a prefix of an earlier one is passed by: loading a section leaves it empty.
  lemma LoadPassesBy(m: Image, secs: seq<Section>, i: nat, k: nat, j: nat)
    requires Fillable(secs) && i < k <= j < |secs| <= |m| && CasePrefix(secs[k].name, secs[i].name)
    requires Named(m, secs, j) && m[k].content == []
    ensures WellSized(secs[j])
    ensures var m' := LoadSection(m, secs[j]).1; Named(m', secs, j + 1) && m'[k].content == []
  {
    hide FirstFree, FirstMatch, CasePrefix, Buffer;
    var g := secs[j];
    assert g in secs;
    NamedFree(m, secs, j);
    var m1 := Attach(m, g.name, g.attr).1;
    assert Named(m1, secs, j + 1) && m1[k].content == [];
    SelfPrefix(g.name);
    assert Matches(m1[j], g.name);
    if Matches(m1[k], g.name) {
      PrefixTransitive(g.name, secs[k].name, secs[i].name);
      assert Matches(m1[i], g.name);
    }
    assert FirstMatch(m1, g.name) != k;
  }

  lemma SelfPrefix(s: string)
    ensures CasePrefix(s, s)
  {
  }

  lemma {:induction false} StaysEmpty(m: Image, secs: seq<Section>, i: nat, k: nat, j: nat)
    requires Fillable(secs) && i < k < |secs| <= |m| && k <= j <= |secs| && CasePrefix(secs[k].name, secs[i].name)
    requires Named(m, secs, j) && m[k].content == []
    ensures |LoadAll(m, secs[j..]).1| == |m| && LoadAll(m, secs[j..]).1[k].content == []
    decreases |secs| - j
  {
    hide LoadSection, CasePrefix, Named;
    if j < |secs| {
      LoadPassesBy(m, secs, i, k, j);
      LoadKeepsSize(m, secs[j]);
      assert secs[j..][0] == secs[j] && secs[j..][1..] == secs[j + 1..];
      StaysEmpty(LoadSection(m, secs[j]).1, secs, i, k, j + 1);
    }
  }

  lemma LoadKeepsSize(m: Image, g: Section)
    requires WellSized(g)
    ensures |LoadSection(m, g).1| == |m|
  {
  }

  lemma StageNamed(n: nat, secs: seq<Section>, j: nat)
    requires Fillable(secs) && j <= |secs| <= n
    ensures Named(Stage(n, secs, j, j), secs, j)
  {
  }

  // Loading section after section fills every section's own segment if and only if no name is a
  // case-insensitive prefix of an earlier one.
  lemma LoadsExactly(n: nat, secs: seq<Section>)
    requires Fillable(secs) && |secs| <= n
    ensures LoadAll(InitMem(n), secs) == (0, Stage(n, secs, |secs|, |secs|)) <==> NamesApart(secs)
  {
    hide LoadAll, InitMem, Reaches, Named, LoadSection, Stage, ScnWidth;
    InitIsStage(n, secs);
    assert secs[0..] == secs;
    if NamesApart(secs) {
      LoadStages(n, secs, 0, |secs|);
      LoadNothing(Stage(n, secs, |secs|, |secs|), secs[|secs|..]);
    } else {
      var k0 :| 0 <= k0 < |secs| && !Reaches(secs, k0);
      var k := FirstMiss(secs, k0);
      LoadStages(n, secs, 0, k);
      var m := Stage(n, secs, k, k);
      LoadMisses(n, secs, k);
      StageHolds(n, secs, k);
    }
  }

  lemma {:induction false} FirstMiss(secs: seq<Section>, k0: nat) returns (k: nat)
    requires k0 < |secs| && !Reaches(secs, k0)
    ensures k < |secs| && !Reaches(secs, k) && forall j :: 0 <= j < k ==> Reaches(secs, j)
    decreases k0
  {
    hide Reaches;
    k := k0;
    if j :| 0 <= j < k0 && !Reaches(secs, j) {
      k := FirstMiss(secs, j);
    }
  }

  lemma StageHolds(n: nat, secs: seq<Section>, k: nat)
    requires Fillable(secs) && k < |secs| <= n
    ensures Stage(n, secs, |secs|, |secs|)[k].content != []
  {
    assert secs[k] in secs;
    assert Stage(n, secs, |secs|, |secs|)[k] == Filled(secs[k]);
  }

  lemma LoadNothing(m: Image, secs: seq<Section>)
    requires secs == []
    ensures LoadAll(m, secs) == (0, m)
  {
  }

  lemma LoadMisses(n: nat, secs: seq<Section>, k: nat)
    requires Fillable(secs) && k < |secs| <= n && !Reaches(secs, k)
    ensures |LoadAll(Stage(n, secs, k, k), secs[k..]).1| == n
    ensures LoadAll(Stage(n, secs, k, k), secs[k..]).1[k].content == []
  {
    hide LoadAll, CasePrefix, Named;
    var m := Stage(n, secs, k, k);
    var i :| 0 <= i < k && CasePrefix(secs[k].name, secs[i].name);
    StageNamed(n, secs, k);
    assert m[k] == FREE;
    StaysEmpty(m, secs, i, k, k);
  }

  // The names the load command uses: the four sections it looks for, in this order, and the stack.
  const LOADER_NAMES: seq<string> := [".text", ".rodata", ".data", ".bss", ".stack"]

  lemma LoaderNamesDiffer(i: nat, j: nat)
    requires i < 5 && j < 5 && i != j
    ensures !CasePrefix(LOADER_NAMES[i], LOADER_NAMES[j])
  {
    var p, s := LOADER_NAMES[i], LOADER_NAMES[j];
    SecondLetters();
    assert Lower(p[1]) != Lower(s[1]);
  }

  lemma SecondLetters()
    ensures forall k :: 0 <= k < 5 ==> |LOADER_NAMES[k]| >= 2 && LOADER_NAMES[k][1] == "trdbs"[k]
  {
  }

  // Whichever of them are present, every section of a real load reaches its own segment.
  lemma LoaderNamesApart(secs: seq<Section>)
    requires forall g :: g in secs ==> g.name in LOADER_NAMES
    requires forall i, j :: 0 <= i < j < |secs| ==> secs[i].name != secs[j].name
    ensures NamesApart(secs)
  {
    hide CasePrefix;
    forall i, k | 0 <= i < k < |secs|
      ensures !CasePrefix(secs[k].name, secs[i].name)
    {
      assert secs[i] in secs && secs[k] in secs;
      var x :| 0 <= x < 5 && LOADER_NAMES[x] == secs[k].name;
      var y :| 0 <= y < 5 && LOADER_NAMES[y] == secs[i].name;
      LoaderNamesDiffer(x, y);
    }
  }

  // The byte the image holds at offset k of a section.
  function Expected(g: Section, k: nat): byte
    requires WellSized(g) && k < g.size
  {
    if g.content.Some? then g.content.value[k] else 0
  }

  ghost predicate SectionReads(m: Image, g: Section)
    requires ValidImage(m) && WellSized(g)
  {
    forall a: word :: g.start <= a < g.start + g.size ==> Locate(m, a).At? && LoadByte(m, a) == Expected(g, a - g.start)
  }

  // Every byte address of every section is in a buffer and reads back its content, or 0 where no
  // content was given.
  ghost predicate ReadsBack(m: Image, secs: seq<Section>)
    requires ValidImage(m) && forall g :: g in secs ==> WellSized(g)
  {
    forall i :: 0 <= i < |secs| ==> SectionReads(m, secs[i])
  }

  // A segment left free answers for address 0 with its null pointer: unless the table is exactly
  // full, no section may hold that address.
  predicate ZeroAddressSafe(n: nat, secs: seq<Section>) {
    n == |secs| || forall i :: 0 <= i < |secs| && secs[i].size > 0 ==> secs[i].start != 0
  }

  lemma LoadedValid(n: nat, secs: seq<Section>)
    requires Loadable(secs) && |secs| <= n
    ensures ValidImage(Stage(n, secs, |secs|, |secs|))
  {
    var m := Stage(n, secs, |secs|, |secs|);
    forall j | 0 <= j < n
      ensures ValidSegment(m[j])
    {
      if j < |secs| {
        assert secs[j] in secs;
        assert m[j] == Filled(secs[j]);
      } else {
        assert m[j] == FREE;
      }
    }
  }

  lemma LoadedPlace(n: nat, secs: seq<Section>, i: nat, a: word)
    requires Loadable(secs) && i < |secs| <= n
    requires secs[i].start <= a < secs[i].start + secs[i].size
    requires ValidImage(Stage(n, secs, |secs|, |secs|))
    ensures Locate(Stage(n, secs, |secs|, |secs|), a) ==
            if a == 0 && n > |secs| then Fault else At(i, a - secs[i].start)
  {
    hide Hit, Resolve, Stage, NamesApart, ValidImage, ValidSegment;
    var m := Stage(n, secs, |secs|, |secs|);
    if a == 0 && n > |secs| {
      FreeAnswersZero(n, secs, n - 1);
      ValidAt(m, n - 1);
    } else {
      ValidAt(m, i);
      FilledAnswers(n, secs, i, a);
      forall j | i < j < n
        ensures !Hit(m[j], a)
      {
        ValidAt(m, j);
        LaterIsSilent(n, secs, i, j, a);
      }
      assert Resolve(m, a) == i;
    }
  }

  lemma ValidAt(m: Image, j: nat)
    requires ValidImage(m) && j < |m|
    ensures ValidSegment(m[j])
  {
  }

  lemma FreeAnswersZero(n: nat, secs: seq<Section>, j: nat)
    requires Fillable(secs) && |secs| <= j < n
    ensures var g := Stage(n, secs, |secs|, |secs|)[j]; Hit(g, 0) && g.content == []
  {
  }

  lemma FilledAnswers(n: nat, secs: seq<Section>, i: nat, a: word)
    requires Fillable(secs) && i < |secs| <= n && secs[i].start <= a < secs[i].start + secs[i].size
    requires ValidSegment(Stage(n, secs, |secs|, |secs|)[i])
    ensures var g := Stage(n, secs, |secs|, |secs|)[i]; Hit(g, a) && g.content != [] && g.start == secs[i].start
  {
    hide Hit;
    assert secs[i] in secs;
    HitExactly(Stage(n, secs, |secs|, |secs|)[i], a);
  }

  lemma LaterIsSilent(n: nat, secs: seq<Section>, i: nat, j: nat, a: word)
    requires Loadable(secs) && i < |secs| && i < j < n && |secs| <= n
    requires secs[i].start <= a < secs[i].start + secs[i].size && (a != 0 || n == |secs|)
    requires ValidSegment(Stage(n, secs, |secs|, |secs|)[j])
    ensures !Hit(Stage(n, secs, |secs|, |secs|)[j], a)
  {
    hide Hit, NamesApart, ValidSegment;
    HitExactly(Stage(n, secs, |secs|, |secs|)[j], a);
    if j < |secs| {
      assert secs[i].start + secs[i].size <= secs[j].start;
    }
  }

  lemma LoadedByte(n: nat, secs: seq<Section>, i: nat, a: word)
    requires Loadable(secs) && i < |secs| <= n && WellSized(secs[i])
    requires secs[i].start <= a < secs[i].start + secs[i].size
    requires ValidImage(Stage(n, secs, |secs|, |secs|))
    ensures LoadByte(Stage(n, secs, |secs|, |secs|), a) ==
            if a == 0 && n > |secs| then 0 else Expected(secs[i], a - secs[i].start)
  {
    hide Locate;
    var m := Stage(n, secs, |secs|, |secs|);
    LoadedPlace(n, secs, i, a);
    assert m[i] == Filled(secs[i]);
    assert n > |secs| ==> m[n - 1] == FREE;
  }

  lemma LoadResult(n: nat, secs: seq<Section>)
    requires Loadable(secs) && |secs| <= n
    ensures LoadAll(InitMem(n), secs) == (0, Stage(n, secs, |secs|, |secs|))
  {
    hide LoadAll, InitMem, Stage;
    LoadsExactly(n, secs);
  }

  lemma SectionReadsWhen(n: nat, secs: seq<Section>, i: nat, m: Image)
    requires Loadable(secs) && i < |secs| <= n && WellSized(secs[i])
    requires m == Stage(n, secs, |secs|, |secs|) && ValidImage(m)
    ensures SectionReads(m, secs[i]) <==>
            (n == |secs| || secs[i].size == 0 || secs[i].start != 0)
  {
    hide LoadByte, Locate, Stage, Loadable, Expected;
    var g := secs[i];
    forall a: word | g.start <= a < g.start + g.size
      ensures Locate(m, a).At? <==> !(a == 0 && n > |secs|)
      ensures Locate(m, a).At? ==> LoadByte(m, a) == Expected(g, a - g.start)
    {
      LoadedPlace(n, secs, i, a);
      LoadedByte(n, secs, i, a);
    }
    if g.start == 0 && g.size > 0 {
      var zero: word := 0;
      assert Locate(m, zero).At? <==> n == |secs|;
    }
  }

  // End to end: loading sections into a fresh table succeeds, and the image reads back exactly when
  // the table is full or no section holds address 0.
  lemma ImageReadsBack(n: nat, secs: seq<Section>)
    requires Loadable(secs) && |secs| <= n
    ensures var (code, m) := LoadAll(InitMem(n), secs);
            code == 0 && ValidImage(m) && (ReadsBack(m, secs) <==> ZeroAddressSafe(n, secs))
  {
    hide LoadAll, InitMem, Stage, SectionReads, Expected, NamesApart;
    LoadResult(n, secs);
    LoadedValid(n, secs);
    var m := Stage(n, secs, |secs|, |secs|);
    forall i | 0 <= i < |secs|
      ensures WellSized(secs[i])
      ensures SectionReads(m, secs[i]) <==>
              (n == |secs| || secs[i].size == 0 || secs[i].start != 0)
    {
      assert secs[i] in secs;
      SectionReadsWhen(n, secs, i, m);
    }
  }

  // One byte at address 0, whatever its value, in a table with a spare segment: the access goes
  // through the spare segment's null pointer.
  lemma ByteAtZeroIsLost(x: byte)
    ensures var secs := [Section(".text", ScnAttr(1, 0), 0, 1, Some([x]))];
            && Loadable(secs)
            && var (code, m) := LoadAll(InitMem(2), secs);
               code == 0 && ValidImage(m) && Locate(m, 0) == Fault && !ReadsBack(m, secs)
  {
    hide LoadAll, InitMem, ReadsBack, Locate, Stage;
    var secs := [Section(".text", ScnAttr(1, 0), 0, 1, Some([x]))];
    assert secs[0] in secs;
    ImageReadsBack(2, secs);
    LoadResult(2, secs);
    LoadedPlace(2, secs, 0, 0);
  }

  // In a loaded image the null pointer is reached from address 0 of a table with a spare segment,
  // and from nowhere else.
  lemma FaultsExactly(n: nat, secs: seq<Section>, a: word)
    requires Loadable(secs) && |secs| <= n
    ensures var (code, m) := LoadAll(InitMem(n), secs);
            code == 0 && ValidImage(m) && (Locate(m, a).Fault? <==> a == 0 && n > |secs|)
  {
    hide LoadAll, InitMem, NamesApart;
    LoadResult(n, secs);
    LoadedValid(n, secs);
    var m := Stage(n, secs, |secs|, |secs|);
    if n > |secs| {
      assert m[n - 1] == FREE && Hit(FREE, 0);
    } else {
      assert forall j :: 0 <= j < n ==> m[j] == Filled(secs[j]) && m[j].content != [];
    }
  }
}
