/** The string-table walk (print_string_table in src/elf.c): the lines it would print. */
module StringTable {
  import opened Words
  import opened Elf

  datatype Row = Row(offset: nat, text: seq<byte>)

  // The rows printed from offset i on.
  function Walk(tab: seq<byte>, i: nat): seq<Row>
    decreases |tab| - i
  {
    if i >= |tab| then [] else [Row(i, CString(tab, i))] + Walk(tab, i + |CString(tab, i)| + 1)
  }

  // print_string_table
  method PrintStringTable(tab: seq<byte>) returns (rows: seq<Row>)
    ensures rows == Walk(tab, 1)
  {
    rows := [];
    var i := 1;
    while i < |tab|
      invariant i >= 1
      invariant rows + Walk(tab, i) == Walk(tab, 1)
      decreases |tab| - i
    {
      var text := CString(tab, i);
      rows := rows + [Row(i, text)];
      i := i + |text| + 1;
    }
  }

  ghost predicate NulEnded(tab: seq<byte>) {
    tab != [] && tab[|tab| - 1] == 0
  }

  // Start offsets of strings: behind a NUL.
  ghost predicate StringStart(tab: seq<byte>, i: nat) {
    1 <= i < |tab| && tab[i - 1] == 0
  }

  // A string ends at the first NUL.
  lemma {:induction false} CStringEnds(tab: seq<byte>, i: nat)
    requires NulEnded(tab) && i < |tab|
    ensures var n := |CString(tab, i)|;
            && i + n < |tab| && tab[i + n] == 0 && CString(tab, i) == tab[i..i + n]
            && forall k :: i <= k < i + n ==> tab[k] != 0
    decreases |tab| - i
  {
    if tab[i] != 0 {
      CStringEnds(tab, i + 1);
      var n := |CString(tab, i + 1)|;
      assert tab[i..i + 1 + n] == [tab[i]] + tab[i + 1..i + 1 + n];
    }
  }

  lemma WalkStep(tab: seq<byte>, i: nat)
    requires i < |tab|
    ensures Walk(tab, i) == [Row(i, CString(tab, i))] + Walk(tab, i + |CString(tab, i)| + 1)
  {
  }

  // Every row stands for a string,
  lemma {:induction false} RowsAreStrings(tab: seq<byte>, i: nat)
    requires NulEnded(tab) && 1 <= i <= |tab| && tab[i - 1] == 0
    ensures forall r :: r in Walk(tab, i) ==>
              i <= r.offset && StringStart(tab, r.offset) && r.text == CString(tab, r.offset)
    decreases |tab| - i
  {
    if i < |tab| {
      hide CString, Walk;
      CStringEnds(tab, i);
      WalkStep(tab, i);
      RowsAreStrings(tab, i + |CString(tab, i)| + 1);
    }
  }

  // every string has a row,
  lemma {:induction false} StringsHaveRows(tab: seq<byte>, i: nat, k: nat)
    requires NulEnded(tab) && 1 <= i <= |tab| && tab[i - 1] == 0 && i <= k && StringStart(tab, k)
    ensures Row(k, CString(tab, k)) in Walk(tab, i)
    decreases |tab| - i
  {
    hide CString, Walk;
    CStringEnds(tab, i);
    WalkStep(tab, i);
    if k != i {
      StringsHaveRows(tab, i + |CString(tab, i)| + 1, k);
    }
  }

  // and the rows ascend.
  lemma {:induction false} RowsAscend(tab: seq<byte>, i: nat)
    requires NulEnded(tab) && 1 <= i <= |tab| && tab[i - 1] == 0
    ensures forall p, q :: 0 <= p < q < |Walk(tab, i)| ==> Walk(tab, i)[p].offset < Walk(tab, i)[q].offset
    decreases |tab| - i
  {
    if i < |tab| {
      hide CString, Walk, StringStart, NulEnded;
      CStringEnds(tab, i);
      WalkStep(tab, i);
      var next := i + |CString(tab, i)| + 1;
      RowsAscend(tab, next);
      RowsAreStrings(tab, next);
      RowBefore(Row(i, CString(tab, i)), Walk(tab, next), next);
    }
  }

  // A row at a lower offset may stand before ascending rows.
  lemma RowBefore(first: Row, rest: seq<Row>, next: nat)
    requires first.offset < next && forall r :: r in rest ==> next <= r.offset
    requires forall p, q :: 0 <= p < q < |rest| ==> rest[p].offset < rest[q].offset
    ensures var all := [first] + rest; forall p, q :: 0 <= p < q < |all| ==> all[p].offset < all[q].offset
  {
    var all := [first] + rest;
    forall p, q | 0 <= p < q < |all|
      ensures all[p].offset < all[q].offset
    {
      assert all[q] == rest[q - 1] && rest[q - 1] in rest;
      assert p > 0 ==> all[p] == rest[p - 1];
    }
  }

  // The offsets printed are those of the strings, each once and in order, with their text.
  lemma WalkVisits(tab: seq<byte>, i: nat)
    requires NulEnded(tab) && 1 <= i <= |tab| && tab[i - 1] == 0
    ensures forall r :: r in Walk(tab, i) ==>
              i <= r.offset && StringStart(tab, r.offset) && r.text == CString(tab, r.offset)
    ensures forall k: nat :: i <= k && StringStart(tab, k) ==> Row(k, CString(tab, k)) in Walk(tab, i)
    ensures forall p, q :: 0 <= p < q < |Walk(tab, i)| ==> Walk(tab, i)[p].offset < Walk(tab, i)[q].offset
  {
    hide CString, Walk, StringStart;
    RowsAreStrings(tab, i);
    RowsAscend(tab, i);
    forall k: nat | i <= k && StringStart(tab, k)
      ensures Row(k, CString(tab, k)) in Walk(tab, i)
    {
      StringsHaveRows(tab, i, k);
    }
  }

  function Joined(rows: seq<Row>): seq<byte> {
    if rows == [] then [] else rows[0].text + [0] + Joined(rows[1..])
  }

  lemma JoinedStep(r: Row, rows: seq<Row>)
    ensures Joined([r] + rows) == r.text + [0] + Joined(rows)
  {
    assert ([r] + rows)[1..] == rows;
  }

  // Nothing is lost: the printed strings, each with its NUL, are the table again.
  lemma {:induction false} WalkCovers(tab: seq<byte>, i: nat)
    requires NulEnded(tab) && 1 <= i <= |tab|
    ensures Joined(Walk(tab, i)) == tab[i..]
    decreases |tab| - i
  {
    if i < |tab| {
      hide CString, Walk, Joined;
      CStringEnds(tab, i);
      WalkStep(tab, i);
      var n := |CString(tab, i)|;
      WalkCovers(tab, i + n + 1);
      JoinedStep(Row(i, CString(tab, i)), Walk(tab, i + n + 1));
      SplitAtNul(tab, i, CString(tab, i), Joined(Walk(tab, i + n + 1)));
    }
  }

  lemma SplitAtNul(tab: seq<byte>, i: nat, text: seq<byte>, rest: seq<byte>)
    requires i + |text| < |tab| && tab[i + |text|] == 0
    requires text == tab[i..i + |text|] && rest == tab[i + |text| + 1..]
    ensures text + [0] + rest == tab[i..]
  {
  }
}
