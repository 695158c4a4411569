/** The command-line side (src/emulMips.c.BAK): line normalisation, tokens, itoa and is_hexa. */
module Shell {
  import opened Words
  import opened Memory
  import opened Numerals

  /* ---------- string_standardise ---------- */

  predicate IsBlank(c: char) { c == ' ' || c == '\t' }

  predicate IsSpecial(c: char) { c == ':' || c == '+' || c == '~' }

  function DropBlanks(s: string): (r: string)
    ensures |r| <= |s| && (r != "" ==> !IsBlank(r[0]))
  {
    if s != "" && IsBlank(s[0]) then DropBlanks(s[1..]) else s
  }

  // What is written for the text s: how many characters the first one consumes and what it becomes.
  function Standardise(s: string): string
    decreases |s|
  {
    if s == "" then ""
    else if IsSpecial(s[0]) then [' ', s[0], ' '] + Standardise(s[1..])
    else if s[0] == '-' then [' ', '-'] + Standardise(DropBlanks(s[1..]))
    else if s[0] == '#' then [' ', '#'] + Standardise(s[1..])
    else if IsBlank(s[0]) then [' '] + Standardise(s[1..])
    else [s[0]] + Standardise(s[1..])
  }

  lemma {:induction false} StandardiseLength(s: string)
    ensures |Standardise(s)| <= 3 * |s|
    decreases |s|
  {
    if s != "" {
      StandardiseLength(s[1..]);
      StandardiseLength(DropBlanks(s[1..]));
    }
  }

  lemma StandardiseStep(c: char, r: string)
    ensures Standardise([c] + r) ==
            if IsSpecial(c) then [' '] + ([c] + ([' '] + Standardise(r)))
            else if c == '-' then [' '] + (['-'] + Standardise(DropBlanks(r)))
            else if c == '#' then [' '] + (['#'] + Standardise(r))
            else if IsBlank(c) then [' '] + Standardise(r)
            else [c] + Standardise(r)
  {
    assert ([c] + r)[1..] == r;
  }

  // string_standardise: out is the caller's buffer, j the number of characters written.
  method StringStandardise(input: string, out: array<char>) returns (j: nat)
    requires out.Length >= |Standardise(input)|
    modifies out
    ensures j == |Standardise(input)| <= out.Length && out[..j] == Standardise(input)
    ensures forall k :: j <= k < out.Length ==> out[k] == old(out[k])
  {
    hide Standardise;
    var i := 0;
    j := 0;
    assert input[0..] == input;
    while i < |input|
      invariant 0 <= i <= |input| && j <= out.Length
      invariant out[..j] + Standardise(input[i..]) == Standardise(input)
      invariant forall k :: j <= k < out.Length ==> out[k] == old(out[k])
    {
      assert |out[..j] + Standardise(input[i..])| == |Standardise(input)|;
      i, j := StandardiseOne(input, i, out, j);
    }
    NothingToDo();
    assert input[i..] == "";
  }

  // One turn of its loop.
  method StandardiseOne(input: string, i: nat, out: array<char>, j: nat) returns (i': nat, j': nat)
    requires i < |input| && j + |Standardise(input[i..])| <= out.Length
    modifies out
    ensures i < i' <= |input| && j < j' <= out.Length
    ensures out[..j'] + Standardise(input[i'..]) == old(out[..j]) + Standardise(input[i..])
    ensures forall k :: j' <= k < out.Length ==> out[k] == old(out[k])
  {
    hide Standardise, DropBlanks;
    var c := input[i];
    ghost var done, rest := out[..j], input[i + 1..];
    assert input[i..] == [c] + rest;
    StandardiseStep(c, rest);
    i' := i + 1;
    if IsSpecial(c) {
      j' := Emit(out, j, [' ', c, ' ']);
      Regroup(done, [' ', c, ' '], Standardise(rest), [' '] + ([c] + ([' '] + Standardise(rest))));
    } else if c == '-' {
      j' := Emit(out, j, [' ', c]);
      i' := SkipBlanks(input, i + 1);
      Regroup(done, [' ', c], Standardise(DropBlanks(rest)), [' '] + ([c] + Standardise(DropBlanks(rest))));
    } else if c == '#' {
      j' := Emit(out, j, [' ', c]);
      Regroup(done, [' ', c], Standardise(rest), [' '] + ([c] + Standardise(rest)));
    } else if IsBlank(c) {
      j' := Emit(out, j, [' ']);
      Regroup(done, [' '], Standardise(rest), [' '] + Standardise(rest));
    } else {
      j' := Emit(out, j, [c]);
      Regroup(done, [c], Standardise(rest), [c] + Standardise(rest));
    }
  }

  // The blanks after a '-'.
  method SkipBlanks(input: string, i: nat) returns (i': nat)
    requires i <= |input|
    ensures i <= i' <= |input| && input[i'..] == DropBlanks(input[i..])
  {
    i' := i;
    while i' < |input| && IsBlank(input[i'])
      invariant i <= i' <= |input| && DropBlanks(input[i'..]) == DropBlanks(input[i..])
    {
      DropBlanksStep(input[i'..]);
      assert input[i'..][1..] == input[i' + 1..];
      i' := i' + 1;
    }
  }

  lemma Regroup(done: string, t: string, rest: string, whole: string)
    requires whole == t + rest
    ensures (done + t) + rest == done + whole
  {
    assert (done + t) + rest == done + (t + rest);
  }

  // out[j++] = ... for each character of t
  method Emit(out: array<char>, j: nat, t: string) returns (j': nat)
    requires j + |t| <= out.Length
    modifies out
    ensures j' == j + |t| && out[..j'] == old(out[..j]) + t
    ensures forall k :: j' <= k < out.Length ==> out[k] == old(out[k])
  {
    j' := j;
    while j' < j + |t|
      invariant j <= j' <= j + |t|
      invariant forall k :: j <= k < j' ==> out[k] == t[k - j]
      invariant forall k :: 0 <= k < out.Length && !(j <= k < j') ==> out[k] == old(out[k])
    {
      out[j'] := t[j' - j];
      j' := j' + 1;
    }
  }

  lemma DropBlanksStep(s: string)
    ensures DropBlanks(s) == if s != "" && IsBlank(s[0]) then DropBlanks(s[1..]) else s
  {
  }

  lemma NothingToDo()
    ensures Standardise("") == ""
  {
  }

  function NonBlanks(s: string): string {
    if s == "" then "" else (if IsBlank(s[0]) then "" else [s[0]]) + NonBlanks(s[1..])
  }

  lemma {:induction false} NonBlanksDrop(s: string)
    ensures NonBlanks(DropBlanks(s)) == NonBlanks(s)
  {
    if s != "" && IsBlank(s[0]) {
      NonBlanksDrop(s[1..]);
    }
  }

  lemma NonBlanksStep(c: char, r: string)
    ensures NonBlanks([c] + r) == (if IsBlank(c) then "" else [c]) + NonBlanks(r)
  {
    assert ([c] + r)[1..] == r;
  }

  // The non-blank characters come out unchanged and in order.
  lemma {:induction false} KeepsNonBlanks(s: string)
    ensures NonBlanks(Standardise(s)) == NonBlanks(s)
    decreases |s|
  {
    hide Standardise, NonBlanks, DropBlanks;
    if s == "" {
      NothingToDo();
    } else {
      var c, r := s[0], s[1..];
      assert s == [c] + r;
      StandardiseStep(c, r);
      NonBlanksStep(c, r);
      var x := if c == '-' then Standardise(DropBlanks(r)) else Standardise(r);
      KeepsNonBlanks(DropBlanks(r));
      KeepsNonBlanks(r);
      NonBlanksDrop(r);
      NonBlanksStep(' ', x);
      NonBlanksStep(c, x);
      NonBlanksStep(c, [' '] + x);
      NonBlanksStep(' ', [c] + x);
      NonBlanksStep(' ', [c] + ([' '] + x));
    }
  }

  /* ---------- tokens ---------- */

  predicate IsDelim(c: char) { c == ' ' || c == '\t' || c == '\n' }

  function Flush(cur: string): seq<string> {
    if cur == "" then [] else [cur]
  }

  // The tokens of s when the characters cur have been read of the current one.
  function TokensFrom(cur: string, s: string): seq<string>
    decreases |s|
  {
    if s == "" then Flush(cur)
    else if IsDelim(s[0]) then Flush(cur) + TokensFrom("", s[1..])
    else TokensFrom(cur + [s[0]], s[1..])
  }

  function Tokens(s: string): seq<string> { TokensFrom("", s) }

  lemma TokensStep(cur: string, c: char, s: string)
    ensures TokensFrom(cur, [c] + s) == if IsDelim(c) then Flush(cur) + TokensFrom("", s) else TokensFrom(cur + [c], s)
  {
    assert ([c] + s)[1..] == s;
  }

  // A delimiter before another changes nothing.
  lemma TokensExtraBlank(cur: string, s: string)
    requires s != "" && IsDelim(s[0])
    ensures TokensFrom(cur, [' '] + s) == TokensFrom(cur, s)
  {
    TokensStep(cur, ' ', s);
    assert TokensFrom("", s) == TokensFrom("", s[1..]);
  }

  // Normalising a normalised line changes no token, whatever has been read before.
  lemma {:induction false} StableTokens(cur: string, s: string)
    ensures TokensFrom(cur, Standardise(Standardise(s))) == TokensFrom(cur, Standardise(s))
    decreases |s|, 0
  {
    hide Standardise, TokensFrom;
    if s != "" {
      var c, r := s[0], s[1..];
      assert s == [c] + r;
      StandardiseStep(c, r);
      if IsSpecial(c) {
        StableSpecial(cur, c, r);
      } else if c == '-' {
        StableMinus(cur, r);
      } else if c == '#' {
        StableHash(cur, r);
      } else {
        StablePlain(cur, if IsBlank(c) then ' ' else c, r);
      }
    } else {
      NothingToDo();
    }
  }

  lemma StablePlain(cur: string, c: char, r: string)
    requires !IsSpecial(c) && c != '-' && c != '#' && c != '\t'
    ensures TokensFrom(cur, Standardise([c] + Standardise(r))) == TokensFrom(cur, [c] + Standardise(r))
    decreases |r|, 1
  {
    hide Standardise, TokensFrom;
    var x := Standardise(r);
    StandardiseStep(c, x);
    TokensStep(cur, c, Standardise(x));
    TokensStep(cur, c, x);
    StableTokens("", r);
    StableTokens(cur + [c], r);
  }

  lemma StableHash(cur: string, r: string)
    ensures TokensFrom(cur, Standardise([' '] + (['#'] + Standardise(r)))) ==
            TokensFrom(cur, [' '] + (['#'] + Standardise(r)))
    decreases |r|, 1
  {
    hide Standardise, TokensFrom;
    var x := Standardise(r);
    StandardiseStep(' ', ['#'] + x);
    StandardiseStep('#', x);
    var y := ['#'] + Standardise(x);
    TokensExtraBlank(cur, [' '] + y);
    TokensStep(cur, ' ', y);
    TokensStep(cur, ' ', ['#'] + x);
    TokensStep("", '#', Standardise(x));
    TokensStep("", '#', x);
    StableTokens("" + ['#'], r);
  }

  lemma StableSpecial(cur: string, c: char, r: string)
    requires IsSpecial(c)
    ensures TokensFrom(cur, Standardise([' '] + ([c] + ([' '] + Standardise(r))))) ==
            TokensFrom(cur, [' '] + ([c] + ([' '] + Standardise(r))))
    decreases |r|, 1
  {
    hide Standardise, TokensFrom;
    var x := Standardise(r);
    StandardiseStep(' ', [c] + ([' '] + x));
    StandardiseStep(c, [' '] + x);
    StandardiseStep(' ', x);
    var y := Standardise(x);
    var z := [c] + ([' '] + ([' '] + y));
    TokensExtraBlank(cur, [' '] + z);
    TokensStep(cur, ' ', z);
    TokensStep("", c, [' '] + ([' '] + y));
    TokensExtraBlank("" + [c], [' '] + y);
    TokensStep("" + [c], ' ', y);
    TokensStep(cur, ' ', [c] + ([' '] + x));
    TokensStep("", c, [' '] + x);
    TokensStep("" + [c], ' ', x);
    StableTokens("", r);
  }

  lemma StableMinus(cur: string, r: string)
    ensures TokensFrom(cur, Standardise([' '] + (['-'] + Standardise(DropBlanks(r))))) ==
            TokensFrom(cur, [' '] + (['-'] + Standardise(DropBlanks(r))))
    decreases |r|, 1
  {
    hide Standardise, TokensFrom, DropBlanks;
    var d := DropBlanks(r);
    var x := Standardise(d);
    StandardiseStep(' ', ['-'] + x);
    StandardiseStep('-', x);
    var y := ['-'] + Standardise(DropBlanks(x));
    TokensExtraBlank(cur, [' '] + y);
    TokensStep(cur, ' ', y);
    TokensStep("", '-', Standardise(DropBlanks(x)));
    TokensStep(cur, ' ', ['-'] + x);
    TokensStep("", '-', x);
    assert "" + ['-'] == ['-'];
    DropOne(['-'], d);
    StableTokens("" + ['-'], d);
  }

  // The blanks a '-' swallows in front of a normalised text separate no tokens of their own.
  lemma DropOne(cur: string, d: string)
    requires d == "" || !IsBlank(d[0])
    ensures TokensFrom(cur, Standardise(DropBlanks(Standardise(d)))) == TokensFrom(cur, Standardise(Standardise(d)))
  {
    hide Standardise, DropBlanks, TokensFrom;
    var x := Standardise(d);
    if d == "" {
      NothingToDo();
      DropBlanksStep(x);
    } else {
      var c, r := d[0], d[1..];
      assert d == [c] + r;
      StandardiseStep(c, r);
      DropBlanksStep(x);
      if IsSpecial(c) || c == '-' || c == '#' {
        var v := if IsSpecial(c) then [' '] + Standardise(r)
                 else if c == '-' then Standardise(DropBlanks(r)) else Standardise(r);
        var w := [c] + v;
        assert x == [' '] + w && x[1..] == w;
        DropBlanksStep(w);
        StandardiseStep(' ', w);
        StandardiseStep(c, v);
        TokensExtraBlank(cur, Standardise(w));
      }
    }
  }

  // The normal form is stable under tokenising.
  lemma StandardiseStable(s: string)
    ensures Tokens(Standardise(Standardise(s))) == Tokens(Standardise(s))
  {
    StableTokens("", s);
  }

  // Whether a token holding a special character is that character alone.
  predicate Lone(t: string) {
    forall k :: 0 <= k < |t| && IsSpecial(t[k]) ==> |t| == 1
  }

  // '-' and '#' only at the start.
  predicate MarksLead(t: string) {
    forall k :: 0 < k < |t| ==> t[k] != '-' && t[k] != '#'
  }

  predicate NoSpecial(t: string) {
    forall k :: 0 <= k < |t| ==> !IsSpecial(t[k])
  }

  // ':', '+' and '~' always become tokens of their own; '-' and '#' always start one.
  lemma {:induction false} SpecialsAlone(cur: string, s: string)
    requires NoSpecial(cur) && MarksLead(cur)
    ensures forall t :: t in TokensFrom(cur, Standardise(s)) ==> Lone(t) && MarksLead(t)
    decreases |s|
  {
    hide Standardise, TokensFrom, DropBlanks;
    if s == "" {
      NothingToDo();
      TokensOfNothing(cur);
    } else {
      var c, r := s[0], s[1..];
      assert s == [c] + r;
      StandardiseStep(c, r);
      var x := Standardise(r);
      SpecialsAlone("", r);
      if IsSpecial(c) {
        TokensStep(cur, ' ', [c] + ([' '] + x));
        TokensStep("", c, [' '] + x);
        TokensStep("" + [c], ' ', x);
      } else if c == '-' {
        TokensStep(cur, ' ', ['-'] + Standardise(DropBlanks(r)));
        TokensStep("", '-', Standardise(DropBlanks(r)));
        SpecialsAlone("" + ['-'], DropBlanks(r));
      } else if c == '#' {
        TokensStep(cur, ' ', ['#'] + x);
        TokensStep("", '#', x);
        SpecialsAlone("" + ['#'], r);
      } else {
        TokensStep(cur, if IsBlank(c) then ' ' else c, x);
        SpecialsAlone(cur + [c], r);
      }
    }
  }

  lemma TokensOfNothing(cur: string)
    ensures TokensFrom(cur, "") == Flush(cur)
  {
  }

  /* ---------- single characters ---------- */

  // No blank, no delimiter, none of the characters the normaliser treats.
  predicate Plain(w: string) {
    forall k :: 0 <= k < |w| ==> w[k] !in " \t\n:+~-#"
  }

  lemma {:induction false} PlainKept(w: string, x: string)
    requires Plain(w)
    ensures Standardise(w + x) == w + Standardise(x)
  {
    hide Standardise, Plain, IsSpecial, IsBlank, IsDelim;
    if w == "" {
      assert w + x == x;
    } else {
      assert w + x == [w[0]] + (w[1..] + x);
      PlainParts(w);
      StandardiseStep(w[0], w[1..] + x);
      PlainKept(w[1..], x);
    }
  }

  lemma PlainParts(w: string)
    requires Plain(w) && w != ""
    ensures !IsSpecial(w[0]) && !IsBlank(w[0]) && !IsDelim(w[0]) && w[0] != '-' && w[0] != '#'
    ensures Plain(w[1..])
  {
    hide IsSpecial, IsBlank, IsDelim;
    PlainHead(w[0]);
  }

  lemma PlainHead(c: char)
    requires c !in " \t\n:+~-#"
    ensures !IsSpecial(c) && !IsBlank(c) && !IsDelim(c) && c != '-' && c != '#'
  {
    var t := " \t\n:+~-#";
    assert t[0] in t && t[1] in t && t[2] in t && t[3] in t && t[4] in t && t[5] in t && t[6] in t && t[7] in t;
  }

  lemma {:induction false} PlainRun(cur: string, w: string, x: string)
    requires Plain(w)
    ensures TokensFrom(cur, w + x) == TokensFrom(cur + w, x)
    decreases |w|
  {
    hide TokensFrom;
    if w == "" {
      assert w + x == x && cur + w == cur;
    } else {
      assert w[0] !in " \t\n:+~-#";
      PlainHead(w[0]);
      assert w + x == [w[0]] + (w[1..] + x);
      TokensStep(cur, w[0], w[1..] + x);
      PlainRun(cur + [w[0]], w[1..], x);
      assert cur + [w[0]] + w[1..] == cur + w;
    }
  }

  // A plain word is normalised to itself and is one token.
  lemma PlainWord(w: string)
    requires Plain(w) && w != ""
    ensures Standardise(w) == w && Tokens(w) == [w]
  {
    hide Standardise, TokensFrom;
    PlainKept(w, "");
    PlainRun("", w, "");
    NothingToDo();
    TokensOfNothing(w);
    assert w + "" == w && "" + w == w;
  }

  // Between two plain words: ':', '+' and '~' are tokens of their own.
  lemma SplitsAtSpecial(a: string, c: char, b: string)
    requires Plain(a) && a != "" && Plain(b) && b != "" && c in ":+~"
    ensures Standardise(a + ([c] + b)) == a + ([' '] + ([c] + ([' '] + b)))
    ensures Tokens(Standardise(a + ([c] + b))) == [a, [c], b]
  {
    hide Standardise, TokensFrom;
    var x := ":+~";
    assert c == x[0] || c == x[1] || c == x[2];
    PlainKept(a, [c] + b);
    StandardiseStep(c, b);
    PlainWord(b);
    var y := [' '] + ([c] + ([' '] + b));
    PlainRun("", a, y);
    assert "" + a == a;
    TokensStep(a, ' ', [c] + ([' '] + b));
    TokensStep("", c, [' '] + b);
    assert "" + [c] == [c];
    TokensStep([c], ' ', b);
  }

  // '-' and '#' start a new token and stay with what follows.
  lemma SplitsBeforeMark(a: string, c: char, b: string)
    requires Plain(a) && a != "" && Plain(b) && b != "" && c in "-#"
    ensures Standardise(a + ([c] + b)) == a + ([' '] + ([c] + b))
    ensures Tokens(Standardise(a + ([c] + b))) == [a, [c] + b]
  {
    hide Standardise, TokensFrom, DropBlanks;
    var x := "-#";
    assert c == x[0] || c == x[1];
    PlainKept(a, [c] + b);
    StandardiseStep(c, b);
    assert b[0] !in " \t\n:+~-#";
    PlainHead(b[0]);
    DropBlanksStep(b);
    PlainWord(b);
    var y := [' '] + ([c] + b);
    PlainRun("", a, y);
    assert "" + a == a;
    TokensStep(a, ' ', [c] + b);
    TokensStep("", c, b);
    assert "" + [c] == [c];
    PlainRun([c], b, "");
    assert b + "" == b;
    TokensOfNothing([c] + b);
  }

  // A blank or a tab becomes one space; those and the end of a line separate tokens.
  lemma SplitsAtBlank(a: string, c: char, b: string)
    requires Plain(a) && a != "" && Plain(b) && b != "" && c in " \t\n"
    ensures Standardise(a + ([c] + b)) == a + ([if c == '\n' then c else ' '] + b)
    ensures Tokens(Standardise(a + ([c] + b))) == [a, b] == Tokens(a + ([c] + b))
  {
    hide Standardise, TokensFrom;
    var x := " \t\n";
    assert c == x[0] || c == x[1] || c == x[2];
    PlainKept(a, [c] + b);
    StandardiseStep(c, b);
    PlainWord(b);
    assert "" + a == a;
    PlainRun("", a, [if c == '\n' then c else ' '] + b);
    PlainRun("", a, [c] + b);
    TokensStep(a, if c == '\n' then c else ' ', b);
    TokensStep(a, c, b);
  }

  // Normalising piecewise, as long as no blanks are cut off from a '-' before them.
  lemma {:induction false} StandardiseAppend(s: string, t: string)
    requires t == "" || !IsBlank(t[0])
    ensures Standardise(s + t) == Standardise(s) + Standardise(t)
    decreases |s|
  {
    hide Standardise, DropBlanks;
    if s == "" {
      assert s + t == t;
      NothingToDo();
    } else {
      var c, r := s[0], s[1..];
      assert s == [c] + r && s + t == [c] + (r + t);
      StandardiseStep(c, r);
      StandardiseStep(c, r + t);
      DropAppend(r, t);
      StandardiseAppend(r, t);
      StandardiseAppend(DropBlanks(r), t);
      var x, y, z := Standardise(r), Standardise(DropBlanks(r)), Standardise(t);
      if IsSpecial(c) {
        PushInside(' ', [c] + ([' '] + x), z);
        PushInside(c, [' '] + x, z);
        PushInside(' ', x, z);
      } else if c == '-' {
        PushInside(' ', ['-'] + y, z);
        PushInside('-', y, z);
      } else if c == '#' {
        PushInside(' ', ['#'] + x, z);
        PushInside('#', x, z);
      } else {
        PushInside(if IsBlank(c) then ' ' else c, x, z);
      }
    }
  }

  lemma PushInside(c: char, x: string, z: string)
    ensures ([c] + x) + z == [c] + (x + z)
  {
  }

  lemma {:induction false} DropAppend(s: string, t: string)
    requires t == "" || !IsBlank(t[0])
    ensures DropBlanks(s + t) == DropBlanks(s) + t
  {
    if s == "" {
      assert s + t == t;
    } else if IsBlank(s[0]) {
      assert (s + t)[1..] == s[1..] + t;
      DropAppend(s[1..], t);
    }
  }

  predicate AllBlank(b: string) {
    forall k :: 0 <= k < |b| ==> IsBlank(b[k])
  }

  // Blanks between a '-' and what follows make no difference: "toto -   56" is "toto -56".
  lemma MinusAttaches(b: string, w: string)
    requires AllBlank(b)
    ensures Standardise(['-'] + (b + w)) == Standardise(['-'] + w)
  {
    hide Standardise;
    DropAll(b, w);
    StandardiseStep('-', b + w);
    StandardiseStep('-', w);
  }

  lemma {:induction false} DropAll(b: string, w: string)
    requires AllBlank(b)
    ensures DropBlanks(b + w) == DropBlanks(w)
  {
    if b == "" {
      assert b + w == w;
    } else {
      assert (b + w)[1..] == b[1..] + w;
      DropAll(b[1..], w);
    }
  }

  function Concat(ts: seq<string>): string {
    if ts == [] then "" else ts[0] + Concat(ts[1..])
  }

  function NonDelims(s: string): string {
    if s == "" then "" else (if IsDelim(s[0]) then "" else [s[0]]) + NonDelims(s[1..])
  }

  // The tokens are the characters between the delimiters, none lost and none twice.
  lemma {:induction false} TokensConcat(cur: string, s: string)
    ensures Concat(TokensFrom(cur, s)) == cur + NonDelims(s)
    decreases |s|
  {
    if s == "" {
      assert Concat([cur]) == cur + Concat([]);
    } else if IsDelim(s[0]) {
      TokensConcat("", s[1..]);
      assert Flush(cur) + TokensFrom("", s[1..]) ==
             if cur == "" then TokensFrom("", s[1..]) else [cur] + TokensFrom("", s[1..]);
    } else {
      TokensConcat(cur + [s[0]], s[1..]);
      assert cur + [s[0]] + NonDelims(s[1..]) == cur + ([s[0]] + NonDelims(s[1..]));
    }
  }

  lemma {:induction false} NonDelimsOfNonBlanks(s: string)
    ensures NonDelims(NonBlanks(s)) == NonDelims(s)
  {
    if s != "" {
      var rest := NonBlanks(s[1..]);
      NonDelimsOfNonBlanks(s[1..]);
      if IsBlank(s[0]) {
        assert NonBlanks(s) == rest;
      } else {
        assert NonBlanks(s) == [s[0]] + rest && ([s[0]] + rest)[1..] == rest;
      }
    }
  }

  // What a command sees of a line: all its non-delimiter characters in order, each ':', '+' and
  // '~' as a token of its own, and '-' and '#' only as the first character of one.
  lemma LineTokens(s: string)
    ensures Concat(Tokens(Standardise(s))) == NonDelims(s)
    ensures forall t :: t in Tokens(Standardise(s)) ==> Lone(t) && MarksLead(t)
  {
    hide Standardise, TokensFrom, NonBlanks, NonDelims, Concat;
    TokensConcat("", Standardise(s));
    KeepsNonBlanks(s);
    NonDelimsOfNonBlanks(s);
    NonDelimsOfNonBlanks(Standardise(s));
    SpecialsAlone("", s);
  }

  /* ---------- get_next_token ---------- */

  // The C string that starts at position p of a.
  function CText(a: seq<char>, p: nat): string
    decreases |a| - p
  {
    if p >= |a| || a[p] == '\0' then "" else [a[p]] + CText(a, p + 1)
  }

  lemma {:induction false} CTextLocal(a: seq<char>, b: seq<char>, p: nat)
    requires |a| == |b| && forall k :: p <= k < |a| ==> a[k] == b[k]
    ensures CText(a, p) == CText(b, p)
    decreases |a| - p
  {
    if p < |a| && a[p] != '\0' {
      CTextLocal(a, b, p + 1);
    }
  }

  // A NUL written at e, inside the C string at p, cuts it there.
  lemma {:induction false} CTextCut(a: seq<char>, p: nat, e: nat)
    requires p <= e < |a| && forall k :: p <= k < e ==> a[k] != '\0'
    ensures CText(a[e := '\0'], p) == a[p..e]
    decreases e - p
  {
    if p < e {
      CTextCut(a, p + 1, e);
      assert a[p..e] == [a[p]] + a[p + 1..e];
    }
  }

  // Writing past the end of a C string leaves it alone.
  lemma {:induction false} CTextBefore(a: seq<char>, p: nat, e: nat)
    requires e < |a| && p + |CText(a, p)| < e
    ensures CText(a[e := '\0'], p) == CText(a, p)
    decreases |a| - p
  {
    if a[p] != '\0' {
      CTextBefore(a, p + 1, e);
    }
  }

  function SkipDelims(s: string): string {
    if s != "" && IsDelim(s[0]) then SkipDelims(s[1..]) else s
  }

  // The characters before the first delimiter.
  function FirstWord(s: string): string {
    if s == "" || IsDelim(s[0]) then "" else [s[0]] + FirstWord(s[1..])
  }

  // What follows the first delimiter.
  function AfterWord(s: string): string {
    if s == "" then "" else if IsDelim(s[0]) then s[1..] else AfterWord(s[1..])
  }

  lemma {:induction false} CTextEnds(a: seq<char>, p: nat)
    requires p <= |a|
    ensures var e := p + |CText(a, p)|; e <= |a| && (e < |a| ==> a[e] == '\0')
    decreases |a| - p
  {
    if p < |a| && a[p] != '\0' {
      CTextEnds(a, p + 1);
    }
  }

  lemma {:induction false} SkipOver(a: seq<char>, p: nat, q: nat)
    requires p <= q < |a| && !IsDelim(a[q])
    requires forall k :: p <= k < q ==> a[k] != '\0' && IsDelim(a[k])
    ensures SkipDelims(CText(a, p)) == CText(a, q)
    decreases q - p
  {
    if p < q {
      SkipOver(a, p + 1, q);
    }
  }

  lemma {:induction false} FirstWordAt(a: seq<char>, p: nat, q: nat)
    requires p <= q < |a| && (a[q] == '\0' || IsDelim(a[q]))
    requires forall k :: p <= k < q ==> a[k] != '\0' && !IsDelim(a[k])
    ensures FirstWord(CText(a, p)) == a[p..q]
    ensures AfterWord(CText(a, p)) == if a[q] == '\0' then "" else CText(a, q + 1)
    decreases q - p
  {
    if p < q {
      FirstWordAt(a, p + 1, q);
      assert a[p..q] == [a[p]] + a[p + 1..q];
    }
  }

  lemma OnlyDelims(a: seq<char>, p: nat, q: nat)
    requires p <= q < |a| && a[q] == '\0'
    requires forall k :: p <= k < q ==> a[k] != '\0' && IsDelim(a[k])
    ensures SkipDelims(CText(a, p)) == "" && FirstWord("") == ""
  {
    SkipOver(a, p, q);
  }

  // Cutting the buffer at the end i of the token that starts at s, searched from p.
  lemma CutToken(a: seq<char>, p: nat, s: nat, i: nat)
    requires p <= s < i < |a| && (a[i] == '\0' || IsDelim(a[i]))
    requires forall k :: p <= k < s ==> a[k] != '\0' && IsDelim(a[k])
    requires forall k :: s <= k < i ==> a[k] != '\0' && !IsDelim(a[k])
    ensures var left := SkipDelims(CText(a, p));
            && left != "" && FirstWord(left) == a[s..i]
            && AfterWord(left) == CText(a[i := '\0'], if a[i] == '\0' then i else i + 1)
  {
    hide SkipDelims, FirstWord, AfterWord;
    SkipOver(a, p, s);
    FirstWordAt(a, s, i);
    if a[i] != '\0' {
      CTextLocal(a, a[i := '\0'], i + 1);
    }
  }

  // What the cut leaves of the line: on a first call the delimiters and the token, later everything.
  lemma CutLine(a: seq<char>, p: nat, s: nat, i: nat)
    requires p <= s < i < |a| && a[s] != '\0' && !IsDelim(a[s])
    requires forall k :: p <= k < s ==> a[k] != '\0' && IsDelim(a[k])
    requires forall k :: s <= k < i ==> a[k] != '\0'
    ensures var now := CText(a[i := '\0'], 0);
            && (p == 0 ==> |now| == i && SkipDelims(now) == a[s..i])
            && (|CText(a, 0)| <= p ==> now == CText(a, 0))
  {
    hide SkipDelims, CText;
    if p == 0 {
      CTextCut(a, 0, i);
      SkipOver(a[i := '\0'], 0, s);
      CTextCut(a, s, i);
    }
    if |CText(a, 0)| <= p {
      CTextEnds(a, 0);
      CTextBefore(a, 0, i);
    }
  }

  // The tokens of a line are its first word and the tokens of what follows.
  lemma {:induction false} TokensOfWord(cur: string, s: string)
    requires cur != ""
    ensures TokensFrom(cur, s) == [cur + FirstWord(s)] + Tokens(AfterWord(s))
    decreases |s|
  {
    if s == "" || IsDelim(s[0]) {
      assert cur + "" == cur;
    } else {
      TokensOfWord(cur + [s[0]], s[1..]);
      assert cur + [s[0]] + FirstWord(s[1..]) == cur + ([s[0]] + FirstWord(s[1..]));
    }
  }

  lemma {:induction false} TokensSplit(s: string)
    ensures SkipDelims(s) == "" ==> Tokens(s) == []
    ensures SkipDelims(s) != "" ==> Tokens(s) == [FirstWord(SkipDelims(s))] + Tokens(AfterWord(SkipDelims(s)))
  {
    if s != "" {
      if IsDelim(s[0]) {
        TokensSplit(s[1..]);
        assert Tokens(s) == Tokens(s[1..]);
      } else {
        TokensOfWord([s[0]], s[1..]);
        assert "" + [s[0]] == [s[0]];
      }
    }
  }

  // The interpreter's line and its strtok_r position (interpreteur in include/emulMips.h).
  class Interpreter {
    const input: array<char>
    var from: nat
    var firstToken: bool

    constructor (size: nat)
      requires size > 0
      ensures Valid() && fresh(input) && !firstToken && input.Length == size && Line() == ""
    {
      input := new char[size](_ => '\0');
      from := 0;
      firstToken := false;
    }

    ghost predicate Valid()
      reads this, input
    {
      && input.Length > 0 && input[input.Length - 1] == '\0' && from < input.Length
      && (firstToken ==> |Line()| <= from)
    }

    ghost function Line(): string
      reads input
    {
      CText(input[..], 0)
    }

    // The text strtok_r is about to read.
    ghost function Pending(): string
      reads this, input
    {
      CText(input[..], if firstToken then from else 0)
    }

    // get_next_token, with strtok_r written out.
    method GetNextToken() returns (token: Option<string>)
      requires Valid()
      modifies this`from, this`firstToken, input
      ensures Valid() && firstToken == token.Some?
      ensures var left := SkipDelims(old(Pending()));
              if left == "" then token == None && input[..] == old(input[..])
              else token == Some(FirstWord(left)) && Pending() == AfterWord(left)
      ensures old(firstToken) ==> Line() == old(Line())
      ensures !old(firstToken) ==> SkipDelims(Line()) == FirstWord(SkipDelims(old(Line())))
    {
      hide CText, SkipDelims, FirstWord, AfterWord;
      var i := if firstToken then from else 0;
      ghost var line, begin := input[..], i;
      while input[i] != '\0' && IsDelim(input[i])
        invariant begin <= i < input.Length
        invariant forall k :: begin <= k < i ==> line[k] != '\0' && IsDelim(line[k])
        modifies {}
        decreases input.Length - i
      {
        i := i + 1;
      }
      if input[i] == '\0' {
        OnlyDelims(line, begin, i);
        from := i;
        firstToken := false;
        return None;
      }
      var start := i;
      while input[i] != '\0' && !IsDelim(input[i])
        invariant start <= i < input.Length
        invariant forall k :: start <= k < i ==> line[k] != '\0' && !IsDelim(line[k])
        modifies {}
        decreases input.Length - i
      {
        i := i + 1;
      }
      CutToken(line, begin, start, i);
      CutLine(line, begin, start, i);
      token := Some(input[start..i]);
      ghost var now := line[i := '\0'];
      if input[i] == '\0' {
        from := i;
      } else {
        input[i] := '\0';
        from := i + 1;
      }
      assert input[..] == now;
      firstToken := true;
    }

    // acquire_line, once the characters of the line are in chunk: memset, then string_standardise.
    method AcquireLine(chunk: string)
      requires Valid() && '\0' !in chunk && |Standardise(chunk)| < input.Length
      modifies this`firstToken, input
      ensures Valid() && !firstToken && Line() == Standardise(chunk)
    {
      hide Standardise, CText;
      var k := 0;
      while k < input.Length
        invariant 0 <= k <= input.Length && forall x :: 0 <= x < k ==> input[x] == '\0'
        modifies input
      {
        input[k] := '\0';
        k := k + 1;
      }
      firstToken := false;
      var j := StringStandardise(chunk, input);
      StandardiseClean(chunk);
      assert forall x :: 0 <= x < j ==> input[x] == input[..j][x] == Standardise(chunk)[x] != '\0';
      CTextCut(input[..], 0, j);
      assert input[..][j := '\0'] == input[..] && input[..][0..j] == input[..j];
    }

    // What a command finds on a line typed as chunk.
    method ReadCommand(chunk: string) returns (ts: seq<string>)
      requires Valid() && '\0' !in chunk && |Standardise(chunk)| < input.Length
      modifies this`from, this`firstToken, input
      ensures Valid() && !firstToken && ts == Tokens(Standardise(chunk))
    {
      hide Standardise, Tokens, CText;
      AcquireLine(chunk);
      ts := ReadTokens();
    }

    // The loop every command reads its arguments with. Reading a line a second time finds at most
    // its first token, because strtok_r has cut the line there.
    method ReadTokens() returns (ts: seq<string>)
      requires Valid()
      modifies this`from, this`firstToken, input
      ensures Valid() && !firstToken
      ensures ts == Tokens(old(Pending()))
      ensures !old(firstToken) ==> Tokens(Line()) == if ts == [] then [] else [ts[0]]
    {
      hide Tokens, SkipDelims, FirstWord, AfterWord, CText;
      ts := [];
      var token := Some("");
      ghost var left := Pending();
      TokensSplit(left);
      while token.Some?
        invariant Valid()
        invariant token == None ==> left == "" && !firstToken
        invariant token.Some? ==> left == Pending() && firstToken == (old(firstToken) || ts != [])
        invariant ts + Tokens(left) == Tokens(old(Pending()))
        invariant ts == [] && !old(firstToken) ==> Line() == old(Line())
        invariant ts != [] && !old(firstToken) ==> Tokens(Line()) == [ts[0]]
        decreases token.Some?, |left|
      {
        TokensSplit(left);
        token := GetNextToken();
        if token.Some? {
          ShorterAfterWord(SkipDelims(left));
          ShorterSkip(left);
          if ts == [] && !old(firstToken) {
            OneToken(Line(), SkipDelims(left));
          }
          ts := ts + [token.value];
          left := Pending();
        } else {
          left := "";
          NoTokens();
        }
      }
      NoTokens();
    }
  }

  // No NUL comes out where none goes in.
  lemma {:induction false} StandardiseClean(s: string)
    requires '\0' !in s
    ensures '\0' !in Standardise(s)
    decreases |s|
  {
    if s != "" {
      StandardiseClean(s[1..]);
      DropBlanksClean(s[1..]);
      StandardiseClean(DropBlanks(s[1..]));
    }
  }

  lemma {:induction false} DropBlanksClean(s: string)
    requires '\0' !in s
    ensures '\0' !in DropBlanks(s)
  {
    if s != "" && IsBlank(s[0]) {
      DropBlanksClean(s[1..]);
    }
  }

  lemma NoTokens()
    ensures Tokens("") == []
  {
  }

  lemma {:induction false} ShorterAfterWord(s: string)
    requires s != ""
    ensures |AfterWord(s)| < |s|
  {
    if !IsDelim(s[0]) && |s| > 1 {
      ShorterAfterWord(s[1..]);
    }
  }

  lemma {:induction false} ShorterSkip(s: string)
    ensures |SkipDelims(s)| <= |s| && (SkipDelims(s) != "" ==> !IsDelim(SkipDelims(s)[0]))
  {
    if s != "" && IsDelim(s[0]) {
      ShorterSkip(s[1..]);
    }
  }

  // A line that holds nothing but the first word of s has that word as its only token.
  lemma OneToken(line: string, s: string)
    requires s != "" && !IsDelim(s[0]) && SkipDelims(line) == FirstWord(s)
    ensures Tokens(line) == [FirstWord(s)]
  {
    WordOfWord(s);
    TokensSplit(line);
    NoTokens();
  }

  lemma {:induction false} WordOfWord(s: string)
    ensures FirstWord(FirstWord(s)) == FirstWord(s) && AfterWord(FirstWord(s)) == ""
  {
    if s != "" && !IsDelim(s[0]) {
      WordOfWord(s[1..]);
      assert FirstWord(s)[1..] == FirstWord(s[1..]);
    }
  }
}
