/** The string operations of Python that the document processor relies on:
    `str.isspace`, `strip`, `lower`, `endswith`, the `in` substring test, `join`,
    `split(sep)`, `split()`, `re.sub(r'\s+', ' ', s)`, and `f"{n}"` for naturals.
    Strings are sequences of code points. */
module Text {
  import Seqs

  /** Python's `str.isspace()` for one code point: the characters that `strip()`,
      `split()` and the regular expression class `\s` treat as whitespace. */
  predicate IsSpace(c: char) {
    var n := c as int;
    || n == 0x20
    || 0x09 <= n <= 0x0D
    || 0x1C <= n <= 0x1F
    || n == 0x85
    || n == 0xA0
    || n == 0x1680
    || 0x2000 <= n <= 0x200A
    || n == 0x2028
    || n == 0x2029
    || n == 0x202F
    || n == 0x205F
    || n == 0x3000
  }

  /** Every character of `s` is whitespace (vacuously so for ""). */
  predicate Blank(s: string) {
    forall i :: 0 <= i < |s| ==> IsSpace(s[i])
  }

  /** A token of `split()`: non-empty and free of whitespace. */
  predicate IsToken(w: string) {
    w != [] && forall i :: 0 <= i < |w| ==> !IsSpace(w[i])
  }

  // ---------------------------------------------------------------------------
  // strip

  /** `s.lstrip()`: the suffix of `s` left after its leading whitespace. */
  function StripLeft(s: string): (r: string)
    ensures |r| <= |s| && r == s[|s| - |r|..]
    ensures Blank(s[..|s| - |r|])
    ensures r == [] || !IsSpace(r[0])
  {
    if s != [] && IsSpace(s[0]) then
      var r := StripLeft(s[1..]);
      StripLeftStep(s, r);
      r
    else
      s
  }

  lemma StripLeftStep(s: string, r: string)
    requires s != [] && IsSpace(s[0])
    requires |r| <= |s| - 1 && r == s[1..][|s| - 1 - |r|..] && Blank(s[1..][..|s| - 1 - |r|])
    ensures r == s[|s| - |r|..] && Blank(s[..|s| - |r|])
  {
    var t := s[..|s| - |r|];
    assert t == [s[0]] + s[1..][..|s| - 1 - |r|];
    forall i | 0 <= i < |t|
      ensures IsSpace(t[i])
    {
      if i > 0 {
        assert t[i] == s[1..][..|s| - 1 - |r|][i - 1];
      }
    }
  }

  /** `s.rstrip()`: the prefix of `s` left before its trailing whitespace. */
  function StripRight(s: string): (r: string)
    ensures |r| <= |s| && r == s[..|r|]
    ensures Blank(s[|r|..])
    ensures r == [] || !IsSpace(r[|r| - 1])
  {
    if s != [] && IsSpace(s[|s| - 1]) then
      var r := StripRight(s[..|s| - 1]);
      StripRightStep(s, r);
      r
    else
      s
  }

  lemma StripRightStep(s: string, r: string)
    requires s != [] && IsSpace(s[|s| - 1])
    requires |r| <= |s| - 1 && r == s[..|s| - 1][..|r|] && Blank(s[..|s| - 1][|r|..])
    ensures r == s[..|r|] && Blank(s[|r|..])
  {
    var t := s[|r|..];
    var u := s[..|s| - 1][|r|..];
    assert t == u + [s[|s| - 1]];
    forall i | 0 <= i < |t|
      ensures IsSpace(t[i])
    {
      if i < |u| {
        assert t[i] == u[i];
      }
    }
  }

  /** `s.strip()`. */
  function Strip(s: string): string {
    StripRight(StripLeft(s))
  }

  /** `s.strip()` is falsy exactly when `s` is all whitespace. */
  lemma StripEmptyIffBlank(s: string)
    ensures Strip(s) == [] <==> Blank(s)
  {
    var t := StripLeft(s);
    if Strip(s) == [] {
      assert Blank(t[0..]);
      assert t == [];
      assert s[..|s|] == s;
    }
  }

  // ---------------------------------------------------------------------------
  // lower, endswith, in

  /** `c.lower()` for the ASCII letters; every other character is left alone. */
  function LowerChar(c: char): char {
    if 'A' <= c <= 'Z' then (c as int - 'A' as int + 'a' as int) as char else c
  }

  /** `s.lower()` on ASCII letters, character by character. */
  function Lower(s: string): (r: string)
    ensures |r| == |s|
    ensures forall i :: 0 <= i < |s| ==> r[i] == LowerChar(s[i])
  {
    seq(|s|, i requires 0 <= i < |s| => LowerChar(s[i]))
  }

  predicate StartsWith(s: string, prefix: string) {
    |prefix| <= |s| && s[..|prefix|] == prefix
  }

  /** `s.endswith(suffix)`. */
  predicate EndsWith(s: string, suffix: string) {
    |suffix| <= |s| && s[|s| - |suffix|..] == suffix
  }

  /** `needle in s`, scanning `s` from the left. */
  predicate Contains(s: string, needle: string)
    decreases |s|
  {
    StartsWith(s, needle) || (s != [] && Contains(s[1..], needle))
  }

  /** `needle` occurs in `s` starting at offset `i`. */
  predicate OccursAt(s: string, needle: string, i: int) {
    0 <= i <= |s| - |needle| && s[i..i + |needle|] == needle
  }

  /** The scan finds `needle` exactly when it occurs at some offset of `s`. */
  lemma {:induction false} ContainsIff(s: string, needle: string)
    ensures Contains(s, needle) <==> exists i :: OccursAt(s, needle, i)
    decreases |s|
  {
    if StartsWith(s, needle) {
      assert OccursAt(s, needle, 0);
    } else if s != [] {
      ContainsIff(s[1..], needle);
      if Contains(s[1..], needle) {
        var i :| OccursAt(s[1..], needle, i);
        assert s[1..][i..i + |needle|] == s[i + 1..i + 1 + |needle|];
        assert OccursAt(s, needle, i + 1);
      }
      if exists i :: OccursAt(s, needle, i) {
        var i :| OccursAt(s, needle, i);
        assert i != 0;
        assert s[1..][i - 1..i - 1 + |needle|] == s[i..i + |needle|];
        assert OccursAt(s[1..], needle, i - 1);
      }
    }
  }

  // ---------------------------------------------------------------------------
  // join and split(sep)

  /** `sep.join(parts)`. */
  function Join(sep: string, parts: seq<string>): string
  {
    if |parts| == 0 then []
    else if |parts| == 1 then parts[0]
    else parts[0] + sep + Join(sep, parts[1..])
  }

  /** A character found in neither the separator nor any part is not in the join. */
  lemma {:induction false} JoinFree(sep: string, parts: seq<string>, c: char)
    requires c !in sep
    requires forall k :: 0 <= k < |parts| ==> c !in parts[k]
    ensures c !in Join(sep, parts)
  {
    if |parts| > 1 {
      JoinFree(sep, parts[1..], c);
    }
  }

  /** `s.split(c)` for a one-character separator: the pieces between the occurrences
      of `c`; there is always one more piece than there are occurrences. */
  function SplitOn(s: string, c: char): (r: seq<string>)
    ensures |r| >= 1
    ensures forall k :: 0 <= k < |r| ==> c !in r[k]
    ensures StartsWith(s, r[0])
    ensures |r[0]| < |s| ==> s[|r[0]|] == c
  {
    if s == [] then [[]]
    else
      var rest := SplitOn(s[1..], c);
      if s[0] == c then [[]] + rest
      else [[s[0]] + rest[0]] + rest[1..]
  }

  /** Joining the pieces of `split(c)` with `c` gives the string back. */
  lemma {:induction false} JoinSplitOn(s: string, c: char)
    ensures Join([c], SplitOn(s, c)) == s
  {
    if s != [] {
      var rest := SplitOn(s[1..], c);
      JoinSplitOn(s[1..], c);
      if s[0] == c {
        assert s == [c] + s[1..];
      } else if |rest| == 1 {
        assert s == [s[0]] + s[1..];
      } else {
        assert SplitOn(s, c)[1..] == rest[1..];
        assert s == [s[0]] + s[1..];
      }
    }
  }

  lemma {:induction false} SplitOnFree(a: string, c: char)
    requires c !in a
    ensures SplitOn(a, c) == [a]
  {
    if a != [] {
      SplitOnFree(a[1..], c);
      assert a == [a[0]] + a[1..];
    }
  }

  lemma {:induction false} SplitOnAt(a: string, b: string, c: char)
    requires c !in a
    ensures SplitOn(a + [c] + b, c) == [a] + SplitOn(b, c)
  {
    if a == [] {
      assert a + [c] + b == [c] + b;
      assert ([c] + b)[1..] == b;
    } else {
      assert (a + [c] + b)[1..] == a[1..] + [c] + b;
      SplitOnAt(a[1..], b, c);
      assert a == [a[0]] + a[1..];
    }
  }

  /** Splitting a `c`-join of pieces free of `c` gives the pieces back. */
  lemma {:induction false} SplitOnJoin(parts: seq<string>, c: char)
    requires |parts| >= 1
    requires forall k :: 0 <= k < |parts| ==> c !in parts[k]
    ensures SplitOn(Join([c], parts), c) == parts
  {
    if |parts| == 1 {
      SplitOnFree(parts[0], c);
    } else {
      SplitOnJoin(parts[1..], c);
      SplitOnAt(parts[0], Join([c], parts[1..]), c);
      assert parts == [parts[0]] + parts[1..];
    }
  }

  // ---------------------------------------------------------------------------
  // split()

  /** `s.split()`: the maximal runs of non-whitespace characters, in order. */
  function Words(s: string): (r: seq<string>)
    ensures forall k :: 0 <= k < |r| ==> IsToken(r[k])
    ensures s != [] && !IsSpace(s[0]) ==> r != [] && |r[0]| > 0 && r[0][0] == s[0]
  {
    if s == [] then []
    else
      var rest := Words(s[1..]);
      if IsSpace(s[0]) then rest
      else if |s| > 1 && !IsSpace(s[1]) then [[s[0]] + rest[0]] + rest[1..]
      else [[s[0]]] + rest
  }

  /** `split()` finds no token exactly in a blank string. */
  lemma {:induction false} WordsEmptyIffBlank(s: string)
    ensures Words(s) == [] <==> Blank(s)
  {
    if s != [] {
      WordsEmptyIffBlank(s[1..]);
      if Blank(s) {
        assert Blank(s[1..]) by {
          forall i | 0 <= i < |s| - 1
            ensures IsSpace(s[1..][i])
          {
            assert s[1..][i] == s[i + 1];
          }
        }
      }
      if Words(s) == [] {
        forall i | 0 <= i < |s|
          ensures IsSpace(s[i])
        {
          if i > 0 {
            assert s[i] == s[1..][i - 1];
          }
        }
      }
    }
  }

  /** How `split()` treats one more character in front of a string. */
  lemma WordsCons(c: char, x: string)
    ensures Words([c] + x) ==
            if IsSpace(c) then Words(x)
            else if x != [] && !IsSpace(x[0]) then [[c] + Words(x)[0]] + Words(x)[1..]
            else [[c]] + Words(x)
  {
    assert ([c] + x)[1..] == x;
  }

  /** A whitespace boundary between two strings separates their tokens. */
  lemma {:induction false} WordsAppend(a: string, b: string)
    requires a == [] || b == [] || IsSpace(a[|a| - 1]) || IsSpace(b[0])
    ensures Words(a + b) == Words(a) + Words(b)
  {
    if a == [] {
      assert a + b == b;
    } else {
      var a' := a[1..];
      assert a == [a[0]] + a';
      assert a + b == [a[0]] + (a' + b);
      if a' != [] {
        assert a'[|a'| - 1] == a[|a| - 1];
      }
      WordsAppend(a', b);
      WordsAppendCons(a[0], a', b);
    }
  }

  /** The inductive step of `WordsAppend`: one more character in front. */
  lemma WordsAppendCons(c: char, x: string, b: string)
    requires Words(x + b) == Words(x) + Words(b)
    requires x == [] ==> b == [] || IsSpace(c) || IsSpace(b[0])
    ensures Words([c] + (x + b)) == Words([c] + x) + Words(b)
  {
    if IsSpace(c) || x == [] {
      WordsAppendConsBoundary(c, x, b);
    } else {
      WordsAppendConsInside(c, x, b);
    }
  }

  /** `WordsAppendCons` when `c` is whitespace or `x` is empty. */
  lemma WordsAppendConsBoundary(c: char, x: string, b: string)
    requires Words(x + b) == Words(x) + Words(b)
    requires IsSpace(c) || x == []
    requires x == [] ==> b == [] || IsSpace(c) || IsSpace(b[0])
    ensures Words([c] + (x + b)) == Words([c] + x) + Words(b)
  {
    WordsCons(c, x + b);
    WordsCons(c, x);
    if x == [] {
      assert x + b == b;
    }
  }

  /** `WordsAppendCons` when `c` is not whitespace and `x` is not empty. */
  lemma WordsAppendConsInside(c: char, x: string, b: string)
    requires Words(x + b) == Words(x) + Words(b)
    requires !IsSpace(c) && x != []
    ensures Words([c] + (x + b)) == Words([c] + x) + Words(b)
  {
    assert (x + b)[0] == x[0];
    WordsCons(c, x + b);
    WordsCons(c, x);
    if IsSpace(x[0]) {
      Seqs.ConcatAssoc(Words([c] + (x + b)), Words([c] + x), [[c]], Words(x), Words(b));
    } else {
      var w, v := Words(x), Words(b);
      Seqs.HeadTail(w, v);
      Seqs.ConcatAssoc(Words([c] + (x + b)), Words([c] + x), [[c] + w[0]], w[1..], v);
    }
  }

  /** Tokens joined with one space split back into the same tokens. */
  lemma {:induction false} WordsOfJoin(ws: seq<string>)
    requires forall k :: 0 <= k < |ws| ==> IsToken(ws[k])
    ensures Words(Join(" ", ws)) == ws
  {
    if |ws| == 1 {
      WordsOfToken(ws[0]);
    } else if |ws| > 1 {
      WordsOfJoin(ws[1..]);
      WordsOfSpaced(ws[0], Join(" ", ws[1..]));
      assert ws == [ws[0]] + ws[1..];
    }
  }

  /** A token, one space, and the rest: the token comes first. */
  lemma WordsOfSpaced(w: string, rest: string)
    requires IsToken(w)
    ensures Words(w + " " + rest) == [w] + Words(rest)
  {
    WordsOfToken(w);
    WordsOfSeparated(w, ' ', rest);
  }

  lemma {:induction false} WordsOfToken(w: string)
    requires IsToken(w)
    ensures Words(w) == [w]
  {
    if |w| == 1 {
      assert w == [w[0]];
    } else {
      assert IsToken(w[1..]) by {
        forall i | 0 <= i < |w| - 1
          ensures !IsSpace(w[1..][i])
        {
          assert w[1..][i] == w[i + 1];
        }
      }
      WordsOfToken(w[1..]);
      assert w == [w[0]] + w[1..];
    }
  }

  /** Splitting on one whitespace character and then splitting each piece finds
      the same tokens, in the same order, as splitting the whole string. */
  lemma {:induction false} WordsOfPieces(s: string, c: char)
    requires IsSpace(c)
    ensures Seqs.Flatten(WordsEach(SplitOn(s, c))) == Words(s)
  {
    var pieces := SplitOn(s, c);
    JoinSplitOn(s, c);
    WordsOfJoinOn(pieces, c);
  }

  /** The tokens of every string of `ss`, one list per string. */
  function WordsEach(ss: seq<string>): (r: seq<seq<string>>)
    ensures |r| == |ss|
    ensures forall k :: 0 <= k < |ss| ==> r[k] == Words(ss[k])
  {
    seq(|ss|, k requires 0 <= k < |ss| => Words(ss[k]))
  }

  lemma {:induction false} WordsOfJoinOn(parts: seq<string>, c: char)
    requires IsSpace(c)
    ensures Words(Join([c], parts)) == Seqs.Flatten(WordsEach(parts))
  {
    if |parts| == 1 {
      assert WordsEach(parts) == [Words(parts[0])] + [];
      Seqs.FlattenCons(Words(parts[0]), []);
    } else if |parts| > 1 {
      WordsOfJoinOn(parts[1..], c);
      WordsOfSeparated(parts[0], c, Join([c], parts[1..]));
      assert WordsEach(parts) == [Words(parts[0])] + WordsEach(parts[1..]);
      Seqs.FlattenCons(Words(parts[0]), WordsEach(parts[1..]));
    }
  }

  /** A whitespace separator splits the words of its two sides apart. */
  lemma WordsOfSeparated(a: string, c: char, b: string)
    requires IsSpace(c)
    ensures Words(a + [c] + b) == Words(a) + Words(b)
  {
    WordsAppend(a, [c] + b);
    WordsAppend([c], b);
    Seqs.ConcatAssoc3(a, [c], b);
    WordsOfSpace(c);
  }

  lemma WordsOfSpace(c: char)
    requires IsSpace(c)
    ensures Words([c]) == []
  {
    assert [c][1..] == [];
  }

  // ---------------------------------------------------------------------------
  // re.sub

  /** `s.replace(old, new)` for single characters, which is what
      `re.sub(r'\n', ' ', s)` amounts to. */
  function ReplaceChar(s: string, from: char, to: char): (r: string)
    ensures |r| == |s|
    ensures forall i :: 0 <= i < |s| ==> r[i] == (if s[i] == from then to else s[i])
  {
    seq(|s|, i requires 0 <= i < |s| => if s[i] == from then to else s[i])
  }

  /** No whitespace other than single ' ' characters, and no '\n' in particular. */
  predicate Collapsed(s: string) {
    && (forall i :: 0 <= i < |s| && IsSpace(s[i]) ==> s[i] == ' ')
    && (forall i :: 0 <= i < |s| - 1 ==> !(s[i] == ' ' && s[i + 1] == ' '))
  }

  /** `re.sub(r'\s+', ' ', s)`: each maximal run of whitespace becomes one ' '. */
  function Collapse(s: string): (r: string)
    ensures Collapsed(r)
    ensures |r| <= |s|
    ensures r == [] <==> s == []
    ensures r != [] ==> (r[0] == ' ' <==> IsSpace(s[0]))
    ensures r != [] && !IsSpace(s[0]) ==> r[0] == s[0]
  {
    if s == [] then []
    else
      var rest := Collapse(s[1..]);
      if !IsSpace(s[0]) then [s[0]] + rest
      else if rest != [] && rest[0] == ' ' then rest
      else [' '] + rest
  }

  /** Collapsing keeps the tokens of `split()`: only whitespace is rewritten. */
  lemma {:induction false} WordsOfCollapse(s: string)
    ensures Words(Collapse(s)) == Words(s)
  {
    if s != [] {
      var rest := Collapse(s[1..]);
      WordsOfCollapse(s[1..]);
      if !IsSpace(s[0]) {
        assert ([s[0]] + rest)[1..] == rest;
      } else if !(rest != [] && rest[0] == ' ') {
        assert ([' '] + rest)[1..] == rest;
      }
    }
  }

  /** Collapsing a collapsed string changes nothing. */
  lemma {:induction false} CollapseIdempotent(s: string)
    ensures Collapse(Collapse(s)) == Collapse(s)
  {
    if s != [] {
      var rest := Collapse(s[1..]);
      CollapseIdempotent(s[1..]);
      if !IsSpace(s[0]) {
        assert ([s[0]] + rest)[1..] == rest;
      } else if !(rest != [] && rest[0] == ' ') {
        assert ([' '] + rest)[1..] == rest;
      }
    }
  }

  /** Turning '\n' into ' ' first makes no difference to the collapse, since '\n'
      is itself whitespace. */
  lemma {:induction false} CollapseAfterNewlines(s: string)
    ensures Collapse(ReplaceChar(s, '\n', ' ')) == Collapse(s)
  {
    if s != [] {
      var t := ReplaceChar(s, '\n', ' ');
      assert t[1..] == ReplaceChar(s[1..], '\n', ' ');
      CollapseAfterNewlines(s[1..]);
    }
  }

  // ---------------------------------------------------------------------------
  // decimal numerals

  predicate IsDigit(c: char) {
    '0' <= c <= '9'
  }

  function DigitChar(d: nat): (c: char)
    requires d < 10
    ensures IsDigit(c)
  {
    ('0' as int + d) as char
  }

  /** `f"{n}"`: the decimal numeral of `n`, without leading zeros. */
  function Decimal(n: nat): (r: string)
    ensures |r| >= 1
    ensures forall i :: 0 <= i < |r| ==> IsDigit(r[i])
    ensures r[0] == '0' ==> n == 0
  {
    if n < 10 then [DigitChar(n)] else Decimal(n / 10) + [DigitChar(n % 10)]
  }

  /** The number a string of digits denotes. */
  function DecimalValue(s: string): nat
    requires forall i :: 0 <= i < |s| ==> IsDigit(s[i])
  {
    if s == [] then 0
    else
      assert IsDigit(s[|s| - 1]);
      10 * DecimalValue(s[..|s| - 1]) + (s[|s| - 1] as int - '0' as int)
  }

  /** Reading a numeral back gives the number. */
  lemma {:induction false} DecimalRoundTrip(n: nat)
    ensures DecimalValue(Decimal(n)) == n
  {
    if n >= 10 {
      DecimalRoundTrip(n / 10);
      var r := Decimal(n);
      assert r[..|r| - 1] == Decimal(n / 10);
    }
  }

  /** Distinct numbers have distinct numerals. */
  lemma DecimalInjective(m: nat, n: nat)
    requires Decimal(m) == Decimal(n)
    ensures m == n
  {
    DecimalRoundTrip(m);
    DecimalRoundTrip(n);
  }
}
