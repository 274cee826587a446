/** The character-level helpers the address book relies on: digit tests,
    whitespace splitting (`str.split()`), stripping (`str.strip()`),
    lower-casing and joining. Only ASCII is modelled: Python's notions of
    digit, space and case cover all of Unicode. */
module Text {

  /** An ASCII decimal digit. */
  predicate IsDigit(c: char) {
    '0' <= c <= '9'
  }

  function DigitValue(c: char): (v: int)
    requires IsDigit(c)
    ensures 0 <= v <= 9
  {
    c as int - '0' as int
  }

  function DigitChar(v: int): (c: char)
    requires 0 <= v <= 9
    ensures IsDigit(c) && DigitValue(c) == v
  {
    ('0' as int + v) as char
  }

  /** Every character of `s` is a digit. */
  function AllDigits(s: string): (b: bool)
    ensures b <==> forall k :: 0 <= k < |s| ==> IsDigit(s[k])
  {
    |s| == 0 || (IsDigit(s[0]) && AllDigits(s[1..]))
  }

  /** Python's `str.isdigit`: false on the empty string. */
  function IsDecimal(s: string): (b: bool)
    ensures b <==> |s| > 0 && forall k :: 0 <= k < |s| ==> IsDigit(s[k])
  {
    |s| > 0 && AllDigits(s)
  }

  /** The ASCII characters `str.isspace` accepts: space, tab, line feed,
      vertical tab, form feed, carriage return and the four separators
      0x1C..0x1F. */
  predicate IsSpace(c: char) {
    var k := c as int;
    k == 32 || 9 <= k <= 13 || 28 <= k <= 31
  }

  predicate NoSpace(s: string) {
    forall k :: 0 <= k < |s| ==> !IsSpace(s[k])
  }

  predicate IsUpper(c: char) {
    'A' <= c <= 'Z'
  }

  function LowerChar(c: char): char {
    if IsUpper(c) then (c as int + 32) as char else c
  }

  /** `str.lower` on ASCII: upper-case letters become lower-case, every
      other character is kept, and the length does not change. */
  function Lower(s: string): (r: string)
    ensures |r| == |s|
    ensures forall k :: 0 <= k < |r| ==> !IsUpper(r[k])
    ensures forall k :: 0 <= k < |s| && !IsUpper(s[k]) ==> r[k] == s[k]
    ensures forall k :: 0 <= k < |s| && IsUpper(s[k]) ==> r[k] as int == s[k] as int + 32
  {
    if |s| == 0 then "" else [LowerChar(s[0])] + Lower(s[1..])
  }

  /** `sep.join(parts)`. */
  function Join(sep: string, parts: seq<string>): string
    decreases |parts|
  {
    if |parts| == 0 then ""
    else if |parts| == 1 then parts[0]
    else parts[0] + sep + Join(sep, parts[1..])
  }

  /** `"".join(parts)`. */
  function Concat(parts: seq<string>): string
    decreases |parts|
  {
    if |parts| == 0 then "" else parts[0] + Concat(parts[1..])
  }

  /** `a` occurs in `s` as a contiguous piece. */
  predicate IsInfix(a: string, s: string)
    decreases |s|
  {
    a <= s || (|s| > 0 && IsInfix(a, s[1..]))
  }

  lemma {:induction false} InfixOfSuffix(a: string, u: string, t: string)
    requires IsInfix(a, t)
    ensures IsInfix(a, u + t)
    decreases |u|
  {
    if |u| > 0 {
      assert (u + t)[1..] == u[1..] + t;
      InfixOfSuffix(a, u[1..], t);
    } else {
      assert u + t == t;
    }
  }

  lemma {:induction false} InfixOfPrefix(a: string, t: string, v: string)
    requires IsInfix(a, t)
    ensures IsInfix(a, t + v)
    decreases |t|
  {
    if a <= t {
      assert a <= t + v;
    } else {
      assert (t + v)[1..] == t[1..] + v;
      InfixOfPrefix(a, t[1..], v);
    }
  }

  /** Every part of a join appears in the joined text. */
  lemma {:induction false} JoinContainsParts(sep: string, parts: seq<string>, k: int)
    requires 0 <= k < |parts|
    ensures IsInfix(parts[k], Join(sep, parts))
    decreases |parts|
  {
    if |parts| == 1 {
      assert parts[k] <= parts[k];
    } else if k == 0 {
      assert parts[0] <= parts[0] + sep + Join(sep, parts[1..]);
    } else {
      JoinContainsParts(sep, parts[1..], k - 1);
      InfixOfSuffix(parts[k], parts[0] + sep, Join(sep, parts[1..]));
    }
  }

  /** The characters of `s` that are not whitespace, in order. */
  function RemoveSpaces(s: string): string
    decreases |s|
  {
    if |s| == 0 then ""
    else (if IsSpace(s[0]) then "" else [s[0]]) + RemoveSpaces(s[1..])
  }

  /** Length of the run of non-space characters at the start of `s`. */
  function TokenLength(s: string): (n: nat)
    ensures n <= |s|
    ensures NoSpace(s[..n])
    ensures n < |s| ==> IsSpace(s[n])
  {
    if |s| == 0 || IsSpace(s[0]) then 0 else 1 + TokenLength(s[1..])
  }

  /** `str.split()` with no separator: the maximal runs of non-space
      characters, left to right; blank input gives no tokens. */
  function Split(s: string): (r: seq<string>)
    ensures forall k :: 0 <= k < |r| ==> r[k] != "" && NoSpace(r[k])
    decreases |s|
  {
    if |s| == 0 then []
    else if IsSpace(s[0]) then Split(s[1..])
    else
      var n := TokenLength(s);
      [s[..n]] + Split(s[n..])
  }

  lemma {:induction false} RemoveSpacesOfWord(s: string, n: nat)
    requires n <= |s| && NoSpace(s[..n])
    ensures RemoveSpaces(s) == s[..n] + RemoveSpaces(s[n..])
    decreases n
  {
    if n > 0 {
      assert s[1..][..n - 1] == s[1..n];
      RemoveSpacesOfWord(s[1..], n - 1);
      assert s[1..][n - 1..] == s[n..];
      assert s[..n] == [s[0]] + s[1..n];
    }
  }

  lemma {:induction false} ConcatCons(t: string, rest: seq<string>)
    ensures Concat([t] + rest) == t + Concat(rest)
  {
    assert ([t] + rest)[1..] == rest;
  }

  /** Splitting loses exactly the whitespace: gluing the tokens back
      together gives the input without its spaces. */
  lemma {:induction false} SplitKeepsText(s: string)
    ensures Concat(Split(s)) == RemoveSpaces(s)
    decreases |s|
  {
    if |s| == 0 {
    } else if IsSpace(s[0]) {
      SplitKeepsText(s[1..]);
    } else {
      var n := TokenLength(s);
      SplitKeepsText(s[n..]);
      ConcatCons(s[..n], Split(s[n..]));
      RemoveSpacesOfWord(s, n);
    }
  }

  lemma {:induction false} TokenLengthOfWord(a: string, b: string)
    requires NoSpace(a)
    requires |b| == 0 || IsSpace(b[0])
    ensures TokenLength(a + b) == |a|
    decreases |a|
  {
    if |a| > 0 {
      assert (a + b)[1..] == a[1..] + b;
      TokenLengthOfWord(a[1..], b);
    } else {
      assert a + b == b;
    }
  }

  /** A run of whitespace (possibly empty). */
  predicate Blank(s: string) {
    forall k :: 0 <= k < |s| ==> IsSpace(s[k])
  }

  /** A word as `str.split()` returns it: non-empty, without whitespace. */
  predicate Word(t: string) {
    t != "" && NoSpace(t)
  }

  /** Blank runs to put around and between words: one before each word and
      one after the last, those between two words non-empty. */
  predicate Separators(gaps: seq<string>, ts: seq<string>) {
    && |gaps| == |ts| + 1
    && (forall k :: 0 <= k < |gaps| ==> Blank(gaps[k]))
    && (forall k :: 0 < k < |ts| ==> gaps[k] != "")
  }

  /** The words `ts` laid out with the blank runs `gaps`:
      `gaps[0] + ts[0] + gaps[1] + … + ts[n-1] + gaps[n]`. */
  function Spread(gaps: seq<string>, ts: seq<string>): string
    requires |gaps| == |ts| + 1
    decreases |ts|
  {
    if |ts| == 0 then gaps[0] else gaps[0] + ts[0] + Spread(gaps[1..], ts[1..])
  }

  lemma {:induction false} SplitSkipsBlank(g: string, rest: string)
    requires Blank(g)
    ensures Split(g + rest) == Split(rest)
    decreases |g|
  {
    if |g| == 0 {
      assert g + rest == rest;
    } else {
      assert (g + rest)[1..] == g[1..] + rest;
      SplitSkipsBlank(g[1..], rest);
    }
  }

  lemma SplitTakesWord(t: string, rest: string)
    requires Word(t) && (rest == "" || IsSpace(rest[0]))
    ensures Split(t + rest) == [t] + Split(rest)
  {
    var s := t + rest;
    TokenLengthOfWord(t, rest);
    assert s[..|t|] == t && s[|t|..] == rest;
    assert s[0] == t[0];
  }

  /** `str.split()` gives back the words of any such layout. */
  lemma {:induction false} SplitSpread(gaps: seq<string>, ts: seq<string>)
    requires Separators(gaps, ts) && forall k :: 0 <= k < |ts| ==> Word(ts[k])
    ensures Split(Spread(gaps, ts)) == ts
    decreases |ts|
  {
    if |ts| == 0 {
      SplitSkipsBlank(gaps[0], "");
      assert gaps[0] + "" == gaps[0];
    } else {
      var rest := SpreadTail(gaps, ts);
      assert forall k :: 0 <= k < |ts| - 1 ==> ts[1..][k] == ts[k + 1];
      SplitSpread(gaps[1..], ts[1..]);
      SplitSkipsBlank(gaps[0], ts[0] + rest);
      SplitTakesWord(ts[0], rest);
    }
  }

  /** A layout with a first word: its first blank run, the word, and a
      layout of the other words that is empty or starts with a blank. */
  lemma SpreadTail(gaps: seq<string>, ts: seq<string>) returns (rest: string)
    requires Separators(gaps, ts) && |ts| > 0
    ensures Separators(gaps[1..], ts[1..])
    ensures rest == Spread(gaps[1..], ts[1..]) && Spread(gaps, ts) == gaps[0] + (ts[0] + rest)
    ensures rest == "" || IsSpace(rest[0])
  {
    rest := Spread(gaps[1..], ts[1..]);
    assert forall k :: 0 < k < |ts| - 1 ==> gaps[1..][k] == gaps[k + 1];
    assert Blank(gaps[1]);
    if |ts| > 1 {
      assert gaps[1..][1..] == gaps[2..] && ts[1..][1..] == ts[2..];
      assert rest == gaps[1] + (ts[1] + Spread(gaps[2..], ts[2..]));
      assert rest[0] == gaps[1][0];
    }
  }

  /** One more blank in front of a layout. */
  lemma SpreadAddBlank(c: char, gs: seq<string>, ts: seq<string>)
    requires Separators(gs, ts) && IsSpace(c)
    ensures Separators(gs[0 := [c] + gs[0]], ts)
    ensures Spread(gs[0 := [c] + gs[0]], ts) == [c] + Spread(gs, ts)
  {
    var gaps := gs[0 := [c] + gs[0]];
    assert Blank(gaps[0]);
    assert gaps[1..] == gs[1..];
  }

  /** One more word in front of a layout that does not start with a word. */
  lemma SpreadAddWord(t: string, gs: seq<string>, ts: seq<string>)
    requires Separators(gs, ts) && Word(t) && (|ts| > 0 ==> gs[0] != "")
    ensures Separators([""] + gs, [t] + ts)
    ensures Spread([""] + gs, [t] + ts) == t + Spread(gs, ts)
  {
    WordSeparators(t, gs, ts);
    WordSpread(t, gs, ts);
  }

  lemma WordSeparators(t: string, gs: seq<string>, ts: seq<string>)
    requires Separators(gs, ts) && (|ts| > 0 ==> gs[0] != "")
    ensures Separators([""] + gs, [t] + ts)
  {
    var gaps := [""] + gs;
    forall k | 0 <= k < |gaps|
      ensures Blank(gaps[k])
    {
      if k > 0 {
        assert gaps[k] == gs[k - 1];
      }
    }
    forall k | 0 < k < |ts| + 1
      ensures gaps[k] != ""
    {
      assert gaps[k] == gs[k - 1];
    }
  }

  lemma WordSpread(t: string, gs: seq<string>, ts: seq<string>)
    requires |gs| == |ts| + 1
    ensures Spread([""] + gs, [t] + ts) == t + Spread(gs, ts)
  {
    var gaps, words := [""] + gs, [t] + ts;
    assert gaps[1..] == gs && words[1..] == ts;
    assert Spread(gaps, words) == gaps[0] + words[0] + Spread(gs, ts);
    assert gaps[0] + words[0] == t;
  }

  /** Every string is its own `str.split()` words laid out with blank runs:
      the words are exactly the maximal runs of non-space characters. */
  lemma {:induction false} SpreadOfSplit(s: string) returns (gaps: seq<string>)
    ensures Separators(gaps, Split(s)) && Spread(gaps, Split(s)) == s
    decreases |s|
  {
    if |s| == 0 {
      gaps := [""];
    } else if IsSpace(s[0]) {
      var gs := SpreadOfSplit(s[1..]);
      SpreadAddBlank(s[0], gs, Split(s[1..]));
      gaps := gs[0 := [s[0]] + gs[0]];
      assert s == [s[0]] + s[1..];
    } else {
      var n := TokenLength(s);
      var t, ts := s[..n], Split(s[n..]);
      var gs := SpreadOfSplit(s[n..]);
      if |ts| > 0 {
        FirstGapOfSpaced(s[n..], gs, ts);
      }
      SpreadAddWord(t, gs, ts);
      gaps := [""] + gs;
      assert s == t + s[n..];
    }
  }

  /** A layout of a string that starts with a blank starts with a blank run. */
  lemma FirstGapOfSpaced(s: string, gs: seq<string>, ts: seq<string>)
    requires Separators(gs, ts) && |ts| > 0 && Word(ts[0]) && Spread(gs, ts) == s
    requires |s| > 0 && IsSpace(s[0])
    ensures gs[0] != ""
  {
    var after := ts[0] + Spread(gs[1..], ts[1..]);
    assert s == gs[0] + after;
    assert !IsSpace(after[0]);
  }

  /** `str.lstrip()`: drops the leading whitespace and nothing else. */
  function LStrip(s: string): (r: string)
    ensures |r| <= |s| && r == s[|s| - |r|..]
    ensures forall k :: 0 <= k < |s| - |r| ==> IsSpace(s[k])
    ensures |r| > 0 ==> !IsSpace(r[0])
    decreases |s|
  {
    if |s| > 0 && IsSpace(s[0]) then LStrip(s[1..]) else s
  }

  /** `str.rstrip()`: drops the trailing whitespace and nothing else. */
  function RStrip(s: string): (r: string)
    ensures |r| <= |s| && r == s[..|r|]
    ensures forall k :: |r| <= k < |s| ==> IsSpace(s[k])
    ensures |r| > 0 ==> !IsSpace(r[|r| - 1])
    decreases |s|
  {
    if |s| > 0 && IsSpace(s[|s| - 1]) then RStrip(s[..|s| - 1]) else s
  }

  lemma {:induction false} RemoveSpacesAppend(a: string, b: string)
    ensures RemoveSpaces(a + b) == RemoveSpaces(a) + RemoveSpaces(b)
    decreases |a|
  {
    if |a| > 0 {
      assert (a + b)[1..] == a[1..] + b;
      RemoveSpacesAppend(a[1..], b);
    } else {
      assert a + b == b;
    }
  }

  lemma {:induction false} RemoveSpacesOfBlank(s: string)
    requires forall k :: 0 <= k < |s| ==> IsSpace(s[k])
    ensures RemoveSpaces(s) == ""
    decreases |s|
  {
    if |s| > 0 {
      RemoveSpacesOfBlank(s[1..]);
    }
  }

  /** Dropping leading blanks keeps the non-space characters. */
  lemma LStripKeepsText(s: string)
    ensures RemoveSpaces(LStrip(s)) == RemoveSpaces(s)
  {
    var l := LStrip(s);
    var i := |s| - |l|;
    var blanks := s[..i];
    assert s == blanks + l;
    assert forall k :: 0 <= k < |blanks| ==> blanks[k] == s[k];
    RemoveSpacesOfBlank(blanks);
    RemoveSpacesAppend(blanks, l);
  }

  /** Dropping trailing blanks keeps the non-space characters. */
  lemma RStripKeepsText(s: string)
    ensures RemoveSpaces(RStrip(s)) == RemoveSpaces(s)
  {
    var r := RStrip(s);
    assert s == r + s[|r|..];
    RemoveSpacesOfBlank(s[|r|..]);
    RemoveSpacesAppend(r, s[|r|..]);
  }

  /** Whatever occurs in `s` without its leading blanks occurs in `s`. */
  lemma {:induction false} InfixOfLStrip(a: string, s: string)
    requires IsInfix(a, LStrip(s))
    ensures IsInfix(a, s)
    decreases |s|
  {
    if |s| > 0 && IsSpace(s[0]) {
      InfixOfLStrip(a, s[1..]);
    }
  }

  lemma StripIsInfix(s: string)
    ensures IsInfix(RStrip(LStrip(s)), s)
  {
    var l := LStrip(s);
    var r := RStrip(l);
    assert IsInfix(r, l) by {
      assert r <= l;
    }
    InfixOfLStrip(r, s);
  }

  lemma StripEnds(s: string)
    ensures var r := RStrip(LStrip(s));
            |r| > 0 ==> !IsSpace(r[0]) && !IsSpace(r[|r| - 1])
  {
    var l := LStrip(s);
    var r := RStrip(l);
    if |r| > 0 {
      assert r[0] == l[0];
    }
  }

  /** `str.strip()`: a piece of `s` that keeps every non-space character of
      `s` and neither starts nor ends with whitespace. */
  function Strip(s: string): (r: string)
    ensures IsInfix(r, s)
    ensures RemoveSpaces(r) == RemoveSpaces(s)
    ensures |r| > 0 ==> !IsSpace(r[0]) && !IsSpace(r[|r| - 1])
  {
    LStripKeepsText(s);
    RStripKeepsText(LStrip(s));
    StripIsInfix(s);
    StripEnds(s);
    RStrip(LStrip(s))
  }

  /** Trailing whitespace is taken from the end only: a prefix is kept as
      long as something after it survives. */
  lemma {:induction false} RStripAfterPrefix(a: string, b: string)
    requires RStrip(b) != ""
    ensures RStrip(a + b) == a + RStrip(b)
    decreases |b|
  {
    if IsSpace(b[|b| - 1]) {
      assert (a + b)[..|a + b| - 1] == a + b[..|b| - 1];
      RStripAfterPrefix(a, b[..|b| - 1]);
    }
  }

  lemma {:induction false} ConcatSnoc(parts: seq<string>, t: string)
    ensures Concat(parts + [t]) == Concat(parts) + t
    decreases |parts|
  {
    if |parts| > 0 {
      assert (parts + [t])[1..] == parts[1..] + [t];
      ConcatSnoc(parts[1..], t);
    }
  }

  /** Stripping text that ends in a line break: the break and the blanks
      before it go, the start is kept when it is not blank. */
  lemma StripTrailingLine(front: string, last: string)
    requires |last| > 0 && !IsSpace(last[0])
    requires |front| > 0 ==> !IsSpace(front[0])
    ensures Strip(front + (last + "\n")) == front + RStrip(last)
  {
    var whole := front + (last + "\n");
    assert !IsSpace(whole[0]);
    assert LStrip(whole) == whole;
    assert RStrip(last + "\n") == RStrip(last) by {
      assert (last + "\n")[..|last + "\n"| - 1] == last;
    }
    RStripAfterPrefix(front, last + "\n");
  }
}
