/**
 * The parts of Python 2 `str` behaviour that both scripts rely on:
 * whitespace, `rstrip()`, `split()` with no separator, `' '.join(...)`,
 * whether `int(s)` accepts a token, the value it yields, and the decimal
 * text that `'{0}'.format(n)` produces for an integer.
 */
module PyText {

  /** The characters `str.isspace()` accepts in a Python 2 byte string. */
  predicate IsSpace(c: char) {
    c == ' ' || c == '\t' || c == '\n' || c == '\r' || c == '\U{0B}' || c == '\U{0C}'
  }

  /** A non-empty run of non-whitespace characters: what `split()` produces. */
  predicate IsWord(w: string) {
    |w| > 0 && forall i :: 0 <= i < |w| ==> !IsSpace(w[i])
  }

  /** `s.rstrip()`: the longest prefix of `s` that does not end in whitespace. */
  function RStrip(s: string): (r: string)
    ensures |r| <= |s| && r == s[..|r|]
    ensures r == [] || !IsSpace(r[|r| - 1])
    ensures forall i :: |r| <= i < |s| ==> IsSpace(s[i])
    decreases |s|
  {
    if s == [] || !IsSpace(s[|s| - 1]) then s else RStrip(s[..|s| - 1])
  }

  /** `s.lstrip()`: the longest suffix of `s` that does not start with whitespace. */
  function LStrip(s: string): (r: string)
    ensures |r| <= |s| && r == s[|s| - |r|..]
    ensures r == [] || !IsSpace(r[0])
    ensures forall i :: 0 <= i < |s| - |r| ==> IsSpace(s[i])
    decreases |s|
  {
    if s == [] || !IsSpace(s[0]) then s else LStrip(s[1..])
  }

  /** The longest prefix of `s` without whitespace: the next word of `split()`. */
  function LeadingWord(s: string): (w: string)
    ensures |w| <= |s| && w == s[..|w|]
    ensures forall i :: 0 <= i < |w| ==> !IsSpace(s[i])
    ensures |w| == |s| || IsSpace(s[|w|])
    decreases |s|
  {
    if s == [] || IsSpace(s[0]) then [] else [s[0]] + LeadingWord(s[1..])
  }

  lemma {:induction false} LeadingWordIsWord(t: string)
    requires t != [] && !IsSpace(t[0])
    ensures IsWord(LeadingWord(t))
  {
    var w := LeadingWord(t);
    assert |w| > 0;
  }

  /** `s.split()`: the maximal runs of non-whitespace characters, in order. */
  function Split(s: string): (ws: seq<string>)
    ensures forall w <- ws :: IsWord(w)
    decreases |s|
  {
    var t := LStrip(s);
    if t == [] then []
    else
      var w := LeadingWord(t);
      LeadingWordIsWord(t);
      [w] + Split(t[|w|..])
  }

  /** `' '.join(ws)`. */
  function Join(ws: seq<string>): string {
    if |ws| == 0 then ""
    else if |ws| == 1 then ws[0]
    else ws[0] + " " + Join(ws[1..])
  }

  /** `' '.join(ws)` starts with the first word. */
  lemma {:induction false} JoinStartsWithFirst(ws: seq<string>)
    requires |ws| > 0
    ensures ws[0] <= Join(ws)
  {
  }

  lemma {:induction false} WordIsStripped(w: string)
    requires IsWord(w)
    ensures LStrip(w) == w && RStrip(w) == w
  {
  }

  /** A joined line of words starts with the first word's first character. */
  lemma {:induction false} JoinStartsWithWord(ws: seq<string>)
    requires |ws| > 0 && IsWord(ws[0])
    ensures |Join(ws)| > 0 && Join(ws)[0] == ws[0][0]
  {
  }

  /** Leading whitespace in front of a word-initial string does not change `split()`. */
  lemma {:induction false} SplitSkipsSpace(j: string)
    requires |j| > 0 && !IsSpace(j[0])
    ensures Split(" " + j) == Split(j)
  {
    var s := " " + j;
    assert s[1..] == j;
    assert LStrip(s) == LStrip(j) == j;
  }

  /** A word followed by nothing or by whitespace is the next word of the whole. */
  lemma {:induction false} LeadingWordBefore(w: string, rest: string)
    requires IsWord(w) && (rest == [] || IsSpace(rest[0]))
    ensures LeadingWord(w + rest) == w
  {
    var s := w + rest;
    var lw := LeadingWord(s);
    assert forall i :: 0 <= i < |w| ==> s[i] == w[i];
    if rest != [] {
      assert s[|w|] == rest[0];
    }
    assert |lw| == |w|;
    assert s[..|w|] == w;
  }

  /** The next word of a word is all of it. */
  lemma {:induction false} LeadingWordOfWord(w: string)
    requires IsWord(w)
    ensures LeadingWord(w) == w
  {
  }

  /** A single word splits to itself. */
  lemma {:induction false} SplitWord(w: string)
    requires IsWord(w)
    ensures Split(w) == [w]
  {
    WordIsStripped(w);
    LeadingWordOfWord(w);
    assert w[|w|..] == [];
    assert Split([]) == [];
  }

  /** A word followed by a space and a word-initial string splits off that word. */
  lemma {:induction false} SplitCons(w: string, rest: string)
    requires IsWord(w) && |rest| > 0 && !IsSpace(rest[0])
    ensures Split(w + " " + rest) == [w] + Split(rest)
  {
    var s := w + " " + rest;
    assert s[0] == w[0];
    assert LStrip(s) == s;
    assert s == w + (" " + rest);
    LeadingWordBefore(w, " " + rest);
    assert s[|w|..] == " " + rest;
    SplitSkipsSpace(rest);
  }

  /** `split()` undoes `' '.join` on a list of words. */
  lemma {:induction false} SplitJoin(ws: seq<string>)
    requires forall w <- ws :: IsWord(w)
    ensures Split(Join(ws)) == ws
    decreases |ws|
  {
    if |ws| == 0 {
      assert LStrip("") == "";
    } else if |ws| == 1 {
      SplitWord(ws[0]);
    } else {
      assert forall w <- ws[1..] :: w in ws;
      SplitJoin(ws[1..]);
      SplitJoinStep(ws);
    }
  }

  /** One step of `SplitJoin`: splitting off the first word of a joined line. */
  lemma {:induction false} SplitJoinStep(ws: seq<string>)
    requires |ws| > 1 && IsWord(ws[0]) && IsWord(ws[1])
    requires Split(Join(ws[1..])) == ws[1..]
    ensures Split(Join(ws)) == ws
  {
    var rest := ws[1..];
    assert Join(ws) == ws[0] + " " + Join(rest);
    assert rest[0] == ws[1];
    JoinStartsWithWord(rest);
    SplitCons(ws[0], Join(rest));
    assert ws == [ws[0]] + rest;
  }

  /** A string made only of whitespace, possibly empty. */
  predicate IsBlank(g: string) {
    forall i :: 0 <= i < |g| ==> IsSpace(g[i])
  }

  /** `gaps[0] + words[0] + gaps[1] + ... + words[n - 1] + gaps[n]`. */
  function Interleave(gaps: seq<string>, words: seq<string>): string
    requires |gaps| == |words| + 1
    decreases |words|
  {
    if words == [] then gaps[0] else gaps[0] + words[0] + Interleave(gaps[1..], words[1..])
  }

  /**
   * `s` is the words `ws` with whitespace gaps around them, and no two words
   * are adjacent: the words are the maximal non-whitespace runs of `s`.
   */
  predicate Tokenizes(s: string, gaps: seq<string>, ws: seq<string>) {
    |gaps| == |ws| + 1 &&
    (forall w <- ws :: IsWord(w)) &&
    (forall g <- gaps :: IsBlank(g)) &&
    (forall k :: 0 < k < |ws| ==> gaps[k] != []) &&
    s == Interleave(gaps, ws)
  }

  /** Leading whitespace is all that `lstrip()` removes. */
  lemma {:induction false} LStripBlank(g: string, t: string)
    requires IsBlank(g)
    ensures LStrip(g + t) == LStrip(t)
    decreases |g|
  {
    if g != [] {
      assert (g + t)[0] == g[0];
      assert (g + t)[1..] == g[1..] + t;
      assert LStrip(g + t) == LStrip(g[1..] + t);
      LStripBlank(g[1..], t);
    } else {
      assert g + t == t;
    }
  }

  /** The first gap and word of an interleaving come first. */
  lemma InterleaveCons(g: string, gs: seq<string>, w: string, ws: seq<string>)
    requires |gs| == |ws| + 1
    ensures Interleave([g] + gs, [w] + ws) == g + w + Interleave(gs, ws)
  {
    assert ([g] + gs)[1..] == gs && ([w] + ws)[1..] == ws;
  }

  /** A blank gap, a word, then nothing or whitespace: `split()` takes off exactly that word. */
  lemma {:induction false} SplitStep(g: string, w: string, rest: string)
    requires IsBlank(g) && IsWord(w) && (rest == [] || IsSpace(rest[0]))
    ensures Split(g + (w + rest)) == [w] + Split(rest)
  {
    var t := w + rest;
    var s := g + t;
    assert LStrip(s) == t by {
      LStripBlank(g, t);
      assert t[0] == w[0];
    }
    assert LeadingWord(t) == w by {
      LeadingWordBefore(w, rest);
    }
    assert t[|w|..] == rest;
    SplitUnfold(s);
  }

  /** One step of `split()`: the first token of the stripped line, then the rest. */
  lemma SplitUnfold(s: string)
    requires LStrip(s) != []
    ensures var t := LStrip(s);
      Split(s) == [LeadingWord(t)] + Split(t[|LeadingWord(t)|..])
  {
  }

  /** A tokenization of `rest` extends by one gap and one word in front. */
  lemma {:induction false} TokenizesCons(lead: string, w: string, rest: string, gs: seq<string>, ws: seq<string>)
    requires IsBlank(lead) && IsWord(w) && (rest == [] || IsSpace(rest[0]))
    requires Tokenizes(rest, gs, ws)
    ensures Tokenizes(lead + (w + rest), [lead] + gs, [w] + ws)
  {
    var gaps := [lead] + gs;
    InterleaveCons(lead, gs, w, ws);
    if ws != [] {
      InterleaveCons(gs[0], gs[1..], ws[0], ws[1..]);
      assert [gs[0]] + gs[1..] == gs && [ws[0]] + ws[1..] == ws;
      assert rest == gs[0] + ws[0] + Interleave(gs[1..], ws[1..]);
      assert ws[0] in ws;
      assert rest[|gs[0]|] == ws[0][0];
    }
    assert forall k :: 1 < k < |ws| + 1 ==> gaps[k] == gs[k - 1];
  }

  /** A tokenization without its first gap and word is a tokenization of the remainder. */
  lemma {:induction false} TokenizesTail(s: string, gaps: seq<string>, ws: seq<string>)
    requires Tokenizes(s, gaps, ws) && ws != []
    ensures var rest := Interleave(gaps[1..], ws[1..]);
      s == gaps[0] + (ws[0] + rest) && IsBlank(gaps[0]) && IsWord(ws[0]) &&
      (rest == [] || IsSpace(rest[0])) &&
      Tokenizes(rest, gaps[1..], ws[1..])
  {
    var rest := Interleave(gaps[1..], ws[1..]);
    assert IsBlank(gaps[0]) && IsWord(ws[0]) by {
      assert ws[0] in ws && gaps[0] in gaps;
    }
    assert s == gaps[0] + (ws[0] + rest) by {
      assert s == gaps[0] + ws[0] + rest;
    }
    assert Tokenizes(rest, gaps[1..], ws[1..]) by {
      assert forall w <- ws[1..] :: w in ws;
      assert forall g <- gaps[1..] :: g in gaps;
      assert forall k :: 0 < k < |ws| - 1 ==> gaps[1..][k] == gaps[k + 1];
    }
    if |ws| > 1 {
      assert rest[0] == gaps[1][0] by {
        InterleaveCons(gaps[1], gaps[2..], ws[1], ws[2..]);
        assert [gaps[1]] + gaps[2..] == gaps[1..] && [ws[1]] + ws[2..] == ws[1..];
      }
      assert gaps[1] in gaps && gaps[1] != [];
    } else {
      assert rest == gaps[1] && gaps[1] in gaps;
    }
  }

  /** A blank line has no tokens. */
  lemma BlankTokenizes(s: string)
    requires IsBlank(s)
    ensures Split(s) == [] && Tokenizes(s, [s], [])
  {
    assert LStrip(s) == [];
    assert Interleave([s], []) == s;
    assert forall g <- [s] :: g == s;
  }

  /** The whitespace gaps around the tokens of `split()`. */
  lemma {:induction false} SplitGaps(s: string) returns (gaps: seq<string>)
    ensures Tokenizes(s, gaps, Split(s))
    decreases |s|
  {
    var t := LStrip(s);
    var lead := s[..|s| - |t|];
    assert s == lead + t;
    if t == [] {
      BlankTokenizes(s);
      gaps := [s];
    } else {
      var w := LeadingWord(t);
      LeadingWordIsWord(t);
      var rest := t[|w|..];
      assert t == w + rest;
      assert lead + (w + rest) == s;
      SplitStep(lead, w, rest);
      var gs := SplitGaps(rest);
      TokenizesCons(lead, w, rest, gs, Split(rest));
      gaps := [lead] + gs;
    }
  }

  /** Any line is the tokens of `split()` separated by whitespace gaps, none empty between two tokens. */
  lemma SplitTokenizes(s: string)
    ensures exists gaps :: Tokenizes(s, gaps, Split(s))
  {
    var gaps := SplitGaps(s);
  }

  /** Conversely, whenever `s` is words separated by whitespace gaps, `split()` returns exactly those words. */
  lemma {:induction false} SplitOfTokenization(s: string, gaps: seq<string>, ws: seq<string>)
    requires Tokenizes(s, gaps, ws)
    ensures Split(s) == ws
    decreases |ws|
  {
    if ws == [] {
      BlankTokenization(s, gaps);
    } else {
      var rest := Interleave(gaps[1..], ws[1..]);
      assert Split(rest) == ws[1..] by {
        TokenizesTail(s, gaps, ws);
        SplitOfTokenization(rest, gaps[1..], ws[1..]);
      }
      TokenizesTail(s, gaps, ws);
      SplitFront(s, gaps[0], ws[0], rest, ws);
    }
  }

  /** A tokenization with no words is a single blank gap, which splits into nothing. */
  lemma BlankTokenization(s: string, gaps: seq<string>)
    requires Tokenizes(s, gaps, [])
    ensures Split(s) == []
  {
    assert s == gaps[0] && gaps[0] in gaps;
    BlankTokenizes(s);
  }

  /** `SplitStep` for a line whose remainder is already known to split into the rest of `ws`. */
  lemma SplitFront(s: string, g: string, w: string, rest: string, ws: seq<string>)
    requires s == g + (w + rest) && IsBlank(g) && IsWord(w) && (rest == [] || IsSpace(rest[0]))
    requires ws != [] && ws[0] == w && Split(rest) == ws[1..]
    ensures Split(s) == ws
  {
    SplitStep(g, w, rest);
    FirstAndRest(ws);
  }

  lemma FirstAndRest<T>(xs: seq<T>)
    requires xs != []
    ensures xs == [xs[0]] + xs[1..]
  {
  }

  // Integers as text

  predicate IsDigit(c: char) {
    '0' <= c <= '9'
  }

  predicate IsDigits(s: string) {
    |s| > 0 && forall i :: 0 <= i < |s| ==> IsDigit(s[i])
  }

  /**
   * `is_number(s)`, i.e. `int(s)` succeeds, for a string without
   * whitespace: an optional sign followed by base-10 digits.
   */
  predicate IsNumber(s: string) {
    IsDigits(s) || (|s| > 1 && (s[0] == '+' || s[0] == '-') && IsDigits(s[1..]))
  }

  function DigitValue(c: char): (d: nat)
    requires IsDigit(c)
    ensures d < 10
  {
    (c as int - '0' as int) as nat
  }

  function DigitChar(d: nat): (c: char)
    requires d < 10
    ensures IsDigit(c) && DigitValue(c) == d
  {
    ('0' as int + d) as char
  }

  /** The value of a string of decimal digits, most significant first. */
  function DigitsValue(s: string): nat
    requires forall i :: 0 <= i < |s| ==> IsDigit(s[i])
    decreases |s|
  {
    if s == [] then 0 else DigitsValue(s[..|s| - 1]) * 10 + DigitValue(s[|s| - 1])
  }

  /** `int(s)`, for a string that `is_number` accepts. */
  function ParseInt(s: string): (i: int)
    requires IsNumber(s)
    ensures i < 0 ==> s[0] == '-'
    ensures s[0] == '-' ==> i <= 0
  {
    if s[0] == '-' then -(DigitsValue(s[1..]) as int)
    else if s[0] == '+' then DigitsValue(s[1..])
    else DigitsValue(s)
  }

  /** The decimal digits of `n`, without leading zeros. */
  function NatToString(n: nat): (s: string)
    ensures IsDigits(s) && DigitsValue(s) == n
    ensures s[0] == '0' ==> s == "0"
    decreases n
  {
    if n < 10 then [DigitChar(n)]
    else
      var front := NatToString(n / 10);
      assert (front + [DigitChar(n % 10)])[..|front|] == front;
      front + [DigitChar(n % 10)]
  }

  /** `'{0}'.format(i)` for an integer `i`: a minus sign exactly for negative `i`, then decimal digits. */
  function IntToString(i: int): (s: string)
    ensures |s| > 0 && (s[0] == '-' <==> i < 0)
  {
    if i < 0 then "-" + NatToString(-i) else NatToString(i)
  }

  /** Formatting an integer yields a token that `is_number` accepts and `int()` reads back as the same integer. */
  lemma {:induction false} IntToStringRoundTrip(i: int)
    ensures IsWord(IntToString(i))
    ensures IsNumber(IntToString(i)) && ParseInt(IntToString(i)) == i
  {
    var s := IntToString(i);
    assert forall k :: 0 <= k < |s| ==> IsDigit(s[k]) || s[k] == '-';
    if i < 0 {
      assert s[1..] == NatToString(-i);
    }
  }
}
