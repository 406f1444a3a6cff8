/**
 * The byte-string primitives the table builder relies on: `bytes.strip()`,
 * `bytes.split(sep)`, `bytes.split()` and base-16 conversion in both
 * directions (`int(s, 16)` and the `{:X}` format).  A line of input is a
 * string holding one character per byte.
 */
module Text {

  /** The ASCII whitespace set of `bytes.strip()` and `bytes.split()`. */
  predicate IsSpace(c: char) {
    // space, and tab, line feed, vertical tab, form feed, carriage return (9 to 13)
    c == ' ' || '\t' <= c <= '\r'
  }

  predicate NoSpace(s: string) {
    forall i :: 0 <= i < |s| ==> !IsSpace(s[i])
  }

  predicate AllSpace(s: string) {
    forall i :: 0 <= i < |s| ==> IsSpace(s[i])
  }

  // ---------------------------------------------------------------- strip

  /** Drops leading whitespace. */
  function TrimStart(s: string): (r: string)
    ensures |r| <= |s|
  {
    if s != [] && IsSpace(s[0]) then TrimStart(s[1..]) else s
  }

  /** Drops trailing whitespace. */
  function TrimEnd(s: string): (r: string)
    ensures |r| <= |s|
  {
    if s != [] && IsSpace(s[|s| - 1]) then TrimEnd(s[..|s| - 1]) else s
  }

  /** `TrimStart` removes a run of whitespace and stops at the first other character. */
  lemma {:induction false} TrimStartSpec(s: string)
    ensures var r := TrimStart(s);
      r == s[|s| - |r|..] && AllSpace(s[..|s| - |r|]) && (r == [] || !IsSpace(r[0]))
  {
    if s != [] && IsSpace(s[0]) {
      TrimStartSpec(s[1..]);
      var r := TrimStart(s);
      assert s[..|s| - |r|] == [s[0]] + s[1..][..|s| - 1 - |r|];
    }
  }

  /** `TrimEnd` removes a run of whitespace and stops at the last other character. */
  lemma {:induction false} TrimEndSpec(s: string)
    ensures var r := TrimEnd(s);
      r == s[..|r|] && AllSpace(s[|r|..]) && (r == [] || !IsSpace(r[|r| - 1]))
  {
    if s != [] && IsSpace(s[|s| - 1]) {
      TrimEndSpec(s[..|s| - 1]);
      var r := TrimEnd(s);
      assert s[|r|..] == s[..|s| - 1][|r|..] + [s[|s| - 1]];
    }
  }

  /** `s.strip()`: `s` without the whitespace at either end. */
  function Strip(s: string): (r: string)
    ensures |r| <= |s|
  {
    TrimEnd(TrimStart(s))
  }

  /**
   * What `Strip` keeps is one slice of `s` that neither starts nor ends with
   * whitespace, and what it removes on either side is whitespace.
   */
  lemma StripSpec(s: string)
    ensures var r := Strip(s); r == [] || (!IsSpace(r[0]) && !IsSpace(r[|r| - 1]))
    ensures exists i, j :: 0 <= i <= j <= |s| && Strip(s) == s[i..j] && AllSpace(s[..i]) && AllSpace(s[j..])
  {
    var t := TrimStart(s);
    var r := TrimEnd(t);
    TrimStartSpec(s);
    TrimEndSpec(t);
    var i := |s| - |t|;
    assert r == s[i..i + |r|] by {
      assert t == s[i..];
      assert r == t[..|r|];
      assert s[i..][..|r|] == s[i..i + |r|];
    }
    assert s[i + |r|..] == t[|r|..];
    if r != [] {
      assert r[0] == t[0];
    }
  }

  // ---------------------------------------------------------------- split

  /** Index of the first `c` in `s`, or `|s|` when there is none. */
  function IndexOf(s: string, c: char): (k: nat)
    ensures k <= |s|
    ensures c !in s[..k]
    ensures k < |s| <==> c in s
    ensures k < |s| ==> s[k] == c
  {
    if s == [] then 0
    else if s[0] == c then 0
    else
      var k := 1 + IndexOf(s[1..], c);
      assert s[..k] == [s[0]] + s[1..][..k - 1];
      k
  }

  /** The pieces joined back with `sep` between them: the inverse of `Split`. */
  function Join(pieces: seq<string>, sep: char): string
    requires |pieces| >= 1
  {
    if |pieces| == 1 then pieces[0] else pieces[0] + [sep] + Join(pieces[1..], sep)
  }

  /**
   * `s.split(sep)`: the maximal pieces of `s` that hold no `sep`, in order,
   * read one character at a time: a `sep` starts a new piece, any other
   * character joins the current one.
   */
  function Split(s: string, sep: char): (r: seq<string>)
    ensures |r| >= 1
  {
    if s == [] then [[]]
    else
      var rest := Split(s[1..], sep);
      if s[0] == sep then [[]] + rest else [[s[0]] + rest[0]] + rest[1..]
  }

  lemma JoinCons(head: string, rest: seq<string>, sep: char)
    requires |rest| >= 1
    ensures Join([head] + rest, sep) == head + [sep] + Join(rest, sep)
  {
    assert ([head] + rest)[1..] == rest;
  }

  /** Putting a character in front of the first piece puts it in front of the join. */
  lemma JoinFront(c: char, pieces: seq<string>, sep: char)
    requires |pieces| >= 1
    ensures Join([[c] + pieces[0]] + pieces[1..], sep) == [c] + Join(pieces, sep)
  {
    var q := [[c] + pieces[0]] + pieces[1..];
    if |pieces| > 1 {
      assert q[1..] == pieces[1..];
    }
  }

  lemma {:induction false} SplitNoSep(s: string, sep: char)
    ensures forall k :: 0 <= k < |Split(s, sep)| ==> sep !in Split(s, sep)[k]
  {
    if s != [] {
      SplitNoSep(s[1..], sep);
      var rest := Split(s[1..], sep);
      var r := Split(s, sep);
      forall k | 0 <= k < |r|
        ensures sep !in r[k]
      {
        if s[0] == sep {
          if k > 0 {
            assert r[k] == rest[k - 1];
          }
        } else if k > 0 {
          assert r[k] == rest[k];
        } else {
          assert r[0] == [s[0]] + rest[0];
        }
      }
    }
  }

  lemma {:induction false} SplitJoin(s: string, sep: char)
    ensures Join(Split(s, sep), sep) == s
  {
    if s != [] {
      SplitJoin(s[1..], sep);
      var rest := Split(s[1..], sep);
      if s[0] == sep {
        JoinCons([], rest, sep);
        assert [] + [sep] + s[1..] == s;
      } else {
        JoinFront(s[0], rest, sep);
        assert [s[0]] + s[1..] == s;
      }
    }
  }

  /** No piece holds `sep`, and joining the pieces with `sep` gives `s` back. */
  lemma SplitSpec(s: string, sep: char)
    ensures forall k :: 0 <= k < |Split(s, sep)| ==> sep !in Split(s, sep)[k]
    ensures Join(Split(s, sep), sep) == s
  {
    SplitNoSep(s, sep);
    SplitJoin(s, sep);
  }

  /** `s.split(sep, 1)[0]` when `sep` occurs, `s` otherwise: everything before the first `sep`. */
  function Before(s: string, sep: char): (r: string)
    ensures sep !in r
    ensures |r| <= |s| && r == s[..|r|]
    ensures |r| < |s| <==> sep in s
    ensures |r| < |s| ==> s[|r|] == sep
  {
    s[..IndexOf(s, sep)]
  }

  /** The length of the run of non-whitespace characters at the head of `s`. */
  function WordLength(s: string): (n: nat)
    ensures n <= |s| && NoSpace(s[..n])
    ensures n < |s| ==> IsSpace(s[n])
  {
    if s == [] || IsSpace(s[0]) then 0
    else
      var n := 1 + WordLength(s[1..]);
      assert s[..n] == [s[0]] + s[1..][..n - 1];
      n
  }

  /** The characters of `s` that are not whitespace, in order. */
  function Unspaced(s: string): string {
    if s == [] then [] else (if IsSpace(s[0]) then [] else [s[0]]) + Unspaced(s[1..])
  }

  function Concat(words: seq<string>): string {
    if words == [] then [] else words[0] + Concat(words[1..])
  }

  /** The words separated by single spaces. */
  function JoinWords(words: seq<string>): string {
    if words == [] then []
    else if |words| == 1 then words[0]
    else words[0] + " " + JoinWords(words[1..])
  }

  predicate IsWord(w: string) {
    w != [] && NoSpace(w)
  }

  lemma {:induction false} UnspacedAppend(a: string, b: string)
    ensures Unspaced(a + b) == Unspaced(a) + Unspaced(b)
  {
    if a != [] {
      assert (a + b)[1..] == a[1..] + b;
      UnspacedAppend(a[1..], b);
    } else {
      assert a + b == b;
    }
  }

  lemma {:induction false} UnspacedWord(w: string)
    requires NoSpace(w)
    ensures Unspaced(w) == w
  {
    if w != [] {
      UnspacedWord(w[1..]);
    }
  }

  /** `s.split()`: the non-empty whitespace-free words of `s`, in order. */
  function SplitWords(s: string): seq<string>
    decreases |s|
  {
    if s == [] then []
    else if IsSpace(s[0]) then SplitWords(s[1..])
    else
      var n := WordLength(s);
      [s[..n]] + SplitWords(s[n..])
  }

  /** The words are non-empty, hold no whitespace, and together are the non-whitespace of `s`. */
  lemma {:induction false} SplitWordsSpec(s: string)
    ensures forall k :: 0 <= k < |SplitWords(s)| ==> IsWord(SplitWords(s)[k])
    ensures Concat(SplitWords(s)) == Unspaced(s)
    decreases |s|
  {
    if s == [] {
    } else if IsSpace(s[0]) {
      SplitWordsSpec(s[1..]);
    } else {
      var n := WordLength(s);
      SplitWordsSpec(s[n..]);
      var r := SplitWords(s);
      assert r[1..] == SplitWords(s[n..]);
      assert s == s[..n] + s[n..];
      UnspacedAppend(s[..n], s[n..]);
      UnspacedWord(s[..n]);
    }
  }

  /**
   * `s` with the whitespace at either end removed and every inner run of
   * whitespace replaced by one space, read one character at a time:
   * `started` says a non-whitespace character has been kept, `gap` that
   * whitespace has been seen since.
   */
  function SqueezeFrom(s: string, started: bool, gap: bool): string {
    if s == [] then []
    else if IsSpace(s[0]) then SqueezeFrom(s[1..], started, started)
    else (if gap then " " else []) + [s[0]] + SqueezeFrom(s[1..], true, false)
  }

  function Squeeze(s: string): string {
    SqueezeFrom(s, false, false)
  }

  lemma {:induction false} SqueezeWord(w: string, rest: string, started: bool, gap: bool)
    requires IsWord(w)
    ensures SqueezeFrom(w + rest, started, gap) == (if gap then " " else []) + w + SqueezeFrom(rest, true, false)
  {
    var s := w + rest;
    assert s[0] == w[0] && s[1..] == w[1..] + rest;
    if |w| == 1 {
      assert w[1..] + rest == rest;
    } else {
      SqueezeWord(w[1..], rest, true, false);
      assert w == [w[0]] + w[1..];
    }
  }

  /** The space the squeeze owes before the words of `s`, in state `started`/`gap`. */
  function Lead(s: string, started: bool, gap: bool): string {
    if s != [] && SplitWords(s) != [] && (gap || (started && IsSpace(s[0]))) then " " else []
  }

  lemma {:induction false} SqueezeSplit(s: string, started: bool, gap: bool)
    requires gap ==> started
    ensures SqueezeFrom(s, started, gap) == Lead(s, started, gap) + JoinWords(SplitWords(s))
    decreases |s|
  {
    if s == [] {
    } else if IsSpace(s[0]) {
      SqueezeSplit(s[1..], started, started);
    } else {
      var n := WordLength(s);
      SqueezeSplit(s[n..], true, false);
      assert s == s[..n] + s[n..];
      SqueezeSplitWord(s[..n], s[n..], started, gap);
    }
  }

  /** `split()` of a word followed by whitespace or nothing starts with that word. */
  lemma SplitWordsWord(w: string, rest: string)
    requires IsWord(w)
    requires rest == [] || IsSpace(rest[0])
    ensures SplitWords(w + rest) == [w] + SplitWords(rest)
  {
    var s := w + rest;
    WordLengthOfWord(w, rest);
    assert s[..|w|] == w && s[|w|..] == rest;
  }

  lemma JoinWordsCons(w: string, ws: seq<string>)
    ensures JoinWords([w] + ws) == if ws == [] then w else w + " " + JoinWords(ws)
  {
    assert ([w] + ws)[1..] == ws;
  }

  /** Before a word, the squeeze owes a space exactly when it has seen a gap. */
  lemma LeadWord(w: string, rest: string, started: bool, gap: bool)
    requires IsWord(w)
    requires rest == [] || IsSpace(rest[0])
    ensures Lead(w + rest, started, gap) == if gap then " " else []
  {
    SplitWordsWord(w, rest);
    assert (w + rest)[0] == w[0];
  }

  /** After a word, the squeeze owes a space exactly when another word follows. */
  lemma LeadAfterWord(rest: string)
    requires rest == [] || IsSpace(rest[0])
    ensures Lead(rest, true, false) == if SplitWords(rest) == [] then [] else " "
  {
  }

  /** The step of `SqueezeSplit` over one word, given the squeeze of what follows it. */
  lemma SqueezeSplitWord(w: string, rest: string, started: bool, gap: bool)
    requires IsWord(w)
    requires rest == [] || IsSpace(rest[0])
    requires SqueezeFrom(rest, true, false) == Lead(rest, true, false) + JoinWords(SplitWords(rest))
    ensures SqueezeFrom(w + rest, started, gap) == Lead(w + rest, started, gap) + JoinWords(SplitWords(w + rest))
  {
    var ws := SplitWords(rest);
    var lead: string := if gap then " " else [];
    SqueezeWord(w, rest, started, gap);
    SplitWordsWord(w, rest);
    JoinWordsCons(w, ws);
    LeadWord(w, rest, started, gap);
    LeadAfterWord(rest);
    SqueezeConcat(lead, w, SqueezeFrom(rest, true, false), Lead(rest, true, false), JoinWords(ws),
                  JoinWords(SplitWords(w + rest)), ws == []);
  }

  /** The string algebra of `SqueezeSplitWord`, over plain strings. */
  lemma SqueezeConcat(lead: string, w: string, squeezed: string, leadRest: string, joinRest: string,
                      joined: string, last: bool)
    requires squeezed == leadRest + joinRest
    requires last ==> leadRest == [] && joinRest == [] && joined == w
    requires !last ==> leadRest == " " && joined == w + " " + joinRest
    ensures lead + w + squeezed == lead + joined
  {
    if last {
      assert squeezed == [];
      assert lead + w + [] == lead + w;
    } else {
      assert lead + w + (" " + joinRest) == lead + (w + " " + joinRest);
    }
  }

  /**
   * The words joined by single spaces are `s` squeezed: every word boundary
   * of `split()` is a run of whitespace, and every such run inside `s` is one.
   */
  lemma SplitWordsSqueeze(s: string)
    ensures JoinWords(SplitWords(s)) == Squeeze(s)
  {
    SqueezeSplit(s, false, false);
  }

  /** `split()` is the only list of words that joins by single spaces into `s` squeezed. */
  lemma SplitWordsDetermined(s: string, words: seq<string>)
    requires forall k :: 0 <= k < |words| ==> IsWord(words[k])
    requires JoinWords(words) == Squeeze(s)
    ensures words == SplitWords(s)
  {
    SplitWordsSpec(s);
    SplitWordsSqueeze(s);
    SplitJoinWords(words);
    SplitJoinWords(SplitWords(s));
  }

  lemma {:induction false} WordLengthOfWord(w: string, rest: string)
    requires NoSpace(w)
    requires rest == [] || IsSpace(rest[0])
    ensures WordLength(w + rest) == |w|
  {
    if w == [] {
      assert w + rest == rest;
    } else {
      assert (w + rest)[1..] == w[1..] + rest;
      WordLengthOfWord(w[1..], rest);
    }
  }

  /** Splitting words joined by single spaces gives the words back. */
  lemma {:induction false} SplitJoinWords(words: seq<string>)
    requires forall k :: 0 <= k < |words| ==> IsWord(words[k])
    ensures SplitWords(JoinWords(words)) == words
  {
    if words == [] {
    } else if |words| == 1 {
      WordLengthOfWord(words[0], []);
      assert words[0] + [] == words[0];
      assert words[0][|words[0]|..] == [];
    } else {
      var w := words[0];
      var tail := " " + JoinWords(words[1..]);
      var s := JoinWords(words);
      assert s == w + tail;
      WordLengthOfWord(w, tail);
      assert s[..|w|] == w;
      assert s[|w|..] == tail;
      assert tail[1..] == JoinWords(words[1..]);
      SplitJoinWords(words[1..]);
    }
  }

  // ---------------------------------------------------------------- hex

  predicate IsHexDigit(c: char) {
    ('0' <= c <= '9') || ('a' <= c <= 'f') || ('A' <= c <= 'F')
  }

  predicate IsHex(s: string) {
    forall i :: 0 <= i < |s| ==> IsHexDigit(s[i])
  }

  function DigitValue(c: char): (v: nat)
    requires IsHexDigit(c)
    ensures v < 16
  {
    if '0' <= c <= '9' then (c - '0') as nat
    else if 'a' <= c <= 'f' then (c - 'a') as nat + 10
    else (c - 'A') as nat + 10
  }

  /** `int(s, 16)` for a string of hex digits (the empty string reads as 0). */
  function HexValue(s: string): (v: nat)
    requires IsHex(s)
  {
    if s == [] then 0 else 16 * HexValue(s[..|s| - 1]) + DigitValue(s[|s| - 1])
  }

  /** Upper-case digit for a value below 16. */
  function UpperDigit(d: nat): (c: char)
    requires d < 16
    ensures IsHexDigit(c) && DigitValue(c) == d
    ensures !('a' <= c <= 'f')
  {
    if d < 10 then ('0' as int + d) as char else ('A' as int + d - 10) as char
  }

  /** `'{:X}'.format(n)`: upper-case hex without leading zeros. */
  function HexUpper(n: nat): (s: string)
    ensures s != [] && IsHex(s)
    ensures |s| > 1 ==> s[0] != '0'
    ensures forall i :: 0 <= i < |s| ==> !('a' <= s[i] <= 'f')
  {
    if n < 16 then [UpperDigit(n)] else HexUpper(n / 16) + [UpperDigit(n % 16)]
  }

  /** Reading back a formatted number gives the number. */
  lemma {:induction false} HexUpperValue(n: nat)
    ensures HexValue(HexUpper(n)) == n
  {
    var s := HexUpper(n);
    if n < 16 {
      assert s[..0] == [];
    } else {
      assert s[..|s| - 1] == HexUpper(n / 16);
      HexUpperValue(n / 16);
    }
  }

  /** The length of the run of hex digits at the head of `s`. */
  function HexRunLength(s: string): (n: nat)
    ensures n <= |s| && IsHex(s[..n])
    ensures n < |s| ==> !IsHexDigit(s[n])
  {
    if s == [] || !IsHexDigit(s[0]) then 0
    else
      var n := 1 + HexRunLength(s[1..]);
      assert s[..n] == [s[0]] + s[1..][..n - 1];
      n
  }

  lemma {:induction false} HexRunOfHex(h: string, rest: string)
    requires IsHex(h)
    requires rest == [] || !IsHexDigit(rest[0])
    ensures HexRunLength(h + rest) == |h|
  {
    if h == [] {
      assert h + rest == rest;
    } else {
      assert (h + rest)[1..] == h[1..] + rest;
      HexRunOfHex(h[1..], rest);
    }
  }
}
