/**
 * Escaping of a mapping string for a single-quoted Python literal: the chain
 * `s.replace("\\", "\\\\").replace("'", "\\'")`, and the reading of such a
 * literal's body that undoes it.
 */
module Literals {
  import opened Common

  /** `s.replace(c, with)` for a one-character pattern. */
  function ReplaceAll(s: string, c: char, with: string): string {
    if s == [] then [] else (if s[0] == c then with else [s[0]]) + ReplaceAll(s[1..], c, with)
  }

  /** Backslashes doubled first, then every quote given a backslash. */
  function Escape(s: string): string {
    ReplaceAll(ReplaceAll(s, '\\', "\\\\"), '\'', "\\'")
  }

  /** The escape table, one character at a time. */
  function EscapeChar(c: char): string {
    if c == '\\' then "\\\\" else if c == '\'' then "\\'" else [c]
  }

  function EscapeEach(s: string): string {
    if s == [] then [] else EscapeChar(s[0]) + EscapeEach(s[1..])
  }

  /**
   * The quote and backslash rules of a single-quoted literal's body, read back:
   * `\\` and `\'` stand for one character each; a bare quote (the end of the
   * literal) or any other backslash pair makes the body ill-formed.  Every
   * other character stands for itself, including line feed, carriage return
   * and NUL, which a Python literal would not accept raw.
   */
  function Unescape(t: string): Option<string> {
    if t == [] then Some([])
    else if t[0] == '\'' then None
    else if t[0] == '\\' then
      if |t| >= 2 && (t[1] == '\\' || t[1] == '\'') then
        match Unescape(t[2..])
        case Some(rest) => Some([t[1]] + rest)
        case None => None
      else None
    else
      match Unescape(t[1..])
      case Some(rest) => Some([t[0]] + rest)
      case None => None
  }

  lemma {:induction false} ReplaceAllAppend(a: string, b: string, c: char, with: string)
    ensures ReplaceAll(a + b, c, with) == ReplaceAll(a, c, with) + ReplaceAll(b, c, with)
  {
    if a == [] {
      assert a + b == b;
    } else {
      assert (a + b)[1..] == a[1..] + b;
      ReplaceAllAppend(a[1..], b, c, with);
    }
  }

  /** The replace chain escapes each character on its own, by the table `EscapeChar`. */
  lemma {:induction false} EscapeIsCharwise(s: string)
    ensures Escape(s) == EscapeEach(s)
  {
    if s != [] {
      var head := if s[0] == '\\' then "\\\\" else [s[0]];
      var inner := ReplaceAll(s[1..], '\\', "\\\\");
      assert ReplaceAll(s, '\\', "\\\\") == head + inner;
      ReplaceAllAppend(head, inner, '\'', "\\'");
      assert ReplaceAll(head, '\'', "\\'") == EscapeChar(s[0]) by {
        if s[0] == '\\' {
          assert ReplaceAll(head[1..], '\'', "\\'") == "\\";
        }
      }
      EscapeIsCharwise(s[1..]);
    }
  }

  lemma UnescapeEscapedChar(c: char, rest: string)
    ensures Unescape(EscapeChar(c) + rest) ==
      match Unescape(rest) case Some(u) => Some([c] + u) case None => None
  {
    var t := EscapeChar(c) + rest;
    if c == '\\' || c == '\'' {
      assert t[2..] == rest;
    } else {
      assert t[1..] == rest;
    }
  }

  /** Reading an escaped string as a literal body gives the string back. */
  lemma {:induction false} UnescapeEscape(s: string)
    ensures Unescape(Escape(s)) == Some(s)
  {
    EscapeIsCharwise(s);
    UnescapeEach(s);
  }

  /** The reading is one to one: a body that reads as `s` is exactly the escape of `s`. */
  lemma {:induction false} UnescapeInjective(t: string, s: string)
    requires Unescape(t) == Some(s)
    ensures t == EscapeEach(s)
  {
    if t != [] {
      if t[0] == '\\' {
        var rest := Unescape(t[2..]).value;
        UnescapeInjective(t[2..], rest);
        assert s == [t[1]] + rest;
        assert s[1..] == rest;
        assert t == [t[0], t[1]] + t[2..];
      } else {
        var rest := Unescape(t[1..]).value;
        UnescapeInjective(t[1..], rest);
        assert s == [t[0]] + rest;
        assert s[1..] == rest;
        assert t == [t[0]] + t[1..];
      }
    }
  }

  lemma {:induction false} UnescapeEach(s: string)
    ensures Unescape(EscapeEach(s)) == Some(s)
  {
    if s != [] {
      UnescapeEach(s[1..]);
      UnescapeEscapedChar(s[0], EscapeEach(s[1..]));
      assert s == [s[0]] + s[1..];
    }
  }

  /** No quote in an escaped string is without a backslash in front of it. */
  lemma {:induction false} EscapedQuotes(s: string)
    ensures forall i :: 0 <= i < |Escape(s)| && Escape(s)[i] == '\'' ==> i > 0 && Escape(s)[i - 1] == '\\'
  {
    EscapeIsCharwise(s);
    EachQuotes(s);
  }

  lemma {:induction false} EachQuotes(s: string)
    ensures forall i :: 0 <= i < |EscapeEach(s)| && EscapeEach(s)[i] == '\'' ==> i > 0 && EscapeEach(s)[i - 1] == '\\'
  {
    if s != [] {
      EachQuotes(s[1..]);
      var h := EscapeChar(s[0]);
      var t := EscapeEach(s[1..]);
      assert EscapeEach(s) == h + t;
      forall i | 0 <= i < |h + t| && (h + t)[i] == '\''
        ensures i > 0 && (h + t)[i - 1] == '\\'
      {
        if i >= |h| {
          assert (h + t)[i] == t[i - |h|];
          if i == |h| {
            assert false;
          }
        }
      }
    }
  }
}
