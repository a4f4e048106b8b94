/** Byte lengths of UTF-8 text and the line functions of Rust's `str` that the codec relies on. */
module Strings {
  import opened Prelude

  /** The number of bytes of one character in UTF-8. */
  function Width(c: char): (w: nat)
    ensures 1 <= w <= 4
  {
    var code := c as int;
    if code < 0x80 then 1 else if code < 0x800 then 2 else if code < 0x10000 then 3 else 4
  }

  /** One more than the greatest code that UTF-8 writes in this many bytes. */
  function Capacity(bytes: nat): nat {
    match bytes
    case 0 => 0
    case 1 => 0x80
    case 2 => 0x800
    case 3 => 0x1_0000
    case _ => 0x20_0000
  }

  /** A character is written in the fewest bytes that can hold its code. */
  lemma WidthExactly(c: char, bytes: nat)
    requires 1 <= bytes <= 4
    ensures Width(c) == bytes <==> Capacity(bytes - 1) <= c as int < Capacity(bytes)
  {
  }

  function ByteLen(s: string): (n: nat)
    ensures |s| <= n
  {
    if s == "" then 0 else Width(s[0]) + ByteLen(s[1..])
  }

  lemma {:induction false} ByteLenAppend(a: string, b: string)
    ensures ByteLen(a + b) == ByteLen(a) + ByteLen(b)
  {
    if a == "" {
      assert a + b == b;
    } else {
      assert (a + b)[1..] == a[1..] + b;
      ByteLenAppend(a[1..], b);
    }
  }

  function IndexOf(s: string, c: char): (r: Option<nat>)
    ensures r.Some? ==> r.value < |s| && s[r.value] == c && forall j | 0 <= j < r.value :: s[j] != c
    ensures r.None? ==> forall j | 0 <= j < |s| :: s[j] != c
  {
    if s == "" then None
    else if s[0] == c then Some(0)
    else
      match IndexOf(s[1..], c)
      case None =>
        assert forall j | 0 < j < |s| :: s[j] == s[1..][j - 1];
        None
      case Some(i) =>
        assert forall j | 0 < j <= i + 1 :: s[j] == s[1..][j - 1];
        Some(i + 1)
  }

  predicate EndsWith(s: string, c: char) {
    s != "" && s[|s| - 1] == c
  }

  function StripCr(line: string): string {
    if EndsWith(line, '\r') then line[..|line| - 1] else line
  }

  /** The lines of a text: split after each LF, the LF and one CR before it dropped; no line after a final LF. */
  function Lines(s: string): seq<string> {
    if s == "" then []
    else
      match IndexOf(s, '\n')
      case None => [s]
      case Some(i) => [StripCr(s[..i])] + Lines(s[i + 1..])
  }

  function Join(parts: seq<string>, sep: string): string {
    if parts == [] then ""
    else if |parts| == 1 then parts[0]
    else parts[0] + sep + Join(parts[1..], sep)
  }

  /** Every CR LF pair replaced by LF. */
  function CrlfToLf(s: string): string {
    if s == "" then ""
    else if |s| >= 2 && s[0] == '\r' && s[1] == '\n' then "\n" + CrlfToLf(s[2..])
    else [s[0]] + CrlfToLf(s[1..])
  }

  predicate HasCrlf(s: string) {
    exists i | 0 <= i < |s| - 1 :: s[i] == '\r' && s[i + 1] == '\n'
  }

  lemma StripCrTail(line: string)
    requires line != "" && line != "\r"
    ensures StripCr(line) == [line[0]] + StripCr(line[1..])
  {
    var tail := line[1..];
    assert line == [line[0]] + tail;
    if tail != "" { assert line[|line| - 1] == tail[|tail| - 1]; }
  }

  lemma {:induction false} CrlfToLfLine(line: string, rest: string)
    requires '\n' !in line
    ensures CrlfToLf(line + "\n" + rest) == StripCr(line) + "\n" + CrlfToLf(rest)
  {
    var s := line + "\n" + rest;
    if line == "" {
      assert s == "\n" + rest && s[1..] == rest;
    } else if line == "\r" {
      assert s == "\r\n" + rest && s[2..] == rest;
      assert StripCr(line) == "";
    } else {
      var tail := line[1..];
      assert s[1..] == tail + "\n" + rest;
      assert !(s[0] == '\r' && s[1] == '\n') by { if |line| > 1 { assert s[1] == line[1] && line[1] in line; } }
      assert CrlfToLf(s) == [line[0]] + CrlfToLf(s[1..]);
      CrlfToLfLine(tail, rest);
      StripCrTail(line);
    }
  }

  lemma {:induction false} CrlfToLfFixes(s: string)
    ensures |CrlfToLf(s)| <= |s|
    ensures CrlfToLf(s) == s <==> !HasCrlf(s)
    ensures |CrlfToLf(s)| == |s| <==> CrlfToLf(s) == s
  {
    if s != "" {
      if |s| >= 2 && s[0] == '\r' && s[1] == '\n' {
        CrlfToLfFixes(s[2..]);
        assert HasCrlf(s);
      } else {
        CrlfToLfFixes(s[1..]);
        assert s == [s[0]] + s[1..];
        if HasCrlf(s) {
          var i :| 0 <= i < |s| - 1 && s[i] == '\r' && s[i + 1] == '\n';
          assert s[1..][i - 1] == '\r' && s[1..][i] == '\n';
        }
        if HasCrlf(s[1..]) {
          var i :| 0 <= i < |s[1..]| - 1 && s[1..][i] == '\r' && s[1..][i + 1] == '\n';
          assert s[i + 1] == '\r' && s[i + 1 + 1] == '\n';
        }
      }
    }
  }

  function Final(s: string): string {
    if EndsWith(s, '\n') then "\n" else ""
  }

  lemma JoinCons(x: string, more: seq<string>)
    ensures Join([x] + more, "\n") == if more == [] then x else x + "\n" + Join(more, "\n")
  {
    assert ([x] + more)[1..] == more;
  }

  lemma CrlfNonEmpty(s: string)
    ensures CrlfToLf(s) == "" <==> s == ""
  {
  }

  lemma FinalCons(c: char, rest: string)
    ensures Final([c] + rest) == if rest == "" then Final([c]) else Final(rest)
  {
    assert rest != "" ==> ([c] + rest)[|rest|] == rest[|rest| - 1];
  }

  lemma {:induction false} CrlfToLfEnd(s: string)
    ensures Final(CrlfToLf(s)) == Final(s)
  {
    if s != "" {
      var pair := |s| >= 2 && s[0] == '\r' && s[1] == '\n';
      var c, rest := if pair then '\n' else s[0], if pair then s[2..] else s[1..];
      assert CrlfToLf(s) == [c] + CrlfToLf(rest);
      assert Final(s) == Final([c] + rest) by { assert s[1..] == if pair then "\n" + rest else rest; }
      CrlfToLfEnd(rest);
      CrlfNonEmpty(rest);
      FinalCons(c, rest);
      FinalCons(c, CrlfToLf(rest));
    }
  }

  /** One line put in front of a text whose lines join back. */
  lemma LinesJoinCons(line: string, rest: string)
    requires '\n' !in line
    requires Join(Lines(rest), "\n") + Final(rest) == CrlfToLf(rest)
    ensures Join([StripCr(line)] + Lines(rest), "\n") + Final(line + "\n" + rest) == CrlfToLf(line + "\n" + rest)
  {
    var head := StripCr(line);
    CrlfToLfLine(line, rest);
    JoinCons(head, Lines(rest));
    LinesNone(rest);
    FinalAfter(line, rest);
    AppendAssociates(head + "\n", Join(Lines(rest), "\n"), Final(rest));
  }

  lemma FinalAfter(line: string, rest: string)
    ensures Final(line + "\n" + rest) == if rest == "" then "\n" else Final(rest)
  {
    var s := line + "\n" + rest;
    assert rest != "" ==> s[|s| - 1] == rest[|rest| - 1];
  }

  lemma AppendAssociates(a: string, b: string, c: string)
    ensures a + b + c == a + (b + c)
  {
  }

  lemma LinesNone(s: string)
    ensures Lines(s) == [] <==> s == ""
  {
  }

  /** The lines joined by LF, with the final LF the text ends in, are the text with its CR LF pairs replaced. */
  lemma {:induction false} LinesJoin(s: string)
    ensures Join(Lines(s), "\n") + Final(s) == CrlfToLf(s)
  {
    if s != "" {
      match IndexOf(s, '\n')
      case None =>
        CrlfToLfFixes(s);
        assert !HasCrlf(s);
      case Some(i) =>
        var line, rest := s[..i], s[i + 1..];
        assert s == line + "\n" + rest;
        LinesJoin(rest);
        LinesJoinCons(line, rest);
    }
  }
}
