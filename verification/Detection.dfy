/** src/layer/detection.rs: the scan for line endings and the text-or-binary decision, on valid UTF-8 text. */
module Detection {
  import opened Prelude
  import opened Strings

  datatype LineEnding = Lf | CrLf | Cr | Mixed | NoEnding

  datatype Encoding = Ascii | Utf8

  datatype FileType = Text(encoding: Encoding, lineEnding: LineEnding, lineCount: nat) | Binary

  datatype Config = Config(maxTextFileSize: nat, maxLineLength: nat, maxNonPrintableRatio: real)

  /** The name a line ending is stored under. */
  function StoredName(e: LineEnding): string {
    match e
    case Lf => "LF"
    case CrLf => "CRLF"
    case Cr => "CR"
    case Mixed => "LF"
    case NoEnding => "LF"
  }

  /** The stored names are the three the column takes, and lone CRs and pairs keep theirs. */
  lemma StoredNames(e: LineEnding)
    ensures StoredName(e) in ["LF", "CRLF", "CR"]
    ensures (StoredName(e) == "CRLF" <==> e == CrLf) && (StoredName(e) == "CR" <==> e == Cr)
  {
    assert "LF"[0] == 'L' && |"CRLF"| == 4 && |"CR"| == 2;
  }

  // ---------- what an ending is, by position ----------

  datatype Kind = LoneLf | Pair | LoneCr

  predicate Ends(s: string, kind: Kind, i: nat)
    requires i < |s|
  {
    match kind
    case LoneLf => s[i] == '\n' && !(i > 0 && s[i - 1] == '\r')
    case Pair => s[i] == '\r' && i + 1 < |s| && s[i + 1] == '\n'
    case LoneCr => s[i] == '\r' && !(i + 1 < |s| && s[i + 1] == '\n')
  }

  /** How many of the first `n` positions begin an ending of this kind. */
  function Count(s: string, kind: Kind, n: nat): nat
    requires n <= |s|
  {
    if n == 0 then 0 else Count(s, kind, n - 1) + if Ends(s, kind, n - 1) then 1 else 0
  }

  function Endings(s: string, n: nat): nat
    requires n <= |s|
  {
    Count(s, LoneLf, n) + Count(s, Pair, n) + Count(s, LoneCr, n)
  }

  /** Position `i` is between the two characters of a CR LF pair. */
  predicate Inside(s: string, i: nat) {
    0 < i < |s| && s[i - 1] == '\r' && s[i] == '\n'
  }

  function Max(a: nat, b: nat): nat { if a < b then b else a }

  /** The text cut at every ending. */
  function Segments(s: string): (segs: seq<string>)
    ensures segs != []
  {
    if s == "" then [""]
    else if |s| >= 2 && s[0] == '\r' && s[1] == '\n' then [""] + Segments(s[2..])
    else if s[0] == '\r' || s[0] == '\n' then [""] + Segments(s[1..])
    else
      var rest := Segments(s[1..]);
      [[s[0]] + rest[0]] + rest[1..]
  }

  function Longest(segs: seq<string>): nat {
    if segs == [] then 0 else Max(ByteLen(segs[0]), Longest(segs[1..]))
  }

  function Bytes(segs: seq<string>): nat {
    if segs == [] then 0 else ByteLen(segs[0]) + Bytes(segs[1..])
  }

  /** The longest segment when `open` bytes already precede the first one. */
  function LongestAfter(open: nat, segs: seq<string>): nat
    requires segs != []
  {
    Max(open + ByteLen(segs[0]), Longest(segs[1..]))
  }

  /** The kind of ending a text has, by the endings it contains. */
  function Style(s: string): LineEnding {
    var lf, pair, cr := Count(s, LoneLf, |s|) > 0, Count(s, Pair, |s|) > 0, Count(s, LoneCr, |s|) > 0;
    if !lf && !pair && !cr then NoEnding
    else if !lf && !cr then CrLf
    else if !pair && !cr then Lf
    else if !lf && !pair then Cr
    else Mixed
  }

  lemma SegmentsStep(s: string, i: nat)
    requires i < |s|
    ensures var here, next := Segments(s[i..]), Segments(s[i + 1..]);
            && (Ends(s, Pair, i) ==> here == [""] + Segments(s[i + 2..]))
            && (Ends(s, LoneCr, i) || s[i] == '\n' ==> here == [""] + next)
            && (s[i] != '\r' && s[i] != '\n' ==> here == [[s[i]] + next[0]] + next[1..])
  {
    assert s[i..][1..] == s[i + 1..];
    if i + 1 < |s| { assert s[i..][1] == s[i + 1]; }
    if Ends(s, Pair, i) {
      assert s[i..][2..] == s[i + 2..];
    }
  }

  /**
   From any position that is not inside a pair: there is one segment more than there are
   endings, and segment bytes plus ending bytes make up the rest of the text.
   */
  lemma {:induction false} SegmentsFrom(s: string, i: nat)
    requires i <= |s| && !Inside(s, i)
    ensures |Segments(s[i..])| == 1 + Endings(s, |s|) - Endings(s, i)
    ensures Bytes(Segments(s[i..])) + Endings(s, |s|) - Endings(s, i)
            + Count(s, Pair, |s|) - Count(s, Pair, i) == ByteLen(s[i..])
    decreases |s| - i
  {
    if i < |s| {
      SegmentsStep(s, i);
      ByteLenAt(s, i);
      var next := Segments(s[i + 1..]);
      if Ends(s, Pair, i) {
        SegmentsFrom(s, i + 2);
        ByteLenAt(s, i + 1);
        PairStep(s, i);
        assert ([""] + Segments(s[i + 2..]))[1..] == Segments(s[i + 2..]);
      } else {
        SegmentsFrom(s, i + 1);
        assert ([""] + next)[1..] == next;
        if s[i] != '\r' && s[i] != '\n' {
          assert ([[s[i]] + next[0]] + next[1..])[1..] == next[1..];
          assert ([s[i]] + next[0])[1..] == next[0];
        }
      }
    }
  }

  lemma PairStep(s: string, i: nat)
    requires i < |s| && Ends(s, Pair, i)
    ensures Count(s, LoneLf, i + 2) == Count(s, LoneLf, i)
    ensures Count(s, Pair, i + 2) == Count(s, Pair, i) + 1
    ensures Count(s, LoneCr, i + 2) == Count(s, LoneCr, i)
  {
    assert Count(s, LoneLf, i + 1) == Count(s, LoneLf, i) && Count(s, LoneCr, i + 1) == Count(s, LoneCr, i);
    assert Count(s, Pair, i + 1) == Count(s, Pair, i) + 1;
  }

  lemma ByteLenAt(s: string, i: nat)
    requires i < |s|
    ensures ByteLen(s[i..]) == Width(s[i]) + ByteLen(s[i + 1..])
  {
    assert s[i..][1..] == s[i + 1..];
  }

  lemma LongestStep(s: string, i: nat, open: nat)
    requires i < |s|
    ensures Ends(s, Pair, i) ==>
              LongestAfter(open, Segments(s[i..])) == Max(open, LongestAfter(0, Segments(s[i + 2..])))
    ensures Ends(s, LoneCr, i) || s[i] == '\n' ==>
              LongestAfter(open, Segments(s[i..])) == Max(open, LongestAfter(0, Segments(s[i + 1..])))
    ensures s[i] != '\r' && s[i] != '\n' ==>
              LongestAfter(open, Segments(s[i..])) == LongestAfter(open + Width(s[i]), Segments(s[i + 1..]))
  {
    SegmentsStep(s, i);
    var next := Segments(s[i + 1..]);
    if Ends(s, Pair, i) {
      assert ([""] + Segments(s[i + 2..]))[1..] == Segments(s[i + 2..]);
    } else if s[i] == '\r' || s[i] == '\n' {
      assert ([""] + next)[1..] == next;
    } else {
      assert ([[s[i]] + next[0]] + next[1..])[1..] == next[1..];
      assert ([s[i]] + next[0])[1..] == next[0];
    }
  }

  // ---------- the stored line total ----------

  function Newlines(s: string, n: nat): nat
    requires n <= |s|
  {
    if n == 0 then 0 else Newlines(s, n - 1) + if s[n - 1] == '\n' then 1 else 0
  }

  lemma {:induction false} NewlinesAreEndings(s: string, n: nat)
    requires n <= |s|
    ensures Newlines(s, n) == Count(s, LoneLf, n) + Count(s, Pair, n) - (if Inside(s, n) then 1 else 0)
  {
    if n > 0 { NewlinesAreEndings(s, n - 1); }
  }

  lemma {:induction false} NewlinesSuffix(s: string, i: nat, n: nat)
    requires i <= |s| && n <= |s| - i
    ensures Newlines(s, i + n) == Newlines(s, i) + Newlines(s[i..], n)
  {
    if n > 0 { NewlinesSuffix(s, i, n - 1); }
  }

  lemma {:induction false} NoNewlines(s: string, n: nat)
    requires n <= |s| && forall j | 0 <= j < n :: s[j] != '\n'
    ensures Newlines(s, n) == 0
  {
    if n > 0 { NoNewlines(s, n - 1); }
  }

  lemma FirstNewline(s: string, i: nat)
    requires i < |s| && s[i] == '\n' && forall j | 0 <= j < i :: s[j] != '\n'
    ensures Newlines(s, i + 1) == 1
  {
    NoNewlines(s, i);
  }

  lemma NewlinesLine(s: string, i: nat, rest: string)
    requires i < |s| && s[i] == '\n' && (forall j | 0 <= j < i :: s[j] != '\n') && rest == s[i + 1..]
    ensures Newlines(s, |s|) == 1 + Newlines(rest, |rest|)
  {
    FirstNewline(s, i);
    NewlinesSuffix(s, i + 1, |rest|);
    assert i + 1 + |rest| == |s|;
  }

  lemma LinesStep(s: string, i: nat)
    requires s != "" && IndexOf(s, '\n') == Some(i)
    ensures |Lines(s)| == 1 + |Lines(s[i + 1..])|
  {
    assert Lines(s) == [StripCr(s[..i])] + Lines(s[i + 1..]);
  }

  lemma EndsAfter(s: string, i: nat)
    requires i < |s| && s[i] == '\n'
    ensures EndsWith(s, '\n') <==> s[i + 1..] == "" || EndsWith(s[i + 1..], '\n')
  {
    var rest := s[i + 1..];
    if rest != "" { assert rest[|rest| - 1] == s[|s| - 1]; }
  }

  lemma {:induction false} LinesCount(s: string)
    ensures |Lines(s)| == Newlines(s, |s|) + if s != "" && !EndsWith(s, '\n') then 1 else 0
  {
    if s != "" {
      match IndexOf(s, '\n')
      case None =>
        NoNewlines(s, |s|);
      case Some(i) =>
        LinesStep(s, i);
        EndsAfter(s, i);
        NewlinesLine(s, i, s[i + 1..]);
        LinesCount(s[i + 1..]);
    }
  }

  /**
   The detector's line count and the number of lines stored for the same text differ by the lone
   carriage returns, and by one for the empty line after a final newline or of an empty text.
   */
  lemma StoredTotal(s: string)
    ensures 1 + Endings(s, |s|)
         == |Lines(s)| + Count(s, LoneCr, |s|) + if s == "" || EndsWith(s, '\n') then 1 else 0
  {
    LinesCount(s);
    NewlinesAreEndings(s, |s|);
  }

  /** One segment more than endings; segment bytes and ending bytes add up to the text. */
  lemma SegmentsAddUp(s: string)
    ensures |Segments(s)| == 1 + Endings(s, |s|)
    ensures Bytes(Segments(s)) + Count(s, LoneLf, |s|) + 2 * Count(s, Pair, |s|) + Count(s, LoneCr, |s|) == ByteLen(s)
  {
    assert s[0..] == s;
    SegmentsFrom(s, 0);
  }

  // ---------- the kind of ending, by characters ----------

  lemma {:induction false} CountPositive(s: string, kind: Kind, n: nat)
    requires n <= |s|
    ensures Count(s, kind, n) > 0 <==> exists i: nat | i < n :: Ends(s, kind, i)
  {
    if n > 0 { CountPositive(s, kind, n - 1); }
  }

  /** CR and LF occur in this text only next to each other. */
  predicate OnlyPairs(s: string) {
    && (forall i | 0 <= i < |s| && s[i] == '\r' :: i + 1 < |s| && s[i + 1] == '\n')
    && (forall i | 0 <= i < |s| && s[i] == '\n' :: i > 0 && s[i - 1] == '\r')
  }

  /** What each kind of ending means for the characters of the text. */
  predicate IsStyle(e: LineEnding, s: string) {
    match e
    case Lf => '\n' in s && '\r' !in s
    case Cr => '\r' in s && '\n' !in s
    case CrLf => '\r' in s && OnlyPairs(s)
    case NoEnding => '\n' !in s && '\r' !in s
    case Mixed => '\n' in s && '\r' in s && !OnlyPairs(s)
  }

  lemma StyleFromEndings(s: string, lf: bool, pair: bool, cr: bool)
    requires lf <==> exists i: nat | i < |s| :: Ends(s, LoneLf, i)
    requires pair <==> exists i: nat | i < |s| :: Ends(s, Pair, i)
    requires cr <==> exists i: nat | i < |s| :: Ends(s, LoneCr, i)
    ensures '\r' in s <==> pair || cr
    ensures '\n' in s <==> lf || pair
    ensures OnlyPairs(s) <==> !lf && !cr
  {
    if '\r' in s {
      var i: nat :| i < |s| && s[i] == '\r';
      assert Ends(s, Pair, i) || Ends(s, LoneCr, i);
    }
    if '\n' in s {
      var i: nat :| i < |s| && s[i] == '\n';
      assert Ends(s, LoneLf, i) || (i > 0 && Ends(s, Pair, i - 1));
    }
    if pair {
      var i: nat :| i < |s| && Ends(s, Pair, i);
      assert s[i] == '\r' && s[i + 1] == '\n';
    }
    if !lf && !cr {
      forall i: nat | i < |s| && s[i] == '\r' ensures i + 1 < |s| && s[i + 1] == '\n' {
        assert !Ends(s, LoneCr, i);
      }
      forall i: nat | i < |s| && s[i] == '\n' ensures i > 0 && s[i - 1] == '\r' {
        assert !Ends(s, LoneLf, i);
      }
    }
  }

  /** The style of a text is the one its characters show, and only that one. */
  lemma StyleExactly(s: string, e: LineEnding)
    ensures Style(s) == e <==> IsStyle(e, s)
  {
    CountPositive(s, LoneLf, |s|);
    CountPositive(s, Pair, |s|);
    CountPositive(s, LoneCr, |s|);
    StyleFromEndings(s, Count(s, LoneLf, |s|) > 0, Count(s, Pair, |s|) > 0, Count(s, LoneCr, |s|) > 0);
  }

  // ---------- the longest line ----------

  /** Some line has this length in bytes and none is longer. */
  ghost predicate IsLongest(length: nat, lines: seq<string>) {
    && (forall line | line in lines :: ByteLen(line) <= length)
    && (exists line | line in lines :: ByteLen(line) == length)
  }

  lemma {:induction false} LongestIsMaximum(segs: seq<string>)
    ensures segs != [] ==> IsLongest(Longest(segs), segs)
  {
    if segs != [] {
      LongestIsMaximum(segs[1..]);
      assert segs == [segs[0]] + segs[1..];
      assert segs[0] in segs;
      if |segs| > 1 && Longest(segs) != ByteLen(segs[0]) {
        var seg :| seg in segs[1..] && ByteLen(seg) == Longest(segs[1..]);
        assert seg in segs;
      }
    }
  }

  /** The text that segments cut out by these endings came from. */
  function Woven(segs: seq<string>, ends: seq<string>): string
    requires |segs| == |ends| + 1
  {
    if ends == [] then segs[0] else segs[0] + ends[0] + Woven(segs[1..], ends[1..])
  }

  /** The endings at which a text is cut, in order. */
  function Cuts(s: string): seq<string> {
    if s == "" then []
    else if |s| >= 2 && s[0] == '\r' && s[1] == '\n' then ["\r\n"] + Cuts(s[2..])
    else if s[0] == '\r' || s[0] == '\n' then [[s[0]]] + Cuts(s[1..])
    else Cuts(s[1..])
  }

  predicate IsEnding(end: string) {
    end == "\n" || end == "\r" || end == "\r\n"
  }

  predicate IsLine(seg: string) {
    '\n' !in seg && '\r' !in seg
  }

  /** A CR and the LF right behind it are two endings: the pair was cut apart. */
  predicate PairCut(end: string, seg: string, next: string) {
    end == "\r" && seg == "" && next == "\n"
  }

  /** Lines without CR and LF, with an ending between each two, and no pair cut apart. */
  ghost predicate AreCut(segs: seq<string>, ends: seq<string>) {
    && |segs| == |ends| + 1
    && (forall i | 0 <= i < |segs| :: IsLine(segs[i]))
    && (forall i | 0 <= i < |ends| :: IsEnding(ends[i]))
    && (forall i | 0 <= i < |ends| - 1 :: !PairCut(ends[i], segs[i + 1], ends[i + 1]))
  }

  lemma CutCons(segs: seq<string>, ends: seq<string>, end: string)
    requires AreCut(segs, ends) && IsEnding(end)
    requires ends != [] ==> !PairCut(end, segs[0], ends[0])
    ensures AreCut([""] + segs, [end] + ends) && Woven([""] + segs, [end] + ends) == end + Woven(segs, ends)
  {
    var segs', ends' := [""] + segs, [end] + ends;
    assert segs'[1..] == segs && ends'[1..] == ends;
    assert IsLine("");
    forall i | 0 <= i < |ends'| - 1 ensures !PairCut(ends'[i], segs'[i + 1], ends'[i + 1]) {
      if i > 0 { assert !PairCut(ends[i - 1], segs[i - 1 + 1], ends[i - 1 + 1]); }
    }
  }

  lemma CutLonger(segs: seq<string>, ends: seq<string>, c: char)
    requires AreCut(segs, ends) && c != '\n' && c != '\r'
    ensures var segs' := [[c] + segs[0]] + segs[1..];
            AreCut(segs', ends) && Woven(segs', ends) == [c] + Woven(segs, ends)
  {
    var segs' := [[c] + segs[0]] + segs[1..];
    assert segs'[1..] == segs[1..];
    assert IsLine([c] + segs[0]);
  }

  /** A text whose first line is empty and ends with LF begins with LF. */
  lemma FirstCut(s: string)
    ensures |Segments(s)| == |Cuts(s)| + 1
    ensures Cuts(s) != [] && Segments(s)[0] == "" && Cuts(s)[0] == "\n" ==> s != "" && s[0] == '\n'
  {
  }

  lemma CutEnding(s: string, end: string, rest: string)
    requires s == end + rest && IsEnding(end) && (end == "\r" ==> rest == "" || rest[0] != '\n')
    ensures Segments(s) == [""] + Segments(rest) && Cuts(s) == [end] + Cuts(rest)
  {
    if end == "\r\n" { assert s[2..] == rest; } else { assert s[1..] == rest; }
    if |s| >= 2 && end != "\r\n" { assert s[1] == rest[0]; }
  }

  /** The segments of a text are what is left when it is cut at its endings, and nothing else. */
  lemma {:induction false} SegmentsAreCut(s: string)
    ensures AreCut(Segments(s), Cuts(s)) && Woven(Segments(s), Cuts(s)) == s
  {
    if s != "" {
      var pair := |s| >= 2 && s[0] == '\r' && s[1] == '\n';
      var rest := if pair then s[2..] else s[1..];
      SegmentsAreCut(rest);
      if s[0] == '\r' || s[0] == '\n' {
        var end := if pair then "\r\n" else [s[0]];
        assert s == end + rest;
        CutEnding(s, end, rest);
        FirstCut(rest);
        CutCons(Segments(rest), Cuts(rest), end);
      } else {
        CutLonger(Segments(rest), Cuts(rest), s[0]);
        assert s == [s[0]] + rest;
      }
    }
  }

  // ---------- the code ----------

  /** What the scan knows at position `i`: the endings so far, the open line, and the longest line before it. */
  ghost predicate Scanned(text: string, i: nat, lf: nat, crlf: nat, cr: nat, current: nat, maxLineLen: nat) {
    && i <= |text| && !Inside(text, i)
    && lf == Count(text, LoneLf, i) && crlf == Count(text, Pair, i) && cr == Count(text, LoneCr, i)
    && Longest(Segments(text)) == Max(maxLineLen, LongestAfter(current, Segments(text[i..])))
  }

  lemma ScanStart(text: string)
    ensures Scanned(text, 0, 0, 0, 0, 0, 0)
  {
    assert text[0..] == text;
  }

  lemma ScanPair(text: string, i: nat, lf: nat, crlf: nat, cr: nat, current: nat, maxLineLen: nat)
    requires Scanned(text, i, lf, crlf, cr, current, maxLineLen) && i < |text| && Ends(text, Pair, i)
    ensures Scanned(text, i + 2, lf, crlf + 1, cr, 0, Max(maxLineLen, current))
  {
    LongestStep(text, i, current);
    PairStep(text, i);
  }

  lemma ScanLone(text: string, i: nat, lf: nat, crlf: nat, cr: nat, current: nat, maxLineLen: nat)
    requires Scanned(text, i, lf, crlf, cr, current, maxLineLen) && i < |text|
    requires text[i] == '\n' || Ends(text, LoneCr, i)
    ensures Scanned(text, i + 1, if text[i] == '\n' then lf + 1 else lf, crlf, if text[i] == '\n' then cr else cr + 1,
                    0, Max(maxLineLen, current))
  {
    LongestStep(text, i, current);
  }

  lemma ScanOther(text: string, i: nat, lf: nat, crlf: nat, cr: nat, current: nat, maxLineLen: nat)
    requires Scanned(text, i, lf, crlf, cr, current, maxLineLen) && i < |text|
    requires text[i] != '\n' && text[i] != '\r'
    ensures Scanned(text, i + 1, lf, crlf, cr, current + Width(text[i]), maxLineLen)
  {
    LongestStep(text, i, current);
  }

  lemma ScanEnd(text: string, lf: nat, crlf: nat, cr: nat, current: nat, maxLineLen: nat)
    requires Scanned(text, |text|, lf, crlf, cr, current, maxLineLen)
    ensures 1 + lf + crlf + cr == 1 + Endings(text, |text|) == |Segments(text)|
    ensures Max(maxLineLen, current) == Longest(Segments(text)) && IsLongest(Longest(Segments(text)), Segments(text))
  {
    SegmentsAddUp(text);
    LongestIsMaximum(Segments(text));
    assert text[|text|..] == "" && Segments("") == [""] && [""][1..] == [];
  }

  /** One left-to-right scan, two characters at a time over a CR LF pair. */
  method AnalyzeLines(text: string) returns (ending: LineEnding, lineCount: nat, maxLineLen: nat)
    ensures ending == Style(text) && IsStyle(ending, text)
    ensures lineCount == 1 + Endings(text, |text|) == |Segments(text)|
    ensures maxLineLen == Longest(Segments(text))
    ensures IsLongest(maxLineLen, Segments(text))
  {
    var lf, crlf, cr := 0, 0, 0;
    var current: nat := 0;
    var i := 0;
    maxLineLen, lineCount := 0, 1;
    ScanStart(text);
    while i < |text|
      invariant Scanned(text, i, lf, crlf, cr, current, maxLineLen) && lineCount == 1 + lf + crlf + cr
      decreases |text| - i
    {
      if text[i] == '\r' {
        if i + 1 < |text| && text[i + 1] == '\n' {
          ScanPair(text, i, lf, crlf, cr, current, maxLineLen);
          crlf := crlf + 1;
          i := i + 2;
        } else {
          ScanLone(text, i, lf, crlf, cr, current, maxLineLen);
          cr := cr + 1;
          i := i + 1;
        }
        maxLineLen := Max(maxLineLen, current);
        current := 0;
        lineCount := lineCount + 1;
      } else if text[i] == '\n' {
        ScanLone(text, i, lf, crlf, cr, current, maxLineLen);
        lf := lf + 1;
        i := i + 1;
        maxLineLen := Max(maxLineLen, current);
        current := 0;
        lineCount := lineCount + 1;
      } else {
        ScanOther(text, i, lf, crlf, cr, current, maxLineLen);
        current := current + Width(text[i]);
        i := i + 1;
      }
    }
    ScanEnd(text, lf, crlf, cr, current, maxLineLen);
    maxLineLen := Max(maxLineLen, current);
    ending :=
      if lf + crlf + cr == 0 then NoEnding
      else if crlf > 0 && lf == 0 && cr == 0 then CrLf
      else if lf > 0 && crlf == 0 && cr == 0 then Lf
      else if cr > 0 && lf == 0 && crlf == 0 then Cr
      else Mixed;
    StyleExactly(text, ending);
  }

  predicate NonPrintable(c: char) {
    !(c == '\t' || c == '\n' || c == '\r' || (' ' <= c && c as int != 0x7F))
  }

  function NonPrintables(s: string): nat {
    if s == "" then 0 else (if NonPrintable(s[0]) then 1 else 0) + NonPrintables(s[1..])
  }

  function WithoutBom(data: string): string {
    if data != "" && data[0] == '\U{FEFF}' then data[1..] else data
  }

  const BOM := "\U{FEFF}"

  /** One byte order mark in front is dropped and nothing else. */
  lemma WithoutBomExactly(data: string)
    ensures WithoutBom(BOM + data) == data
    ensures WithoutBom(data) == data <==> !(BOM <= data)
    ensures BOM <= data ==> BOM + WithoutBom(data) == data
  {
    assert (BOM + data)[1..] == data;
    if BOM <= data { assert BOM + data[1..] == data; }
  }

  /** The characters counted against a text: the control codes other than tab, LF and CR, and DEL. */
  lemma NonPrintableExactly(c: char)
    ensures NonPrintable(c) <==> (c as int < 32 && c as int !in {9, 10, 13}) || c as int == 127
  {
  }

  lemma {:induction false} NonPrintablesSnoc(s: string, c: char)
    ensures NonPrintables(s + [c]) == NonPrintables(s) + if NonPrintable(c) then 1 else 0
  {
    if s == "" {
      assert ("" + [c])[1..] == "";
    } else {
      assert (s + [c])[1..] == s[1..] + [c];
      NonPrintablesSnoc(s[1..], c);
    }
  }

  ghost function NonPrintableAt(s: string): set<int> {
    set i | 0 <= i < |s| && NonPrintable(s[i])
  }

  /** They are counted once each. */
  lemma {:induction false} NonPrintablesCount(s: string)
    ensures NonPrintables(s) == |NonPrintableAt(s)|
  {
    if s != "" {
      var front, last := s[..|s| - 1], |s| - 1;
      NonPrintablesCount(front);
      NonPrintablesSnoc(front, s[last]);
      assert s == front + [s[last]];
      assert NonPrintableAt(s) == NonPrintableAt(front) + if NonPrintable(s[last]) then {last} else {};
    }
  }

  /**
   A non-empty text is taken as text exactly when it is small enough, has no NUL, few enough
   control characters and no over-long segment; then it is ASCII exactly when every character
   after the byte order mark is.
   */
  method Detect(config: Config, data: string) returns (r: FileType)
    ensures data == "" ==> r == Text(Utf8, NoEnding, 0)
    ensures data != "" ==>
              (r.Text? <==>
               && ByteLen(data) <= config.maxTextFileSize
               && '\0' !in data
               && NonPrintables(data) as real / ByteLen(data) as real <= config.maxNonPrintableRatio
               && Longest(Segments(WithoutBom(data))) <= config.maxLineLength)
    ensures data != "" && r.Text? ==>
              var text := WithoutBom(data);
              && (r.encoding == Ascii <==> ByteLen(text) == |text|)
              && r.lineEnding == Style(text) && IsStyle(r.lineEnding, text)
              && r.lineCount == |Segments(text)|
  {
    if data == "" {
      return Text(Utf8, NoEnding, 0);
    }
    if ByteLen(data) > config.maxTextFileSize || '\0' in data {
      return Binary;
    }
    var text := WithoutBom(data);
    AsciiBytes(text);
    var encoding := if forall i | 0 <= i < |text| :: text[i] as int < 128 then Ascii else Utf8;
    if NonPrintables(data) as real / ByteLen(data) as real > config.maxNonPrintableRatio {
      return Binary;
    }
    var ending, lineCount, maxLineLen := AnalyzeLines(text);
    if maxLineLen > config.maxLineLength {
      return Binary;
    }
    r := Text(encoding, ending, lineCount);
  }

  lemma {:induction false} AsciiBytes(s: string)
    ensures (forall i | 0 <= i < |s| :: s[i] as int < 128) <==> ByteLen(s) == |s|
  {
    if s != "" {
      AsciiBytes(s[1..]);
      if forall i | 0 <= i < |s[1..]| :: s[1..][i] as int < 128 {
        assert forall i | 0 < i < |s| :: s[i] == s[1..][i - 1];
      } else {
        var i :| 0 <= i < |s[1..]| && s[1..][i] as int >= 128;
        assert s[i + 1] as int >= 128;
      }
    }
  }
}
