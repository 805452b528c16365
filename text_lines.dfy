/**
  Physical lines of a text, as `System.IO.StringReader.ReadLine` hands them out:
  a line ends at `\n`, at `\r`, or at the pair `\r\n`; the terminator is not part
  of the line; a terminator at the very end of the text does not start one more
  (empty) line; and an empty text has no lines at all.
*/
module TextLines {

  /** The terminator `StringBuilder.AppendLine` writes (`Environment.NewLine`), fixed to a line feed. */
  const Newline: string := "\n"

  predicate IsBreak(c: char) {
    c == '\r' || c == '\n'
  }

  /** `s` holds no line terminator: it can only be one physical line. */
  predicate NoBreak(s: string) {
    forall i :: 0 <= i < |s| ==> !IsBreak(s[i])
  }

  /** `IndexOfAny('\r', '\n')` from index `k` on: the first terminator at or after `k`, or `|s|` when there is none. */
  function FindBreak(s: string, k: nat): (i: nat)
    requires k <= |s|
    ensures k <= i <= |s|
    ensures i < |s| ==> IsBreak(s[i])
    decreases |s| - k
  {
    if k == |s| || IsBreak(s[k]) then k else FindBreak(s, k + 1)
  }

  /** No terminator lies between `k` and the one `FindBreak` finds. */
  lemma {:induction false} FindBreakSpec(s: string, k: nat)
    requires k <= |s|
    ensures forall j :: k <= j < FindBreak(s, k) ==> !IsBreak(s[j])
    decreases |s| - k
  {
    if k < |s| && !IsBreak(s[k]) {
      FindBreakSpec(s, k + 1);
    }
  }

  /** A terminator-free stretch from `k` that ends at a terminator or at the end of `s` is the one `FindBreak` finds. */
  lemma FindBreakUnique(s: string, k: nat, i: nat)
    requires k <= i <= |s|
    requires forall j :: k <= j < i ==> !IsBreak(s[j])
    requires i < |s| ==> IsBreak(s[i])
    ensures FindBreak(s, k) == i
  {
    FindBreakSpec(s, k);
  }

  /** Where the next line starts once the terminator at `i` is consumed: `\r\n` is one terminator. */
  function SkipBreak(s: string, i: nat): (j: nat)
    requires i < |s| && IsBreak(s[i])
    ensures i < j <= i + 2 && j <= |s|
    ensures j == i + 2 <==> (s[i] == '\r' && i + 1 < |s| && s[i + 1] == '\n')
  {
    if s[i] == '\r' && i + 1 < |s| && s[i + 1] == '\n' then i + 2 else i + 1
  }

  /** The lines of `s` from index `k` on, in order. */
  function LinesFrom(s: string, k: nat): (r: seq<string>)
    requires k <= |s|
    ensures (r == []) <==> (k == |s|)
    decreases |s| - k
  {
    if k == |s| then []
    else
      var i := FindBreak(s, k);
      if i == |s| then [s[k..]]
      else [s[k..i]] + LinesFrom(s, SkipBreak(s, i))
  }

  /** The lines `ReadLine` returns, in order, when called on a fresh reader until it returns null. */
  function SplitLines(s: string): (r: seq<string>)
    ensures (r == []) <==> (s == [])
  {
    LinesFrom(s, 0)
  }

  /** Scanning does not look at what lies before the starting point: scanning `s` from `d + k` is scanning `s[d..]` from `k`. */
  lemma {:induction false} FindBreakDrop(s: string, d: nat, k: nat)
    requires d + k <= |s|
    ensures FindBreak(s, d + k) == d + FindBreak(s[d..], k)
    decreases |s| - d - k
  {
    assert d + k < |s| ==> s[d..][k] == s[d + k];
    if d + k < |s| && !IsBreak(s[d + k]) {
      FindBreakDrop(s, d, k + 1);
    }
  }

  /** Splitting does not look at what lies before the starting point. */
  lemma {:induction false} LinesFromDrop(s: string, d: nat, k: nat)
    requires d + k <= |s|
    ensures LinesFrom(s, d + k) == LinesFrom(s[d..], k)
    decreases |s| - d - k
  {
    if d + k < |s| {
      var t := s[d..];
      var i := FindBreak(t, k);
      FindBreakDrop(s, d, k);
      if i == |t| {
        assert s[d + k..] == t[k..];
      } else {
        SkipBreakDrop(s, d, i);
        LinesFromDrop(s, d, SkipBreak(t, i));
        LinesFromAt(t, k);
        LinesFromAt(s, d + k);
        SliceOfDrop(s, d, k, i);
      }
    }
  }

  /** A line that ends at a terminator, followed by the lines after that terminator. */
  lemma LinesFromAt(s: string, k: nat)
    requires k < |s| && FindBreak(s, k) < |s|
    ensures LinesFrom(s, k) == [s[k..FindBreak(s, k)]] + LinesFrom(s, SkipBreak(s, FindBreak(s, k)))
  {
  }

  /** Consuming a terminator does not look at what lies before it. */
  lemma SkipBreakDrop(s: string, d: nat, i: nat)
    requires d + i < |s| && IsBreak(s[d + i])
    ensures IsBreak(s[d..][i]) && SkipBreak(s, d + i) == d + SkipBreak(s[d..], i)
  {
    assert s[d..][i] == s[d + i];
    assert d + i + 1 < |s| ==> s[d..][i + 1] == s[d + i + 1];
  }

  /** A slice of a suffix is the corresponding slice of the whole text. */
  lemma SliceOfDrop(s: string, d: nat, k: nat, i: nat)
    requires d + k <= d + i <= |s|
    ensures s[d + k..d + i] == s[d..][k..i]
  {
  }

  /** No line handed out contains a terminator. */
  lemma {:induction false} LinesFromNoBreak(s: string, k: nat)
    requires k <= |s|
    ensures forall n :: 0 <= n < |LinesFrom(s, k)| ==> NoBreak(LinesFrom(s, k)[n])
    decreases |s| - k
  {
    if k < |s| {
      var i := FindBreak(s, k);
      FindBreakSpec(s, k);
      assert NoBreak(s[k..i]);
      if i < |s| {
        LinesFromNoBreak(s, SkipBreak(s, i));
      }
    }
  }

  lemma SplitLinesNoBreak(s: string)
    ensures forall n :: 0 <= n < |SplitLines(s)| ==> NoBreak(SplitLines(s)[n])
  {
    LinesFromNoBreak(s, 0);
  }

  /** What `AppendLine` produces for each of `ls` in turn. */
  function JoinLines(ls: seq<string>): (r: string)
    ensures ls != [] ==> |r| > 0 && r[|r| - 1] == '\n'
  {
    if ls == [] then [] else ls[0] + Newline + JoinLines(ls[1..])
  }

  lemma {:induction false} JoinLinesAppend(a: seq<string>, b: seq<string>)
    ensures JoinLines(a + b) == JoinLines(a) + JoinLines(b)
  {
    if a != [] {
      assert (a + b)[0] == a[0];
      assert (a + b)[1..] == a[1..] + b;
      JoinLinesAppend(a[1..], b);
      calc {
        JoinLines(a + b);
        a[0] + Newline + JoinLines(a[1..] + b);
        a[0] + Newline + (JoinLines(a[1..]) + JoinLines(b));
        (a[0] + Newline + JoinLines(a[1..])) + JoinLines(b);
      }
    } else {
      assert a + b == b;
    }
  }

  lemma JoinLinesSnoc(ls: seq<string>, x: string)
    ensures JoinLines(ls + [x]) == JoinLines(ls) + x + Newline
  {
    JoinLinesAppend(ls, [x]);
  }

  /** Appending one more line to a builder that already holds `base` and the lines `ls`. */
  lemma AppendLineTo(base: string, ls: seq<string>, x: string)
    ensures base + JoinLines(ls + [x]) == base + JoinLines(ls) + x + Newline
  {
    JoinLinesSnoc(ls, x);
  }

  /** A line written with its terminator is read back as that line, and reading resumes right after it. */
  /**
    `t` is one whole terminator in front of `rest`: `\n`, `\r\n`, or a `\r`
    that is not followed by `\n` (which would make the two one terminator).
  */
  predicate EndsLine(t: string, rest: string) {
    t == "\n" || t == "\r\n" || (t == "\r" && (rest == [] || rest[0] != '\n'))
  }

  /** A terminator-free line and one terminator read back as that line, then the lines of whatever follows. */
  lemma SplitAfterLine(line: string, term: string, rest: string)
    requires NoBreak(line) && EndsLine(term, rest)
    ensures SplitLines(line + term + rest) == [line] + SplitLines(rest)
  {
    var head := line + term;
    var s := head + rest;
    var n := |line|;
    SkipTerminator(line, term, rest);
    assert s[0..n] == line;
    LinesFromDrop(s, |head|, 0);
    assert s[|head|..] == rest;
  }

  lemma SkipTerminator(line: string, term: string, rest: string)
    requires NoBreak(line) && EndsLine(term, rest)
    ensures |line| < |line + term + rest| && FindBreak(line + term + rest, 0) == |line|
    ensures SkipBreak(line + term + rest, |line|) == |line + term|
  {
    var s := line + term + rest;
    var n := |line|;
    assert forall j :: 0 <= j < n ==> s[j] == line[j];
    assert s[n] == term[0];
    FindBreakUnique(s, 0, n);
    if term == "\r\n" {
      assert s[n + 1] == '\n';
    } else if term == "\r" {
      assert n + 1 < |s| ==> s[n + 1] == rest[0];
    }
  }

  lemma SplitJoinedStep(line: string, more: seq<string>, tail: string)
    requires NoBreak(line)
    ensures SplitLines(JoinLines([line] + more) + tail) == [line] + SplitLines(JoinLines(more) + tail)
  {
    var rest := JoinLines(more) + tail;
    assert ([line] + more)[1..] == more;
    assert JoinLines([line] + more) + tail == line + Newline + rest;
    SplitAfterLine(line, Newline, rest);
  }

  /**
    Reading back what was written line by line: every line comes back, in order,
    and whatever follows the last terminator is split on its own.
  */
  lemma {:induction false} SplitJoinedLines(ls: seq<string>, tail: string)
    requires forall k :: 0 <= k < |ls| ==> NoBreak(ls[k])
    ensures SplitLines(JoinLines(ls) + tail) == ls + SplitLines(tail)
  {
    if ls == [] {
      assert JoinLines(ls) + tail == tail;
    } else {
      var line, more := ls[0], ls[1..];
      assert forall k :: 0 <= k < |more| ==> more[k] == ls[k + 1];
      SplitJoinedLines(more, tail);
      SplitJoinedStep(line, more, tail);
      assert ls == [line] + more;
    }
  }

  /**
    For any text, whatever its terminators: reading back what was written from
    its lines gives the same lines again.
  */
  lemma SplitJoinSplit(s: string)
    ensures SplitLines(JoinLines(SplitLines(s))) == SplitLines(s)
  {
    SplitLinesNoBreak(s);
    SplitJoin(SplitLines(s));
  }

  /** Lines without terminators survive a write-then-read round trip. */
  lemma SplitJoin(ls: seq<string>)
    requires forall k :: 0 <= k < |ls| ==> NoBreak(ls[k])
    ensures SplitLines(JoinLines(ls)) == ls
  {
    SplitJoinedLines(ls, []);
    assert JoinLines(ls) + [] == JoinLines(ls);
  }

  /** `JoinSplit` from index `k` on. */
  lemma {:induction false} JoinLinesFrom(s: string, k: nat)
    requires k <= |s|
    requires forall i :: 0 <= i < |s| ==> s[i] != '\r'
    ensures JoinLines(LinesFrom(s, k)) == if k == |s| || s[|s| - 1] == '\n' then s[k..] else s[k..] + Newline
    decreases |s| - k
  {
    if k < |s| {
      var i := FindBreak(s, k);
      if i == |s| {
        JoinLastLine(s, k);
      } else {
        assert s[i] == '\n';
        JoinLinesFrom(s, i + 1);
        JoinLinesAfterLineFeed(s, k, i);
      }
    }
  }

  lemma JoinLinesAfterLineFeed(s: string, k: nat, i: nat)
    requires k <= i < |s| && s[i] == '\n' && i == FindBreak(s, k)
    requires JoinLines(LinesFrom(s, i + 1)) == if i + 1 == |s| || s[|s| - 1] == '\n' then s[i + 1..] else s[i + 1..] + Newline
    ensures JoinLines(LinesFrom(s, k)) == if s[|s| - 1] == '\n' then s[k..] else s[k..] + Newline
  {
    JoinLinesFromStep(s, k, i);
    var head, tail := s[k..i + 1], s[i + 1..];
    if i + 1 == |s| {
      assert tail == [];
      assert JoinLines(LinesFrom(s, k)) == head + [];
    } else if s[|s| - 1] == '\n' {
      assert JoinLines(LinesFrom(s, k)) == head + tail;
    } else {
      assert JoinLines(LinesFrom(s, k)) == head + (tail + Newline);
      assert head + (tail + Newline) == (head + tail) + Newline;
    }
  }

  lemma JoinLastLine(s: string, k: nat)
    requires k < |s| && FindBreak(s, k) == |s|
    ensures JoinLines(LinesFrom(s, k)) == s[k..] + Newline
    ensures s[|s| - 1] != '\n'
  {
    FindBreakSpec(s, k);
    assert !IsBreak(s[|s| - 1]);
    assert [s[k..]][1..] == [];
    assert JoinLines([s[k..]]) == s[k..] + Newline + [];
  }

  lemma JoinLinesFromStep(s: string, k: nat, i: nat)
    requires k <= i < |s| && s[i] == '\n' && i == FindBreak(s, k)
    ensures JoinLines(LinesFrom(s, k)) == s[k..i + 1] + JoinLines(LinesFrom(s, i + 1))
    ensures s[k..] == s[k..i + 1] + s[i + 1..]
  {
    var ls := LinesFrom(s, i + 1);
    LinesFromAtLineFeed(s, k, i);
    JoinLinesCons(s[k..i], ls);
    LineWithFeed(s, k, i);
  }

  lemma LinesFromAtLineFeed(s: string, k: nat, i: nat)
    requires k <= i < |s| && s[i] == '\n' && i == FindBreak(s, k)
    ensures LinesFrom(s, k) == [s[k..i]] + LinesFrom(s, i + 1)
  {
    LinesFromAt(s, k);
  }

  lemma JoinLinesCons(x: string, ls: seq<string>)
    ensures JoinLines([x] + ls) == x + Newline + JoinLines(ls)
  {
    assert ([x] + ls)[1..] == ls;
  }

  lemma LineWithFeed(s: string, k: nat, i: nat)
    requires k <= i < |s| && s[i] == '\n'
    ensures s[k..i] + Newline == s[k..i + 1]
    ensures s[k..] == s[k..i + 1] + s[i + 1..]
  {
  }

  /**
    The other direction, for a text whose only terminator is `\n`: writing the
    lines back reproduces the text, except that a last line without a
    terminator gets one.
  */
  lemma JoinSplit(s: string)
    requires forall i :: 0 <= i < |s| ==> s[i] != '\r'
    ensures JoinLines(SplitLines(s)) == if s == [] || s[|s| - 1] == '\n' then s else s + Newline
  {
    JoinLinesFrom(s, 0);
    assert s[0..] == s;
  }
}
