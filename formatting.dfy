/**
  The diff renderer `ConfigurationSectionFormating.Format`: it walks the
  sections of a comparison result in document order, picks for each one of
  three caller-supplied prefixes from the section's membership, and writes
  every physical line of the section's text as
  `prefix + (depth - 1 spaces) + line + newline`, then appends a closing marker.

  The comparison itself happens elsewhere; here its outcome is a plain sequence
  of `Section` values, standing for what `Descendants()` and `SectionMatch`
  return.
*/
module SectionFormatting {
  import opened Wrappers
  import opened TextLines
  import opened StringReading

  /** The two compared configurations. */
  datatype Source = First | Second

  /** `SectionMembership`, a flags value: the set of configurations a section occurs in. */
  type Membership = set<Source>

  /** One entry of the comparison result: its (possibly multi-line) text, its depth (1 = top level) and its membership. */
  datatype Section = Section(text: string, depth: int, membership: Membership)

  /** The prefixes `Format` receives, one per kind of line. */
  datatype Prefixes = Prefixes(add: string, remove: string, common: string)

  /**
    The two ways `Format` throws `ArgumentOutOfRangeException`: a membership
    outside the three known values, and a negative count for `new string(' ', Depth - 1)`.
  */
  datatype FormatError = UnknownMembership | NegativeIndent

  /** The prefix selected by the `switch` on a membership; `None` is the discard arm that throws. */
  function LinePrefix(m: Membership, p: Prefixes): (r: Option<string>)
    ensures m == {First} ==> r == Some(p.remove)
    ensures m == {Second} ==> r == Some(p.add)
    ensures m == {First, Second} ==> r == Some(p.common)
    ensures r == None <==> m == {}
  {
    if m == {First} then Some(p.remove)
    else if m == {Second} then Some(p.add)
    else if m == {First, Second} then Some(p.common)
    else
      MembershipCases(m);
      None
  }

  /** A flags value over two flags has exactly four possible values. */
  lemma MembershipCases(m: Membership)
    ensures m == {} || m == {First} || m == {Second} || m == {First, Second}
  {
    var both: Membership := {First, Second};
    forall x | x in m ensures x in both {
      assert x.First? || x.Second?;
    }
    if First in m && Second in m {
      assert m == both;
    } else if First in m {
      assert m == {First};
    } else if Second in m {
      assert m == {Second};
    } else {
      assert m == {};
    }
  }

  /** `new string(' ', n)`. */
  function Spaces(n: nat): (r: string)
    ensures |r| == n && forall i :: 0 <= i < n ==> r[i] == ' '
  {
    seq(n, _ => ' ')
  }

  /** The interpolated string of one output line: prefix, `depth - 1` spaces of indentation, then the line. */
  function OutputLine(prefix: string, depth: int, line: string): (r: string)
    requires depth >= 1
    ensures |r| == |prefix| + (depth - 1) + |line|
  {
    prefix + Spaces(depth - 1) + line
  }

  /**
    An output line splits back into its parts: the prefix, exactly `depth - 1`
    spaces (one more per nesting level), then the physical line unchanged.
  */
  lemma OutputLineParts(prefix: string, depth: int, line: string)
    requires depth >= 1
    ensures OutputLine(prefix, depth, line)[..|prefix|] == prefix
    ensures forall i :: |prefix| <= i < |prefix| + (depth - 1) ==> OutputLine(prefix, depth, line)[i] == ' '
    ensures OutputLine(prefix, depth, line)[|prefix| + (depth - 1)..] == line
  {
  }

  /** Each of `lines` behind the same prefix and the same indentation. */
  function Decorate(prefix: string, depth: int, lines: seq<string>): (r: seq<string>)
    requires depth >= 1
    ensures |r| == |lines|
  {
    seq(|lines|, j requires 0 <= j < |lines| => OutputLine(prefix, depth, lines[j]))
  }

  /**
    When rendering a section fails, stated without reference to the renderer:
    an empty membership always fails, and a depth below one fails as soon as
    there is a line to indent.
  */
  function SectionError(s: Section): Option<FormatError> {
    if s.membership == {} then Some(UnknownMembership)
    else if s.text != [] && s.depth < 1 then Some(NegativeIndent)
    else None
  }

  /**
    The output lines (without their terminators) for the text of one section
    once its prefix is known, or the error `new string(' ', depth - 1)` throws
    when there is a line to indent and the depth is below one.
  */
  function SectionLines(prefix: string, depth: int, text: string): (r: Result<seq<string>, FormatError>)
    ensures r.Failure? <==> text != [] && depth < 1
    ensures r.Failure? ==> r.error == NegativeIndent
    ensures r.Success? ==> |r.value| == |SplitLines(text)|
    ensures r.Success? ==> forall j :: 0 <= j < |r.value| ==>
      depth >= 1 && r.value[j] == OutputLine(prefix, depth, SplitLines(text)[j])
  {
    var lines := SplitLines(text);
    if lines == [] then Success([])
    else if depth < 1 then Failure(NegativeIndent)
    else Success(Decorate(prefix, depth, lines))
  }

  /** The output lines of one section, or the error `Format` throws for it. */
  function RenderSection(s: Section, p: Prefixes): (r: Result<seq<string>, FormatError>)
    ensures r.Failure? <==> SectionError(s).Some?
    ensures r.Failure? ==> r.error == SectionError(s).value
    ensures r.Success? ==> |r.value| == |SplitLines(s.text)|
    ensures r.Success? ==> forall j :: 0 <= j < |r.value| ==>
      s.depth >= 1 && r.value[j] == OutputLine(LinePrefix(s.membership, p).value, s.depth, SplitLines(s.text)[j])
  {
    match LinePrefix(s.membership, p)
    case None => Failure(UnknownMembership)
    case Some(prefix) => SectionLines(prefix, s.depth, s.text)
  }

  /** The output lines of all sections in order; the first section that fails decides the error. */
  function RenderAll(ss: seq<Section>, p: Prefixes): Result<seq<string>, FormatError>
    decreases |ss|
  {
    if ss == [] then Success([])
    else
      match RenderAll(ss[..|ss| - 1], p)
      case Failure(e) => Failure(e)
      case Success(init) =>
        match RenderSection(ss[|ss| - 1], p)
        case Failure(e) => Failure(e)
        case Success(last) => Success(init + last)
  }

  /** The string `Format` returns, or the exception it throws. */
  function FormatSpec(ss: seq<Section>, p: Prefixes, done: string): Result<string, FormatError> {
    match RenderAll(ss, p)
    case Failure(e) => Failure(e)
    case Success(lines) => Success(JoinLines(lines) + done)
  }

  /** The number of physical lines in all section texts together. */
  function TotalLines(ss: seq<Section>): nat
    decreases |ss|
  {
    if ss == [] then 0 else TotalLines(ss[..|ss| - 1]) + |SplitLines(ss[|ss| - 1].text)|
  }

  /**
    `Format`: a string builder filled section by section in document order;
    the first section that cannot be rendered aborts the whole call.
  */
  method Format(sections: seq<Section>, addPrefix: string, removePrefix: string, commonPrefix: string, done: string)
    returns (r: Result<string, FormatError>)
    ensures r == FormatSpec(sections, Prefixes(addPrefix, removePrefix, commonPrefix), done)
    ensures sections == [] ==> r == Success(done)
    ensures r.Success? ==> |r.value| >= |done| && r.value[|r.value| - |done|..] == done
  {
    var p := Prefixes(addPrefix, removePrefix, commonPrefix);
    var builder: string := [];
    ghost var emitted: seq<string> := [];
    for k := 0 to |sections|
      invariant RenderAll(sections[..k], p) == Success(emitted)
      invariant builder == JoinLines(emitted)
    {
      var section := sections[k];
      assert sections[..k + 1][..k] == sections[..k];
      assert sections[..k + 1][k] == section;
      var linePrefix := LinePrefix(section.membership, p);
      if linePrefix.None? {
        RenderAllStopsAtFailure(sections, k + 1, p);
        return Failure(UnknownMembership);
      }
      var appended := AppendSectionLines(builder, linePrefix.value, section.depth, section.text);
      if appended.Failure? {
        RenderAllStopsAtFailure(sections, k + 1, p);
        return Failure(appended.error);
      }
      ghost var out := SectionLines(linePrefix.value, section.depth, section.text).value;
      JoinLinesAppend(emitted, out);
      builder := appended.value;
      emitted := emitted + out;
    }
    assert sections[..|sections|] == sections;
    builder := builder + done;
    if sections == [] {
      assert emitted == [];
      assert builder == done;
    }
    r := Success(builder);
  }

  /**
    The inner loop of `Format` for one section: read the section's text back
    line by line through a `StringReader` and append each line, behind the
    prefix and `depth - 1` spaces, to what the builder already holds.
  */
  method AppendSectionLines(builder: string, prefix: string, depth: int, text: string)
    returns (r: Result<string, FormatError>)
    ensures r == match SectionLines(prefix, depth, text)
      case Failure(e) => Failure(e)
      case Success(ls) => Success(builder + JoinLines(ls))
  {
    var reader := new StringReader(text);
    ghost var lines := SplitLines(text);
    ghost var out: seq<string> := [];
    var acc := builder;
    var line := reader.ReadLine();
    while line.Some?
      invariant reader.Valid()
      invariant |out| <= |lines|
      invariant line.Some? ==> |out| < |lines| && line.value == lines[|out|] && reader.Pending() == lines[|out| + 1..]
      invariant line.None? ==> |out| == |lines|
      invariant depth < 1 ==> out == []
      invariant depth >= 1 ==> out == Decorate(prefix, depth, lines[..|out|])
      invariant acc == builder + JoinLines(out)
      decreases |lines| - |out| + (if line.Some? then 1 else 0)
    {
      if depth < 1 {
        return Failure(NegativeIndent);
      }
      var next := OutputLine(prefix, depth, line.value);
      acc := acc + next + Newline;
      AppendLineTo(builder, out, next);
      DecorateSnoc(prefix, depth, lines, |out|);
      out := out + [next];
      line := reader.ReadLine();
    }
    if depth >= 1 {
      assert lines[..|out|] == lines;
    }
    r := Success(acc);
  }

  /** Decorating one more line extends the decorated lines by that line. */
  lemma DecorateSnoc(prefix: string, depth: int, lines: seq<string>, n: nat)
    requires depth >= 1 && n < |lines|
    ensures Decorate(prefix, depth, lines[..n + 1]) == Decorate(prefix, depth, lines[..n]) + [OutputLine(prefix, depth, lines[n])]
  {
  }

  /** Once a prefix of the sections fails, the whole rendering fails with the same error. */
  lemma RenderAllStopsAtFailure(ss: seq<Section>, n: nat, p: Prefixes)
    requires n <= |ss| && RenderAll(ss[..n], p).Failure?
    ensures RenderAll(ss, p) == RenderAll(ss[..n], p)
  {
    RenderAllAppend(ss[..n], ss[n..], p);
    assert ss[..n] + ss[n..] == ss;
  }

  /**
    Rendering is compositional: the output lines of `a + b` are those of `a`
    followed by those of `b`, and an error in `a` wins over one in `b`.
  */
  lemma {:induction false} RenderAllAppend(a: seq<Section>, b: seq<Section>, p: Prefixes)
    ensures RenderAll(a + b, p) ==
      match RenderAll(a, p)
      case Failure(e) => Failure(e)
      case Success(la) =>
        match RenderAll(b, p)
        case Failure(e) => Failure(e)
        case Success(lb) => Success(la + lb)
    decreases |b|
  {
    if b == [] {
      assert a + b == a;
      if RenderAll(a, p).Success? {
        assert RenderAll(a, p).value + [] == RenderAll(a, p).value;
      }
    } else {
      var b' := b[..|b| - 1];
      assert (a + b)[..|a + b| - 1] == a + b';
      assert (a + b)[|a + b| - 1] == b[|b| - 1];
      RenderAllAppend(a, b', p);
      if RenderAll(a, p).Success? && RenderAll(b', p).Success? && RenderAll(b, p).Success? {
        var la, lb', lb := RenderAll(a, p).value, RenderAll(b', p).value, RenderAll(b, p).value;
        var last := RenderSection(b[|b| - 1], p).value;
        assert lb == lb' + last;
        assert (la + lb') + last == la + lb;
      }
    }
  }

  /**
    `Format` fails exactly when some section cannot be rendered, and then with
    the error of the first such section; the prefixes play no part in it.
  */
  lemma {:induction false} FormatFailsAtFirstBadSection(ss: seq<Section>, p: Prefixes, done: string)
    ensures FormatSpec(ss, p, done).Success? <==> forall k :: 0 <= k < |ss| ==> SectionError(ss[k]) == None
    ensures FormatSpec(ss, p, done).Failure? ==>
      exists k :: 0 <= k < |ss| && SectionError(ss[k]) == Some(FormatSpec(ss, p, done).error) &&
        forall i :: 0 <= i < k ==> SectionError(ss[i]) == None
    decreases |ss|
  {
    if ss != [] {
      var n := |ss| - 1;
      var init := ss[..n];
      FormatFailsAtFirstBadSection(init, p, done);
      assert forall k :: 0 <= k < n ==> init[k] == ss[k];
      if RenderAll(init, p).Failure? {
        var k :| 0 <= k < |init| && SectionError(init[k]) == Some(FormatSpec(init, p, done).error) &&
          forall i :: 0 <= i < k ==> SectionError(init[i]) == None;
        assert FormatSpec(ss, p, done) == FormatSpec(init, p, done);
        assert SectionError(ss[k]) == Some(FormatSpec(ss, p, done).error);
      } else if RenderSection(ss[n], p).Failure? {
        assert SectionError(ss[n]) == Some(FormatSpec(ss, p, done).error);
      }
    }
  }

  /** Every physical line of every section text becomes exactly one output line. */
  lemma {:induction false} RenderAllLineCount(ss: seq<Section>, p: Prefixes)
    ensures RenderAll(ss, p).Success? ==> |RenderAll(ss, p).value| == TotalLines(ss)
    decreases |ss|
  {
    if ss != [] {
      RenderAllLineCount(ss[..|ss| - 1], p);
    }
  }

  /** An output line holds no terminator when its prefix holds none. */
  lemma OutputLineNoBreak(prefix: string, depth: int, line: string)
    requires depth >= 1 && NoBreak(prefix) && NoBreak(line)
    ensures NoBreak(OutputLine(prefix, depth, line))
  {
  }

  /** None of the three prefixes holds a line terminator. */
  predicate PrefixesNoBreak(p: Prefixes) {
    NoBreak(p.add) && NoBreak(p.remove) && NoBreak(p.common)
  }

  /** With terminator-free prefixes, no rendered output line holds a terminator. */
  lemma {:induction false} RenderAllNoBreak(ss: seq<Section>, p: Prefixes)
    requires PrefixesNoBreak(p) && RenderAll(ss, p).Success?
    ensures forall k :: 0 <= k < |RenderAll(ss, p).value| ==> NoBreak(RenderAll(ss, p).value[k])
    decreases |ss|
  {
    if ss != [] {
      var s := ss[|ss| - 1];
      RenderAllNoBreak(ss[..|ss| - 1], p);
      var last := RenderSection(s, p).value;
      SplitLinesNoBreak(s.text);
      forall j | 0 <= j < |last| ensures NoBreak(last[j]) {
        OutputLineNoBreak(LinePrefix(s.membership, p).value, s.depth, SplitLines(s.text)[j]);
      }
    }
  }

  /**
    Reading the output of `Format` back with `ReadLine` gives one line per
    physical line of the section texts, in order and each behind its prefix
    and indentation, followed by the lines of the closing marker.
  */
  lemma FormatReadsBack(ss: seq<Section>, p: Prefixes, done: string)
    requires PrefixesNoBreak(p) && FormatSpec(ss, p, done).Success?
    ensures SplitLines(FormatSpec(ss, p, done).value) == RenderAll(ss, p).value + SplitLines(done)
    ensures |SplitLines(FormatSpec(ss, p, done).value)| == TotalLines(ss) + |SplitLines(done)|
  {
    RenderAllNoBreak(ss, p);
    RenderAllLineCount(ss, p);
    SplitJoinedLines(RenderAll(ss, p).value, done);
  }

  /** The two configurations swapped: `First` and `Second` exchange places in a membership. */
  function SwapMembership(m: Membership): (r: Membership)
    ensures First in r <==> Second in m
    ensures Second in r <==> First in m
  {
    (if Second in m then {First} else {}) + (if First in m then {Second} else {})
  }

  /** The comparison result read the other way round: every membership swapped, nothing else changed. */
  function SwapSections(ss: seq<Section>): (r: seq<Section>)
    ensures |r| == |ss|
  {
    seq(|ss|, k requires 0 <= k < |ss| => ss[k].(membership := SwapMembership(ss[k].membership)))
  }

  /** Swapping the membership and the add and remove prefixes selects the same prefix. */
  lemma LinePrefixSwapped(m: Membership, p: Prefixes)
    ensures LinePrefix(SwapMembership(m), Prefixes(p.remove, p.add, p.common)) == LinePrefix(m, p)
  {
  }

  /**
    Comparing the configurations the other way round and exchanging the add
    and remove prefixes renders exactly the same text: the renderer treats the
    two sides symmetrically.
  */
  lemma {:induction false} FormatSymmetric(ss: seq<Section>, p: Prefixes, done: string)
    ensures FormatSpec(SwapSections(ss), Prefixes(p.remove, p.add, p.common), done) == FormatSpec(ss, p, done)
  {
    RenderAllSymmetric(ss, p);
  }

  /** `FormatSymmetric` for the output lines. */
  lemma {:induction false} RenderAllSymmetric(ss: seq<Section>, p: Prefixes)
    ensures RenderAll(SwapSections(ss), Prefixes(p.remove, p.add, p.common)) == RenderAll(ss, p)
    decreases |ss|
  {
    if ss != [] {
      var n := |ss| - 1;
      var s := ss[n];
      assert SwapSections(ss)[..n] == SwapSections(ss[..n]);
      RenderAllSymmetric(ss[..n], p);
      LinePrefixSwapped(s.membership, p);
      assert SwapSections(ss)[n] == s.(membership := SwapMembership(s.membership));
    }
  }
}
