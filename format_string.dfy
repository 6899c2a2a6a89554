/**
  The naming-template compiler of mod.ts (`parseFormatString`).

  A template is cut at every `'`. In every part at an even position, and
  always in the last part, three substitutions are made in turn: every `f`
  becomes the picture id, every maximal run of `i` becomes the index padded
  with zeros to the run's length (or nothing at index 1), and every maximal
  run of `I` becomes the index padded with zeros to the run's length. The
  parts are glued back with `'` and the result is handed to the host's date
  formatter, which is a parameter here (`Renderer`).
 */
module FormatString {
  import opened Strings

  /** A JavaScript `Date`: a time value in milliseconds, or the invalid date. */
  datatype Date = TimeValue(millis: int) | InvalidDate

  /** The date formatter (`format(date, pattern)`), supplied by the host. */
  type Renderer = (Date, string) -> string

  /** A compiled template: (picture id, date, index) to a candidate path. */
  type Formatter = (string, Date, nat) -> string

  // ---------------------------------------------------------------------------
  // `f`: the picture id, inserted as a JavaScript replacement string

  /**
    The text `replace` inserts for a one-character match at `s[at]` when the
    replacement is the string `rep` and the pattern has no capture groups:
    `$$` gives `$`, `$&` the match, `` $` `` the text before it and `$'` the
    text after it; every other character is copied, including a `$` that
    starts none of these.
   */
  function ExpandReplacement(rep: string, s: string, at: nat): string
    requires at < |s|
    decreases |rep|
  {
    if rep == [] then []
    else if rep[0] == '$' && |rep| >= 2 && rep[1] == '$' then "$" + ExpandReplacement(rep[2..], s, at)
    else if rep[0] == '$' && |rep| >= 2 && rep[1] == '&' then s[at..at + 1] + ExpandReplacement(rep[2..], s, at)
    else if rep[0] == '$' && |rep| >= 2 && rep[1] == '`' then s[..at] + ExpandReplacement(rep[2..], s, at)
    else if rep[0] == '$' && |rep| >= 2 && rep[1] == '\'' then s[at + 1..] + ExpandReplacement(rep[2..], s, at)
    else [rep[0]] + ExpandReplacement(rep[1..], s, at)
  }

  /** `seg.replace(/f/g, fbid)` on the suffix `seg[at..]`. */
  function ReplaceIdFrom(seg: string, at: nat, fbid: string): string
    requires at <= |seg|
    decreases |seg| - at
  {
    if at == |seg| then []
    else if seg[at] == 'f' then ExpandReplacement(fbid, seg, at) + ReplaceIdFrom(seg, at + 1, fbid)
    else [seg[at]] + ReplaceIdFrom(seg, at + 1, fbid)
  }

  /** `seg.replace(/f/g, fbid)`. */
  function ReplaceId(seg: string, fbid: string): string {
    ReplaceIdFrom(seg, 0, fbid)
  }

  /** Every `c` of `s` replaced by the literal `text`: what the id substitution is meant to do. */
  function ReplaceChar(s: string, c: char, text: string): string
    decreases |s|
  {
    if s == [] then [] else (if s[0] == c then text else [s[0]]) + ReplaceChar(s[1..], c, text)
  }

  lemma {:induction false} ExpandWithoutDollar(rep: string, s: string, at: nat)
    requires at < |s|
    requires '$' !in rep
    ensures ExpandReplacement(rep, s, at) == rep
    decreases |rep|
  {
    if rep != [] {
      assert rep[0] != '$';
      ExpandWithoutDollar(rep[1..], s, at);
    }
  }

  /** For an id without `$`, every `f` of the part becomes exactly the id. */
  lemma {:induction false} ReplaceIdIsLiteral(seg: string, at: nat, fbid: string)
    requires at <= |seg|
    requires '$' !in fbid
    ensures ReplaceIdFrom(seg, at, fbid) == ReplaceChar(seg[at..], 'f', fbid)
    decreases |seg| - at
  {
    if at < |seg| {
      ReplaceIdIsLiteral(seg, at + 1, fbid);
      assert seg[at..][1..] == seg[at + 1..];
      if seg[at] == 'f' {
        ExpandWithoutDollar(fbid, seg, at);
      }
    }
  }

  /** An id holding `$&` is not inserted literally: the template `f` with id `$&` renders as `f`. */
  lemma DollarIdIsNotLiteral()
    ensures ReplaceId("f", "$&") == "f"
    ensures ReplaceChar("f", 'f', "$&") == "$&"
  {
    assert ExpandReplacement("$&", "f", 0) == "f" + ExpandReplacement("", "f", 0);
    assert ReplaceIdFrom("f", 1, "$&") == [];
  }

  /** A part without `f` is left alone. */
  lemma {:induction false} ReplaceIdWithoutF(seg: string, at: nat, fbid: string)
    requires at <= |seg|
    requires 'f' !in seg[at..]
    ensures ReplaceIdFrom(seg, at, fbid) == seg[at..]
    decreases |seg| - at
  {
    if at < |seg| {
      assert seg[at] == seg[at..][0];
      assert seg[at + 1..] == seg[at..][1..];
      ReplaceIdWithoutF(seg, at + 1, fbid);
    }
  }

  lemma {:induction false} ExpandFresh(rep: string, s: string, at: nat, x: char)
    requires at < |s|
    requires x !in rep && x !in s
    ensures x !in ExpandReplacement(rep, s, at)
    decreases |rep|
  {
    if rep != [] {
      if rep[0] == '$' && |rep| >= 2 && rep[1] in "$&`'" {
        assert x != '$';
        ExpandFresh(rep[2..], s, at, x);
      } else {
        ExpandFresh(rep[1..], s, at, x);
      }
    }
  }

  /** The id substitution only brings in characters of the part and of the id. */
  lemma {:induction false} ReplaceIdFresh(seg: string, at: nat, fbid: string, x: char)
    requires at <= |seg|
    requires x !in seg && x !in fbid
    ensures x !in ReplaceIdFrom(seg, at, fbid)
    decreases |seg| - at
  {
    if at < |seg| {
      ReplaceIdFresh(seg, at + 1, fbid, x);
      if seg[at] == 'f' {
        ExpandFresh(fbid, seg, at, x);
      }
    }
  }

  // ---------------------------------------------------------------------------
  // `i+` and `I+`: the index, in maximal runs

  /** Length of the maximal run of `c` at the start of `s`. */
  function RunLength(s: string, c: char): (n: nat)
    ensures n <= |s|
    ensures forall k :: 0 <= k < n ==> s[k] == c
    ensures n < |s| ==> s[n] != c
    decreases |s|
  {
    if s != [] && s[0] == c then 1 + RunLength(s[1..], c) else 0
  }

  /**
    What one run of `width` index characters becomes: the index padded with
    zeros to `width`, except that a run of `i` (`sinceFirst` false) becomes
    nothing at index 1.
   */
  function IndexText(index: nat, width: nat, sinceFirst: bool): (r: string)
    ensures forall k :: 0 <= k < |r| ==> IsDigit(r[k])
  {
    if !sinceFirst && index == 1 then [] else PadStart(Decimal(index), width, '0')
  }

  /** `s.replace(/c+/g, run => IndexText(index, run.length, sinceFirst))`. */
  function ReplaceRuns(s: string, c: char, index: nat, sinceFirst: bool): (r: string)
    ensures !IsDigit(c) ==> c !in r
    decreases |s|
  {
    if s == [] then []
    else if s[0] == c then
      var n := RunLength(s, c);
      IndexText(index, n, sinceFirst) + ReplaceRuns(s[n..], c, index, sinceFirst)
    else [s[0]] + ReplaceRuns(s[1..], c, index, sinceFirst)
  }

  /** Replacing runs brings in nothing but digits. */
  lemma {:induction false} ReplaceRunsFresh(s: string, c: char, index: nat, sinceFirst: bool, x: char)
    requires x !in s && !IsDigit(x)
    ensures x !in ReplaceRuns(s, c, index, sinceFirst)
    decreases |s|
  {
    if s != [] {
      if s[0] == c {
        var n := RunLength(s, c);
        ReplaceRunsFresh(s[n..], c, index, sinceFirst, x);
      } else {
        ReplaceRunsFresh(s[1..], c, index, sinceFirst, x);
      }
    }
  }

  /** A string without the run character is left alone. */
  lemma {:induction false} ReplaceRunsWithout(s: string, c: char, index: nat, sinceFirst: bool)
    requires c !in s
    ensures ReplaceRuns(s, c, index, sinceFirst) == s
    decreases |s|
  {
    if s != [] {
      ReplaceRunsWithout(s[1..], c, index, sinceFirst);
    }
  }

  /** A run of `n` characters followed by something else becomes one index text. */
  lemma ReplaceRunsOfRun(c: char, n: nat, t: string, index: nat, sinceFirst: bool)
    requires n >= 1
    requires t == [] || t[0] != c
    ensures ReplaceRuns(Repeat(c, n) + t, c, index, sinceFirst)
         == IndexText(index, n, sinceFirst) + ReplaceRuns(t, c, index, sinceFirst)
  {
    var s := Repeat(c, n) + t;
    assert s[0] == c;
    if t != [] {
      assert s[n] == t[0];
    }
    assert RunLength(s, c) == n;
    assert s[n..] == t;
  }

  /** Replacing runs distributes over a concatenation that does not glue two runs together. */
  lemma {:induction false} ReplaceRunsAppend(a: string, b: string, c: char, index: nat, sinceFirst: bool)
    requires a == [] || b == [] || a[|a| - 1] != c || b[0] != c
    ensures ReplaceRuns(a + b, c, index, sinceFirst)
         == ReplaceRuns(a, c, index, sinceFirst) + ReplaceRuns(b, c, index, sinceFirst)
    decreases |a|, 1
  {
    if a == [] {
      assert a + b == b;
    } else if b == [] {
      assert a + b == a;
    } else if a[0] != c {
      ReplaceRunsAppendPlain(a, b, c, index, sinceFirst);
    } else {
      ReplaceRunsAppendRun(a, b, c, index, sinceFirst);
    }
  }

  /** `ReplaceRunsAppend` when `a` starts with a character that is kept. */
  lemma {:induction false} ReplaceRunsAppendPlain(a: string, b: string, c: char, index: nat, sinceFirst: bool)
    requires a != [] && a[0] != c
    requires b == [] || a[|a| - 1] != c || b[0] != c
    ensures ReplaceRuns(a + b, c, index, sinceFirst)
         == ReplaceRuns(a, c, index, sinceFirst) + ReplaceRuns(b, c, index, sinceFirst)
    decreases |a|, 0
  {
    assert (a + b)[0] == a[0];
    assert (a + b)[1..] == a[1..] + b;
    ReplaceRunsAppend(a[1..], b, c, index, sinceFirst);
    assert ReplaceRuns(a + b, c, index, sinceFirst) == [a[0]] + ReplaceRuns(a[1..] + b, c, index, sinceFirst);
    AppendAssoc([a[0]], ReplaceRuns(a[1..], c, index, sinceFirst), ReplaceRuns(b, c, index, sinceFirst));
  }

  /** `ReplaceRunsAppend` when `a` starts with a run. */
  lemma {:induction false} ReplaceRunsAppendRun(a: string, b: string, c: char, index: nat, sinceFirst: bool)
    requires a != [] && a[0] == c
    requires b == [] || a[|a| - 1] != c || b[0] != c
    ensures ReplaceRuns(a + b, c, index, sinceFirst)
         == ReplaceRuns(a, c, index, sinceFirst) + ReplaceRuns(b, c, index, sinceFirst)
    decreases |a|, 0
  {
    var n := RunLength(a, c);
    if n == |a| {
      assert a[|a| - 1] == c;
    }
    RunLengthAppend(a, b, c);
    assert (a + b)[0] == c;
    assert (a + b)[n..] == a[n..] + b;
    if a[n..] != [] {
      assert a[n..][|a[n..]| - 1] == a[|a| - 1];
    }
    ReplaceRunsAppend(a[n..], b, c, index, sinceFirst);
    var text := IndexText(index, n, sinceFirst);
    assert ReplaceRuns(a + b, c, index, sinceFirst) == text + ReplaceRuns(a[n..] + b, c, index, sinceFirst);
    AppendAssoc(text, ReplaceRuns(a[n..], c, index, sinceFirst), ReplaceRuns(b, c, index, sinceFirst));
  }

  /** The run at the start of `a + b` is that of `a` unless `a` is all run and `b` goes on with it. */
  lemma {:induction false} RunLengthAppend(a: string, b: string, c: char)
    requires RunLength(a, c) < |a| || b == [] || b[0] != c
    ensures RunLength(a + b, c) == RunLength(a, c)
    decreases |a|
  {
    if a == [] {
      assert a + b == b;
    } else if a[0] == c {
      assert (a + b)[0] == c;
      assert (a + b)[1..] == a[1..] + b;
      RunLengthAppend(a[1..], b, c);
    } else {
      assert (a + b)[0] == a[0];
    }
  }

  /** `s` with every `c` removed. */
  function Without(s: string, c: char): string
    decreases |s|
  {
    if s == [] then [] else (if s[0] == c then [] else [s[0]]) + Without(s[1..], c)
  }

  lemma {:induction false} WithoutLeadingRun(s: string, c: char, n: nat)
    requires n <= |s|
    requires forall k :: 0 <= k < n ==> s[k] == c
    ensures Without(s, c) == Without(s[n..], c)
    decreases n
  {
    if n > 0 {
      WithoutLeadingRun(s[1..], c, n - 1);
      assert s[1..][n - 1..] == s[n..];
    }
  }

  /** At index 1 the runs of `i` vanish: the part loses every `i` and keeps the rest. */
  lemma {:induction false} SinceRepeatAtFirstIndex(s: string, c: char)
    ensures ReplaceRuns(s, c, 1, false) == Without(s, c)
    decreases |s|
  {
    if s != [] {
      if s[0] == c {
        var n := RunLength(s, c);
        WithoutLeadingRun(s, c, n);
        SinceRepeatAtFirstIndex(s[n..], c);
      } else {
        SinceRepeatAtFirstIndex(s[1..], c);
      }
    }
  }

  // ---------------------------------------------------------------------------
  // One part, and the whole template

  /** The two index passes, `i` runs first and then `I` runs. */
  function IndexPasses(s: string, index: nat): (r: string)
    ensures 'i' !in r && 'I' !in r
  {
    var withRepeat := ReplaceRuns(s, 'i', index, false);
    ReplaceRunsFresh(withRepeat, 'I', index, true, 'i');
    ReplaceRuns(withRepeat, 'I', index, true)
  }

  /** The three substitutions made in a part outside quotes, in their order: the id, then the index passes. */
  function Substitute(seg: string, fbid: string, index: nat): (r: string)
    ensures 'i' !in r && 'I' !in r
  {
    IndexPasses(ReplaceId(seg, fbid), index)
  }

  /** The substitutions bring in nothing but the id's characters and digits. */
  lemma SubstituteFresh(seg: string, fbid: string, index: nat, x: char)
    requires x !in seg && x !in fbid && !IsDigit(x)
    ensures x !in Substitute(seg, fbid, index)
  {
    ReplaceIdFresh(seg, 0, fbid, x);
    ReplaceRunsFresh(ReplaceId(seg, fbid), 'i', index, false, x);
    ReplaceRunsFresh(ReplaceRuns(ReplaceId(seg, fbid), 'i', index, false), 'I', index, true, x);
  }

  /** Part `idx` as the reducer leaves it: substituted at even positions and at the last one. */
  function ParsePart(parts: seq<string>, idx: nat, fbid: string, index: nat): string
    requires idx < |parts|
  {
    if idx % 2 == 0 || idx == |parts| - 1 then Substitute(parts[idx], fbid, index) else parts[idx]
  }

  /** The first `count` parts as the reducer leaves them. */
  function ParsedPrefix(parts: seq<string>, count: nat, fbid: string, index: nat): (r: seq<string>)
    requires count <= |parts|
    ensures |r| == count
    ensures forall k :: 0 <= k < count ==> r[k] == ParsePart(parts, k, fbid, index)
  {
    if count == 0 then [] else ParsedPrefix(parts, count - 1, fbid, index) + [ParsePart(parts, count - 1, fbid, index)]
  }

  function ParsedParts(parts: seq<string>, fbid: string, index: nat): (r: seq<string>)
    ensures |r| == |parts|
    ensures forall k :: 0 <= k < |parts| ==> r[k] == ParsePart(parts, k, fbid, index)
  {
    ParsedPrefix(parts, |parts|, fbid, index)
  }

  /** The accumulator of `parts.reduce((acc, cur, idx) => acc + "'" + parsed, '')` after `count` parts. */
  function Reduce(parts: seq<string>, count: nat, fbid: string, index: nat): (acc: string)
    requires count <= |parts|
    ensures count >= 1 ==> |acc| >= 1 && acc[0] == '\''
  {
    if count == 0 then []
    else Reduce(parts, count - 1, fbid, index) + "'" + ParsePart(parts, count - 1, fbid, index)
  }

  /** The string handed to the date formatter: the reduction without its leading quote. */
  function Pattern(template: string, fbid: string, index: nat): string {
    var parts := Split(template, '\'');
    Reduce(parts, |parts|, fbid, index)[1..]
  }

  /** The namer for one download: the pattern rendered by the date formatter. */
  function Format(template: string, render: Renderer, fbid: string, date: Date, index: nat): string {
    render(date, Pattern(template, fbid, index))
  }

  /** `parseFormatString(template)`: the template compiled once into a namer. */
  function Compile(template: string, render: Renderer): Formatter {
    (fbid: string, date: Date, index: nat) => Format(template, render, fbid, date, index)
  }

  // ---------------------------------------------------------------------------
  // Properties of the compiled template

  /** After `count` parts the reducer holds a quote and the first `count` parsed parts joined by quotes. */
  lemma {:induction false} ReduceIsJoin(parts: seq<string>, count: nat, fbid: string, index: nat)
    requires 1 <= count <= |parts|
    ensures Reduce(parts, count, fbid, index) == "'" + Join(ParsedPrefix(parts, count, fbid, index), "'")
    decreases count
  {
    var last := ParsePart(parts, count - 1, fbid, index);
    var prefix := ParsedPrefix(parts, count - 1, fbid, index);
    assert ParsedPrefix(parts, count, fbid, index) == prefix + [last];
    if count == 1 {
      assert prefix + [last] == [last];
    } else {
      ReduceIsJoin(parts, count - 1, fbid, index);
      JoinSnoc(prefix, last, "'");
    }
  }

  /** The pattern is the parsed parts joined by quotes. */
  lemma PatternIsJoin(template: string, fbid: string, index: nat)
    ensures Pattern(template, fbid, index) == Join(ParsedParts(Split(template, '\''), fbid, index), "'")
  {
    var parts := Split(template, '\'');
    ReduceIsJoin(parts, |parts|, fbid, index);
  }

  lemma {:induction false} SplitFresh(s: string, sep: char, x: char)
    requires x !in s
    ensures forall k :: 0 <= k < |Split(s, sep)| ==> x !in Split(s, sep)[k]
    decreases |s|
  {
    if s != [] {
      SplitFresh(s[1..], sep, x);
    }
  }

  /** A template with no `f`, `i` or `I` reaches the date formatter unchanged. */
  lemma PlainTemplateUnchanged(template: string, fbid: string, index: nat)
    requires 'f' !in template && 'i' !in template && 'I' !in template
    ensures Pattern(template, fbid, index) == template
  {
    var parts := Split(template, '\'');
    SplitFresh(template, '\'', 'f');
    SplitFresh(template, '\'', 'i');
    SplitFresh(template, '\'', 'I');
    forall k | 0 <= k < |parts|
      ensures ParsedParts(parts, fbid, index)[k] == parts[k]
    {
      ReplaceIdWithoutF(parts[k], 0, fbid);
      assert parts[k][0..] == parts[k];
      ReplaceRunsWithout(parts[k], 'i', index, false);
      ReplaceRunsWithout(parts[k], 'I', index, true);
    }
    assert ParsedParts(parts, fbid, index) == parts;
    PatternIsJoin(template, fbid, index);
    JoinSplit(template, '\'');
  }

  /**
    For an id without a quote, the formatter sees the template's quote
    structure: the same number of parts, the parts at odd positions other
    than the last verbatim, and every other part substituted (the last one
    even at an odd position).
   */
  lemma PatternParts(template: string, fbid: string, index: nat)
    requires '\'' !in fbid
    ensures var parts := Split(template, '\'');
      var segs := Split(Pattern(template, fbid, index), '\'');
      |segs| == |parts| &&
      forall k :: 0 <= k < |parts| ==>
        segs[k] == (if k % 2 == 0 || k == |parts| - 1 then Substitute(parts[k], fbid, index) else parts[k])
  {
    var parts := Split(template, '\'');
    var parsed := ParsedParts(parts, fbid, index);
    forall k | 0 <= k < |parts|
      ensures '\'' !in parsed[k]
    {
      if k % 2 == 0 || k == |parts| - 1 {
        SubstituteFresh(parts[k], fbid, index, '\'');
      }
    }
    PatternIsJoin(template, fbid, index);
    SplitJoin(parsed, '\'');
  }

  /**
    A template with no index placeholder, filled with an id that holds no
    `i` or `I`, names a download the same way at every index.
   */
  lemma StaticTemplate(template: string, render: Renderer, fbid: string, date: Date, j: nat, k: nat)
    requires 'i' !in template && 'I' !in template
    requires 'i' !in fbid && 'I' !in fbid
    ensures Format(template, render, fbid, date, j) == Format(template, render, fbid, date, k)
  {
    var parts := Split(template, '\'');
    SplitFresh(template, '\'', 'i');
    SplitFresh(template, '\'', 'I');
    forall n | 0 <= n < |parts|
      ensures ParsedParts(parts, fbid, j)[n] == ParsedParts(parts, fbid, k)[n]
    {
      var withId := ReplaceId(parts[n], fbid);
      ReplaceIdFresh(parts[n], 0, fbid, 'i');
      ReplaceIdFresh(parts[n], 0, fbid, 'I');
      ReplaceRunsWithout(withId, 'i', j, false);
      ReplaceRunsWithout(withId, 'i', k, false);
      ReplaceRunsWithout(withId, 'I', j, true);
      ReplaceRunsWithout(withId, 'I', k, true);
    }
    assert ParsedParts(parts, fbid, j) == ParsedParts(parts, fbid, k);
    PatternIsJoin(template, fbid, j);
    PatternIsJoin(template, fbid, k);
  }

  /** In a part without `f`, only the two index passes act. */
  lemma SubstituteWithoutF(seg: string, fbid: string, index: nat)
    requires 'f' !in seg
    ensures Substitute(seg, fbid, index) == IndexPasses(seg, index)
  {
    ReplaceIdWithoutF(seg, 0, fbid);
    assert seg[0..] == seg;
  }

  /** A part that is one run of index characters becomes the index text of that run. */
  lemma IndexPassesOfRun(c: char, n: nat, index: nat)
    requires c == 'i' || c == 'I'
    requires n >= 1
    ensures IndexPasses(Repeat(c, n), index) == IndexText(index, n, c == 'I')
  {
    var run := Repeat(c, n);
    var text := IndexText(index, n, c == 'I');
    assert run + [] == run;
    assert text + [] == text;
    if c == 'i' {
      ReplaceRunsOfRun('i', n, [], index, false);
      assert 'I' !in text;
      ReplaceRunsWithout(text, 'I', index, true);
    } else {
      assert 'i' !in run;
      ReplaceRunsWithout(run, 'i', index, false);
      ReplaceRunsOfRun('I', n, [], index, true);
    }
  }

  /** `III` at index 7 is `007`: the run's length is the minimum width. */
  lemma PaddedRun()
    ensures IndexPasses(Repeat('I', 3), 7) == "007"
  {
    IndexPassesOfRun('I', 3, 7);
    assert Decimal(7) == "7";
    assert PadStart("7", 3, '0') == Repeat('0', 2) + "7";
  }

  /** A run of `I` renders the index at index 1 too. */
  lemma SinceFirstAtFirstIndex()
    ensures IndexPasses(Repeat('I', 1), 1) == "1"
  {
    IndexPassesOfRun('I', 1, 1);
    assert Decimal(1) == "1";
  }

  /** A run of `i` of any length vanishes at index 1. */
  lemma SinceRepeatAtFirst(n: nat)
    requires n >= 1
    ensures IndexPasses(Repeat('i', n), 1) == ""
  {
    IndexPassesOfRun('i', n, 1);
  }

  /**
    From index 2 on, a run of `i` renders the index itself: the first
    repeated download gets `02` for `ii`, not `01`.
   */
  lemma SinceRepeatAtSecond()
    ensures IndexPasses(Repeat('i', 2), 2) == "02"
  {
    IndexPassesOfRun('i', 2, 2);
    assert Decimal(2) == "2";
    assert PadStart("2", 2, '0') == Repeat('0', 1) + "2";
  }

  /** A number longer than the run is not cut: `i` at index 12 is `12`. */
  lemma LongIndexNotCut()
    ensures IndexPasses(Repeat('i', 1), 12) == "12"
  {
    IndexPassesOfRun('i', 1, 12);
    DecimalTwoDigits(12);
    assert DigitChar(1) == '1' && DigitChar(2) == '2';
  }

  /** The id is inserted before the index passes, so an `i` inside the id is itself replaced. */
  lemma IdBeforeIndex()
    ensures Substitute("f", "i", 3) == "3"
  {
    assert ReplaceId("f", "i") == Repeat('i', 1) by {
      ReplaceIdIsLiteral("f", 0, "i");
      assert ReplaceChar("f", 'f', "i") == "i" + ReplaceChar([], 'f', "i");
    }
    IndexPassesOfRun('i', 1, 3);
    assert Decimal(3) == "3";
  }

  /** At index 1 the vanished `i` run lets the two `I` runs around it merge into one. */
  lemma RunsMergeAtFirst()
    ensures IndexPasses("IiI", 1) == "01"
  {
    assert ReplaceRuns("IiI", 'i', 1, false) == Repeat('I', 2) by {
      SinceRepeatAtFirstIndex("IiI", 'i');
      assert "IiI"[1..] == "iI";
      assert "iI"[1..] == "I";
      assert Without("I", 'i') == "I";
      assert Without("iI", 'i') == "I";
    }
    assert ReplaceRuns(Repeat('I', 2), 'I', 1, true) == IndexText(1, 2, true) by {
      assert Repeat('I', 2) + [] == Repeat('I', 2);
      ReplaceRunsOfRun('I', 2, [], 1, true);
    }
    assert Decimal(1) == "1";
    assert PadStart("1", 2, '0') == Repeat('0', 1) + "1";
  }

  /** A template of three parts: the quoted middle part is kept, the two others are substituted. */
  lemma ThreeParts(a: string, b: string, c: string, fbid: string, index: nat)
    requires '\'' !in a && '\'' !in b && '\'' !in c
    ensures Pattern(Join([a, b, c], "'"), fbid, index)
         == Join([Substitute(a, fbid, index), b, Substitute(c, fbid, index)], "'")
  {
    var parts := [a, b, c];
    SplitJoin(parts, '\'');
    PatternIsJoin(Join(parts, "'"), fbid, index);
    var parsed := ParsedParts(parts, fbid, index);
    assert parsed[0] == Substitute(a, fbid, index) && parsed[1] == b && parsed[2] == Substitute(c, fbid, index);
    assert parsed == [Substitute(a, fbid, index), b, Substitute(c, fbid, index)];
  }

  /** A template of two parts: the second is the last one, so both are substituted. */
  lemma TwoParts(a: string, b: string, fbid: string, index: nat)
    requires '\'' !in a && '\'' !in b
    ensures Pattern(Join([a, b], "'"), fbid, index) == Join([Substitute(a, fbid, index), Substitute(b, fbid, index)], "'")
  {
    var parts := [a, b];
    SplitJoin(parts, '\'');
    PatternIsJoin(Join(parts, "'"), fbid, index);
    var parsed := ParsedParts(parts, fbid, index);
    assert parsed[0] == Substitute(a, fbid, index) && parsed[1] == Substitute(b, fbid, index);
    assert parsed == [Substitute(a, fbid, index), Substitute(b, fbid, index)];
  }

  /** Quoted parts are not substituted: `f'f'f` keeps its middle `f`. */
  lemma QuotedParts(fbid: string, index: nat)
    requires '$' !in fbid && 'i' !in fbid && 'I' !in fbid
    ensures Pattern("f'f'f", fbid, index) == Join([fbid, "f", fbid], "'")
  {
    JoinThree("f", "f", "f", "'");
    assert Join(["f", "f", "f"], "'") == "f'f'f";
    ThreeParts("f", "f", "f", fbid, index);
    SubstituteIdOnly(fbid, index);
  }

  /** The last part is substituted even at an odd position, after an unmatched quote. */
  lemma LastPartSubstituted(fbid: string, index: nat)
    requires '$' !in fbid && 'i' !in fbid && 'I' !in fbid
    ensures Pattern("'f", fbid, index) == Join(["", fbid], "'")
  {
    assert Join(["", "f"], "'") == "'f";
    TwoParts("", "f", fbid, index);
    SubstituteIdOnly(fbid, index);
    assert Substitute("", fbid, index) == "";
  }

  /** A part that is a lone `f` becomes the id, when the id has no `$` and no index character. */
  lemma SubstituteIdOnly(fbid: string, index: nat)
    requires '$' !in fbid && 'i' !in fbid && 'I' !in fbid
    ensures Substitute("f", fbid, index) == fbid
  {
    assert ReplaceId("f", fbid) == fbid by {
      ReplaceIdIsLiteral("f", 0, fbid);
      assert "f"[0..] == "f";
      assert ReplaceChar("f", 'f', fbid) == fbid + ReplaceChar([], 'f', fbid);
      assert fbid + [] == fbid;
    }
    ReplaceRunsWithout(fbid, 'i', index, false);
    ReplaceRunsWithout(fbid, 'I', index, true);
  }
}
