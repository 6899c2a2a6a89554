/**
  `readCookies` of mod.ts: the lines of a cookie file in the curl (Netscape)
  format become the value of a `Cookie` request header. Blank lines and lines
  starting with `# ` are skipped; every other line gives `name=value` from
  its last two tab-separated fields, and the pairs are joined with `; `.
  Duplicate names are kept, in file order.
 */
module Cookies {
  import opened Strings

  /** A line that is skipped: blank once trimmed, or a `# ` comment (a `#` followed by anything else is a cookie). */
  predicate IsCommentLine(line: string) {
    Trim(line) == "" || StartsWith(line, "# ")
  }

  /**
    The pair a cookie line gives: the second-to-last and the last tab field.
    A line without a tab has no second-to-last field; JavaScript then reads
    `undefined`, and template interpolation writes that word out.
   */
  function CookieOf(line: string): (pair: string)
    ensures '=' in pair
  {
    var pieces := Split(line, '\t');
    var name := if |pieces| >= 2 then pieces[|pieces| - 2] else "undefined";
    var pair := name + "=" + pieces[|pieces| - 1];
    assert pair[|name|] == '=';
    pair
  }

  /** The pairs of the kept lines, in order. */
  function CookiePairs(lines: seq<string>): (pairs: seq<string>)
    ensures |pairs| <= |lines|
    ensures forall k :: 0 <= k < |pairs| ==> '=' in pairs[k]
    decreases |lines|
  {
    if lines == [] then []
    else
      var last := lines[|lines| - 1];
      CookiePairs(lines[..|lines| - 1]) + (if IsCommentLine(last) then [] else [CookieOf(last)])
  }

  /** The loop of mod.ts:199-215 over the lines already read from the file. */
  method ReadCookies(lines: seq<string>) returns (header: string)
    ensures header == Join(CookiePairs(lines), "; ")
  {
    var cookies: seq<string> := [];
    var i := 0;
    while i < |lines|
      invariant 0 <= i <= |lines|
      invariant cookies == CookiePairs(lines[..i])
    {
      var line := lines[i];
      assert lines[..i + 1][..i] == lines[..i];
      i := i + 1;
      if Trim(line) == "" || StartsWith(line, "# ") {
        continue;
      }
      cookies := cookies + [CookieOf(line)];
    }
    assert lines[..|lines|] == lines;
    header := Join(cookies, "; ");
  }

  // ---------------------------------------------------------------------------
  // Properties

  /** A line made of tab-free fields, at least two, gives its last two fields as name and value. */
  lemma CookieOfFields(fields: seq<string>)
    requires |fields| >= 2
    requires forall k :: 0 <= k < |fields| ==> '\t' !in fields[k]
    ensures CookieOf(Join(fields, "\t")) == fields[|fields| - 2] + "=" + fields[|fields| - 1]
  {
    SplitJoin(fields, '\t');
  }

  /** A line without a tab gives the name `undefined` and the whole line as value. */
  lemma CookieOfNoTab(line: string)
    requires '\t' !in line
    ensures CookieOf(line) == "undefined=" + line
  {
    SplitPrefix(line, [], '\t');
    assert line + [] == line;
  }

  /** The pairs of two runs of lines are the pairs of the first followed by those of the second. */
  lemma {:induction false} CookiePairsAppend(a: seq<string>, b: seq<string>)
    ensures CookiePairs(a + b) == CookiePairs(a) + CookiePairs(b)
    decreases |b|
  {
    if b == [] {
      assert a + b == a;
    } else {
      var init, last := b[..|b| - 1], b[|b| - 1];
      var tail := if IsCommentLine(last) then [] else [CookieOf(last)];
      CookiePairsAppend(a, init);
      assert (a + b)[..|a + b| - 1] == a + init;
      assert (a + b)[|a + b| - 1] == last;
      assert CookiePairs(a + b) == CookiePairs(a + init) + tail;
      assert CookiePairs(b) == CookiePairs(init) + tail;
      AppendAssoc(CookiePairs(a), CookiePairs(init), tail);
    }
  }

  /** With no line skipped, every line gives one pair at its own position: order and duplicates are kept. */
  lemma {:induction false} CookiePairsOfCookieLines(lines: seq<string>)
    requires forall k :: 0 <= k < |lines| ==> !IsCommentLine(lines[k])
    ensures |CookiePairs(lines)| == |lines|
    ensures forall k :: 0 <= k < |lines| ==> CookiePairs(lines)[k] == CookieOf(lines[k])
    decreases |lines|
  {
    if lines != [] {
      var init := lines[..|lines| - 1];
      var last := lines[|lines| - 1];
      CookiePairsOfCookieLines(init);
      assert !IsCommentLine(last);
      assert CookiePairs(lines) == CookiePairs(init) + [CookieOf(last)];
    }
  }

  /** Skipped lines contribute nothing. */
  lemma {:induction false} CookiePairsOfCommentLines(lines: seq<string>)
    requires forall k :: 0 <= k < |lines| ==> IsCommentLine(lines[k])
    ensures CookiePairs(lines) == []
    decreases |lines|
  {
    if lines != [] {
      CookiePairsOfCommentLines(lines[..|lines| - 1]);
    }
  }

  /** A kept line anywhere gives at least one pair. */
  lemma {:induction false} CookiePairsOfCookieLine(lines: seq<string>, k: nat)
    requires k < |lines| && !IsCommentLine(lines[k])
    ensures CookiePairs(lines) != []
    decreases |lines|
  {
    var init := lines[..|lines| - 1];
    if k < |lines| - 1 {
      assert init[k] == lines[k];
      CookiePairsOfCookieLine(init, k);
    }
  }

  /** The header is empty exactly when every line is skipped. */
  lemma HeaderEmpty(lines: seq<string>)
    ensures Join(CookiePairs(lines), "; ") == "" <==> forall k :: 0 <= k < |lines| ==> IsCommentLine(lines[k])
  {
    var pairs := CookiePairs(lines);
    JoinEmpty(pairs, "; ");
    assert pairs != [[]] by {
      if |pairs| == 1 {
        assert '=' in pairs[0];
      }
    }
    if forall k :: 0 <= k < |lines| ==> IsCommentLine(lines[k]) {
      CookiePairsOfCommentLines(lines);
    } else {
      var k: nat :| k < |lines| && !IsCommentLine(lines[k]);
      CookiePairsOfCookieLine(lines, k);
    }
  }

  /** A `# ` line is a comment. */
  lemma CommentLineSkipped()
    ensures CookiePairs(["# Netscape HTTP Cookie File"]) == []
  {
    var comment := "# Netscape HTTP Cookie File";
    assert StartsWith(comment, "# ");
    assert CookiePairs([comment]) == CookiePairs([]) + [];
  }

  /** A `#` followed by anything but a space starts a cookie line. */
  lemma HashLineKept(line: string)
    requires |line| >= 2 && line[0] == '#' && line[1] != ' '
    ensures !IsCommentLine(line)
  {
    assert line[..2] != "# " by {
      assert line[..2][1] == line[1];
    }
    TrimNonSpace(line, 0);
  }

  /** curl's `#HttpOnly_` lines are cookies: the domain field's prefix does not make them comments. */
  lemma HashCookieKept(domain: string, name: string, value: string)
    requires '\t' !in domain && '\t' !in name && '\t' !in value
    ensures CookiePairs(["#HttpOnly_" + domain + "\t" + name + "\t" + value]) == [name + "=" + value]
  {
    var first := "#HttpOnly_" + domain;
    var line := first + "\t" + name + "\t" + value;
    var fields := [first, name, value];
    assert Join(fields[1..], "\t") == name + "\t" + value by {
      assert fields[1..][1..] == [value];
    }
    assert Join(fields, "\t") == line;
    assert '\t' !in first by {
      forall j | 0 <= j < |first| ensures first[j] != '\t' {
        if j >= 10 {
          assert first[j] == domain[j - 10];
        }
      }
    }
    CookieOfFields(fields);
    HashLineKept(line);
    assert [line][..0] == [];
  }
}
