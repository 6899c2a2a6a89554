/**
  download.py, the script mod.ts replaced. Every line of the id file has its
  trailing whitespace stripped and is requested as it is, blank or not. The
  picture address is taken from the page without the home-page check; when
  there is none the script stops with an error. The picture is saved in the
  output folder under its date stamp, `stamp.jpg`, or else the first of
  `stamp 1.jpg`, `stamp 2.jpg`, ... that is free.

  The output folder is created by the script, so it starts empty; `folder` is
  the set of names in it.
 */
module Legacy {
  import opened Wrappers
  import opened Strings
  import opened Fetch

  const Ext: string := ".jpg"

  /** The name tried after `tries` taken names: `stamp + EXT`, then `stamp + ' ' + str(i) + EXT` for i = 1, 2, ... */
  function Candidate(stamp: string, tries: nat): (name: string)
    ensures |name| == |stamp| + 4 + (if tries == 0 then 0 else 1 + |Decimal(tries)|)
  {
    if tries == 0 then stamp + Ext else stamp + " " + Decimal(tries) + Ext
  }

  /** A candidate is the stamp, then a space and the count of taken names when there are any, then `.jpg`. */
  lemma CandidateShape(stamp: string, tries: nat)
    ensures var name := Candidate(stamp, tries);
      && StartsWith(name, stamp) && name[|name| - 4..] == Ext
      && (tries == 0 <==> |name| == |stamp| + 4)
      && (tries > 0 ==> name[|stamp|] == ' ' && name[|stamp| + 1..|name| - 4] == Decimal(tries))
  {
  }

  /** `tries` is the number of names the rename loop finds taken before a free one. */
  ghost predicate FirstFree(stamp: string, folder: set<string>, tries: nat) {
    && Candidate(stamp, tries) !in folder
    && forall t :: 0 <= t < tries ==> Candidate(stamp, t) in folder
  }

  /** The candidates before the `count`-th. */
  function Candidates(stamp: string, count: nat): set<string> {
    if count == 0 then {} else Candidates(stamp, count - 1) + {Candidate(stamp, count - 1)}
  }

  /** The rename loop of download.py:40-46: the first candidate name not in the folder, and how many were taken. */
  method FreeName(stamp: string, folder: set<string>) returns (name: string, tries: nat)
    ensures name == Candidate(stamp, tries)
    ensures FirstFree(stamp, folder, tries)
  {
    name := stamp + Ext;
    var i := 1;
    // The candidates found taken so far: all different, so the loop ends once the folder is used up.
    ghost var taken: set<string> := {};
    while name in folder
      invariant i >= 1 && name == Candidate(stamp, i - 1)
      invariant taken == Candidates(stamp, i - 1) && taken <= folder && |taken| == i - 1
      invariant forall t :: 0 <= t < i - 1 ==> Candidate(stamp, t) in folder
      decreases |folder| - |taken|
    {
      NewCandidate(stamp, i - 1);
      taken := taken + {name};
      assert |taken| <= |folder| by {
        SubsetCardinality(taken, folder);
      }
      name := stamp + " " + Decimal(i) + Ext;
      i := i + 1;
    }
    tries := i - 1;
  }

  lemma SubsetCardinality(a: set<string>, b: set<string>)
    requires a <= b
    ensures |a| <= |b|
  {
    assert b == a + (b - a);
  }

  /** No two attempts of the rename loop try the same name. */
  lemma CandidatesDistinct(stamp: string, j: nat, k: nat)
    requires Candidate(stamp, j) == Candidate(stamp, k)
    ensures j == k
  {
    if j != 0 && k != 0 {
      var c := Candidate(stamp, j);
      var from := |stamp| + 1;
      assert c[from..|c| - 4] == Decimal(j);
      assert Candidate(stamp, k)[from..|c| - 4] == Decimal(k);
      DecimalInjective(j, k);
    }
  }

  /** The next candidate is not among the earlier ones. */
  lemma {:induction false} NewCandidate(stamp: string, count: nat)
    ensures Candidate(stamp, count) !in Candidates(stamp, count)
    ensures |Candidates(stamp, count)| == count
    decreases count
  {
    if count > 0 {
      NewCandidate(stamp, count - 1);
    }
    NotEarlier(stamp, count, count);
  }

  /** A candidate is in the set of those before `count` only when its number is below `count`. */
  lemma {:induction false} NotEarlier(stamp: string, count: nat, k: nat)
    requires count <= k
    ensures Candidate(stamp, k) !in Candidates(stamp, count)
    decreases count
  {
    if count > 0 {
      NotEarlier(stamp, count - 1, k);
      if Candidate(stamp, k) == Candidate(stamp, count - 1) {
        CandidatesDistinct(stamp, k, count - 1);
      }
    }
  }

  /** The loop's answer is the only one: a folder determines the number of taken names. */
  lemma FirstFreeUnique(stamp: string, folder: set<string>, t1: nat, t2: nat)
    requires FirstFree(stamp, folder, t1) && FirstFree(stamp, folder, t2)
    ensures t1 == t2
  {
  }

  // ---------------------------------------------------------------------------
  // The whole script

  /** What happened to one line. */
  datatype Entry =
    | Saved(request: string, url: string, tries: nat, name: string)
    | Crashed(request: string)   // `re.search` found nothing: `.group(0)` on `None` ends the script

  /** The names in the output folder after the entries so far. */
  function Folder(log: seq<Entry>): set<string>
    decreases |log|
  {
    if log == [] then {}
    else
      var last := log[|log| - 1];
      Folder(log[..|log| - 1]) + (if last.Saved? then {last.name} else {})
  }

  /**
    `e` is what download.py:18-46 does with the n-th line when the folder
    holds `folder`. `stamp` is the date stamp of the n-th saved file.
   */
  ghost predicate LineOk(page: string -> string, stamp: nat -> string, folder: set<string>, line: string, n: nat, e: Entry) {
    var request := RequestUrl(RStrip(line));
    match LegacyRedirectTarget(page(request))
    case None => e == Crashed(request)
    case Some(url) =>
      && e.Saved?
      && e == Saved(request, url, e.tries, Candidate(stamp(n), e.tries))
      && FirstFree(stamp(n), folder, e.tries)
  }

  /** Each entry is the one of its line, given the folder the entries before it left. */
  ghost predicate Log(page: string -> string, stamp: nat -> string, lines: seq<string>, log: seq<Entry>)
    decreases |log|
  {
    && |log| <= |lines|
    && (log != [] ==>
         var n := |log| - 1;
         && Log(page, stamp, lines, log[..n])
         && (n == 0 || log[n - 1].Saved?)
         && LineOk(page, stamp, Folder(log[..n]), lines[n], n, log[n]))
  }

  /**
    The script over the lines of the id file: an entry per line up to the
    first line whose page has no address, and the names in the folder then.
   */
  method Run(lines: seq<string>, page: string -> string, stamp: nat -> string) returns (log: seq<Entry>, folder: set<string>)
    ensures Log(page, stamp, lines, log)
    ensures |log| == |lines| || (log != [] && log[|log| - 1].Crashed?)
    ensures folder == Folder(log)
  {
    log := [];
    folder := {};
    var n := 0;
    while n < |lines|
      invariant n <= |lines| && |log| == n
      invariant Log(page, stamp, lines, log)
      invariant n > 0 ==> log[n - 1].Saved?
      invariant folder == Folder(log)
    {
      var e := HandleLine(page, stamp, n, folder, lines[n]);
      LogSnoc(page, stamp, lines, log, e);
      log := log + [e];
      if e.Crashed? {
        return;
      }
      folder := folder + {e.name};
      n := n + 1;
    }
  }

  /** The log grows by the entry of its next line, and the folder by that entry's name. */
  lemma {:induction false} LogSnoc(page: string -> string, stamp: nat -> string, lines: seq<string>, log: seq<Entry>, e: Entry)
    requires Log(page, stamp, lines, log) && |log| < |lines|
    requires log == [] || log[|log| - 1].Saved?
    requires LineOk(page, stamp, Folder(log), lines[|log|], |log|, e)
    ensures Log(page, stamp, lines, log + [e])
    ensures Folder(log + [e]) == Folder(log) + (if e.Saved? then {e.name} else {})
  {
    var log' := log + [e];
    assert log'[..|log|] == log && log'[|log|] == e;
  }

  /** One pass of the loop body of download.py:18-46 for `line`, with the folder holding `folder`. */
  method HandleLine(page: string -> string, stamp: nat -> string, n: nat, folder: set<string>, line: string) returns (e: Entry)
    ensures LineOk(page, stamp, folder, line, n, e)
  {
    var fbid := RStrip(line);
    var request := Prefix + fbid;
    var target := LegacyRedirectTarget(page(request));
    if target.None? {
      return Crashed(request);
    }
    var name, tries := FreeName(stamp(n), folder);
    e := Saved(request, target.value, tries, name);
  }

  // ---------------------------------------------------------------------------
  // Properties

  lemma {:induction false} LogEntry(page: string -> string, stamp: nat -> string, lines: seq<string>, log: seq<Entry>, i: nat)
    requires Log(page, stamp, lines, log)
    requires i < |log|
    ensures LineOk(page, stamp, Folder(log[..i]), lines[i], i, log[i])
    ensures i < |log| - 1 ==> log[i].Saved?
    decreases |log|
  {
    var n := |log| - 1;
    if i < n {
      var init := log[..n];
      LogEntry(page, stamp, lines, init, i);
      assert init[..i] == log[..i] && init[i] == log[i];
      if i < n - 1 {
        assert init[i].Saved?;
      } else {
        assert log[n - 1].Saved?;
      }
    }
  }

  /** A name saved earlier is in the folder at every later line. */
  lemma {:induction false} FolderKeeps(log: seq<Entry>, i: nat, j: nat)
    requires i < j <= |log| && log[i].Saved?
    ensures log[i].name in Folder(log[..j])
    decreases j
  {
    assert log[..j][..j - 1] == log[..j - 1];
    if i < j - 1 {
      FolderKeeps(log, i, j - 1);
    }
  }

  /** The script never overwrites: the names it saves are pairwise different. */
  lemma SavedNamesDistinct(page: string -> string, stamp: nat -> string, lines: seq<string>, log: seq<Entry>, i: nat, j: nat)
    requires Log(page, stamp, lines, log)
    requires i < j < |log| && log[i].Saved? && log[j].Saved?
    ensures log[i].name != log[j].name
  {
    LogEntry(page, stamp, lines, log, j);
    FolderKeeps(log, i, j);
  }

  /** The folder holds exactly the saved names. */
  lemma {:induction false} FolderIsSaved(log: seq<Entry>, name: string)
    ensures name in Folder(log) <==> exists i :: 0 <= i < |log| && log[i].Saved? && log[i].name == name
    decreases |log|
  {
    if log != [] {
      var n := |log| - 1;
      FolderIsSaved(log[..n], name);
      if exists i :: 0 <= i < n && log[..n][i].Saved? && log[..n][i].name == name {
        var i :| 0 <= i < n && log[..n][i].Saved? && log[..n][i].name == name;
        assert log[i] == log[..n][i];
      }
      if exists i :: 0 <= i < |log| && log[i].Saved? && log[i].name == name {
        var i :| 0 <= i < |log| && log[i].Saved? && log[i].name == name;
        if i < n {
          assert log[..n][i] == log[i];
        }
      }
    }
  }

  /** The script asks for the home page's picture: the address the service gives an invalid id is downloaded. */
  lemma HomeIsNotRejected(body: string)
    requires Extract(Python, body) == Some(Home)
    ensures LegacyRedirectTarget(body) == Some(Home)
  {
    UnescapeIsHome(Home);
  }

  /** The first names tried for a stamp. */
  lemma FirstCandidates()
    ensures Candidate("20160519", 0) == "20160519.jpg"
    ensures Candidate("20160519", 1) == "20160519 1.jpg"
    ensures Candidate("20160519", 12) == "20160519 12.jpg"
  {
    assert Decimal(1) == "1";
    DecimalTwoDigits(12);
    assert DigitChar(1) == '1' && DigitChar(2) == '2';
  }
}
