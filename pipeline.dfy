/**
  The per-identifier loop of mod.ts `download`. Each line is trimmed; a blank
  line or one starting with `#` is skipped. The trimmed id is resolved to a
  picture address (`fetchRedirect`); an id that does not resolve is skipped.
  The picture's `last-modified` header gives the date, or the clock does when
  the header is missing. The collision loop picks a name, the name's parent
  directory is created and the picture is written there.

  The filesystem is `storage`, the set of paths that exist: a write adds the
  file and the directories `ensureDir` creates for it. The network, the date
  parser and the clock are the parameters collected in `World`.
 */
module Pipeline {
  import opened Wrappers
  import opened Strings
  import opened FormatString
  import opened Collision
  import opened Fetch

  /** What the program cannot compute itself: pages served, picture headers, date parsing, the clock. */
  datatype World = World(
    page: string -> string,                  // the body served for a request address
    lastModified: string -> Option<string>,  // the `last-modified` header of a picture address
    parseDate: string -> Date,               // `new Date(header)`
    now: nat -> Date)                        // `new Date()` while the n-th line is handled

  /** What happened to one line. */
  datatype Outcome =
    | Skipped                     // blank, or a `#` comment
    | Unresolved(request: string) // the picture page did not give an address
    | Written(url: string, date: Date, dateWarned: bool, index: nat, path: string, dir: string)

  // ---------------------------------------------------------------------------
  // Directories

  /** `name.split('/').slice(0, -1).join('/')`: the name without its last `/`-part. */
  function ParentDir(name: string): string {
    var parts := Split(name, '/');
    Join(parts[..|parts| - 1], "/")
  }

  /**
    The directories that exist after `ensureDir(dir)`: the directory and every
    ancestor, each a prefix of `dir` ending at a `/` or at its end. The empty
    path names no directory.
   */
  function DirChain(dir: string): (dirs: set<string>)
    ensures dir != "" ==> dir in dirs
    ensures forall d :: d in dirs ==> d != "" && StartsWith(dir, d)
    ensures forall p :: 0 < p < |dir| && dir[p] == '/' ==> dir[..p] in dirs
  {
    var dirs := set p | 0 < p <= |dir| && (p == |dir| || dir[p] == '/') :: dir[..p];
    assert dir[..|dir|] == dir;
    assert dir != "" ==> dir[..|dir|] in dirs;
    dirs
  }

  /** The paths an outcome makes exist. */
  function Effect(storage: set<string>, o: Outcome): (after: set<string>)
    ensures storage <= after
    ensures o.Written? ==> o.path in after && DirChain(o.dir) <= after
    ensures !o.Written? ==> after == storage
  {
    if o.Written? then storage + {o.path} + DirChain(o.dir) else storage
  }

  /** The storage after a run of outcomes, from the first to the last. */
  function Apply(storage: set<string>, outcomes: seq<Outcome>): set<string>
    decreases |outcomes|
  {
    if outcomes == [] then storage
    else Effect(Apply(storage, outcomes[..|outcomes| - 1]), outcomes[|outcomes| - 1])
  }

  /** Everything a run of outcomes writes, whatever was there before. */
  function Footprint(outcomes: seq<Outcome>): set<string>
    decreases |outcomes|
  {
    if outcomes == [] then {}
    else
      var o := outcomes[0];
      (if o.Written? then {o.path} + DirChain(o.dir) else {}) + Footprint(outcomes[1..])
  }

  // ---------------------------------------------------------------------------
  // One line

  /** A trimmed line that is skipped without any request. */
  predicate IsSkipped(trim: string) {
    trim == "" || StartsWith(trim, "#")
  }

  /** The date used for a picture: its header parsed, or the clock when there is no header. */
  function ChosenDate(world: World, url: string, n: nat): Date {
    var header := world.lastModified(url);
    if header.None? then world.now(n) else world.parseDate(header.value)
  }

  /**
    `o` is what mod.ts:110-155 does with the n-th line `fbid` when the paths in
    `storage` exist. The request is made with the trimmed id, while the namer
    is given the line as read. The date warning is printed only without
    `quiet`; the unresolved warning of fetchRedirect is printed always.
   */
  ghost predicate StepOk(world: World, formatter: Formatter, quiet: bool, storage: set<string>, fbid: string, n: nat, o: Outcome) {
    var trim := Trim(fbid);
    if IsSkipped(trim) then o == Skipped
    else
      match RedirectTarget(world.page(RequestUrl(trim)))
      case None => o == Unresolved(RequestUrl(trim))
      case Some(url) =>
        && o.Written?
        && o.url == url
        && o.date == ChosenDate(world, url, n)
        && o.dateWarned == (world.lastModified(url).None? && !quiet)
        && StopsAt(formatter, fbid, o.date, storage, o.index)
        && o.path == formatter(fbid, o.date, o.index)
        && o.dir == ParentDir(o.path)
  }

  /**
    The loop of mod.ts:97-157 over the lines `ids`. The outcome of each line
    is the one `StepOk` describes for the storage the earlier lines left, and
    the storage at the end is the one all of them leave.
   */
  method Download(ids: seq<string>, world: World, template: string, render: Renderer, quiet: bool, storage: set<string>)
    returns (outcomes: seq<Outcome>, final: set<string>)
    requires forall fbid, date :: Separating(Compile(template, render), fbid, date)
    ensures |outcomes| == |ids|
    ensures forall i :: 0 <= i < |ids| ==>
      StepOk(world, Compile(template, render), quiet, Apply(storage, outcomes[..i]), ids[i], i, outcomes[i])
    ensures final == Apply(storage, outcomes)
  {
    var formatter := Compile(template, render);
    outcomes := [];
    final := storage;
    var n := 0;
    while n < |ids|
      invariant n <= |ids| && |outcomes| == n
      invariant final == Apply(storage, outcomes)
      invariant History(world, formatter, quiet, storage, ids, outcomes)
    {
      var o := Step(world, formatter, quiet, final, ids[n], n);
      assert (outcomes + [o])[..n] == outcomes;
      outcomes := outcomes + [o];
      final := Effect(final, o);
      n := n + 1;
    }
    HistorySteps(world, formatter, quiet, storage, ids, outcomes);
  }

  /** Each of `outcomes` is the outcome of the line of `ids` at its position, given the ones before it. */
  ghost predicate History(world: World, formatter: Formatter, quiet: bool, storage: set<string>, ids: seq<string>, outcomes: seq<Outcome>)
    decreases |outcomes|
  {
    && |outcomes| <= |ids|
    && (outcomes != [] ==>
         var n := |outcomes| - 1;
         && History(world, formatter, quiet, storage, ids, outcomes[..n])
         && StepOk(world, formatter, quiet, Apply(storage, outcomes[..n]), ids[n], n, outcomes[n]))
  }

  lemma HistorySteps(world: World, formatter: Formatter, quiet: bool, storage: set<string>, ids: seq<string>, outcomes: seq<Outcome>)
    requires History(world, formatter, quiet, storage, ids, outcomes)
    ensures forall i :: 0 <= i < |outcomes| ==> StepOk(world, formatter, quiet, Apply(storage, outcomes[..i]), ids[i], i, outcomes[i])
  {
    forall i | 0 <= i < |outcomes|
      ensures StepOk(world, formatter, quiet, Apply(storage, outcomes[..i]), ids[i], i, outcomes[i])
    {
      HistoryStep(world, formatter, quiet, storage, ids, outcomes, i);
    }
  }

  lemma {:induction false} HistoryStep(world: World, formatter: Formatter, quiet: bool, storage: set<string>, ids: seq<string>, outcomes: seq<Outcome>, i: nat)
    requires History(world, formatter, quiet, storage, ids, outcomes)
    requires i < |outcomes|
    ensures StepOk(world, formatter, quiet, Apply(storage, outcomes[..i]), ids[i], i, outcomes[i])
    decreases |outcomes|
  {
    var n := |outcomes| - 1;
    if i < n {
      var init := outcomes[..n];
      HistoryStep(world, formatter, quiet, storage, ids, init, i);
      assert init[..i] == outcomes[..i] && init[i] == outcomes[i];
    }
  }

  /** The body of the loop for one line `fbid`, the n-th, with the paths in `storage` existing. */
  method Step(world: World, formatter: Formatter, quiet: bool, storage: set<string>, fbid: string, n: nat)
    returns (o: Outcome)
    requires var target := RedirectTarget(world.page(RequestUrl(Trim(fbid))));
      !IsSkipped(Trim(fbid)) && target.Some? ==> Separating(formatter, fbid, ChosenDate(world, target.value, n))
    ensures StepOk(world, formatter, quiet, storage, fbid, n, o)
  {
    var trim := Trim(fbid);
    if trim == "" || StartsWith(trim, "#") {
      return Skipped;
    }
    var request := RequestUrl(trim);
    var target := RedirectTarget(world.page(request));
    if target.None? {
      return Unresolved(request);
    }
    var url := target.value;
    var header := world.lastModified(url);
    var date: Date;
    var warned := false;
    if header.None? {
      warned := !quiet;
      date := world.now(n);
    } else {
      date := world.parseDate(header.value);
    }
    var name, index, _ := ResolveName(formatter, fbid, date, storage);
    o := Written(url, date, warned, index, name, ParentDir(name));
  }

  // ---------------------------------------------------------------------------
  // Properties

  /** The outcome of a line is determined by the world, the namer, the flag, the storage and the line. */
  lemma StepOkUnique(world: World, formatter: Formatter, quiet: bool, storage: set<string>, fbid: string, n: nat, o1: Outcome, o2: Outcome)
    requires StepOk(world, formatter, quiet, storage, fbid, n, o1)
    requires StepOk(world, formatter, quiet, storage, fbid, n, o2)
    ensures o1 == o2
  {
    if o1.Written? {
      StopsAtUnique(formatter, fbid, o1.date, storage, o1.index, o2.index);
    }
  }

  /** A skipped or unresolved line writes nothing; a written one adds its file and directories, and nothing else. */
  lemma StepEffect(world: World, formatter: Formatter, quiet: bool, storage: set<string>, fbid: string, n: nat, o: Outcome)
    requires StepOk(world, formatter, quiet, storage, fbid, n, o)
    ensures IsSkipped(Trim(fbid)) ==> o == Skipped && Effect(storage, o) == storage
    ensures RedirectTarget(world.page(RequestUrl(Trim(fbid)))).None? ==> Effect(storage, o) == storage
    ensures o.Written? ==> Effect(storage, o) == storage + {o.path} + DirChain(ParentDir(o.path))
  {
  }

  /**
    A write never replaces an existing file, except through the static-name
    escape: the name was taken at index 1 and came back unchanged at a later
    index.
   */
  lemma NoOverwrite(world: World, formatter: Formatter, quiet: bool, storage: set<string>, fbid: string, n: nat, o: Outcome)
    requires StepOk(world, formatter, quiet, storage, fbid, n, o)
    requires o.Written? && o.path in storage
    ensures o.index >= 2 && o.path == formatter(fbid, o.date, 1)
  {
    StopsOnFreeOrStatic(formatter, fbid, o.date, storage, o.index);
  }

  /** Writes only ever add paths: the storage after a run is the storage before it plus what the run wrote. */
  lemma {:induction false} ApplyFootprint(storage: set<string>, outcomes: seq<Outcome>)
    ensures Apply(storage, outcomes) == storage + Footprint(outcomes)
    decreases |outcomes|
  {
    if outcomes != [] {
      var init := outcomes[..|outcomes| - 1];
      var last := outcomes[|outcomes| - 1];
      ApplyFootprint(storage, init);
      FootprintSnoc(init, last);
      assert init + [last] == outcomes;
    }
  }

  lemma {:induction false} FootprintSnoc(outcomes: seq<Outcome>, o: Outcome)
    ensures Footprint(outcomes + [o]) == Footprint(outcomes) + (if o.Written? then {o.path} + DirChain(o.dir) else {})
    decreases |outcomes|
  {
    if outcomes == [] {
      assert [o][1..] == [];
    } else {
      assert (outcomes + [o])[1..] == outcomes[1..] + [o];
      FootprintSnoc(outcomes[1..], o);
    }
  }

  /** A later storage holds everything an earlier one did. */
  lemma {:induction false} ApplyGrows(storage: set<string>, outcomes: seq<Outcome>, i: nat, j: nat)
    requires i <= j <= |outcomes|
    ensures Apply(storage, outcomes[..i]) <= Apply(storage, outcomes[..j])
    decreases j - i
  {
    if i < j {
      ApplyGrows(storage, outcomes, i, j - 1);
      assert outcomes[..j][..j - 1] == outcomes[..j - 1];
    }
  }

  /**
    Every write sees the ones before it: a path written at line `i` is never
    written again at a later line `j`, unless line `j` takes the static-name
    escape.
   */
  lemma WritesAreDistinct(ids: seq<string>, world: World, formatter: Formatter, quiet: bool, storage: set<string>,
                          outcomes: seq<Outcome>, i: nat, j: nat)
    requires |outcomes| == |ids|
    requires forall k :: 0 <= k < |ids| ==> StepOk(world, formatter, quiet, Apply(storage, outcomes[..k]), ids[k], k, outcomes[k])
    requires i < j < |ids| && outcomes[i].Written? && outcomes[j].Written?
    ensures outcomes[i].path != outcomes[j].path
         || (outcomes[j].index >= 2 && outcomes[j].path == formatter(ids[j], outcomes[j].date, 1))
  {
    assert outcomes[..i + 1][..i] == outcomes[..i];
    ApplyGrows(storage, outcomes, i + 1, j);
    if outcomes[i].path == outcomes[j].path {
      NoOverwrite(world, formatter, quiet, Apply(storage, outcomes[..j]), ids[j], j, outcomes[j]);
    }
  }

  /** A name without `/` has no parent directory: `ensureDir` is given the empty path. */
  lemma ParentDirFlat(name: string)
    requires '/' !in name
    ensures ParentDir(name) == ""
  {
    SplitPrefix(name, [], '/');
    assert name + [] == name;
    assert Split(name, '/') == [name];
  }

  /** A name with a `/` is its parent directory, a `/`, and a last part without `/`. */
  lemma ParentDirSplit(name: string)
    requires '/' in name
    ensures exists base :: '/' !in base && name == ParentDir(name) + "/" + base
  {
    var parts := Split(name, '/');
    SplitHasTwoParts(name, '/');
    JoinSplit(name, '/');
    JoinSnoc(parts[..|parts| - 1], parts[|parts| - 1], "/");
    assert parts[..|parts| - 1] + [parts[|parts| - 1]] == parts;
    assert '/' !in parts[|parts| - 1];
  }
}
