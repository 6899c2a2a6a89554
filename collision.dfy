/**
  The collision loop of mod.ts `download`: starting at index 1, the next
  index is tried while the candidate name exists, and the search stops early
  when a later candidate comes back equal to the index-1 name (a template
  without an index, which is then deliberately overwritten).

  The existence check `exists(name)` is membership in `storage`, the set of
  paths present on disk.
 */
module Collision {
  import opened FormatString

  /** The loop may stop at index `k`: its candidate is free, or it is the index-1 name again. */
  ghost predicate Accepts(formatter: Formatter, fbid: string, date: Date, storage: set<string>, k: nat) {
    formatter(fbid, date, k) !in storage || (k >= 2 && formatter(fbid, date, k) == formatter(fbid, date, 1))
  }

  /** `k` is the first index, counting from 1, at which the loop may stop. */
  ghost predicate StopsAt(formatter: Formatter, fbid: string, date: Date, storage: set<string>, k: nat) {
    && k >= 1
    && Accepts(formatter, fbid, date, storage, k)
    && forall j :: 1 <= j < k ==> !Accepts(formatter, fbid, date, storage, j)
  }

  /**
    The candidates from index 2 on never repeat one another except by coming
    back to the index-1 name. Without this the source's loop can run forever
    (two existing names taking turns); with it, and a finite storage, it ends.
   */
  ghost predicate Separating(formatter: Formatter, fbid: string, date: Date) {
    forall j, k :: Repeats(formatter, fbid, date, j, k) ==> formatter(fbid, date, k) == formatter(fbid, date, 1)
  }

  /** The candidate at index `k` repeats the one at an earlier index `j >= 2`. */
  ghost predicate Repeats(formatter: Formatter, fbid: string, date: Date, j: nat, k: nat) {
    2 <= j < k && formatter(fbid, date, j) == formatter(fbid, date, k)
  }

  /** `probed` lists the candidates for indices 1 to |probed|, in order. */
  ghost predicate Probed(formatter: Formatter, fbid: string, date: Date, probed: seq<string>) {
    forall j :: 0 <= j < |probed| ==> probed[j] == formatter(fbid, date, j + 1)
  }

  /** Under `Separating`, a candidate other than the index-1 name is new. */
  lemma NewCandidate(formatter: Formatter, fbid: string, date: Date, probed: seq<string>)
    requires Separating(formatter, fbid, date)
    requires Probed(formatter, fbid, date, probed)
    requires formatter(fbid, date, |probed| + 1) != formatter(fbid, date, 1)
    ensures formatter(fbid, date, |probed| + 1) !in probed
  {
    forall j | 0 <= j < |probed|
      ensures probed[j] != formatter(fbid, date, |probed| + 1)
    {
      if j > 0 && probed[j] == formatter(fbid, date, |probed| + 1) {
        assert Repeats(formatter, fbid, date, j + 1, |probed| + 1);
      }
    }
  }

  /** One more candidate met: the bookkeeping of the loop below stays true, and an existing candidate is one not met before. */
  lemma Advance(formatter: Formatter, fbid: string, date: Date, storage: set<string>,
                probed: seq<string>, seen: set<string>, found: bool)
    requires Separating(formatter, fbid, date)
    requires Probed(formatter, fbid, date, probed)
    requires seen <= storage && forall x :: x in seen ==> x in probed
    requires formatter(fbid, date, |probed| + 1) != formatter(fbid, date, 1)
    requires found == (formatter(fbid, date, |probed| + 1) in storage)
    ensures var name := formatter(fbid, date, |probed| + 1);
      var seen' := if found then seen + {name} else seen;
      && Probed(formatter, fbid, date, probed + [name])
      && seen' <= storage && (forall x :: x in seen' ==> x in probed + [name])
      && (found ==> |storage - seen'| < |storage - seen|)
  {
    var name := formatter(fbid, date, |probed| + 1);
    NewCandidate(formatter, fbid, date, probed);
    if found {
      assert name !in seen;
      RemoveOne(storage, seen, name);
    }
  }

  lemma RemoveOne(storage: set<string>, seen: set<string>, x: string)
    requires x in storage && x !in seen
    ensures |storage - (seen + {x})| < |storage - seen|
  {
    assert storage - seen == (storage - (seen + {x})) + {x};
  }

  /**
    The loop of mod.ts:138-146. Returns the name chosen, its index and the
    number of existence checks made. The candidate at the index-1 name is
    not checked again: the loop breaks before testing it.
   */
  method ResolveName(formatter: Formatter, fbid: string, date: Date, storage: set<string>)
    returns (name: string, index: nat, checks: nat)
    requires Separating(formatter, fbid, date)
    ensures StopsAt(formatter, fbid, date, storage, index)
    ensures name == formatter(fbid, date, index)
    ensures name !in storage || (index >= 2 && name == formatter(fbid, date, 1))
    ensures checks == if index >= 2 && name == formatter(fbid, date, 1) then index - 1 else index
  {
    index := 1;
    var originalName := formatter(fbid, date, index);
    name := originalName;
    var found := name in storage;
    checks := 1;
    // The candidates met so far, and those of them that exist; each iteration meets a new one.
    ghost var probed: seq<string> := [name];
    ghost var seen: set<string> := if found then {name} else {};
    while found
      invariant index >= 1 && name == formatter(fbid, date, index) && checks == index
      invariant found == (name in storage)
      invariant index >= 2 ==> name != originalName
      invariant forall j :: 1 <= j < index ==> !Accepts(formatter, fbid, date, storage, j)
      invariant |probed| == index && Probed(formatter, fbid, date, probed)
      invariant seen <= storage && (found ==> name in seen)
      invariant forall x :: x in seen ==> x in probed
      decreases |storage - seen|, if found then 1 else 0
    {
      assert !Accepts(formatter, fbid, date, storage, index);
      index := index + 1;
      name := formatter(fbid, date, index);
      if name == originalName {
        break;
      }
      found := name in storage;
      checks := checks + 1;
      Advance(formatter, fbid, date, storage, probed, seen, found);
      probed := probed + [name];
      if found {
        seen := seen + {name};
      }
    }
  }

  /** At most one index satisfies `StopsAt`: the name a download gets is determined. */
  lemma StopsAtUnique(formatter: Formatter, fbid: string, date: Date, storage: set<string>, k1: nat, k2: nat)
    requires StopsAt(formatter, fbid, date, storage, k1)
    requires StopsAt(formatter, fbid, date, storage, k2)
    ensures k1 == k2
  {
  }

  /**
    The loop stops on an index at which the name is free, or else, after the
    index-1 name was found taken, on that same name: the only overwrite.
   */
  lemma StopsOnFreeOrStatic(formatter: Formatter, fbid: string, date: Date, storage: set<string>, k: nat)
    requires StopsAt(formatter, fbid, date, storage, k)
    ensures formatter(fbid, date, k) !in storage
         || (formatter(fbid, date, k) == formatter(fbid, date, 1) && formatter(fbid, date, 1) in storage)
  {
    if formatter(fbid, date, k) in storage {
      assert !Accepts(formatter, fbid, date, storage, 1);
    }
  }

  /**
    A namer whose index-2 name equals its index-1 name (a template without an
    index) is settled by index 2, after one existence check.
   */
  lemma StaticNamerStopsEarly(formatter: Formatter, fbid: string, date: Date, storage: set<string>, k: nat)
    requires formatter(fbid, date, 2) == formatter(fbid, date, 1)
    requires StopsAt(formatter, fbid, date, storage, k)
    ensures k <= 2
  {
    if k > 2 {
      assert Accepts(formatter, fbid, date, storage, 2);
    }
  }

  /** A compiled template without index placeholders, for an id without `i` or `I`, is settled by index 2. */
  lemma StaticTemplateStopsEarly(template: string, render: Renderer, fbid: string, date: Date, storage: set<string>, k: nat)
    requires 'i' !in template && 'I' !in template && 'i' !in fbid && 'I' !in fbid
    requires StopsAt(Compile(template, render), fbid, date, storage, k)
    ensures k <= 2
  {
    StaticTemplate(template, render, fbid, date, 2, 1);
    StaticNamerStopsEarly(Compile(template, render), fbid, date, storage, k);
  }

  /**
    Two downloads whose index-1 names coincide: on empty storage the first
    takes index 1, and once that name is taken the second moves to index 2.
   */
  lemma SecondTakesIndexTwo(formatter: Formatter, a: string, b: string, date: Date, k1: nat, k2: nat)
    requires formatter(a, date, 1) == formatter(b, date, 1)
    requires formatter(b, date, 2) != formatter(b, date, 1)
    requires StopsAt(formatter, a, date, {}, k1)
    requires StopsAt(formatter, b, date, {formatter(a, date, 1)}, k2)
    ensures k1 == 1 && k2 == 2
  {
    assert Accepts(formatter, a, date, {}, 1);
    assert Accepts(formatter, b, date, {formatter(a, date, 1)}, 2);
  }
}
