/** The extraction stage of `main` (merge.py:56-59) with its worker pool
    replaced by the partitions of `groupZips` processed one after the other. */
module Pipeline {
  import opened Common
  import opened Paths
  import opened Files
  import opened Partition
  import opened Extract

  /** The folders extracting the eligible entries of `names` creates. */
  ghost function Targets(fs: FileSystem, cwd: string, names: seq<string>): set<string>
  {
    set f | f in names && Eligible(fs.files, cwd, f) :: Join(cwd, ExtractPath(f))
  }

  /** Sorting a partition first does not change which folders it creates. */
  lemma CreatedOfSorted(fs: FileSystem, cwd: string, part: seq<string>, sorted: seq<string>)
    requires multiset(sorted) == multiset(part)
    ensures Created(cwd, ExtractPlan(fs.files, cwd, sorted)) == Targets(fs, cwd, part)
  {
    var plan := ExtractPlan(fs.files, cwd, sorted);
    forall x | x in Created(cwd, plan) ensures x in Targets(fs, cwd, part) {
      var i :| 0 <= i < |plan| && x == Join(cwd, plan[i].1);
      ExtractPlanMembers(fs, cwd, sorted, plan[i].0);
      assert Keys(plan)[i] == plan[i].0;
      assert plan[i].0 in multiset(part);
    }
    forall x | x in Targets(fs, cwd, part) ensures x in Created(cwd, plan) {
      var f :| f in part && Eligible(fs.files, cwd, f) && x == Join(cwd, ExtractPath(f));
      assert f in multiset(sorted);
      ExtractPlanMembers(fs, cwd, sorted, f);
      var i :| 0 <= i < |plan| && Keys(plan)[i] == f;
    }
  }

  lemma TargetsAppend(fs: FileSystem, cwd: string, a: seq<string>, b: seq<string>)
    ensures Targets(fs, cwd, a + b) == Targets(fs, cwd, a) + Targets(fs, cwd, b)
  {
    forall x | x in Targets(fs, cwd, a + b) ensures x in Targets(fs, cwd, a) + Targets(fs, cwd, b) {
      var f :| f in a + b && Eligible(fs.files, cwd, f) && x == Join(cwd, ExtractPath(f));
      assert f in a || f in b;
    }
  }

  /** No eligible entry of a partition has its target folder held by a file. */
  lemma PartitionSafe(fs: FileSystem, cwd: string, listing: seq<string>, n: int, part: seq<string>, sorted: seq<string>)
    requires n >= 1 && part in GroupZips(listing, n) && multiset(sorted) == multiset(part)
    requires forall f :: f in listing && Eligible(fs.files, cwd, f) ==> Join(cwd, ExtractPath(f)) !in fs.files
    ensures forall i :: 0 <= i < |sorted| && Eligible(fs.files, cwd, sorted[i]) ==> Join(cwd, ExtractPath(sorted[i])) !in fs.files
  {
    forall i | 0 <= i < |sorted| && Eligible(fs.files, cwd, sorted[i])
      ensures Join(cwd, ExtractPath(sorted[i])) !in fs.files
    {
      assert sorted[i] in multiset(part);
      FlattenMember(GroupZips(listing, n), sorted[i]);
      GroupZipsMembers(listing, n, sorted[i]);
    }
  }

  /** Extracting every partition creates the folders of the whole listing. */
  lemma TargetsOfPartitions(fs: FileSystem, cwd: string, listing: seq<string>, n: int)
    requires n >= 1
    ensures Targets(fs, cwd, Flatten(GroupZips(listing, n))) == Targets(fs, cwd, listing)
  {
    forall f ensures f in Flatten(GroupZips(listing, n)) <==> f in listing {
      GroupZipsMembers(listing, n, f);
    }
  }

  /** Every entry of `extracted` passed the tests and went to its own folder. */
  ghost predicate Paired(files: FileMap, cwd: string, extracted: seq<(string, string)>)
  {
    forall i :: 0 <= i < |extracted| ==>
      Eligible(files, cwd, extracted[i].0) && extracted[i].1 == ExtractPath(extracted[i].0)
  }

  /** `extracted` holds each eligible entry of `done` as often as `done` does,
      and nothing else. */
  ghost predicate Counted(files: FileMap, cwd: string, extracted: seq<(string, string)>, done: seq<string>)
  {
    forall f :: multiset(Keys(extracted))[f] == if Eligible(files, cwd, f) then multiset(done)[f] else 0
  }

  /** One more partition, sorted first, keeps the pairing and adds its eligible
      entries to the count. */
  lemma CountStep(files: FileMap, cwd: string, done: seq<string>, extracted: seq<(string, string)>,
                  part: seq<string>, sorted: seq<string>)
    requires multiset(sorted) == multiset(part)
    requires Paired(files, cwd, extracted) && Counted(files, cwd, extracted, done)
    ensures Paired(files, cwd, extracted + ExtractPlan(files, cwd, sorted))
    ensures Counted(files, cwd, extracted + ExtractPlan(files, cwd, sorted), done + part)
  {
    var plan := ExtractPlan(files, cwd, sorted);
    KeysAppend(extracted, plan);
    forall f ensures multiset(Keys(extracted + plan))[f] == if Eligible(files, cwd, f) then multiset(done + part)[f] else 0 {
      ExtractPlanCount(files, cwd, sorted, f);
    }
    forall i | 0 <= i < |extracted + plan|
      ensures Eligible(files, cwd, (extracted + plan)[i].0) && (extracted + plan)[i].1 == ExtractPath((extracted + plan)[i].0)
    {
      if i >= |extracted| {
        assert (extracted + plan)[i] == plan[i - |extracted|];
      }
    }
  }

  /** Extracting partition `k` of `parts`, sorted as `sorted`, carries the
      state of the partitions before it over to the state of those up to it. */
  lemma PartitionStep(fs: FileSystem, cwd: string, parts: seq<seq<string>>, k: nat, sorted: seq<string>,
                      before: FileSystem, after: FileSystem, done: seq<(string, string)>, plan: seq<(string, string)>)
    requires k < |parts| && multiset(sorted) == multiset(parts[k])
    requires plan == ExtractPlan(fs.files, cwd, sorted)
    requires before.dirs == fs.dirs + Targets(fs, cwd, Flatten(parts[..k]))
    requires after.dirs == before.dirs + Created(cwd, plan)
    requires Paired(fs.files, cwd, done) && Counted(fs.files, cwd, done, Flatten(parts[..k]))
    ensures after.dirs == fs.dirs + Targets(fs, cwd, Flatten(parts[..k + 1]))
    ensures Paired(fs.files, cwd, done + plan) && Counted(fs.files, cwd, done + plan, Flatten(parts[..k + 1]))
  {
    assert parts[..k + 1] == parts[..k] + [parts[k]];
    FlattenSnoc(parts[..k], parts[k]);
    TargetsAppend(fs, cwd, Flatten(parts[..k]), parts[k]);
    CreatedOfSorted(fs, cwd, parts[k], sorted);
    CountStep(fs.files, cwd, Flatten(parts[..k]), done, parts[k], sorted);
  }

  /** `pool.map(extractCbz, groupZips(listing, n))` with the partitions taken in
      turn: every eligible entry of the listing is extracted exactly as often as
      it is listed (once, for a directory listing), into its own folder, and
      nothing else is, whatever the number of partitions. */
  method ExtractPartitions(fs: FileSystem, cwd: string, listing: seq<string>, n: int, natsort: seq<string> -> seq<string>)
      returns (r: FileSystem, extracted: seq<(string, string)>)
    requires n >= 1
    requires forall p {:trigger natsort(p)} :: multiset(natsort(p)) == multiset(p)
    requires forall f :: f in listing && Eligible(fs.files, cwd, f) ==> Join(cwd, ExtractPath(f)) !in fs.files
    ensures r.files == fs.files
    ensures r.dirs == fs.dirs + Targets(fs, cwd, listing)
    ensures forall i :: 0 <= i < |extracted| ==>
              Eligible(fs.files, cwd, extracted[i].0) && extracted[i].1 == ExtractPath(extracted[i].0)
    ensures forall f :: multiset(Keys(extracted))[f] == if Eligible(fs.files, cwd, f) then multiset(listing)[f] else 0
  {
    var parts := GroupZips(listing, n);
    r := fs;
    extracted := [];
    for k := 0 to |parts|
      invariant r.files == fs.files
      invariant r.dirs == fs.dirs + Targets(fs, cwd, Flatten(parts[..k]))
      invariant Paired(fs.files, cwd, extracted)
      invariant Counted(fs.files, cwd, extracted, Flatten(parts[..k]))
    {
      var part := parts[k];
      PartitionSafe(fs, cwd, listing, n, part, natsort(part));
      ghost var before, done := r, extracted;
      var plan;
      r, plan := ExtractCbz(r, cwd, part, natsort);
      extracted := extracted + plan;
      PartitionStep(fs, cwd, parts, k, natsort(part), before, r, done, plan);
    }
    assert parts[..|parts|] == parts;
    TargetsOfPartitions(fs, cwd, listing, n);
    GroupZipsPermutation(listing, n);
    assert Paired(fs.files, cwd, extracted) && Counted(fs.files, cwd, extracted, Flatten(parts));
  }
}
