/** `getVolumes`, merge.py:244-275: scans the sorted unit names, cuts them into
    maximal runs of equal regex key, and stores each run in a dict under its key.
    A key that comes back after another key overwrites the dict entry it had:
    the entry keeps its first position and gets the later run. */
module Volumes {
  import opened Common

  /** A Python dict with string keys, as its (key, value) pairs in insertion order. */
  type OrderedDict<V> = seq<(string, V)>

  /** The result of `getVolumes`: volume key to the unit names stored for it. */
  type VolumeMap = OrderedDict<seq<string>>

  /** Why `getVolumes` raises: `imgs[0]` on an empty listing (IndexError), or
      `re.search(...)[0]` on a name the pattern does not match (TypeError). */
  datatype VolumeError = EmptyListing | NoMatch(name: string)

  function Values<V>(d: OrderedDict<V>): (vs: seq<V>)
    ensures |vs| == |d| && forall i :: 0 <= i < |d| ==> vs[i] == d[i].1
  {
    seq(|d|, i requires 0 <= i < |d| => d[i].1)
  }

  predicate Distinct(ks: seq<string>)
  {
    forall i, j :: 0 <= i < j < |ks| ==> ks[i] != ks[j]
  }

  /** `d[k] = v` on a Python dict: an existing key keeps its position and gets
      the new value; a new key goes at the end. */
  function Assign<V>(d: OrderedDict<V>, k: string, v: V): (r: OrderedDict<V>)
    requires Distinct(Keys(d))
    ensures Assigned(d, k, v, r)
  {
    if d == [] then [(k, v)]
    else if d[0].0 == k then
      AssignHead(d, k, v);
      [(k, v)] + d[1..]
    else
      AssignTail(d, k, v, Assign(d[1..], k, v));
      [d[0]] + Assign(d[1..], k, v)
  }

  /** `r` is the dict `d` after `d[k] = v`: the keys stay distinct; an existing
      key keeps its position and takes the new value; a new key goes at the end. */
  ghost predicate Assigned<V>(d: OrderedDict<V>, k: string, v: V, r: OrderedDict<V>)
  {
    && Distinct(Keys(r))
    && (k in Keys(d) ==>
          |r| == |d| && forall i :: 0 <= i < |d| ==> r[i] == (if d[i].0 == k then (k, v) else d[i]))
    && (k !in Keys(d) ==> r == d + [(k, v)])
  }

  lemma KeysCons<V>(e: (string, V), d: OrderedDict<V>)
    ensures Keys([e] + d) == [e.0] + Keys(d)
  {
  }

  lemma AssignHead<V>(d: OrderedDict<V>, k: string, v: V)
    requires Distinct(Keys(d)) && d != [] && d[0].0 == k
    ensures Assigned(d, k, v, [(k, v)] + d[1..])
  {
    KeysCons(d[0], d[1..]);
    KeysCons((k, v), d[1..]);
    assert [d[0]] + d[1..] == d;
  }

  lemma AssignTail<V>(d: OrderedDict<V>, k: string, v: V, rest: OrderedDict<V>)
    requires Distinct(Keys(d)) && d != [] && d[0].0 != k
    requires Distinct(Keys(d[1..])) && Assigned(d[1..], k, v, rest)
    ensures Assigned(d, k, v, [d[0]] + rest)
  {
    KeysCons(d[0], d[1..]);
    assert [d[0]] + d[1..] == d;
    if k in Keys(d) {
      AssignTailPresent(d, k, v, rest);
    } else {
      AssignTailAbsent(d, k, v, rest);
    }
  }

  lemma AssignTailPresent<V>(d: OrderedDict<V>, k: string, v: V, rest: OrderedDict<V>)
    requires Distinct(Keys(d)) && d != [] && d[0].0 != k && k in Keys(d)
    requires Keys(d) == [d[0].0] + Keys(d[1..])
    requires Assigned(d[1..], k, v, rest)
    ensures Assigned(d, k, v, [d[0]] + rest)
  {
    var r := [d[0]] + rest;
    assert k in Keys(d[1..]);
    assert |r| == |d|;
    forall i | 0 <= i < |d| ensures r[i] == (if d[i].0 == k then (k, v) else d[i]) {
      if i > 0 {
        assert r[i] == rest[i - 1] && d[1..][i - 1] == d[i];
      }
    }
    assert Keys(r) == Keys(d);
  }

  lemma AssignTailAbsent<V>(d: OrderedDict<V>, k: string, v: V, rest: OrderedDict<V>)
    requires Distinct(Keys(d)) && d != [] && k !in Keys(d)
    requires Keys(d) == [d[0].0] + Keys(d[1..]) && [d[0]] + d[1..] == d
    requires Assigned(d[1..], k, v, rest)
    ensures Assigned(d, k, v, [d[0]] + rest)
  {
    assert k !in Keys(d[1..]);
    assert [d[0]] + rest == d + [(k, v)];
    KeysSnoc(d, (k, v));
  }

  /** Every name has a regex match. */
  predicate AllMatch(imgs: seq<string>, key: string -> Option<string>)
  {
    forall i :: 0 <= i < |imgs| ==> key(imgs[i]).Some?
  }

  /** One more name `x` with key `k` after the runs `rs`: it joins the last run
      when that run has key `k`, and opens a new run otherwise. */
  function Extend(rs: VolumeMap, k: string, x: string): VolumeMap
  {
    if rs != [] && rs[|rs| - 1].0 == k then rs[..|rs| - 1] + [(k, rs[|rs| - 1].1 + [x])]
    else rs + [(k, [x])]
  }

  /** The maximal runs of consecutive names with equal key, in order, each with
      its key (the lemmas below prove that this is what it computes). */
  function Runs(imgs: seq<string>, key: string -> Option<string>): VolumeMap
    requires AllMatch(imgs, key)
    decreases |imgs|
  {
    if imgs == [] then []
    else Extend(Runs(imgs[..|imgs| - 1], key), key(imgs[|imgs| - 1]).value, imgs[|imgs| - 1])
  }

  /** Runs of `imgs + [x]` in terms of the runs of `imgs`. */
  lemma RunsSnoc(imgs: seq<string>, x: string, key: string -> Option<string>)
    requires AllMatch(imgs + [x], key)
    ensures AllMatch(imgs, key) && key(x).Some?
    ensures Runs(imgs + [x], key) == Extend(Runs(imgs, key), key(x).value, x)
  {
    assert forall i :: 0 <= i < |imgs| ==> imgs[i] == (imgs + [x])[i];
    assert (imgs + [x])[|imgs|] == x;
    assert (imgs + [x])[..|imgs|] == imgs;
  }

  /** The runs put back together are the input: no name lost, none added, order kept. */
  lemma {:induction false} RunsFlatten(imgs: seq<string>, key: string -> Option<string>)
    requires AllMatch(imgs, key)
    ensures Flatten(Values(Runs(imgs, key))) == imgs
    decreases |imgs|
  {
    if imgs != [] {
      var init, x := imgs[..|imgs| - 1], imgs[|imgs| - 1];
      assert imgs == init + [x];
      RunsSnoc(init, x, key);
      RunsFlatten(init, key);
      ExtendValues(Runs(init, key), key(x).value, x);
    }
  }

  /** Extending the runs adds the name at the end of their concatenation. */
  lemma ExtendValues(rs: VolumeMap, k: string, x: string)
    ensures Flatten(Values(Extend(rs, k, x))) == Flatten(Values(rs)) + [x]
  {
    var r := Extend(rs, k, x);
    if rs != [] && rs[|rs| - 1].0 == k {
      var front, last := rs[..|rs| - 1], rs[|rs| - 1];
      assert Values(r) == Values(front) + [last.1 + [x]];
      assert Values(rs) == Values(front) + [last.1];
      FlattenSnoc(Values(front), last.1 + [x]);
      FlattenSnoc(Values(front), last.1);
    } else {
      assert Values(r) == Values(rs) + [[x]];
      FlattenSnoc(Values(rs), [x]);
    }
  }

  /** Every run is non-empty, all its names have the run's key, and
      neighbouring runs have different keys. */
  ghost predicate Shaped(rs: VolumeMap, key: string -> Option<string>)
  {
    && (forall m :: 0 <= m < |rs| ==> rs[m].1 != [])
    && (forall m, t :: 0 <= m < |rs| && 0 <= t < |rs[m].1| ==> key(rs[m].1[t]) == Some(rs[m].0))
    && (forall m :: 0 <= m < |rs| - 1 ==> rs[m].0 != rs[m + 1].0)
  }

  lemma ExtendShaped(rs: VolumeMap, key: string -> Option<string>, k: string, x: string)
    requires Shaped(rs, key) && key(x) == Some(k)
    ensures var r := Extend(rs, k, x); Shaped(r, key) && r != [] && r[|r| - 1].0 == k
  {
    if rs != [] && rs[|rs| - 1].0 == k {
      ExtendLastShaped(rs, key, k, x);
    } else {
      var r := rs + [(k, [x])];
      assert forall m :: 0 <= m < |rs| ==> r[m] == rs[m];
    }
  }

  lemma ExtendLastShaped(rs: VolumeMap, key: string -> Option<string>, k: string, x: string)
    requires Shaped(rs, key) && key(x) == Some(k) && rs != [] && rs[|rs| - 1].0 == k
    ensures Shaped(rs[..|rs| - 1] + [(k, rs[|rs| - 1].1 + [x])], key)
  {
    var n := |rs| - 1;
    var r := rs[..n] + [(k, rs[n].1 + [x])];
    assert forall m :: 0 <= m < n ==> r[m] == rs[m];
    assert r[n].1 == rs[n].1 + [x];
    forall t | 0 <= t < |r[n].1| ensures key(r[n].1[t]) == Some(k) {
      if t < |rs[n].1| {
        assert r[n].1[t] == rs[n].1[t];
      }
    }
  }

  /** The runs have that shape, and the last run carries the key of the last name. */
  lemma {:induction false} RunsShape(imgs: seq<string>, key: string -> Option<string>)
    requires AllMatch(imgs, key)
    ensures Shaped(Runs(imgs, key), key)
    ensures imgs != [] ==> Runs(imgs, key) != [] && Runs(imgs, key)[|Runs(imgs, key)| - 1].0 == key(imgs[|imgs| - 1]).value
    decreases |imgs|
  {
    if imgs != [] {
      var init, x := imgs[..|imgs| - 1], imgs[|imgs| - 1];
      assert imgs == init + [x];
      RunsSnoc(init, x, key);
      RunsShape(init, key);
      ExtendShaped(Runs(init, key), key, key(x).value, x);
    }
  }

  /** Fills the dict run after run, as the loop of `getVolumes` does. */
  function Build(rs: VolumeMap): (d: VolumeMap)
    ensures Distinct(Keys(d))
  {
    if rs == [] then [] else Assign(Build(rs[..|rs| - 1]), rs[|rs| - 1].0, rs[|rs| - 1].1)
  }

  /** The state of the `getVolumes` loop after it has read the non-empty
      `prefix`: the open run is `(currentVol, matches)` and `volumes` holds the
      closed runs. */
  ghost predicate Scanned(prefix: seq<string>, key: string -> Option<string>,
                          currentVol: string, matches: seq<string>, volumes: VolumeMap)
  {
    && prefix != []
    && AllMatch(prefix, key)
    && var rs := Runs(prefix, key);
    && rs != [] && rs[|rs| - 1] == (currentVol, matches)
    && volumes == Build(rs[..|rs| - 1])
  }

  lemma ScanFirst(x: string, key: string -> Option<string>)
    requires key(x).Some?
    ensures Scanned([x], key, key(x).value, [x], [])
  {
    RunsSnoc([], x, key);
  }

  lemma ScanSame(prefix: seq<string>, x: string, key: string -> Option<string>,
                 currentVol: string, matches: seq<string>, volumes: VolumeMap)
    requires Scanned(prefix, key, currentVol, matches, volumes)
    requires key(x) == Some(currentVol)
    ensures Scanned(prefix + [x], key, currentVol, matches + [x], volumes)
  {
    assert AllMatch(prefix + [x], key) by {
      assert forall i :: 0 <= i < |prefix| ==> (prefix + [x])[i] == prefix[i];
    }
    RunsSnoc(prefix, x, key);
    var rs := Runs(prefix, key);
    assert (rs[..|rs| - 1] + [(currentVol, matches + [x])])[..|rs| - 1] == rs[..|rs| - 1];
  }

  lemma ScanNew(prefix: seq<string>, x: string, key: string -> Option<string>,
                currentVol: string, matches: seq<string>, volumes: VolumeMap)
    requires Scanned(prefix, key, currentVol, matches, volumes)
    requires key(x).Some? && key(x).value != currentVol
    ensures Distinct(Keys(volumes))
    ensures Scanned(prefix + [x], key, key(x).value, [x], Assign(volumes, currentVol, matches))
  {
    assert AllMatch(prefix + [x], key) by {
      assert forall i :: 0 <= i < |prefix| ==> (prefix + [x])[i] == prefix[i];
    }
    RunsSnoc(prefix, x, key);
    var rs := Runs(prefix, key);
    assert (rs + [(key(x).value, [x])])[..|rs|] == rs;
  }

  lemma ScanDone(prefix: seq<string>, key: string -> Option<string>,
                 currentVol: string, matches: seq<string>, volumes: VolumeMap)
    requires Scanned(prefix, key, currentVol, matches, volumes)
    ensures Distinct(Keys(volumes))
    ensures Assign(volumes, currentVol, matches) == Build(Runs(prefix, key))
  {
  }

  /** `getVolumes(dir, args)` on the sorted listing `imgs`, with the compiled
      pattern as `key` (the first match of the pattern in a name, if any). */
  method GetVolumes(imgs: seq<string>, key: string -> Option<string>) returns (r: Result<VolumeMap, VolumeError>)
    ensures r.Success? <==> imgs != [] && AllMatch(imgs, key)
    ensures r.Success? ==> r.value == Build(Runs(imgs, key))
    ensures imgs == [] ==> r == Failure(EmptyListing)
    ensures imgs != [] && !AllMatch(imgs, key) ==>
              exists j :: 0 <= j < |imgs| && key(imgs[j]).None? && AllMatch(imgs[..j], key)
                          && r == Failure(NoMatch(imgs[j]))
  {
    if |imgs| == 0 {
      return Failure(EmptyListing);
    }
    var first := key(imgs[0]);
    if first.None? {
      assert imgs[..0] == [];
      return Failure(NoMatch(imgs[0]));
    }
    var currentVol := first.value;
    var matches: seq<string> := [];
    var volumes: VolumeMap := [];
    var i := 0;
    while i < |imgs|
      invariant 0 <= i <= |imgs|
      invariant AllMatch(imgs[..i], key)
      invariant i == 0 ==> matches == [] && volumes == [] && currentVol == first.value
      invariant i > 0 ==> Scanned(imgs[..i], key, currentVol, matches, volumes)
    {
      var img := imgs[i];
      var imgVol := key(img);
      if imgVol.None? {
        return Failure(NoMatch(img));
      }
      assert imgs[..i + 1] == imgs[..i] + [img];
      if imgVol.value == currentVol {
        if i == 0 {
          ScanFirst(img, key);
        } else {
          ScanSame(imgs[..i], img, key, currentVol, matches, volumes);
        }
        matches := matches + [img];
      } else {
        ScanNew(imgs[..i], img, key, currentVol, matches, volumes);
        volumes := Assign(volumes, currentVol, matches);
        matches := [img];
        currentVol := imgVol.value;
      }
      i := i + 1;
    }
    assert imgs[..i] == imgs;
    ScanDone(imgs, key, currentVol, matches, volumes);
    volumes := Assign(volumes, currentVol, matches);
    return Success(volumes);
  }

  // ---------------------------------------------------------------------
  // What the dict holds, stated without the loop.

  /** The keys of `ks` in order of first appearance. */
  function Dedup(ks: seq<string>): (r: seq<string>)
    ensures Distinct(r)
    ensures forall k :: k in r <==> k in ks
    ensures ks != [] ==> r != [] && r[0] == ks[0]
  {
    if ks == [] then []
    else
      var p := Dedup(ks[..|ks| - 1]);
      var k := ks[|ks| - 1];
      assert ks == ks[..|ks| - 1] + [k];
      assert |ks| > 1 ==> ks[..|ks| - 1][0] == ks[0];
      if k in p then p else p + [k]
  }

  /** The value of the last run whose key is `k`. */
  function LastValue(rs: VolumeMap, k: string): seq<string>
  {
    if rs == [] then []
    else if rs[|rs| - 1].0 == k then rs[|rs| - 1].1
    else LastValue(rs[..|rs| - 1], k)
  }

  /** Reference reading of the dict the runs produce: one entry per distinct key,
      in order of first appearance, holding the last run with that key. */
  function DictOf(rs: VolumeMap): VolumeMap
  {
    var ks := Dedup(Keys(rs));
    seq(|ks|, i requires 0 <= i < |ks| => (ks[i], LastValue(rs, ks[i])))
  }

  lemma BuildSnoc(rs: VolumeMap, r: (string, seq<string>))
    ensures Build(rs + [r]) == Assign(Build(rs), r.0, r.1)
  {
    assert (rs + [r])[..|rs|] == rs;
  }

  lemma KeysSnoc<V>(d: OrderedDict<V>, e: (string, V))
    ensures Keys(d + [e]) == Keys(d) + [e.0]
  {
  }

  lemma DedupSnoc(ks: seq<string>, k: string)
    ensures Dedup(ks + [k]) == if k in Dedup(ks) then Dedup(ks) else Dedup(ks) + [k]
  {
    assert (ks + [k])[..|ks|] == ks;
  }

  lemma LastValueSnoc(rs: VolumeMap, r: (string, seq<string>))
    ensures forall k :: LastValue(rs + [r], k) == if r.0 == k then r.1 else LastValue(rs, k)
  {
    assert (rs + [r])[..|rs|] == rs;
  }

  /** One more run changes the reference reading as `d[k] = v` changes the dict. */
  lemma DictOfSnoc(rs: VolumeMap, r: (string, seq<string>))
    ensures Distinct(Keys(DictOf(rs)))
    ensures DictOf(rs + [r]) == Assign(DictOf(rs), r.0, r.1)
  {
    var d := DictOf(rs);
    var ks := Dedup(Keys(rs));
    assert Keys(d) == ks;
    KeysSnoc(rs, r);
    DedupSnoc(Keys(rs), r.0);
    LastValueSnoc(rs, r);
    var a := Assign(d, r.0, r.1);
    var e := DictOf(rs + [r]);
    if r.0 in ks {
      assert |e| == |a|;
      forall i | 0 <= i < |e| ensures e[i] == a[i] {
      }
    } else {
      assert |e| == |a|;
      forall i | 0 <= i < |e| ensures e[i] == a[i] {
        if i < |ks| {
          assert ks[i] != r.0;
        }
      }
    }
  }

  /** Filling the dict run by run gives the reference reading. */
  lemma {:induction false} BuildIsDictOf(rs: VolumeMap)
    ensures Build(rs) == DictOf(rs)
    decreases |rs|
  {
    if rs != [] {
      var init, r := rs[..|rs| - 1], rs[|rs| - 1];
      assert rs == init + [r];
      BuildIsDictOf(init);
      BuildSnoc(init, r);
      DictOfSnoc(init, r);
    }
  }

  /** The last run with key `k`, when there is one, is one of the runs. */
  lemma {:induction false} LastValueFrom(rs: VolumeMap, k: string)
    requires k in Keys(rs)
    ensures exists p :: 0 <= p < |rs| && rs[p] == (k, LastValue(rs, k))
    decreases |rs|
  {
    var init := rs[..|rs| - 1];
    if rs[|rs| - 1].0 != k {
      assert k in Keys(init) by {
        var p :| 0 <= p < |rs| && Keys(rs)[p] == k;
        assert Keys(init)[p] == k;
      }
      LastValueFrom(init, k);
      var p :| 0 <= p < |init| && init[p] == (k, LastValue(init, k));
      assert rs[p] == init[p];
    }
  }

  /** The key of every name, in listing order. */
  function NameKeys(imgs: seq<string>, key: string -> Option<string>): (ks: seq<string>)
    requires AllMatch(imgs, key)
    ensures |ks| == |imgs| && forall i :: 0 <= i < |imgs| ==> key(imgs[i]) == Some(ks[i])
  {
    seq(|imgs|, i requires 0 <= i < |imgs| => key(imgs[i]).value)
  }

  lemma NameKeysSnoc(imgs: seq<string>, x: string, key: string -> Option<string>)
    requires AllMatch(imgs + [x], key)
    ensures AllMatch(imgs, key) && key(x).Some?
    ensures NameKeys(imgs + [x], key) == NameKeys(imgs, key) + [key(x).value]
  {
    assert forall i :: 0 <= i < |imgs| ==> (imgs + [x])[i] == imgs[i];
    assert (imgs + [x])[|imgs|] == x;
  }

  /** Collapsing runs does not change the order in which keys first appear. */
  lemma {:induction false} RunKeysFirstAppearance(imgs: seq<string>, key: string -> Option<string>)
    requires AllMatch(imgs, key)
    ensures Dedup(Keys(Runs(imgs, key))) == Dedup(NameKeys(imgs, key))
    decreases |imgs|
  {
    if imgs != [] {
      var init, x := imgs[..|imgs| - 1], imgs[|imgs| - 1];
      assert imgs == init + [x];
      RunsSnoc(init, x, key);
      NameKeysSnoc(init, x, key);
      RunKeysFirstAppearance(init, key);
      var rs := Runs(init, key);
      var k := key(x).value;
      DedupSnoc(NameKeys(init, key), k);
      if rs != [] && rs[|rs| - 1].0 == k {
        var last := rs[|rs| - 1];
        KeysSnoc(rs[..|rs| - 1], (k, last.1 + [x]));
        KeysSnoc(rs[..|rs| - 1], last);
        assert rs[..|rs| - 1] + [last] == rs;
        RunsShape(init, key);
        assert NameKeys(init, key)[|init| - 1] == k;
        assert k in Dedup(NameKeys(init, key));
      } else {
        KeysSnoc(rs, (k, [x]));
        DedupSnoc(Keys(rs), k);
      }
    }
  }

  /** What `getVolumes` returns when it succeeds: the keys in the order in which
      they first appear among the names, each holding the LAST run of names
      with that key (a key that recurs after a gap loses its earlier run). */
  lemma VolumesAsDict(imgs: seq<string>, key: string -> Option<string>)
    requires AllMatch(imgs, key)
    ensures Keys(Build(Runs(imgs, key))) == Dedup(NameKeys(imgs, key))
    ensures forall i :: 0 <= i < |Build(Runs(imgs, key))| ==>
              Build(Runs(imgs, key))[i].1 == LastValue(Runs(imgs, key), Build(Runs(imgs, key))[i].0)
  {
    BuildIsDictOf(Runs(imgs, key));
    RunKeysFirstAppearance(imgs, key);
  }

  /** The first entry is the key of the first name; every stored list is
      non-empty and made of names of the listing carrying that entry's key. */
  lemma VolumesWellFormed(imgs: seq<string>, key: string -> Option<string>)
    requires imgs != [] && AllMatch(imgs, key)
    ensures var v := Build(Runs(imgs, key));
            && |v| >= 1 && v[0].0 == key(imgs[0]).value
            && Distinct(Keys(v))
            && (forall i :: 0 <= i < |v| ==> v[i].1 != [])
            && (forall i, t :: 0 <= i < |v| && 0 <= t < |v[i].1| ==>
                  key(v[i].1[t]) == Some(v[i].0) && v[i].1[t] in imgs)
  {
    var rs := Runs(imgs, key);
    var v := Build(rs);
    VolumesAsDict(imgs, key);
    BuildIsDictOf(rs);
    RunsShape(imgs, key);
    RunsFlatten(imgs, key);
    assert Keys(v)[0] == NameKeys(imgs, key)[0] == key(imgs[0]).value;
    forall i | 0 <= i < |v|
      ensures v[i].1 != []
      ensures forall t :: 0 <= t < |v[i].1| ==> key(v[i].1[t]) == Some(v[i].0) && v[i].1[t] in imgs
    {
      assert v[i].0 in Keys(rs) by {
        assert Keys(v)[i] in Dedup(Keys(rs));
      }
      LastValueShape(rs, key, imgs, v[i].0);
    }
  }

  /** The list stored for a key is one of the runs: non-empty, of that key,
      and made of names of the listing. */
  lemma LastValueShape(rs: VolumeMap, key: string -> Option<string>, imgs: seq<string>, k: string)
    requires Shaped(rs, key) && Flatten(Values(rs)) == imgs && k in Keys(rs)
    ensures var l := LastValue(rs, k);
            l != [] && forall t :: 0 <= t < |l| ==> key(l[t]) == Some(k) && l[t] in imgs
  {
    LastValueFrom(rs, k);
    var l := LastValue(rs, k);
    var p :| 0 <= p < |rs| && rs[p] == (k, l);
    forall t | 0 <= t < |l| ensures l[t] in imgs {
      FlattenMember(Values(rs), l[t]);
      assert Values(rs)[p][t] == l[t];
    }
  }

  /** Each key occupies one contiguous stretch of the listing. */
  ghost predicate Contiguous(imgs: seq<string>, key: string -> Option<string>)
  {
    forall i, j, k :: 0 <= i < j < k < |imgs| && key(imgs[i]) == key(imgs[k]) ==> key(imgs[j]) == key(imgs[i])
  }

  /** Every run's key is the key of some name of the listing. */
  lemma RunKeyWitness(imgs: seq<string>, key: string -> Option<string>, m: int)
    requires AllMatch(imgs, key) && 0 <= m < |Runs(imgs, key)|
    ensures exists i :: 0 <= i < |imgs| && key(imgs[i]) == Some(Runs(imgs, key)[m].0)
  {
    var rs := Runs(imgs, key);
    RunsShape(imgs, key);
    RunsFlatten(imgs, key);
    var x := rs[m].1[0];
    FlattenMember(Values(rs), x);
    assert Values(rs)[m][0] == x;
    var i :| 0 <= i < |imgs| && imgs[i] == x;
  }

  lemma ContiguousPrefix(imgs: seq<string>, x: string, key: string -> Option<string>)
    requires Contiguous(imgs + [x], key)
    ensures Contiguous(imgs, key)
  {
    assert forall i :: 0 <= i < |imgs| ==> (imgs + [x])[i] == imgs[i];
  }

  /** With contiguous keys, a name whose key differs from the one before it
      starts a key that no earlier run has. */
  lemma NewRunKeyFresh(imgs: seq<string>, x: string, key: string -> Option<string>)
    requires AllMatch(imgs + [x], key) && Contiguous(imgs + [x], key)
    requires imgs != [] && key(imgs[|imgs| - 1]) != key(x)
    ensures AllMatch(imgs, key) && key(x).Some?
    ensures key(x).value !in Keys(Runs(imgs, key))
  {
    RunsSnoc(imgs, x, key);
    var rs := Runs(imgs, key);
    var s := imgs + [x];
    forall m | 0 <= m < |rs| ensures rs[m].0 != key(x).value {
      RunKeyWitness(imgs, key, m);
      var i :| 0 <= i < |imgs| && key(imgs[i]) == Some(rs[m].0);
      var a, b, c := s[i], s[|imgs| - 1], s[|imgs|];
      assert a == imgs[i] && b == imgs[|imgs| - 1] && c == x;
      assert i < |imgs| - 1 ==> key(a) != key(c);
    }
  }

  /** When keys are contiguous, no two runs share a key. */
  lemma {:induction false} ContiguousRunKeysDistinct(imgs: seq<string>, key: string -> Option<string>)
    requires AllMatch(imgs, key) && Contiguous(imgs, key)
    ensures Distinct(Keys(Runs(imgs, key)))
    decreases |imgs|
  {
    if imgs != [] {
      var init, x := imgs[..|imgs| - 1], imgs[|imgs| - 1];
      assert imgs == init + [x];
      RunsSnoc(init, x, key);
      ContiguousPrefix(init, x, key);
      ContiguousRunKeysDistinct(init, key);
      var rs := Runs(init, key);
      var k := key(x).value;
      if rs != [] && rs[|rs| - 1].0 == k {
        ExtendSameKeys(rs, k, x);
      } else {
        if init != [] {
          RunsShape(init, key);
          NewRunKeyFresh(init, x, key);
        }
        ExtendNewKeys(rs, k, x);
      }
    }
  }

  lemma ExtendSameKeys(rs: VolumeMap, k: string, x: string)
    requires rs != [] && rs[|rs| - 1].0 == k
    ensures Keys(Extend(rs, k, x)) == Keys(rs)
  {
    var last := rs[|rs| - 1];
    KeysSnoc(rs[..|rs| - 1], (k, last.1 + [x]));
    KeysSnoc(rs[..|rs| - 1], last);
    assert rs[..|rs| - 1] + [last] == rs;
  }

  lemma ExtendNewKeys(rs: VolumeMap, k: string, x: string)
    requires Distinct(Keys(rs)) && k !in Keys(rs)
    ensures Distinct(Keys(Extend(rs, k, x)))
  {
    KeysSnoc(rs, (k, [x]));
  }

  /** A dict filled from runs with distinct keys is the list of runs itself. */
  lemma {:induction false} BuildDistinct(rs: VolumeMap)
    requires Distinct(Keys(rs))
    ensures Build(rs) == rs
    decreases |rs|
  {
    if rs != [] {
      var init, r := rs[..|rs| - 1], rs[|rs| - 1];
      assert rs == init + [r];
      assert Keys(init) == Keys(rs)[..|rs| - 1];
      BuildDistinct(init);
      BuildSnoc(init, r);
      assert r.0 !in Keys(init) by {
        assert Keys(rs)[|rs| - 1] == r.0;
      }
    }
  }

  /** With contiguous keys nothing is overwritten: the volumes are the runs, in
      order, their keys distinct, and their lists put together give the listing. */
  lemma VolumesContiguous(imgs: seq<string>, key: string -> Option<string>)
    requires AllMatch(imgs, key) && Contiguous(imgs, key)
    ensures Build(Runs(imgs, key)) == Runs(imgs, key)
    ensures Flatten(Values(Build(Runs(imgs, key)))) == imgs
    ensures Keys(Build(Runs(imgs, key))) == Dedup(NameKeys(imgs, key))
  {
    ContiguousRunKeysDistinct(imgs, key);
    BuildDistinct(Runs(imgs, key));
    RunsFlatten(imgs, key);
    VolumesAsDict(imgs, key);
  }

  /** Keys `[V1, V1, V2, V2, V1]` give `{V1: [u4], V2: [u2, u3]}`: the third run
      replaces the first one in V1's original place, and `u0`, `u1` are dropped. */
  lemma VolumesRecurringKey(u0: string, u1: string, u2: string, u3: string, u4: string,
                            key: string -> Option<string>, v1: string, v2: string)
    requires v1 != v2
    requires key(u0) == Some(v1) && key(u1) == Some(v1)
    requires key(u2) == Some(v2) && key(u3) == Some(v2)
    requires key(u4) == Some(v1)
    ensures AllMatch([u0, u1, u2, u3, u4], key)
    ensures Build(Runs([u0, u1, u2, u3, u4], key)) == [(v1, [u4]), (v2, [u2, u3])]
  {
    var a, b, c := (v1, [u0, u1]), (v2, [u2, u3]), (v1, [u4]);
    RunsTwoKeys(u0, u1, u2, u3, u4, key, v1, v2);
    BuildThree(a, b, c);
  }

  /** Filling the dict from runs keyed `k, k', k` with `k != k'`. */
  lemma BuildThree(a: (string, seq<string>), b: (string, seq<string>), c: (string, seq<string>))
    requires a.0 == c.0 && a.0 != b.0
    ensures Build([a, b, c]) == [c, b]
  {
    BuildSnoc([], a);
    assert [] + [a] == [a];
    AssignNew([], a.0, a.1);
    BuildSnoc([a], b);
    assert [a] + [b] == [a, b];
    AssignNew([a], b.0, b.1);
    BuildSnoc([a, b], c);
    assert [a, b] + [c] == [a, b, c];
    AssignFirst([a, b], c.0, c.1);
  }

  lemma AssignNew<V>(d: OrderedDict<V>, k: string, v: V)
    requires Distinct(Keys(d)) && forall i :: 0 <= i < |d| ==> d[i].0 != k
    ensures Assign(d, k, v) == d + [(k, v)]
  {
    assert k !in Keys(d);
  }

  lemma AssignFirst<V>(d: OrderedDict<V>, k: string, v: V)
    requires |d| == 2 && d[0].0 == k && d[1].0 != k
    ensures Assign(d, k, v) == [(k, v), d[1]]
  {
    assert Keys(d)[0] == k && Keys(d)[1] != k;
    var r := Assign(d, k, v);
    assert |r| == 2 && r[0] == (k, v) && r[1] == d[1];
  }

  lemma RunsTwoKeys(u0: string, u1: string, u2: string, u3: string, u4: string,
                    key: string -> Option<string>, v1: string, v2: string)
    requires v1 != v2
    requires key(u0) == Some(v1) && key(u1) == Some(v1)
    requires key(u2) == Some(v2) && key(u3) == Some(v2)
    requires key(u4) == Some(v1)
    ensures AllMatch([u0, u1, u2, u3, u4], key)
    ensures Runs([u0, u1, u2, u3, u4], key) == [(v1, [u0, u1]), (v2, [u2, u3]), (v1, [u4])]
  {
    var p1, p2, p3, p4 := [u0], [u0, u1], [u0, u1, u2], [u0, u1, u2, u3];
    assert p1 == [] + [u0];
    RunsSnoc([], u0, key);
    assert Runs(p1, key) == [(v1, [u0])];
    assert p2 == p1 + [u1];
    RunsSnoc(p1, u1, key);
    assert [u0] + [u1] == [u0, u1];
    assert Runs(p2, key) == [(v1, [u0, u1])];
    assert p3 == p2 + [u2];
    RunsSnoc(p2, u2, key);
    assert Runs(p3, key) == [(v1, [u0, u1]), (v2, [u2])];
    assert p4 == p3 + [u3];
    RunsSnoc(p3, u3, key);
    assert [(v1, [u0, u1]), (v2, [u2])][..1] == [(v1, [u0, u1])];
    assert [u2] + [u3] == [u2, u3];
    assert Runs(p4, key) == [(v1, [u0, u1]), (v2, [u2, u3])];
    assert [u0, u1, u2, u3, u4] == p4 + [u4];
    RunsSnoc(p4, u4, key);
  }
}
