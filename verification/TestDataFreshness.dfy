// Version-keyed caching of test data under interleaved changes and loads. An
// upload clears the directory and writes its files one by one; an edit writes or
// removes files of a single case in place; both bump the version only at their
// end. A load reads the version first, then the cache, then the files.
module TestDataFreshness {
  import opened Text
  import opened LruCache
  import LruRuns

  // What a file holds: the upload whose directory it was written into, and when
  // it was written.
  datatype Stamp = Stamp(upload: nat, writtenAt: nat)

  // A file as a load got it.
  datatype File = File(problem: nat, name: string, stamp: Stamp, readAt: nat)

  type TestData = seq<File>

  // changing holds the changes under way with the upload they write for;
  // uploads and changes count those begun so far.
  datatype Problem = Problem(files: map<string, Stamp>, version: nat, changing: map<nat, nat>, uploads: nat, changes: nat)

  datatype Loader =
    | Idle
    | Versioned(problem: nat, version: nat)
    | Reading(problem: nat, version: nat, got: TestData)
    | Finished(problem: nat, version: nat, result: TestData)

  datatype State = State(now: nat, problems: map<nat, Problem>, cache: seq<Item<TestData>>, loaders: seq<Loader>)

  datatype ChangeOp =
    | Clear                         // an upload (or delete-all) removes the directory
    | Edit                          // a single case is about to be added, updated or deleted
    | Write(c: nat, name: string)   // change c writes one file
    | Erase(c: nat, name: string)   // change c removes one file
    | Publish(c: nat)               // test_case_version + 1
    | Abort(c: nat)                 // a failed change returns early

  datatype LoadOp =
    | ReadVersion(p: nat)
    | CacheHit(clock: int)
    | CacheMiss(clock: int)
    | ReadFile(name: string)
    | Fail
    | Store(clock: int)

  datatype Action = Change(p: nat, change: ChangeOp) | Load(i: nat, op: LoadOp)

  const NEW_PROBLEM := Problem(map[], 0, map[], 0, 0)
  const MAX_SIZE := 100

  function At(s: State, p: nat): Problem {
    if p in s.problems then s.problems[p] else NEW_PROBLEM
  }

  function Key(p: nat, version: nat): string { PairKey(p, version) }

  predicate CanChange(q: Problem, op: ChangeOp) {
    match op
    case Clear => true
    case Edit => true
    case Write(c, _) => c in q.changing
    case Erase(c, _) => c in q.changing
    case Publish(c) => c in q.changing
    case Abort(c) => c in q.changing
  }

  function AfterChange(q: Problem, op: ChangeOp, now: nat): Problem
    requires CanChange(q, op)
  {
    match op
    case Clear =>
      q.(files := map[], changing := q.changing[q.changes + 1 := q.uploads + 1], uploads := q.uploads + 1, changes := q.changes + 1)
    case Edit => q.(changing := q.changing[q.changes + 1 := q.uploads], changes := q.changes + 1)
    case Write(c, name) => q.(files := q.files[name := Stamp(q.changing[c], now)])
    case Erase(_, name) => q.(files := q.files - {name})
    case Publish(c) => q.(version := q.version + 1, changing := q.changing - {c})
    case Abort(c) => q.(changing := q.changing - {c})
  }

  function Cached(s: State, l: Loader, clock: int): Option<TestData>
    requires l.Versioned?
  {
    GetResult(s.cache, Key(l.problem, l.version), clock)
  }

  predicate CanLoad(s: State, l: Loader, op: LoadOp) {
    match op
    case ReadVersion(_) => l.Idle?
    case CacheHit(clock) => l.Versioned? && Cached(s, l, clock).Some?
    case CacheMiss(clock) => l.Versioned? && Cached(s, l, clock).None?
    case ReadFile(name) => l.Reading? && name in At(s, l.problem).files
    case Fail => l.Reading?
    case Store(_) => l.Reading?
  }

  function AfterLoad(s: State, l: Loader, op: LoadOp): Loader
    requires CanLoad(s, l, op)
  {
    match op
    case ReadVersion(p) => Versioned(p, At(s, p).version)
    case CacheHit(clock) => Finished(l.problem, l.version, Cached(s, l, clock).value)
    case CacheMiss(_) => Reading(l.problem, l.version, [])
    case ReadFile(name) => l.(got := l.got + [File(l.problem, name, At(s, l.problem).files[name], s.now + 1)])
    case Fail => Idle
    case Store(_) => Finished(l.problem, l.version, l.got)
  }

  function CacheAfter(s: State, l: Loader, op: LoadOp): seq<Item<TestData>>
    requires CanLoad(s, l, op)
  {
    match op
    case CacheHit(clock) => AfterGet(s.cache, Key(l.problem, l.version), clock)
    case CacheMiss(clock) => AfterGet(s.cache, Key(l.problem, l.version), clock)
    case Store(clock) => AfterSet(s.cache, Key(l.problem, l.version), l.got, clock, MAX_SIZE)
    case _ => s.cache
  }

  predicate Enabled(s: State, a: Action) {
    match a
    case Change(p, op) => CanChange(At(s, p), op)
    case Load(i, op) => i < |s.loaders| && CanLoad(s, s.loaders[i], op)
  }

  function Do(s: State, a: Action): State
    requires Enabled(s, a)
  {
    match a
    case Change(p, op) => s.(now := s.now + 1, problems := s.problems[p := AfterChange(At(s, p), op, s.now + 1)])
    case Load(i, op) =>
      s.(now := s.now + 1, cache := CacheAfter(s, s.loaders[i], op),
         loaders := s.loaders[i := AfterLoad(s, s.loaders[i], op)])
  }

  function Init(n: nat): State { State(0, map[], [], seq(n, _ => Idle)) }

  function Run(n: nat, actions: seq<Action>): Option<State> {
    if actions == [] then Some(Init(n))
    else
      var a := actions[|actions| - 1];
      match Run(n, actions[..|actions| - 1])
      case None => None
      case Some(s) => if Enabled(s, a) then Some(Do(s, a)) else None
  }

  // ---- The directory of a problem through the history ----

  function ProblemAfter(n: nat, actions: seq<Action>, p: nat): Problem {
    match Run(n, actions)
    case None => NEW_PROBLEM
    case Some(s) => At(s, p)
  }

  // After actions, p's directory holds exactly what f holds under f's name.
  predicate OnDisk(n: nat, actions: seq<Action>, p: nat, f: File) {
    var files := ProblemAfter(n, actions, p).files;
    f.name in files && files[f.name] == f.stamp
  }

  // The action overwrites or removes the file of that name.
  predicate Replaces(a: Action, p: nat, name: string) {
    a.Change? && a.p == p && (a.change.Clear? || ((a.change.Write? || a.change.Erase?) && a.change.name == name))
  }

  lemma {:induction false} RunPrefix(n: nat, actions: seq<Action>, k: nat)
    requires Run(n, actions).Some? && k <= |actions|
    ensures Run(n, actions[..k]).Some? && Run(n, actions[..k]).value.now == k
    ensures k < |actions| ==> Enabled(Run(n, actions[..k]).value, actions[k])
  {
    if actions == [] {
      assert actions[..k] == actions;
    } else {
      var init := actions[..|actions| - 1];
      if k < |actions| {
        RunPrefix(n, init, k);
        assert init[..k] == actions[..k];
        assert k == |init| ==> init[..k] == init;
      } else {
        RunPrefix(n, init, k - 1);
        assert init[..k - 1] == init && actions[..k] == actions;
      }
    }
  }

  lemma StepAt(n: nat, actions: seq<Action>, p: nat, k: nat)
    requires Run(n, actions).Some? && k < |actions|
    ensures var q, a := ProblemAfter(n, actions[..k], p), actions[k];
            if a.Change? && a.p == p
            then CanChange(q, a.change) && ProblemAfter(n, actions[..k + 1], p) == AfterChange(q, a.change, k + 1)
            else ProblemAfter(n, actions[..k + 1], p) == q
  {
    RunPrefix(n, actions, k);
    assert actions[..k + 1][..k] == actions[..k];
  }

  lemma {:induction false} VersionsGrow(n: nat, actions: seq<Action>, p: nat, j: nat, k: nat)
    requires Run(n, actions).Some? && j <= k <= |actions|
    ensures ProblemAfter(n, actions[..j], p).version <= ProblemAfter(n, actions[..k], p).version
    decreases k - j
  {
    if j < k {
      StepAt(n, actions, p, k - 1);
      VersionsGrow(n, actions, p, j, k - 1);
    }
  }

  // How often the version of p was bumped.
  function Bumps(actions: seq<Action>, p: nat): nat {
    if actions == [] then 0
    else
      var a := actions[|actions| - 1];
      Bumps(actions[..|actions| - 1], p) + if a.Change? && a.p == p && a.change.Publish? then 1 else 0
  }

  // The version counts the bumps: each one makes it strictly larger.
  lemma {:induction false} VersionCountsBumps(n: nat, actions: seq<Action>, p: nat)
    requires Run(n, actions).Some?
    ensures ProblemAfter(n, actions, p).version == Bumps(actions, p)
  {
    if actions != [] {
      VersionCountsBumps(n, actions[..|actions| - 1], p);
    }
  }

  // Where loader i last read a version, -1 if nowhere.
  function LastVersionRead(actions: seq<Action>, i: nat): int {
    if actions == [] then -1
    else
      var a := actions[|actions| - 1];
      if a.Load? && a.i == i && a.op.ReadVersion? then |actions| - 1 else LastVersionRead(actions[..|actions| - 1], i)
  }

  // A loader's version is the one installed when it last read one, and its
  // problem is the one that it read it of.
  lemma {:induction false} LoaderHasReadVersion(n: nat, actions: seq<Action>, i: nat)
    requires Run(n, actions).Some? && i < |Run(n, actions).value.loaders| && !Run(n, actions).value.loaders[i].Idle?
    ensures var l, k := Run(n, actions).value.loaders[i], LastVersionRead(actions, i);
            && 0 <= k < |actions|
            && actions[k] == Load(i, ReadVersion(l.problem))
            && l.version == Bumps(actions[..k], l.problem)
  {
    var m := |actions| - 1;
    var init, a := actions[..m], actions[m];
    if a.Load? && a.i == i && a.op.ReadVersion? {
      VersionCountsBumps(n, init, a.op.p);
    } else {
      LoaderHasReadVersion(n, init, i);
      var k := LastVersionRead(init, i);
      assert init[..k] == actions[..k] && init[k] == actions[k];
    }
  }

  // Content stays on disk while nothing replaces it.
  lemma {:induction false} Survives(n: nat, actions: seq<Action>, p: nat, f: File, j: nat, k: nat)
    requires Run(n, actions).Some? && j <= k <= |actions| && OnDisk(n, actions[..j], p, f)
    requires forall m :: j <= m < k ==> !Replaces(actions[m], p, f.name)
    ensures OnDisk(n, actions[..k], p, f)
    decreases k - j
  {
    if j < k {
      Survives(n, actions, p, f, j, k - 1);
      StepAt(n, actions, p, k - 1);
    }
  }

  // Content found on disk has been there since it was written.
  lemma {:induction false} SinceWritten(n: nat, actions: seq<Action>, p: nat, f: File, k: nat)
    requires Run(n, actions).Some? && k <= |actions| && OnDisk(n, actions[..k], p, f)
    ensures 1 <= f.stamp.writtenAt <= k && OnDisk(n, actions[..f.stamp.writtenAt], p, f)
    ensures forall m :: f.stamp.writtenAt <= m < k ==> !Replaces(actions[m], p, f.name)
  {
    if k > 0 {
      StepAt(n, actions, p, k - 1);
      if !Replaces(actions[k - 1], p, f.name) {
        SinceWritten(n, actions, p, f, k - 1);
      }
    }
  }

  // ---- What a load may return ----

  // Action readAt - 1 read f from p's directory, and version v or a later one
  // was installed then.
  predicate ReadSince(n: nat, actions: seq<Action>, p: nat, v: nat, f: File) {
    && f.problem == p
    && 1 <= f.readAt <= |actions|
    && actions[f.readAt - 1].Load? && actions[f.readAt - 1].op == ReadFile(f.name)
    && OnDisk(n, actions[..f.readAt - 1], p, f)
    && ProblemAfter(n, actions[..f.readAt - 1], p).version >= v
  }

  // All of data was, one file after the other.
  ghost predicate Fresh(n: nat, actions: seq<Action>, p: nat, v: nat, data: TestData) {
    && (forall i :: 0 <= i < |data| ==> ReadSince(n, actions, p, v, data[i]))
    && (forall i, j :: 0 <= i < j < |data| ==> data[i].readAt < data[j].readAt)
  }

  ghost predicate CacheFresh(n: nat, actions: seq<Action>, cache: seq<Item<TestData>>) {
    forall i, p: nat, v: nat :: 0 <= i < |cache| && cache[i].key == Key(p, v) ==> Fresh(n, actions, p, v, cache[i].value)
  }

  ghost predicate LoaderFresh(n: nat, actions: seq<Action>, l: Loader) {
    match l
    case Idle => true
    case Versioned(p, v) => v <= ProblemAfter(n, actions, p).version
    case Reading(p, v, got) => v <= ProblemAfter(n, actions, p).version && Fresh(n, actions, p, v, got)
    case Finished(p, v, result) => Fresh(n, actions, p, v, result)
  }

  ghost predicate Inv(n: nat, actions: seq<Action>, s: State) {
    && CacheFresh(n, actions, s.cache)
    && forall i :: 0 <= i < |s.loaders| ==> LoaderFresh(n, actions, s.loaders[i])
  }

  lemma FreshStays(n: nat, actions: seq<Action>, a: Action, p: nat, v: nat, data: TestData)
    requires Fresh(n, actions, p, v, data)
    ensures Fresh(n, actions + [a], p, v, data)
  {
    forall i | 0 <= i < |data| ensures ReadSince(n, actions + [a], p, v, data[i]) {
      assert ReadSince(n, actions, p, v, data[i]);
      assert (actions + [a])[..data[i].readAt - 1] == actions[..data[i].readAt - 1];
    }
  }

  lemma VersionStays(n: nat, actions: seq<Action>, a: Action, p: nat)
    requires Run(n, actions + [a]).Some?
    ensures ProblemAfter(n, actions, p).version <= ProblemAfter(n, actions + [a], p).version
  {
    VersionsGrow(n, actions + [a], p, |actions|, |actions| + 1);
    assert (actions + [a])[..|actions|] == actions && (actions + [a])[..|actions| + 1] == actions + [a];
  }

  ghost predicate Among<V>(it: Item<V>, l: seq<Item<V>>) {
    exists j :: 0 <= j < |l| && l[j] == it
  }

  lemma AmongTail<V>(it: Item<V>, l: seq<Item<V>>)
    requires l != [] && Among(it, l[1..])
    ensures Among(it, l)
  {
    var j :| 0 <= j < |l[1..]| && l[1..][j] == it;
    assert l[j + 1] == it;
  }

  lemma {:induction false} WithoutSubset<V>(l: seq<Item<V>>, k: string)
    ensures forall i :: 0 <= i < |Without(l, k)| ==> Among(Without(l, k)[i], l)
  {
    if l != [] {
      WithoutSubset(l[1..], k);
      var w := Without(l[1..], k);
      assert Among(l[0], l);
      forall i | 0 <= i < |w| ensures Among(w[i], l) {
        AmongTail(w[i], l);
      }
    }
  }

  lemma {:induction false} LookupFound<V>(l: seq<Item<V>>, k: string)
    requires Lookup(l, k).Some?
    ensures Among(Lookup(l, k).value, l) && Lookup(l, k).value.key == k
  {
    if l[0].key != k {
      LookupFound(l[1..], k);
      AmongTail(Lookup(l, k).value, l);
    }
  }

  // A Get only removes or reorders entries; a Set adds the one entry.
  lemma CacheItems<V>(l: seq<Item<V>>, k: string, v: V, clock: int, maxSize: int)
    ensures forall i :: 0 <= i < |AfterGet(l, k, clock)| ==>
              Among(AfterGet(l, k, clock)[i], l)
    ensures forall i :: 0 <= i < |AfterSet(l, k, v, clock, maxSize)| ==>
              var it := AfterSet(l, k, v, clock, maxSize)[i];
              it == Item(k, v, clock + TTL) || Among(it, l)
  {
    WithoutSubset(l, k);
    assert forall i :: 0 <= i < |l| ==> Among(l[i], l);
    if Lookup(l, k).Some? {
      LookupFound(l, k);
    }
  }

  lemma CacheStaysFresh(n: nat, actions: seq<Action>, a: Action, before: seq<Item<TestData>>, after: seq<Item<TestData>>)
    requires CacheFresh(n, actions, before)
    requires forall i :: 0 <= i < |after| ==> Among(after[i], before)
    ensures CacheFresh(n, actions + [a], after)
  {
    forall i, p: nat, v: nat | 0 <= i < |after| && after[i].key == Key(p, v)
      ensures Fresh(n, actions + [a], p, v, after[i].value)
    {
      var j :| 0 <= j < |before| && before[j] == after[i];
      assert Fresh(n, actions, p, v, before[j].value);
      FreshStays(n, actions, a, p, v, after[i].value);
    }
  }

  // The stored key determines problem and version, so the new entry is fresh
  // under every reading of its key.
  lemma StoreKeepsCache(n: nat, actions: seq<Action>, a: Action, cache: seq<Item<TestData>>,
                        p0: nat, v0: nat, data: TestData, clock: int)
    requires CacheFresh(n, actions, cache) && Fresh(n, actions, p0, v0, data)
    ensures CacheFresh(n, actions + [a], AfterSet(cache, Key(p0, v0), data, clock, MAX_SIZE))
  {
    var after := AfterSet(cache, Key(p0, v0), data, clock, MAX_SIZE);
    CacheItems(cache, Key(p0, v0), data, clock, MAX_SIZE);
    forall i, p: nat, v: nat | 0 <= i < |after| && after[i].key == Key(p, v)
      ensures Fresh(n, actions + [a], p, v, after[i].value)
    {
      if after[i] == Item(Key(p0, v0), data, clock + TTL) {
        PairKeyInjective(p, v, p0, v0);
        FreshStays(n, actions, a, p0, v0, data);
      } else {
        var j :| 0 <= j < |cache| && cache[j] == after[i];
        assert Fresh(n, actions, p, v, cache[j].value);
        FreshStays(n, actions, a, p, v, after[i].value);
      }
    }
  }

  lemma DoKeepsCache(n: nat, actions: seq<Action>, s: State, a: Action)
    requires Run(n, actions) == Some(s) && Enabled(s, a) && Inv(n, actions, s)
    ensures CacheFresh(n, actions + [a], Do(s, a).cache)
  {
    if a.Load? && a.op.Store? {
      var l := s.loaders[a.i];
      assert LoaderFresh(n, actions, l);
      StoreKeepsCache(n, actions, a, s.cache, l.problem, l.version, l.got, a.op.clock);
    } else {
      if a.Load? && (a.op.CacheHit? || a.op.CacheMiss?) {
        CacheItems(s.cache, Key(s.loaders[a.i].problem, s.loaders[a.i].version), [], a.op.clock, 0);
      } else {
        assert forall i :: 0 <= i < |s.cache| ==> Among(s.cache[i], s.cache);
      }
      CacheStaysFresh(n, actions, a, s.cache, Do(s, a).cache);
    }
  }

  lemma HitIsFresh(n: nat, actions: seq<Action>, cache: seq<Item<TestData>>, p: nat, v: nat, clock: int)
    requires CacheFresh(n, actions, cache) && GetResult(cache, Key(p, v), clock).Some?
    ensures Fresh(n, actions, p, v, GetResult(cache, Key(p, v), clock).value)
  {
    LookupFound(cache, Key(p, v));
  }

  lemma ReadIsFresh(n: nat, actions: seq<Action>, s: State, i: nat, name: string)
    requires Run(n, actions) == Some(s) && Enabled(s, Load(i, ReadFile(name))) && LoaderFresh(n, actions, s.loaders[i])
    ensures LoaderFresh(n, actions + [Load(i, ReadFile(name))], AfterLoad(s, s.loaders[i], ReadFile(name)))
  {
    var a, l := Load(i, ReadFile(name)), s.loaders[i];
    var p, v, more := l.problem, l.version, actions + [a];
    RunPrefix(n, actions, |actions|);
    assert actions[..|actions|] == actions && more[..|actions|] == actions;
    FreshStays(n, actions, a, p, v, l.got);
    VersionStays(n, actions, a, p);
    assert ReadSince(n, more, p, v, File(p, name, At(s, p).files[name], s.now + 1));
  }

  lemma LoadKeepsFresh(n: nat, actions: seq<Action>, s: State, i: nat, op: LoadOp)
    requires Run(n, actions) == Some(s) && Enabled(s, Load(i, op)) && Inv(n, actions, s)
    ensures LoaderFresh(n, actions + [Load(i, op)], AfterLoad(s, s.loaders[i], op))
  {
    var a, l := Load(i, op), s.loaders[i];
    assert (actions + [a])[..|actions|] == actions;
    assert LoaderFresh(n, actions, l);
    match op
    case ReadVersion(p) => VersionStays(n, actions, a, p);
    case CacheHit(clock) =>
      HitIsFresh(n, actions, s.cache, l.problem, l.version, clock);
      FreshStays(n, actions, a, l.problem, l.version, Cached(s, l, clock).value);
    case CacheMiss(_) => VersionStays(n, actions, a, l.problem);
    case ReadFile(name) => ReadIsFresh(n, actions, s, i, name);
    case Fail =>
    case Store(_) => FreshStays(n, actions, a, l.problem, l.version, l.got);
  }

  lemma LoaderStays(n: nat, actions: seq<Action>, a: Action, l: Loader)
    requires Run(n, actions + [a]).Some? && LoaderFresh(n, actions, l)
    ensures LoaderFresh(n, actions + [a], l)
  {
    match l
    case Idle =>
    case Versioned(p, _) => VersionStays(n, actions, a, p);
    case Reading(p, v, got) =>
      VersionStays(n, actions, a, p);
      FreshStays(n, actions, a, p, v, got);
    case Finished(p, v, result) => FreshStays(n, actions, a, p, v, result);
  }

  lemma DoKeepsInv(n: nat, actions: seq<Action>, s: State, a: Action)
    requires Run(n, actions) == Some(s) && Enabled(s, a) && Inv(n, actions, s)
    ensures Inv(n, actions + [a], Do(s, a))
  {
    assert (actions + [a])[..|actions|] == actions;
    DoKeepsCache(n, actions, s, a);
    forall i | 0 <= i < |s.loaders| ensures LoaderFresh(n, actions + [a], Do(s, a).loaders[i]) {
      if a.Load? && a.i == i {
        LoadKeepsFresh(n, actions, s, i, a.op);
      } else {
        LoaderStays(n, actions, a, s.loaders[i]);
      }
    }
  }

  lemma {:induction false} RunKeepsInv(n: nat, actions: seq<Action>)
    requires Run(n, actions).Some?
    ensures Inv(n, actions, Run(n, actions).value)
  {
    if actions != [] {
      var init, a := actions[..|actions| - 1], actions[|actions| - 1];
      RunKeepsInv(n, init);
      DoKeepsInv(n, init, Run(n, init).value, a);
      assert init + [a] == actions;
    }
  }

  // data is the result of a finished load that read version v of p, or a cache
  // entry under that key.
  ghost predicate Delivered(s: State, p: nat, v: nat, data: TestData) {
    || (exists i :: 0 <= i < |s.loaders| && s.loaders[i] == Finished(p, v, data))
    || (exists i :: 0 <= i < |s.cache| && s.cache[i].key == Key(p, v) && s.cache[i].value == data)
  }

  lemma DeliveredIsFresh(n: nat, actions: seq<Action>, p: nat, v: nat, data: TestData)
    requires Run(n, actions).Some? && Delivered(Run(n, actions).value, p, v, data)
    ensures Fresh(n, actions, p, v, data)
  {
    RunKeepsInv(n, actions);
    var s := Run(n, actions).value;
    if i :| 0 <= i < |s.loaders| && s.loaders[i] == Finished(p, v, data) {
      assert LoaderFresh(n, actions, s.loaders[i]);
    }
  }

  // Over every interleaving, overlapping uploads and edits included, and across
  // evictions and expiry: whatever a load that read version v returns or caches
  // was read when v was installed, and nothing replaced a file of it before v
  // was.
  lemma LoadsAreFresh(n: nat, actions: seq<Action>, p: nat, v: nat, data: TestData)
    requires Run(n, actions).Some? && Delivered(Run(n, actions).value, p, v, data)
    ensures Fresh(n, actions, p, v, data)
    ensures forall i, k :: 0 <= i < |data| && data[i].stamp.writtenAt <= k < |actions| && Replaces(actions[k], p, data[i].name) ==>
              ProblemAfter(n, actions[..k], p).version >= v
  {
    DeliveredIsFresh(n, actions, p, v, data);
    forall i, k | 0 <= i < |data| && data[i].stamp.writtenAt <= k < |actions| && Replaces(actions[k], p, data[i].name)
      ensures ProblemAfter(n, actions[..k], p).version >= v
    {
      assert ReadSince(n, actions, p, v, data[i]);
      var read := data[i].readAt - 1;
      SinceWritten(n, actions, p, data[i], read);
      VersionsGrow(n, actions, p, read, k);
    }
  }

  // ---- The cache is an LRU cache of 100 entries ----

  // The call that a step makes on the cache.
  function CallOf(s: State, a: Action): Option<LruRuns.Op<TestData>> {
    if !(a.Load? && a.i < |s.loaders|) then None
    else
      var l := s.loaders[a.i];
      if l.Versioned? && (a.op.CacheHit? || a.op.CacheMiss?) then Some(LruRuns.GetOp(Key(l.problem, l.version), a.op.clock))
      else if l.Reading? && a.op.Store? then Some(LruRuns.SetOp(Key(l.problem, l.version), l.got, a.op.clock))
      else None
  }

  // The calls of a run, in order.
  function CacheOps(n: nat, actions: seq<Action>): seq<LruRuns.Op<TestData>> {
    if actions == [] then []
    else
      var init := actions[..|actions| - 1];
      match Run(n, init)
      case None => CacheOps(n, init)
      case Some(s) =>
        match CallOf(s, actions[|actions| - 1])
        case None => CacheOps(n, init)
        case Some(op) => CacheOps(n, init) + [op]
  }

  lemma CacheStep(s: State, a: Action)
    requires Enabled(s, a)
    ensures Do(s, a).cache == match CallOf(s, a) case None => s.cache case Some(op) => LruRuns.After(s.cache, op, 100)
  {
  }

  lemma LruRunSnoc(ops: seq<LruRuns.Op<TestData>>, op: LruRuns.Op<TestData>)
    ensures LruRuns.Run(ops + [op], 100) == LruRuns.After(LruRuns.Run(ops, 100), op, 100)
  {
    assert (ops + [op])[..|ops|] == ops;
  }

  // Over every interleaving the cache is what these calls make of an LRU cache.
  lemma {:induction false} CacheIsLru(n: nat, actions: seq<Action>)
    requires Run(n, actions).Some?
    ensures Run(n, actions).value.cache == LruRuns.Run(CacheOps(n, actions), 100)
  {
    if actions != [] {
      var init, a := actions[..|actions| - 1], actions[|actions| - 1];
      var s := Run(n, init).value;
      CacheIsLru(n, init);
      CacheStep(s, a);
      if CallOf(s, a).Some? {
        LruRunSnoc(CacheOps(n, init), CallOf(s, a).value);
      }
    }
  }

  // ---- When a load is a snapshot of the directory ----

  // Some moment had all of data on disk together.
  ghost predicate Snapshot(n: nat, actions: seq<Action>, p: nat, data: TestData) {
    exists k :: 0 <= k <= |actions| && AllOnDisk(n, actions[..k], p, data)
  }

  ghost predicate AllOnDisk(n: nat, actions: seq<Action>, p: nat, data: TestData) {
    forall i :: 0 <= i < |data| ==> OnDisk(n, actions, p, data[i])
  }

  // No file of data was replaced before another one of it was written.
  ghost predicate Undisturbed(actions: seq<Action>, p: nat, data: TestData) {
    forall i, j, k :: 0 <= i < |data| && 0 <= j < |data| && 0 <= k < |actions|
                      && data[i].stamp.writtenAt <= k < data[j].stamp.writtenAt ==>
      !Replaces(actions[k], p, data[i].name)
  }

  lemma {:induction false} LatestWrite(data: TestData) returns (j: nat)
    requires data != []
    ensures j < |data| && forall i :: 0 <= i < |data| ==> data[i].stamp.writtenAt <= data[j].stamp.writtenAt
  {
    j := 0;
    for k := 1 to |data|
      invariant j < |data| && forall i :: 0 <= i < k ==> data[i].stamp.writtenAt <= data[j].stamp.writtenAt
    {
      if data[k].stamp.writtenAt > data[j].stamp.writtenAt {
        j := k;
      }
    }
  }

  // Over every interleaving, what a load returns or caches is a snapshot of the
  // directory if and only if no file of it was replaced before another file of
  // it was written.
  lemma SnapshotExactlyWhen(n: nat, actions: seq<Action>, p: nat, v: nat, data: TestData)
    requires Run(n, actions).Some? && Delivered(Run(n, actions).value, p, v, data)
    ensures Snapshot(n, actions, p, data) <==> Undisturbed(actions, p, data)
  {
    DeliveredIsFresh(n, actions, p, v, data);
    if Snapshot(n, actions, p, data) {
      var k :| 0 <= k <= |actions| && AllOnDisk(n, actions[..k], p, data);
      forall i | 0 <= i < |data|
        ensures data[i].stamp.writtenAt <= k
        ensures forall m :: data[i].stamp.writtenAt <= m < k ==> !Replaces(actions[m], p, data[i].name)
      {
        SinceWritten(n, actions, p, data[i], k);
      }
    }
    if Undisturbed(actions, p, data) {
      UndisturbedIsSnapshot(n, actions, p, v, data);
    }
  }

  lemma UndisturbedIsSnapshot(n: nat, actions: seq<Action>, p: nat, v: nat, data: TestData)
    requires Run(n, actions).Some? && Fresh(n, actions, p, v, data) && Undisturbed(actions, p, data)
    ensures Snapshot(n, actions, p, data)
  {
    if data == [] {
      assert AllOnDisk(n, actions[..0], p, data);
    } else {
      var j := LatestWrite(data);
      var last := data[j].stamp.writtenAt;
      forall i | 0 <= i < |data| ensures last <= |actions| && OnDisk(n, actions[..last], p, data[i]) {
        assert ReadSince(n, actions, p, v, data[j]) && ReadSince(n, actions, p, v, data[i]);
        assert forall k :: data[i].stamp.writtenAt <= k < last && k < |actions| ==> !Replaces(actions[k], p, data[i].name);
        StillThere(n, actions, p, v, data[i], data[j]);
      }
      assert AllOnDisk(n, actions[..last], p, data);
    }
  }

  // f is on disk when g is written, if nothing replaces f until then.
  lemma StillThere(n: nat, actions: seq<Action>, p: nat, v: nat, f: File, g: File)
    requires Run(n, actions).Some? && ReadSince(n, actions, p, v, f) && ReadSince(n, actions, p, v, g)
    requires f.stamp.writtenAt <= g.stamp.writtenAt
    requires forall k :: f.stamp.writtenAt <= k < g.stamp.writtenAt && k < |actions| ==> !Replaces(actions[k], p, f.name)
    ensures g.stamp.writtenAt <= |actions| && OnDisk(n, actions[..g.stamp.writtenAt], p, f)
  {
    SinceWritten(n, actions, p, g, g.readAt - 1);
    SinceWritten(n, actions, p, f, f.readAt - 1);
    Survives(n, actions, p, f, f.stamp.writtenAt, g.stamp.writtenAt);
  }

  // ---- When a load is of one upload ----

  // No upload clears a directory while another change of it is under way.
  ghost predicate Serial(n: nat, actions: seq<Action>) {
    forall k :: 0 <= k < |actions| && actions[k].Change? && actions[k].change.Clear? ==>
      ProblemAfter(n, actions[..k], actions[k].p).changing == map[]
  }

  function Clears(actions: seq<Action>, p: nat): nat {
    if actions == [] then 0
    else Clears(actions[..|actions| - 1], p) + if actions[|actions| - 1] == Change(p, Clear) then 1 else 0
  }

  // With serial uploads all files on disk are of the upload begun last.
  lemma {:induction false} DiskIsOfLastUpload(n: nat, actions: seq<Action>, p: nat, k: nat)
    requires Run(n, actions).Some? && Serial(n, actions) && k <= |actions|
    ensures var q := ProblemAfter(n, actions[..k], p);
            && q.uploads == Clears(actions[..k], p)
            && (forall name :: name in q.files ==> q.files[name].upload == q.uploads)
            && (forall c :: c in q.changing ==> q.changing[c] == q.uploads)
  {
    if k == 0 {
      assert actions[..0] == [];
    } else {
      DiskIsOfLastUpload(n, actions, p, k - 1);
      StepAt(n, actions, p, k - 1);
      assert actions[..k][..k - 1] == actions[..k - 1];
    }
  }

  lemma {:induction false} ClearsBetween(actions: seq<Action>, p: nat, j: nat, k: nat)
    requires j <= k <= |actions|
    ensures Clears(actions[..j], p) <= Clears(actions[..k], p)
    ensures Clears(actions[..j], p) == Clears(actions[..k], p) <==> forall m :: j <= m < k ==> actions[m] != Change(p, Clear)
    decreases k - j
  {
    if j < k {
      ClearsBetween(actions, p, j, k - 1);
      assert actions[..k][..k - 1] == actions[..k - 1];
    }
  }

  ghost predicate OneUpload(data: TestData) {
    forall i, j :: 0 <= i < j < |data| ==> data[i].stamp.upload == data[j].stamp.upload
  }

  // Some upload of p began between the actions from and upto.
  ghost predicate UploadBegan(actions: seq<Action>, p: nat, from: nat, upto: nat) {
    exists k :: from < k < upto && k < |actions| && actions[k] == Change(p, Clear)
  }

  // With serial uploads, what a load returns or caches is of one upload if and
  // only if no upload of the problem began between its first and its last read.
  lemma OneUploadExactlyWhen(n: nat, actions: seq<Action>, p: nat, v: nat, data: TestData)
    requires Run(n, actions).Some? && Serial(n, actions)
    requires Delivered(Run(n, actions).value, p, v, data) && data != []
    ensures var last := |data| - 1;
            && 1 <= data[0].readAt <= data[last].readAt
            && (OneUpload(data) <==> !UploadBegan(actions, p, data[0].readAt - 1, data[last].readAt - 1))
  {
    DeliveredIsFresh(n, actions, p, v, data);
    FreshIsInOrder(n, actions, p, v, data);
    OneUploadInOrder(actions, p, data);
  }

  // Files read one after the other, each of the upload begun last before.
  ghost predicate InOrder(actions: seq<Action>, p: nat, data: TestData) {
    && (forall i :: 0 <= i < |data| ==> OfLastUpload(actions, p, data[i]))
    && (forall i, j :: 0 <= i < j < |data| ==> data[i].readAt < data[j].readAt)
  }

  predicate OfLastUpload(actions: seq<Action>, p: nat, f: File) {
    && 1 <= f.readAt <= |actions|
    && actions[f.readAt - 1].Load?
    && f.stamp.upload == Clears(actions[..f.readAt - 1], p)
  }

  lemma FreshIsInOrder(n: nat, actions: seq<Action>, p: nat, v: nat, data: TestData)
    requires Run(n, actions).Some? && Serial(n, actions) && Fresh(n, actions, p, v, data)
    ensures InOrder(actions, p, data)
  {
    forall i | 0 <= i < |data| ensures OfLastUpload(actions, p, data[i]) {
      ReadIsOfLastUpload(n, actions, p, v, data[i]);
    }
  }

  lemma ReadIsOfLastUpload(n: nat, actions: seq<Action>, p: nat, v: nat, f: File)
    requires Run(n, actions).Some? && Serial(n, actions) && ReadSince(n, actions, p, v, f)
    ensures OfLastUpload(actions, p, f)
  {
    DiskIsOfLastUpload(n, actions, p, f.readAt - 1);
  }

  lemma OneUploadInOrder(actions: seq<Action>, p: nat, data: TestData)
    requires InOrder(actions, p, data) && data != []
    ensures var last := |data| - 1;
            && 1 <= data[0].readAt <= data[last].readAt
            && (OneUpload(data) <==> !UploadBegan(actions, p, data[0].readAt - 1, data[last].readAt - 1))
  {
    var last := |data| - 1;
    assert OfLastUpload(actions, p, data[0]) && OfLastUpload(actions, p, data[last]);
    var from, upto := data[0].readAt - 1, data[last].readAt - 1;
    forall i | 0 <= i < |data|
      ensures Clears(actions[..from], p) <= data[i].stamp.upload <= Clears(actions[..upto], p)
    {
      assert OfLastUpload(actions, p, data[i]);
      ClearsBetween(actions, p, from, data[i].readAt - 1);
      ClearsBetween(actions, p, data[i].readAt - 1, upto);
    }
    SameUpload(data, Clears(actions[..from], p), Clears(actions[..upto], p));
    SameClears(actions, p, from, upto);
  }

  lemma SameUpload(data: TestData, lo: nat, hi: nat)
    requires data != [] && data[0].stamp.upload == lo && data[|data| - 1].stamp.upload == hi
    requires forall i :: 0 <= i < |data| ==> lo <= data[i].stamp.upload <= hi
    ensures OneUpload(data) <==> lo == hi
  {
  }

  lemma SameClears(actions: seq<Action>, p: nat, from: nat, upto: nat)
    requires from <= upto < |actions| && actions[from].Load?
    ensures Clears(actions[..from], p) == Clears(actions[..upto], p) <==> !UploadBegan(actions, p, from, upto)
  {
    ClearsBetween(actions, p, from, upto);
  }

  // ---- Loads that mix ----

  // actions lead to s, without overlapping uploads.
  ghost predicate Leads(actions: seq<Action>, s: State) {
    Run(1, actions) == Some(s) && Serial(1, actions)
  }

  lemma LeadsOn(actions: seq<Action>, s: State, a: Action)
    requires Leads(actions, s) && Enabled(s, a)
    requires a.Change? && a.change.Clear? ==> At(s, a.p).changing == map[]
    ensures Leads(actions + [a], Do(s, a))
  {
    var more := actions + [a];
    assert more[..|actions|] == actions;
    forall k | 0 <= k < |more| && more[k].Change? && more[k].change.Clear?
      ensures ProblemAfter(1, more[..k], more[k].p).changing == map[]
    {
      if k < |actions| {
        assert more[..k] == actions[..k] && more[k] == actions[k];
      }
    }
  }

  // One problem, one loader, an empty cache.
  function Small(now: nat, q: Problem, l: Loader): State { State(now, map[0 := q], [], [l]) }

  lemma ChangeOn(actions: seq<Action>, now: nat, q: Problem, op: ChangeOp, l: Loader)
    requires Leads(actions, Small(now, q, l)) && CanChange(q, op) && (op.Clear? ==> q.changing == map[])
    ensures Leads(actions + [Change(0, op)], Small(now + 1, AfterChange(q, op, now + 1), l))
  {
    LeadsOn(actions, Small(now, q, l), Change(0, op));
    assert map[0 := q][0 := AfterChange(q, op, now + 1)] == map[0 := AfterChange(q, op, now + 1)];
  }

  lemma LoadOn(actions: seq<Action>, now: nat, q: Problem, l: Loader, op: LoadOp)
    requires Leads(actions, Small(now, q, l)) && CanLoad(Small(now, q, l), l, op) && !op.Store?
    ensures Leads(actions + [Load(0, op)], Small(now + 1, q, AfterLoad(Small(now, q, l), l, op)))
  {
    LeadsOn(actions, Small(now, q, l), Load(0, op));
    assert [l][0 := AfterLoad(Small(now, q, l), l, op)] == [AfterLoad(Small(now, q, l), l, op)];
  }

  // The stages of a first upload of two files.
  const CLEARED := Problem(map[], 0, map[1 := 1], 1, 1)
  const HALF := Problem(map["a" := Stamp(1, 2)], 0, map[1 := 1], 1, 1)
  const FULL := Problem(map["a" := Stamp(1, 2), "b" := Stamp(1, 3)], 0, map[1 := 1], 1, 1)
  const UPLOADED := Problem(map["a" := Stamp(1, 2), "b" := Stamp(1, 3)], 1, map[], 1, 1)
  const FIRST := File(0, "a", Stamp(1, 2), 7)
  const SECOND := File(0, "b", Stamp(2, 9), 10)

  lemma UploadStages()
    ensures AfterChange(NEW_PROBLEM, Clear, 1) == CLEARED
    ensures AfterChange(CLEARED, Write(1, "a"), 2) == HALF
    ensures AfterChange(HALF, Write(1, "b"), 3) == FULL
    ensures AfterChange(FULL, Publish(1), 4) == UPLOADED
  {
    assert map[1 := 1] - {1} == map[];
  }

  lemma FirstClear()
    ensures Leads([Change(0, Clear)], Small(1, CLEARED, Idle))
  {
    LeadsOn([], Init(1), Change(0, Clear));
    UploadStages();
    assert [] + [Change(0, Clear)] == [Change(0, Clear)];
    assert Do(Init(1), Change(0, Clear)) == Small(1, CLEARED, Idle);
  }

  lemma FirstUpload() returns (actions: seq<Action>)
    ensures Leads(actions, Small(4, UPLOADED, Idle))
  {
    FirstClear();
    UploadStages();
    actions := [Change(0, Clear)];
    ChangeOn(actions, 1, CLEARED, Write(1, "a"), Idle);
    actions := actions + [Change(0, Write(1, "a"))];
    ChangeOn(actions, 2, HALF, Write(1, "b"), Idle);
    actions := actions + [Change(0, Write(1, "b"))];
    ChangeOn(actions, 3, FULL, Publish(1), Idle);
    actions := actions + [Change(0, Publish(1))];
  }

  // A load of version 1 has read the first file.
  lemma FirstRead() returns (actions: seq<Action>)
    ensures Leads(actions, Small(7, UPLOADED, Reading(0, 1, [FIRST])))
  {
    actions := FirstUpload();
    LoadOn(actions, 4, UPLOADED, Idle, ReadVersion(0));
    actions := actions + [Load(0, ReadVersion(0))];
    LoadOn(actions, 5, UPLOADED, Versioned(0, 1), CacheMiss(0));
    actions := actions + [Load(0, CacheMiss(0))];
    LoadOn(actions, 6, UPLOADED, Reading(0, 1, []), ReadFile("a"));
    actions := actions + [Load(0, ReadFile("a"))];
    assert [] + [FIRST] == [FIRST];
  }

  // Then a second upload has replaced the files.
  lemma SecondUploadMeanwhile() returns (actions: seq<Action>, q: Problem)
    ensures Leads(actions, Small(9, q, Reading(0, 1, [FIRST])))
    ensures "b" in q.files && q.files["b"] == Stamp(2, 9)
  {
    var l := Reading(0, 1, [FIRST]);
    actions := FirstRead();
    ChangeOn(actions, 7, UPLOADED, Clear, l);
    actions, q := actions + [Change(0, Clear)], AfterChange(UPLOADED, Clear, 8);
    ChangeOn(actions, 8, q, Write(2, "b"), l);
    actions, q := actions + [Change(0, Write(2, "b"))], AfterChange(q, Write(2, "b"), 9);
  }

  // So a load can mix files of two uploads that do not overlap, and the mixture
  // is then cached under the older version's key.
  lemma LoadsCanMixUploads() returns (actions: seq<Action>, s: State)
    ensures Leads(actions, s) && Delivered(s, 0, 1, [FIRST, SECOND])
    ensures s.cache == [Item(Key(0, 1), [FIRST, SECOND], TTL)] && !OneUpload([FIRST, SECOND])
  {
    var q: Problem;
    actions, q := SecondUploadMeanwhile();
    LoadOn(actions, 9, q, Reading(0, 1, [FIRST]), ReadFile("b"));
    actions := actions + [Load(0, ReadFile("b"))];
    assert [FIRST] + [SECOND] == [FIRST, SECOND];
    var before := Small(10, q, Reading(0, 1, [FIRST, SECOND]));
    LeadsOn(actions, before, Load(0, Store(0)));
    actions, s := actions + [Load(0, Store(0))], Do(before, Load(0, Store(0)));
    assert s.loaders[0] == Finished(0, 1, [FIRST, SECOND]);
    assert [FIRST, SECOND][0].stamp.upload != [FIRST, SECOND][1].stamp.upload;
  }

  const EDITED := File(0, "b", Stamp(1, 10), 11)

  // After the first read an edit has rewritten both files.
  lemma EditMeanwhile() returns (actions: seq<Action>, q: Problem)
    ensures Leads(actions, Small(10, q, Reading(0, 1, [FIRST])))
    ensures |actions| == 10 && actions[8] == Change(0, Write(2, "a"))
    ensures "b" in q.files && q.files["b"] == Stamp(1, 10)
  {
    var l := Reading(0, 1, [FIRST]);
    actions := FirstRead();
    LeadsLength(actions);
    ChangeOn(actions, 7, UPLOADED, Edit, l);
    actions, q := actions + [Change(0, Edit)], AfterChange(UPLOADED, Edit, 8);
    ChangeOn(actions, 8, q, Write(2, "a"), l);
    actions, q := actions + [Change(0, Write(2, "a"))], AfterChange(q, Write(2, "a"), 9);
    ChangeOn(actions, 9, q, Write(2, "b"), l);
    actions, q := actions + [Change(0, Write(2, "b"))], AfterChange(q, Write(2, "b"), 10);
  }

  // An edit that rewrites both files of a case can be seen half done: the load
  // holds the old input and the new output, both of one upload, though the two
  // were never on disk together.
  lemma LoadsCanSplitEdits() returns (actions: seq<Action>, s: State)
    ensures Leads(actions, s) && Delivered(s, 0, 1, [FIRST, EDITED])
    ensures OneUpload([FIRST, EDITED]) && !Snapshot(1, actions, 0, [FIRST, EDITED])
  {
    var q: Problem;
    actions, q := EditMeanwhile();
    LoadOn(actions, 10, q, Reading(0, 1, [FIRST]), ReadFile("b"));
    actions := actions + [Load(0, ReadFile("b"))];
    assert [FIRST] + [EDITED] == [FIRST, EDITED];
    var before := Small(11, q, Reading(0, 1, [FIRST, EDITED]));
    LeadsOn(actions, before, Load(0, Store(0)));
    actions, s := actions + [Load(0, Store(0))], Do(before, Load(0, Store(0)));
    assert s.loaders[0] == Finished(0, 1, [FIRST, EDITED]);
    SnapshotExactlyWhen(1, actions, 0, 1, [FIRST, EDITED]);
    assert Replaces(actions[8], 0, [FIRST, EDITED][0].name) && [FIRST, EDITED][1].stamp.writtenAt == 10;
  }

  lemma LeadsLength(actions: seq<Action>)
    requires Run(1, actions).Some?
    ensures Run(1, actions).value.now == |actions|
  {
    RunPrefix(1, actions, |actions|);
    assert actions[..|actions|] == actions;
  }
}
