/** Schema migrations: an ordered run over files that may stop anywhere and be started again. */
module Migrate {
  import opened Wrappers
  import opened Bags

  // ----- file names and their order -----

  /** The order of sort.Strings. */
  predicate TextLe(a: string, b: string) {
    a == "" || (b != "" && (a[0] < b[0] || (a[0] == b[0] && TextLe(a[1..], b[1..]))))
  }

  lemma {:induction false} TextLeTotal(a: string, b: string)
    ensures TextLe(a, b) || TextLe(b, a)
  {
    if a != "" && b != "" {
      TextLeTotal(a[1..], b[1..]);
    }
  }

  lemma {:induction false} TextLeTransitive(a: string, b: string, c: string)
    requires TextLe(a, b) && TextLe(b, c)
    ensures TextLe(a, c)
  {
    if a != "" && a[0] == b[0] == c[0] {
      TextLeTransitive(a[1..], b[1..], c[1..]);
    }
  }

  lemma {:induction false} TextLeAntisymmetric(a: string, b: string)
    requires TextLe(a, b) && TextLe(b, a)
    ensures a == b
  {
    if a != "" {
      TextLeAntisymmetric(a[1..], b[1..]);
      assert a == [a[0]] + a[1..] && b == [b[0]] + b[1..];
    }
  }

  /** The first character that differs decides, and a text comes before its continuations. */
  lemma {:induction false} TextLeExactly(a: string, b: string)
    ensures TextLe(a, b)
       <==> || (|a| <= |b| && a == b[..|a|])
            || exists i :: 0 <= i < |a| && i < |b| && a[..i] == b[..i] && a[i] < b[i]
  {
    if a != "" && b != "" {
      TextLeExactly(a[1..], b[1..]);
      if a[0] < b[0] {
        assert a[..0] == b[..0];
      } else if a[0] == b[0] {
        LaterDifference(a, b);
      }
    }
  }

  /** Behind an equal first character. */
  lemma {:induction false} LaterDifference(a: string, b: string)
    requires a != "" && b != "" && a[0] == b[0]
    ensures (|a| <= |b| && a == b[..|a|]) <==> (|a[1..]| <= |b[1..]| && a[1..] == b[1..][..|a[1..]|])
    ensures (exists i :: 0 <= i < |a| && i < |b| && a[..i] == b[..i] && a[i] < b[i])
       <==> exists i :: 0 <= i < |a[1..]| && i < |b[1..]| && a[1..][..i] == b[1..][..i] && a[1..][i] < b[1..][i]
  {
    assert a == [a[0]] + a[1..] && b == [b[0]] + b[1..];
    if |a| <= |b| {
      assert b[..|a|] == [b[0]] + b[1..][..|a| - 1];
    }
    forall i | 0 <= i < |a[1..]| && i < |b[1..]|
      ensures a[..i + 1] == [a[0]] + a[1..][..i] && b[..i + 1] == [b[0]] + b[1..][..i]
    {
    }
    if i :| 0 <= i < |a| && i < |b| && a[..i] == b[..i] && a[i] < b[i] {
      assert i > 0;
      assert a[1..][..i - 1] == a[..i][1..] && b[1..][..i - 1] == b[..i][1..];
      assert a[1..][i - 1] < b[1..][i - 1];
    }
    if i :| 0 <= i < |a[1..]| && i < |b[1..]| && a[1..][..i] == b[1..][..i] && a[1..][i] < b[1..][i] {
      assert a[..i + 1] == b[..i + 1] && a[i + 1] < b[i + 1];
    }
  }

  lemma {:induction false} TextLeOrder()
    ensures TotalOrder(TextLe)
  {
    forall a, b
      ensures TextLe(a, b) || TextLe(b, a)
    {
      TextLeTotal(a, b);
    }
    forall a, b, c | TextLe(a, b) && TextLe(b, c)
      ensures TextLe(a, c)
    {
      TextLeTransitive(a, b, c);
    }
  }

  datatype DirEntry = DirEntry(name: string, isDir: bool)

  predicate IsMigration(e: DirEntry) {
    !e.isDir && |e.name| >= 4 && e.name[|e.name| - 4..] == ".sql"
  }

  ghost predicate DistinctNames(names: seq<string>) {
    forall i, j :: 0 <= i < j < |names| ==> names[i] != names[j]
  }

  /** Each once, in file name order. */
  ghost predicate Ordered(names: seq<string>) {
    DistinctNames(names) && SortedBy(names, TextLe)
  }

  /** The migration files of a directory listing. */
  ghost predicate FilesOf(entries: seq<DirEntry>, files: seq<string>) {
    Ordered(files) && forall n :: n in files <==> exists e :: e in entries && IsMigration(e) && e.name == n
  }

  // ----- one run -----

  /** A file's contents: what they make of a schema, or an SQL error. */
  type Script<!S> = S -> Option<S>

  function NotIn(names: seq<string>): string -> bool {
    (n: string) => n !in names
  }

  function Pending(files: seq<string>, applied: seq<string>): seq<string> {
    Filtered(files, NotIn(applied))
  }

  /** These files, one after the other. */
  function Fold<S>(schema: S, names: seq<string>, scripts: string -> Script<S>): Option<S> {
    if names == [] then Some(schema)
    else match Fold(schema, names[..|names| - 1], scripts)
      case Some(s) => scripts(names[|names| - 1])(s)
      case None => None
  }

  /** The tables as they are between two transactions: schema_migrations in commit order, and the schema. */
  datatype Tables<S> = Tables(applied: seq<string>, schema: S)

  /** A run that got through the first `k` pending files. */
  ghost predicate Reaches<S>(before: Tables<S>, files: seq<string>, scripts: string -> Script<S>, k: nat,
                             after: Tables<S>) {
    var pending := Pending(files, before.applied);
    && k <= |pending| && after.applied == before.applied + pending[..k]
    && Fold(before.schema, pending[..k], scripts) == Some(after.schema)
  }

  /** A run as observed from outside: `done` if it returned no error. */
  ghost predicate Attempt<S>(before: Tables<S>, files: seq<string>, scripts: string -> Script<S>, done: bool,
                             after: Tables<S>) {
    exists k :: Reaches(before, files, scripts, k, after) && (done ==> k == |Pending(files, before.applied)|)
  }

  /** Everything before the first pending file that does not apply is committed, and nothing else. */
  ghost predicate StuckAt<S>(before: Tables<S>, files: seq<string>, scripts: string -> Script<S>, after: Tables<S>) {
    var pending := Pending(files, before.applied);
    exists k :: 0 <= k < |pending| && Reaches(before, files, scripts, k, after)
             && scripts(pending[k])(after.schema).None?
  }

  /** `faults` counts statements that failed for reasons other than a migration's own SQL. */
  class Database<S> {
    var applied: seq<string>
    var schema: S
    var faults: nat

    constructor (empty: S)
      ensures applied == [] && schema == empty
    {
      applied, schema, faults := [], empty, 0;
    }

    ghost function State(): Tables<S>
      reads this
    {
      Tables(applied, schema)
    }

    /** The directory's migration files, as the run goes through them. */
    method ListFiles(entries: seq<DirEntry>) returns (files: seq<string>)
      requires forall i, j :: 0 <= i < j < |entries| ==> entries[i].name != entries[j].name
      ensures FilesOf(entries, files)
      ensures forall n :: n in files <==> |n| >= 4 && n[|n| - 4..] == ".sql" && DirEntry(n, false) in entries
    {
      files := [];
      for i := 0 to |entries|
        invariant DistinctNames(files)
        invariant forall n :: n in files <==> exists j :: 0 <= j < i && IsMigration(entries[j]) && entries[j].name == n
      {
        var e := entries[i];
        if !e.isDir && |e.name| >= 4 && e.name[|e.name| - 4..] == ".sql" {
          ghost var before := files;
          files := files + [e.name];
          assert forall n :: n in files <==> n in before || n == e.name;
          assert forall n :: n in before ==> n != e.name;
          assert forall k :: 0 <= k < |before| ==> before[k] in before;
        }
      }
      ghost var unsorted := files;
      TextLeOrder();
      files := Sort(files, TextLe);
      SameSize(files, unsorted);
      StillDistinct(unsorted, files);
    }

    /**
     * Migrate. Any statement may fail and the process may stop anywhere, also between a commit and its
     * acknowledgement; a transaction is committed as a whole or not at all. Without such faults, only a
     * migration that does not apply is an error.
     */
    method Migrate(entries: seq<DirEntry>, scripts: string -> Script<S>)
        returns (r: Result<()>, ghost files: seq<string>)
      requires forall i, j :: 0 <= i < j < |entries| ==> entries[i].name != entries[j].name
      modifies this
      ensures FilesOf(entries, files)
      ensures Attempt(old(State()), files, scripts, r.Ok?, State())
      ensures r.Ok? ==> faults == old(faults)
      ensures faults == old(faults) ==> (r.Ok? <==> Fold(old(schema), Pending(files, old(applied)), scripts).Some?)
      ensures r.Err? && faults == old(faults) ==> StuckAt(old(State()), files, scripts, State())
    {
      var names := ListFiles(entries);
      files := names;
      ghost var before := State();
      for i := 0 to |names|
        invariant Through(before, names, scripts, i, State()) && faults == old(faults)
      {
        var one := ApplyFile(names[i], scripts(names[i]), before, names, scripts, i);
        if one.Err? {
          return one, names;
        }
      }
      Interrupted(before, names, scripts, |names|, State());
      assert names[..|names|] == names;
      r := Ok(());
    }

    /** One turn of the loop, on file `i` of a run that began with `before`. */
    method ApplyFile(name: string, contents: Script<S>, ghost before: Tables<S>, ghost names: seq<string>,
                     ghost scripts: string -> Script<S>, ghost i: nat) returns (r: Result<()>)
      requires i < |names| && name == names[i] && contents == scripts(name) && DistinctNames(names)
      requires Through(before, names, scripts, i, State())
      modifies this
      ensures r.Ok? ==> Through(before, names, scripts, i + 1, State()) && faults == old(faults)
      ensures r.Err? ==> Attempt(before, names, scripts, false, State())
      ensures r.Err? && faults == old(faults) ==>
                && Fold(before.schema, Pending(names, before.applied), scripts).None?
                && StuckAt(before, names, scripts, State())
    {
      Interrupted(before, names, scripts, i, State());
      ThroughNext(before, names, scripts, i, State());
      var works := Works();
      if !works {
        return Err("check");
      }
      if name in applied {
        return Ok(());
      }
      works := Works();
      if !works {
        return Err("begin");
      }
      var next := contents(schema);
      if next.None? {
        DoesNotApply(before, names, scripts, i, State());
        return Err("apply");
      }
      works := Works();
      if !works {
        return Err("commit");
      }
      schema, applied := next.value, applied + [name];
      Interrupted(before, names, scripts, i + 1, State());
      works := Works();
      r := if works then Ok(()) else Err("late");
    }

    /** Whether the next statement, or the process itself, survives. */
    method Works() returns (ok: bool)
      modifies this`faults
      ensures faults == old(faults) + if ok then 0 else 1
    {
      ok := *;
      if !ok {
        faults := faults + 1;
      }
    }
  }

  // ----- the loop of one run -----

  /** The run has dealt with the first `i` files. */
  ghost predicate Through<S>(before: Tables<S>, files: seq<string>, scripts: string -> Script<S>, i: nat,
                             now: Tables<S>)
    requires i <= |files|
  {
    var done := Pending(files[..i], before.applied);
    now.applied == before.applied + done && Fold(before.schema, done, scripts) == Some(now.schema)
  }

  /** Stopping there is an attempt, and at the end a complete one. */
  lemma {:induction false} Interrupted<S>(before: Tables<S>, files: seq<string>, scripts: string -> Script<S>, i: nat,
                                          now: Tables<S>)
    requires i <= |files| && Through(before, files, scripts, i, now)
    ensures Attempt(before, files, scripts, i == |files|, now) && Attempt(before, files, scripts, false, now)
  {
    var k := |Pending(files[..i], before.applied)|;
    FilteredAppend(files[..i], files[i..], NotIn(before.applied));
    assert files == files[..i] + files[i..];
    if i == |files| {
      assert files[..i] == files;
    }
    assert Reaches(before, files, scripts, k, now);
  }

  /** Skipping an applied file, or committing one that is not, gets through one more. */
  lemma {:induction false} ThroughNext<S>(before: Tables<S>, files: seq<string>, scripts: string -> Script<S>, i: nat,
                                          now: Tables<S>)
    requires i < |files| && DistinctNames(files) && Through(before, files, scripts, i, now)
    ensures files[i] in now.applied ==> Through(before, files, scripts, i + 1, now)
    ensures files[i] !in now.applied && scripts(files[i])(now.schema).Some? ==>
              Through(before, files, scripts, i + 1,
                      Tables(now.applied + [files[i]], scripts(files[i])(now.schema).value))
  {
    PendingNext(files, i, before.applied);
    var done, next := Pending(files[..i], before.applied), Pending(files[..i + 1], before.applied);
    if files[i] !in now.applied {
      assert next[..|next| - 1] == done;
    } else {
      assert next == done;
    }
  }

  /** A pending file that does not apply stops every run at the same place. */
  lemma {:induction false} DoesNotApply<S>(before: Tables<S>, files: seq<string>, scripts: string -> Script<S>, i: nat,
                                           now: Tables<S>)
    requires i < |files| && DistinctNames(files) && Through(before, files, scripts, i, now)
    requires files[i] !in now.applied && scripts(files[i])(now.schema).None?
    ensures Fold(before.schema, Pending(files, before.applied), scripts).None?
    ensures StuckAt(before, files, scripts, now)
  {
    PendingNext(files, i, before.applied);
    var done, next := Pending(files[..i], before.applied), Pending(files[..i + 1], before.applied);
    assert next[..|next| - 1] == done;
    FilteredAppend(files[..i + 1], files[i + 1..], NotIn(before.applied));
    assert files == files[..i + 1] + files[i + 1..];
    FoldStops(before.schema, next, Filtered(files[i + 1..], NotIn(before.applied)), scripts);
    var pending := Pending(files, before.applied);
    assert pending[..|done|] == done && pending[|done|] == files[i];
    assert Reaches(before, files, scripts, |done|, now);
  }

  lemma {:induction false} FoldStops<S>(schema: S, a: seq<string>, b: seq<string>, scripts: string -> Script<S>)
    requires Fold(schema, a, scripts).None?
    ensures Fold(schema, a + b, scripts).None?
    decreases |b|
  {
    if b == [] {
      assert a + b == a;
    } else {
      FoldStops(schema, a, b[..|b| - 1], scripts);
      assert (a + b)[..|a + b| - 1] == a + b[..|b| - 1];
    }
  }

  lemma {:induction false} PendingNext(files: seq<string>, i: nat, applied: seq<string>)
    requires i < |files| && DistinctNames(files)
    ensures Pending(files[..i + 1], applied) == Pending(files[..i], applied) + if files[i] in applied then []
            else [files[i]]
    ensures files[i] !in Pending(files[..i], applied)
  {
    assert files[..i + 1][..i] == files[..i];
    FilteredMembers(files[..i], NotIn(applied));
  }

  lemma {:induction false} StillDistinct(a: seq<string>, b: seq<string>)
    requires multiset(a) == multiset(b) && DistinctNames(a)
    ensures DistinctNames(b)
  {
    CountDistinct(a);
    SameSize(a, b);
    assert SetOf(a) == SetOf(b);
    if i, j :| 0 <= i < j < |b| && b[i] == b[j] {
      CountRepeated(b, i, j);
      assert false;
    }
  }

  lemma {:induction false} CountRepeated(s: seq<string>, i: nat, j: nat)
    requires i < j < |s| && s[i] == s[j]
    ensures |SetOf(s)| < |s|
  {
    var rest := s[..j] + s[j + 1..];
    assert rest[i] == s[j];
    assert SetOf(rest) == SetOf(s) by {
      forall x | x in s
        ensures x in rest
      {
        var k :| 0 <= k < |s| && s[k] == x;
        assert k < j ==> rest[k] == x;
        assert k > j ==> rest[k - 1] == x;
      }
    }
    CountAtMost(rest);
  }

  lemma {:induction false} CountAtMost(s: seq<string>)
    ensures |SetOf(s)| <= |s|
  {
    if s != [] {
      var n := |s| - 1;
      CountAtMost(s[..n]);
      assert s == s[..n] + [s[n]];
      assert SetOf(s) == SetOf(s[..n]) + {s[n]};
    }
  }

  // ----- all runs -----

  /** Runs one after the other, each with the files of its time; the database is first empty. */
  ghost predicate IsHistory<S(!new)>(states: seq<Tables<S>>, dirs: seq<seq<string>>, done: seq<bool>,
                                     scripts: string -> Script<S>) {
    && |states| == |dirs| + 1 && |done| == |dirs| && states[0].applied == []
    && (forall i :: 0 <= i < |dirs| ==> Ordered(dirs[i]))
    && forall i :: 0 <= i < |dirs| ==> Attempt(states[i], dirs[i], scripts, done[i], states[i + 1])
  }

  lemma {:induction false} FoldAppend<S>(schema: S, a: seq<string>, b: seq<string>, scripts: string -> Script<S>)
    requires Fold(schema, a, scripts).Some?
    ensures Fold(schema, a + b, scripts) == Fold(Fold(schema, a, scripts).value, b, scripts)
    decreases |b|
  {
    if b == [] {
      assert a + b == a;
    } else {
      FoldAppend(schema, a, b[..|b| - 1], scripts);
      assert (a + b)[..|a + b| - 1] == a + b[..|b| - 1];
    }
  }

  lemma {:induction false} PendingDistinct(files: seq<string>, applied: seq<string>)
    requires Ordered(files)
    ensures Ordered(Pending(files, applied))
    ensures forall n :: n in Pending(files, applied) <==> n in files && n !in applied
  {
    FilteredMembers(files, NotIn(applied));
    if files != [] {
      var front := files[..|files| - 1];
      PendingDistinct(front, applied);
      FilteredMembers(front, NotIn(applied));
      var p := Pending(front, applied);
      forall i | 0 <= i < |p|
        ensures p[i] != files[|files| - 1] && TextLe(p[i], files[|files| - 1])
      {
        assert p[i] in p;
        var k :| 0 <= k < |front| && front[k] == p[i];
        assert files[k] == p[i];
      }
    }
  }

  /**
   * However the runs ended: no file is committed twice, and the schema is the applied files' in commit order,
   * each once.
   */
  lemma {:induction false} AtMostOnce<S(!new)>(states: seq<Tables<S>>, dirs: seq<seq<string>>, done: seq<bool>,
                                               scripts: string -> Script<S>, n: nat)
    requires IsHistory(states, dirs, done, scripts) && n <= |dirs|
    ensures DistinctNames(states[n].applied)
    ensures Fold(states[0].schema, states[n].applied, scripts) == Some(states[n].schema)
  {
    if n > 0 {
      AtMostOnce(states, dirs, done, scripts, n - 1);
      var a, b, files := states[n - 1], states[n], dirs[n - 1];
      assert Attempt(a, files, scripts, done[n - 1], b);
      var k: nat :| Reaches(a, files, scripts, k, b);
      PendingDistinct(files, a.applied);
      var more := Pending(files, a.applied)[..k];
      FoldAppend(states[0].schema, a.applied, more, scripts);
      assert forall i :: 0 <= i < |more| ==> more[i] in Pending(files, a.applied);
      assert forall i :: 0 <= i < |a.applied| ==> a.applied[i] in a.applied;
    }
  }

  /** Every file still to be applied sorts after all applied ones. */
  ghost predicate NewSortLast(applied: seq<string>, files: seq<string>) {
    forall f, g :: f in files && f !in applied && g in applied ==> TextLe(g, f)
  }

  lemma {:induction false} StaysSorted<S>(a: Tables<S>, files: seq<string>, scripts: string -> Script<S>, k: nat,
                                          b: Tables<S>)
    requires Ordered(files) && Reaches(a, files, scripts, k, b) && SortedBy(a.applied, TextLe)
    requires NewSortLast(a.applied, files)
    ensures SortedBy(b.applied, TextLe)
  {
    PendingDistinct(files, a.applied);
    var more := Pending(files, a.applied)[..k];
    assert forall i :: 0 <= i < |more| ==> more[i] in Pending(files, a.applied);
    assert forall i :: 0 <= i < |a.applied| ==> a.applied[i] in a.applied;
  }

  lemma {:induction false} SortedEqual(a: seq<string>, b: seq<string>)
    requires Ordered(a) && Ordered(b) && forall x :: x in a <==> x in b
    ensures a == b
  {
    CountDistinct(a);
    CountDistinct(b);
    assert SetOf(a) == SetOf(b);
    if a != [] {
      var x, y := a[|a| - 1], b[|b| - 1];
      LastIsMax(a, y);
      LastIsMax(b, x);
      TextLeAntisymmetric(x, y);
      AllButLast(a);
      AllButLast(b);
      var c, d := a[..|a| - 1], b[..|b| - 1];
      forall z: string
        ensures z in c <==> z in d
      {
        assert z in c <==> z in a && z != x;
        assert z in d <==> z in b && z != y;
      }
      SortedEqual(c, d);
      assert a == a[..|a| - 1] + [x] && b == b[..|b| - 1] + [y];
    }
  }

  lemma {:induction false} AllButLast(a: seq<string>)
    requires Ordered(a) && a != []
    ensures forall x :: x in a[..|a| - 1] <==> x in a && x != a[|a| - 1]
  {
    var front, last := a[..|a| - 1], a[|a| - 1];
    assert a == front + [last];
    assert forall i :: 0 <= i < |front| ==> front[i] == a[i];
  }

  lemma {:induction false} LastIsMax(a: seq<string>, y: string)
    requires Ordered(a) && y in a
    ensures TextLe(y, a[|a| - 1])
  {
    var i :| 0 <= i < |a| && a[i] == y;
    TextLeTotal(y, y);
  }

  lemma {:induction false} StaysSortedAlong<S(!new)>(states: seq<Tables<S>>, dirs: seq<seq<string>>, done: seq<bool>,
                                                     scripts: string -> Script<S>, n: nat)
    requires IsHistory(states, dirs, done, scripts) && n <= |dirs|
    requires forall i :: 0 <= i < n ==> NewSortLast(states[i].applied, dirs[i])
    ensures Ordered(states[n].applied)
  {
    AtMostOnce(states, dirs, done, scripts, n);
    if n > 0 {
      StaysSortedAlong(states, dirs, done, scripts, n - 1);
      assert Attempt(states[n - 1], dirs[n - 1], scripts, done[n - 1], states[n]);
      var k: nat :| Reaches(states[n - 1], dirs[n - 1], scripts, k, states[n]);
      StaysSorted(states[n - 1], dirs[n - 1], scripts, k, states[n]);
    }
  }

  lemma {:induction false} DoneAppliesAll<S>(a: Tables<S>, files: seq<string>, scripts: string -> Script<S>,
                                             b: Tables<S>)
    requires Ordered(files) && Attempt(a, files, scripts, true, b)
    ensures forall f :: f in b.applied <==> f in a.applied || f in files
  {
    PendingDistinct(files, a.applied);
    var k: nat :| Reaches(a, files, scripts, k, b) && k == |Pending(files, a.applied)|;
    assert Pending(files, a.applied)[..k] == Pending(files, a.applied);
  }

  /**
   * After any failed and crashed runs, with new files always sorting after the applied ones and none removed, a
   * successful run leaves the schema that the files yield when each is applied once, in file name order.
   */
  lemma {:induction false} Recovery<S(!new)>(states: seq<Tables<S>>, dirs: seq<seq<string>>, done: seq<bool>,
                                             scripts: string -> Script<S>, n: nat)
    requires IsHistory(states, dirs, done, scripts) && n < |dirs| && done[n]
    requires forall i :: 0 <= i <= n ==> NewSortLast(states[i].applied, dirs[i])
    requires forall f :: f in states[n].applied ==> f in dirs[n]
    ensures states[n + 1].applied == dirs[n]
    ensures Fold(states[0].schema, dirs[n], scripts) == Some(states[n + 1].schema)
  {
    StaysSortedAlong(states, dirs, done, scripts, n + 1);
    AtMostOnce(states, dirs, done, scripts, n + 1);
    assert Attempt(states[n], dirs[n], scripts, true, states[n + 1]);
    DoneAppliesAll(states[n], dirs[n], scripts, states[n + 1]);
    SortedEqual(states[n + 1].applied, dirs[n]);
  }

  /** The condition is exact: a successful run leaves file name order exactly if all new files sort last. */
  lemma {:induction false} OrderKeptExactly<S>(a: Tables<S>, files: seq<string>, scripts: string -> Script<S>,
                                               b: Tables<S>)
    requires Ordered(files) && Ordered(a.applied) && Attempt(a, files, scripts, true, b)
    ensures SortedBy(b.applied, TextLe) <==> NewSortLast(a.applied, files)
  {
    var k: nat :| Reaches(a, files, scripts, k, b) && k == |Pending(files, a.applied)|;
    PendingDistinct(files, a.applied);
    var pending := Pending(files, a.applied);
    assert b.applied == a.applied + pending;
    if NewSortLast(a.applied, files) {
      StaysSorted(a, files, scripts, k, b);
    }
    if SortedBy(b.applied, TextLe) {
      forall f, g | f in files && f !in a.applied && g in a.applied
        ensures TextLe(g, f)
      {
        var i :| 0 <= i < |a.applied| && a.applied[i] == g;
        assert f in pending;
        var j :| 0 <= j < |pending| && pending[j] == f;
        assert b.applied[i] == g && b.applied[|a.applied| + j] == f;
      }
    }
  }

  /** `1.sql` arrives when `2.sql` is applied: a successful run applies it second. */
  lemma {:induction false} LateFileOutOfOrder<S>(schema: S, scripts: string -> Script<S>, next: S)
    requires scripts("1.sql")(schema) == Some(next)
    ensures Attempt(Tables(["2.sql"], schema), ["1.sql", "2.sql"], scripts, true, Tables(["2.sql", "1.sql"], next))
    ensures Ordered(["1.sql", "2.sql"]) && !SortedBy(["2.sql", "1.sql"], TextLe)
  {
    var a, files, applied := Tables(["2.sql"], schema), ["1.sql", "2.sql"], ["2.sql", "1.sql"];
    assert "1.sql"[0] < "2.sql"[0];
    assert !TextLe(applied[0], applied[1]);
    assert TextLe(files[0], files[1]);
    assert files[..1] == ["1.sql"] && files[..1][..0] == [];
    assert Filtered(files[..1], NotIn(a.applied)) == ["1.sql"];
    var pending := Pending(files, a.applied);
    assert pending == ["1.sql"] && pending[..1] == pending && pending[..0] == [];
    assert Fold(schema, pending[..0], scripts) == Some(schema);
    assert Reaches(a, files, scripts, 1, Tables(applied, next));
  }

  /** Running again with the same files changes nothing, however the run ends. */
  lemma {:induction false} RerunIsNoOp<S>(a: Tables<S>, files: seq<string>, scripts: string -> Script<S>, b: Tables<S>,
                                          done: bool, c: Tables<S>)
    requires Ordered(files) && Attempt(a, files, scripts, true, b) && Attempt(b, files, scripts, done, c)
    ensures c == b
  {
    DoneAppliesAll(a, files, scripts, b);
    PendingDistinct(files, b.applied);
    var k: nat :| Reaches(b, files, scripts, k, c);
    FilteredNone(files, NotIn(b.applied));
  }
}
