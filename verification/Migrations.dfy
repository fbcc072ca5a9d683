/** The migration runner: run_migrations (crates/spark-postgres/src/migrations.rs). */
module Migrations {
  import opened Prelude

  type Statement = string
  type Migration = seq<Statement>

  const I32_MAX: int := 0x7FFF_FFFF

  /** What the transaction works on: the schema and the rows of the version table in insertion order. */
  datatype Db<S> = Db(schema: S, versions: seq<int>)

  /** COALESCE(MAX(version), 0), versions being positive. */
  function Current(versions: seq<int>): int {
    if versions == [] then 0
    else
      var m, v := Current(versions[..|versions| - 1]), versions[|versions| - 1];
      if v > m then v else m
  }

  function VersionOf(i: nat): int {
    if i + 1 <= I32_MAX then i + 1 else I32_MAX
  }

  /** Running statements in order; None as soon as one fails. */
  function RunStatements<S>(exec: (S, Statement) -> Option<S>, schema: S, statements: Migration): Option<S> {
    if statements == [] then Some(schema)
    else
      match RunStatements(exec, schema, statements[..|statements| - 1])
      case None => None
      case Some(s) => exec(s, statements[|statements| - 1])
  }

  /** One migration and the row that records it; the version is a primary key. */
  function ApplyOne<S>(exec: (S, Statement) -> Option<S>, db: Db<S>, migration: Migration, version: int)
    : Option<Db<S>>
  {
    match RunStatements(exec, db.schema, migration)
    case None => None
    case Some(s) => if version in db.versions then None else Some(Db(s, db.versions + [version]))
  }

  /** The effect of the migrations before index `n` under the version read at the start. */
  function After<S>(exec: (S, Statement) -> Option<S>, db: Db<S>, migrations: seq<Migration>, current: int, n: nat)
    : Option<Db<S>>
    requires n <= |migrations|
  {
    if n == 0 then Some(db)
    else
      match After(exec, db, migrations, current, n - 1)
      case None => None
      case Some(d) =>
        if VersionOf(n - 1) > current then ApplyOne(exec, d, migrations[n - 1], VersionOf(n - 1)) else Some(d)
  }

  function RunMigrations<S>(exec: (S, Statement) -> Option<S>, db: Db<S>, migrations: seq<Migration>): Option<Db<S>> {
    After(exec, db, migrations, Current(db.versions), |migrations|)
  }

  class Database<S> {
    var schema: S
    var versions: seq<int>

    function Contents(): Db<S>
      reads this
    {
      Db(schema, versions)
    }

    constructor (schema: S)
      ensures Contents() == Db(schema, [])
    {
      this.schema, versions := schema, [];
    }

    method Rollback(before: Db<S>)
      modifies this
      ensures Contents() == before
    {
      schema, versions := before.schema, before.versions;
    }

    /** All new migrations in one transaction: either every one is applied and recorded or nothing changes. */
    method Run(exec: (S, Statement) -> Option<S>, migrations: seq<Migration>) returns (ok: bool)
      modifies this
      ensures ok <==> RunMigrations(exec, old(Contents()), migrations).Some?
      ensures Contents() == if ok then RunMigrations(exec, old(Contents()), migrations).value else old(Contents())
    {
      var before := Contents();
      var current := Current(versions);
      for i := 0 to |migrations|
        invariant After(exec, before, migrations, current, i) == Some(Contents())
        invariant forall n :: i <= n <= |migrations| && After(exec, before, migrations, current, n).None? ==> n > i
      {
        var version := VersionOf(i);
        if version > current {
          ghost var start := Contents();
          var statements := migrations[i];
          for j := 0 to |statements|
            invariant versions == start.versions
            invariant RunStatements(exec, start.schema, statements[..j]) == Some(schema)
          {
            assert statements[..j + 1][..j] == statements[..j];
            var next := exec(schema, statements[j]);
            if next.None? {
              FailureStops(exec, start.schema, statements, j + 1);
              FailedMigration(exec, before, migrations, current, i + 1);
              Rollback(before);
              return false;
            }
            schema := next.value;
          }
          assert statements[..|statements|] == statements;
          if version in versions {
            FailedMigration(exec, before, migrations, current, i + 1);
            Rollback(before);
            return false;
          }
          versions := versions + [version];
        }
      }
      return true;
    }
  }

  lemma {:induction false} FailureStops<S>(exec: (S, Statement) -> Option<S>, schema: S, statements: Migration, j: nat)
    requires j <= |statements| && RunStatements(exec, schema, statements[..j]).None?
    ensures RunStatements(exec, schema, statements).None?
    decreases |statements| - j
  {
    if j < |statements| {
      assert statements[..j + 1][..j] == statements[..j];
      FailureStops(exec, schema, statements, j + 1);
    } else {
      assert statements[..j] == statements;
    }
  }

  lemma {:induction false} FailedMigration<S>(exec: (S, Statement) -> Option<S>, db: Db<S>, migrations: seq<Migration>,
                                              current: int, n: nat)
    requires n <= |migrations| && After(exec, db, migrations, current, n).None?
    ensures After(exec, db, migrations, current, |migrations|).None?
    decreases |migrations| - n
  {
    if n < |migrations| {
      FailedMigration(exec, db, migrations, current, n + 1);
    }
  }

  /* ---------- histories of one growing list ---------- */

  /** Exactly the first k migrations of the list, each once, from an empty database. */
  function Applied<S>(exec: (S, Statement) -> Option<S>, empty: S, list: seq<Migration>, k: nat): Option<Db<S>>
    requires k <= |list|
  {
    if k == 0 then Some(Db(empty, []))
    else
      match Applied(exec, empty, list, k - 1)
      case None => None
      case Some(d) => ApplyOne(exec, d, list[k - 1], k)
  }

  /** The versions 1 to k. */
  function UpTo(k: nat): seq<int> {
    if k == 0 then [] else UpTo(k - 1) + [k]
  }

  lemma {:induction false} UpToAre(k: nat)
    ensures |UpTo(k)| == k && Current(UpTo(k)) == k
    ensures forall v :: v in UpTo(k) <==> 1 <= v <= k
  {
    if k > 0 {
      UpToAre(k - 1);
      assert UpTo(k)[..k - 1] == UpTo(k - 1);
    }
  }

  lemma {:induction false} AppliedVersions<S>(exec: (S, Statement) -> Option<S>, empty: S, list: seq<Migration>, k: nat)
    requires k <= |list| && Applied(exec, empty, list, k).Some?
    ensures Applied(exec, empty, list, k).value.versions == UpTo(k)
    ensures Current(Applied(exec, empty, list, k).value.versions) == k
  {
    if k > 0 {
      AppliedVersions(exec, empty, list, k - 1);
      UpToAre(k - 1);
    }
    UpToAre(k);
  }

  lemma {:induction false} AfterFromApplied<S>(exec: (S, Statement) -> Option<S>, empty: S, list: seq<Migration>,
                                               k: nat, n: nat, i: nat)
    requires k <= |list| && i <= n <= |list| <= I32_MAX && Applied(exec, empty, list, k).Some?
    ensures After(exec, Applied(exec, empty, list, k).value, list[..n], k, i)
         == if i <= k then Applied(exec, empty, list, k) else Applied(exec, empty, list, i)
  {
    if i > 0 {
      AfterFromApplied(exec, empty, list, k, n, i - 1);
      assert list[..n][i - 1] == list[i - 1];
    }
  }

  /** Running the first n migrations of a list on a database that has exactly the first k gives exactly the
      first max(k, n): a shorter or equal list changes nothing, and a longer one ends as if run at once. */
  lemma RunOnApplied<S>(exec: (S, Statement) -> Option<S>, empty: S, list: seq<Migration>, k: nat, n: nat)
    requires k <= |list| && n <= |list| <= I32_MAX && Applied(exec, empty, list, k).Some?
    ensures RunMigrations(exec, Applied(exec, empty, list, k).value, list[..n])
         == if n <= k then Applied(exec, empty, list, k) else Applied(exec, empty, list, n)
  {
    AppliedVersions(exec, empty, list, k);
    AfterFromApplied(exec, empty, list, k, n, n);
  }

  /** Running a list and later any extension of it equals running the extension once. */
  lemma ExtendingEqualsRunningOnce<S>(exec: (S, Statement) -> Option<S>, empty: S, first: seq<Migration>,
                                      extension: seq<Migration>)
    requires |extension| <= I32_MAX && first <= extension
    requires RunMigrations(exec, Db(empty, []), first).Some?
    ensures RunMigrations(exec, RunMigrations(exec, Db(empty, []), first).value, extension)
         == RunMigrations(exec, Db(empty, []), extension)
  {
    var k, n := |first|, |extension|;
    assert extension[..k] == first && extension[..n] == extension;
    assert Applied(exec, empty, extension, 0) == Some(Db(empty, []));
    RunOnApplied(exec, empty, extension, 0, k);
    RunOnApplied(exec, empty, extension, 0, n);
    RunOnApplied(exec, empty, extension, k, n);
  }

  /* ---------- runs that fail now and then ---------- */

  /** One run by an SDK version that knows the first `length` migrations. Its statements do what `exec` says for this
      run, and the commit may fail. */
  datatype Attempt<!S> = Attempt(length: nat, exec: (S, Statement) -> Option<S>, commits: bool)

  /** A run can fail where another would not, but a statement that succeeds has the one effect it has. */
  ghost predicate AgreesWith<S(!new)>(mine: (S, Statement) -> Option<S>, exec: (S, Statement) -> Option<S>) {
    forall s: S, statement: Statement :: mine(s, statement).Some? ==> mine(s, statement) == exec(s, statement)
  }

  lemma {:induction false} AgreeingStatements<S(!new)>(mine: (S, Statement) -> Option<S>,
                                                       exec: (S, Statement) -> Option<S>, schema: S,
                                                       statements: Migration)
    requires AgreesWith(mine, exec) && RunStatements(mine, schema, statements).Some?
    ensures RunStatements(exec, schema, statements) == RunStatements(mine, schema, statements)
  {
    if statements != [] {
      AgreeingStatements(mine, exec, schema, statements[..|statements| - 1]);
    }
  }

  lemma {:induction false} AgreeingRun<S(!new)>(mine: (S, Statement) -> Option<S>, exec: (S, Statement) -> Option<S>,
                                                db: Db<S>, migrations: seq<Migration>, current: int, n: nat)
    requires AgreesWith(mine, exec) && n <= |migrations| && After(mine, db, migrations, current, n).Some?
    ensures After(exec, db, migrations, current, n) == After(mine, db, migrations, current, n)
  {
    if n > 0 {
      AgreeingRun(mine, exec, db, migrations, current, n - 1);
      if VersionOf(n - 1) > current {
        AgreeingStatements(mine, exec, After(mine, db, migrations, current, n - 1).value.schema, migrations[n - 1]);
      }
    }
  }

  predicate Succeeds<S>(db: Db<S>, list: seq<Migration>, a: Attempt<S>)
    requires a.length <= |list|
  {
    a.commits && RunMigrations(a.exec, db, list[..a.length]).Some?
  }

  /** Any number of runs by SDK versions that know different prefixes of one list, in any order, some failing. */
  function History<S>(empty: S, list: seq<Migration>, attempts: seq<Attempt<S>>): Db<S>
    requires forall i :: 0 <= i < |attempts| ==> attempts[i].length <= |list|
  {
    if attempts == [] then Db(empty, [])
    else
      var before, a := History(empty, list, attempts[..|attempts| - 1]), attempts[|attempts| - 1];
      if Succeeds(before, list, a) then RunMigrations(a.exec, before, list[..a.length]).value else before
  }

  /** Run `i` of the history succeeded. */
  predicate Succeeded<S>(empty: S, list: seq<Migration>, attempts: seq<Attempt<S>>, i: nat)
    requires forall j :: 0 <= j < |attempts| ==> attempts[j].length <= |list|
    requires i < |attempts|
  {
    Succeeds(History(empty, list, attempts[..i]), list, attempts[i])
  }

  /** A successful run of a prefix on a database that has exactly the first k migrations leaves the longer of the two
      prefixes; without a failure of its own it succeeds when its prefix can be applied at all. */
  lemma AttemptOnApplied<S(!new)>(exec: (S, Statement) -> Option<S>, empty: S, list: seq<Migration>, k: nat,
                                  a: Attempt<S>)
    requires k <= |list| <= I32_MAX && a.length <= |list| && AgreesWith(a.exec, exec)
    requires Applied(exec, empty, list, k).Some?
    ensures var before, most := Applied(exec, empty, list, k).value, if a.length <= k then k else a.length;
            && (Succeeds(before, list, a) ==>
                  RunMigrations(a.exec, before, list[..a.length]) == Applied(exec, empty, list, most))
            && (a.commits && a.exec == exec && Applied(exec, empty, list, a.length).Some? ==> Succeeds(before, list, a))
  {
    var before := Applied(exec, empty, list, k).value;
    RunOnApplied(exec, empty, list, k, a.length);
    if Succeeds(before, list, a) {
      AgreeingRun(a.exec, exec, before, list[..a.length], Current(before.versions), a.length);
    }
  }

  ghost predicate Plausible<S(!new)>(exec: (S, Statement) -> Option<S>, list: seq<Migration>,
                                     attempts: seq<Attempt<S>>)
  {
    |list| <= I32_MAX && forall a :: a in attempts ==> a.length <= |list| && AgreesWith(a.exec, exec)
  }

  /** The database has exactly the first k migrations and the versions 1 to k. */
  predicate HasFirst<S(==)>(exec: (S, Statement) -> Option<S>, empty: S, list: seq<Migration>, db: Db<S>, k: nat) {
    k <= |list| && Applied(exec, empty, list, k) == Some(db) && db.versions == UpTo(k)
  }

  lemma HistoryOneMore<S(!new)>(exec: (S, Statement) -> Option<S>, empty: S, list: seq<Migration>, before: Db<S>,
                                k: nat, a: Attempt<S>)
    requires Plausible(exec, list, [a]) && HasFirst(exec, empty, list, before, k)
    ensures Succeeds(before, list, a) ==>
              HasFirst(exec, empty, list, RunMigrations(a.exec, before, list[..a.length]).value,
                       if a.length <= k then k else a.length)
  {
    assert a in [a];
    AttemptOnApplied(exec, empty, list, k, a);
    if Succeeds(before, list, a) {
      AppliedVersions(exec, empty, list, if a.length <= k then k else a.length);
    }
  }

  lemma {:induction false} HistoryIsAPrefix<S(!new)>(exec: (S, Statement) -> Option<S>, empty: S,
                                                     list: seq<Migration>, attempts: seq<Attempt<S>>)
    requires Plausible(exec, list, attempts)
    ensures var h := History(empty, list, attempts); HasFirst(exec, empty, list, h, |h.versions|)
  {
    UpToAre(0);
    if attempts != [] {
      var prefix, a := attempts[..|attempts| - 1], attempts[|attempts| - 1];
      HistoryIsAPrefix(exec, empty, list, prefix);
      var before := History(empty, list, prefix);
      HistoryOneMore(exec, empty, list, before, |before.versions|, a);
      UpToAre(if a.length <= |before.versions| then |before.versions| else a.length);
    }
  }

  lemma HistoryGrows<S(!new)>(exec: (S, Statement) -> Option<S>, empty: S, list: seq<Migration>,
                              attempts: seq<Attempt<S>>, n: nat)
    requires Plausible(exec, list, attempts) && n < |attempts|
    ensures var before, after := History(empty, list, attempts[..n]), History(empty, list, attempts[..n + 1]);
            |after.versions| == if Succeeded(empty, list, attempts, n) && attempts[n].length > |before.versions|
                                then attempts[n].length else |before.versions|
  {
    var before := History(empty, list, attempts[..n]);
    var k, a := |before.versions|, attempts[n];
    assert attempts[..n + 1][..n] == attempts[..n];
    HistoryIsAPrefix(exec, empty, list, attempts[..n]);
    HistoryOneMore(exec, empty, list, before, k, a);
    UpToAre(if a.length <= k then k else a.length);
  }

  /** The number of migrations applied after n runs is the longest list of a run that succeeded. */
  lemma {:induction false} LongestSuccess<S(!new)>(exec: (S, Statement) -> Option<S>, empty: S, list: seq<Migration>,
                                                   attempts: seq<Attempt<S>>, n: nat)
    requires Plausible(exec, list, attempts) && n <= |attempts|
    ensures var k := |History(empty, list, attempts[..n]).versions|;
            && (forall i :: 0 <= i < n && Succeeded(empty, list, attempts, i) ==> attempts[i].length <= k)
            && (k == 0 || exists i :: 0 <= i < n && Succeeded(empty, list, attempts, i) && attempts[i].length == k)
  {
    if n > 0 {
      LongestSuccess(exec, empty, list, attempts, n - 1);
      HistoryGrows(exec, empty, list, attempts, n - 1);
    }
  }

  /** A run that meets no failure of its own succeeds when its list can be applied at all. */
  lemma FaultlessSucceeds<S(!new)>(exec: (S, Statement) -> Option<S>, empty: S, list: seq<Migration>,
                                   attempts: seq<Attempt<S>>, i: nat)
    requires Plausible(exec, list, attempts) && i < |attempts|
    requires attempts[i].commits && attempts[i].exec == exec
    requires Applied(exec, empty, list, attempts[i].length).Some?
    ensures Succeeded(empty, list, attempts, i)
  {
    HistoryIsAPrefix(exec, empty, list, attempts[..i]);
    AttemptOnApplied(exec, empty, list, |History(empty, list, attempts[..i]).versions|, attempts[i]);
  }

  /** After every such history the database has exactly the first k migrations, each applied once and in order, with
      versions 1 to k recorded, where k is the longest list of a run that succeeded; and every run that met no failure
      of its own and whose list can be applied did succeed. */
  lemma HistoryAppliesAPrefixOnce<S(!new)>(exec: (S, Statement) -> Option<S>, empty: S, list: seq<Migration>,
                                           attempts: seq<Attempt<S>>)
    requires Plausible(exec, list, attempts)
    ensures var h := History(empty, list, attempts);
            var k := |h.versions|;
            && k <= |list| && Applied(exec, empty, list, k) == Some(h) && h.versions == UpTo(k)
            && (forall i :: 0 <= i < |attempts| && Succeeded(empty, list, attempts, i) ==> attempts[i].length <= k)
            && (k == 0 || exists i :: 0 <= i < |attempts| && Succeeded(empty, list, attempts, i)
                                      && attempts[i].length == k)
    ensures forall i :: 0 <= i < |attempts| && attempts[i].commits && attempts[i].exec == exec ==>
              Applied(exec, empty, list, attempts[i].length).Some? ==> Succeeded(empty, list, attempts, i)
  {
    HistoryIsAPrefix(exec, empty, list, attempts);
    LongestSuccess(exec, empty, list, attempts, |attempts|);
    assert attempts[..|attempts|] == attempts;
    forall i | 0 <= i < |attempts| && attempts[i].commits && attempts[i].exec == exec
               && Applied(exec, empty, list, attempts[i].length).Some?
      ensures Succeeded(empty, list, attempts, i)
    {
      FaultlessSucceeds(exec, empty, list, attempts, i);
    }
  }

  /** With statements that only log themselves, the log of a history is the flat list of the first k migrations:
      nothing is skipped, repeated or reordered. */
  function Flat(list: seq<Migration>, k: nat): seq<Statement>
    requires k <= |list|
  {
    if k == 0 then [] else Flat(list, k - 1) + list[k - 1]
  }

  function Log(log: seq<Statement>, statement: Statement): Option<seq<Statement>> {
    Some(log + [statement])
  }

  lemma {:induction false} LogOf(log: seq<Statement>, statements: Migration)
    ensures RunStatements(Log, log, statements) == Some(log + statements)
  {
    if statements == [] {
      assert log + statements == log;
    } else {
      var k := |statements| - 1;
      LogOf(log, statements[..k]);
      assert log + statements[..k] + [statements[k]] == log + statements;
    }
  }

  lemma {:induction false} EachStatementOnce(list: seq<Migration>, k: nat)
    requires k <= |list|
    ensures Applied(Log, [], list, k) == Some(Db(Flat(list, k), UpTo(k)))
  {
    if k > 0 {
      EachStatementOnce(list, k - 1);
      LogOf(Flat(list, k - 1), list[k - 1]);
      UpToAre(k - 1);
    }
  }
}
