/** One run of the migration runner in plain terms: a chain of states through the statements of the migrations that are
    not yet recorded (crates/spark-postgres/src/migrations.rs). */
module MigrationTerms {
  import opened Prelude
  import opened Migrations

  /** Every statement succeeds on the state the one before it left. */
  predicate Chain<S(==)>(exec: (S, Statement) -> Option<S>, states: seq<S>, statements: seq<Statement>) {
    && |states| == |statements| + 1
    && forall j :: 0 <= j < |statements| ==> exec(states[j], statements[j]) == Some(states[j + 1])
  }

  ghost predicate Leads<S(!new)>(exec: (S, Statement) -> Option<S>, from: S, statements: seq<Statement>, to: S) {
    exists states: seq<S> :: Chain(exec, states, statements) && states[0] == from && states[|statements|] == to
  }

  lemma {:induction false} RunIsAChain<S(!new)>(exec: (S, Statement) -> Option<S>, from: S, statements: Migration,
                                                to: S)
    ensures RunStatements(exec, from, statements) == Some(to) <==> Leads(exec, from, statements, to)
  {
    if statements == [] {
      assert Chain(exec, [from], statements);
    } else {
      var k := |statements| - 1;
      if RunStatements(exec, from, statements) == Some(to) {
        var mid := RunStatements(exec, from, statements[..k]).value;
        RunIsAChain(exec, from, statements[..k], mid);
        var states :| Chain(exec, states, statements[..k]) && states[0] == from && states[k] == mid;
        ChainOneMore(exec, states, statements, to);
      }
      if Leads(exec, from, statements, to) {
        var states :| Chain(exec, states, statements) && states[0] == from && states[k + 1] == to;
        ChainOneLess(exec, states, statements);
        RunIsAChain(exec, from, statements[..k], states[k]);
      }
    }
  }

  lemma ChainOneMore<S>(exec: (S, Statement) -> Option<S>, states: seq<S>, statements: seq<Statement>, to: S)
    requires statements != [] && Chain(exec, states, statements[..|statements| - 1])
    requires exec(states[|states| - 1], statements[|statements| - 1]) == Some(to)
    ensures Chain(exec, states + [to], statements)
  {
    var all := states + [to];
    forall j | 0 <= j < |statements| ensures exec(all[j], statements[j]) == Some(all[j + 1]) {
      if j < |statements| - 1 {
        assert statements[..|statements| - 1][j] == statements[j];
      }
    }
  }

  lemma ChainOneLess<S>(exec: (S, Statement) -> Option<S>, states: seq<S>, statements: seq<Statement>)
    requires statements != [] && Chain(exec, states, statements)
    ensures Chain(exec, states[..|statements|], statements[..|statements| - 1])
    ensures exec(states[|statements| - 1], statements[|statements| - 1]) == Some(states[|statements|])
  {
  }

  /** Chains end to end. */
  lemma ChainsJoin<S(!new)>(exec: (S, Statement) -> Option<S>, from: S, a: seq<Statement>, b: seq<Statement>, to: S)
    ensures Leads(exec, from, a + b, to) <==> exists mid :: Leads(exec, from, a, mid) && Leads(exec, mid, b, to)
  {
    if Leads(exec, from, a + b, to) {
      var states :| Chain(exec, states, a + b) && states[0] == from && states[|a + b|] == to;
      CutChain(exec, states, a, b);
    }
    forall mid | Leads(exec, from, a, mid) && Leads(exec, mid, b, to) ensures Leads(exec, from, a + b, to) {
      var first :| Chain(exec, first, a) && first[0] == from && first[|a|] == mid;
      var second :| Chain(exec, second, b) && second[0] == mid && second[|b|] == to;
      JoinChains(exec, first, a, second, b);
    }
  }

  lemma CutChain<S(!new)>(exec: (S, Statement) -> Option<S>, states: seq<S>, a: seq<Statement>, b: seq<Statement>)
    requires Chain(exec, states, a + b)
    ensures Leads(exec, states[0], a, states[|a|]) && Leads(exec, states[|a|], b, states[|a| + |b|])
  {
    var first, second := states[..|a| + 1], states[|a|..];
    forall j | 0 <= j < |a| ensures exec(first[j], a[j]) == Some(first[j + 1]) {
      assert (a + b)[j] == a[j];
    }
    forall j | 0 <= j < |b| ensures exec(second[j], b[j]) == Some(second[j + 1]) {
      assert (a + b)[|a| + j] == b[j] && second[j] == states[|a| + j] && second[j + 1] == states[|a| + j + 1];
    }
    assert Chain(exec, first, a) && Chain(exec, second, b);
  }

  lemma JoinChains<S(!new)>(exec: (S, Statement) -> Option<S>, first: seq<S>, a: seq<Statement>, second: seq<S>,
                            b: seq<Statement>)
    requires Chain(exec, first, a) && Chain(exec, second, b) && first[|a|] == second[0]
    ensures Leads(exec, first[0], a + b, second[|b|])
  {
    var all := first + second[1..];
    forall j | 0 <= j < |a + b| ensures exec(all[j], (a + b)[j]) == Some(all[j + 1]) {
      if j >= |a| {
        assert (a + b)[j] == b[j - |a|] && all[j] == second[j - |a|] && all[j + 1] == second[j - |a| + 1];
      } else {
        assert all[j] == first[j] && all[j + 1] == first[j + 1];
      }
    }
    assert Chain(exec, all, a + b);
  }

  /* ---------- one run ---------- */

  /** The statements of the migrations from index a on and before b, in order. */
  function Statements(migrations: seq<Migration>, a: nat, b: nat): seq<Statement>
    requires b <= |migrations|
  {
    if b <= a then [] else Statements(migrations, a, b - 1) + migrations[b - 1]
  }

  /** The numbers after a up to b. */
  function Following(a: nat, b: nat): seq<int> {
    if b <= a then [] else Following(a, b - 1) + [b]
  }

  lemma {:induction false} FollowingAre(a: nat, b: nat)
    ensures forall v :: v in Following(a, b) <==> a < v <= b
  {
    if a < b {
      FollowingAre(a, b - 1);
    }
  }

  lemma {:induction false} CurrentIsHighest(versions: seq<int>)
    ensures Current(versions) >= 0 && forall v :: v in versions ==> v <= Current(versions)
    ensures Current(versions) == 0 || Current(versions) in versions
  {
    if versions != [] {
      CurrentIsHighest(versions[..|versions| - 1]);
      assert versions == versions[..|versions| - 1] + [versions[|versions| - 1]];
    }
  }

  /** The migrations up to the n-th, from version `current`: the pending ones lead to the new schema, their numbers are
      recorded, and nothing else changes. */
  ghost predicate Applies<S(!new)>(exec: (S, Statement) -> Option<S>, db: Db<S>, migrations: seq<Migration>,
                                   current: nat, n: nat, after: Db<S>)
    requires n <= |migrations|
  {
    && Leads(exec, db.schema, Statements(migrations, current, n), after.schema)
    && after.versions == db.versions + Following(current, n)
  }

  lemma Nothing<S(!new)>(exec: (S, Statement) -> Option<S>, from: S, to: S)
    ensures Leads(exec, from, [], to) <==> from == to
  {
    assert Chain(exec, [from], []);
  }

  lemma OneMigration<S(!new)>(exec: (S, Statement) -> Option<S>, before: Db<S>, d: Db<S>, migrations: seq<Migration>,
                              current: nat, n: nat, after: Db<S>)
    requires current < n <= |migrations| && d.versions == before.versions + Following(current, n - 1)
    requires forall v :: v in before.versions ==> v <= current
    ensures ApplyOne(exec, d, migrations[n - 1], n) == Some(after) <==>
              Leads(exec, d.schema, migrations[n - 1], after.schema)
              && after.versions == before.versions + Following(current, n)
  {
    FollowingAre(current, n - 1);
    RunIsAChain(exec, d.schema, migrations[n - 1], after.schema);
    assert before.versions + Following(current, n) == d.versions + [n];
  }

  lemma {:induction false} AfterApplies<S(!new)>(exec: (S, Statement) -> Option<S>, db: Db<S>,
                                                 migrations: seq<Migration>, current: nat, n: nat, after: Db<S>)
    requires n <= |migrations| <= I32_MAX && forall v :: v in db.versions ==> v <= current
    ensures After(exec, db, migrations, current, n) == Some(after) <==>
              Applies(exec, db, migrations, current, n, after)
    decreases n
  {
    if n <= current {
      UpToDate(exec, db, migrations, current, n);
      Nothing(exec, db.schema, after.schema);
      assert db.versions + [] == db.versions;
    } else {
      forall d: Db<S> ensures After(exec, db, migrations, current, n - 1) == Some(d) <==>
                                Applies(exec, db, migrations, current, n - 1, d) {
        AfterApplies(exec, db, migrations, current, n - 1, d);
      }
      ChainsJoin(exec, db.schema, Statements(migrations, current, n - 1), migrations[n - 1], after.schema);
      if After(exec, db, migrations, current, n) == Some(after) {
        OneMigration(exec, db, After(exec, db, migrations, current, n - 1).value, migrations, current, n, after);
      }
      if Applies(exec, db, migrations, current, n, after) {
        var mid :| Leads(exec, db.schema, Statements(migrations, current, n - 1), mid)
                   && Leads(exec, mid, migrations[n - 1], after.schema);
        var d := Db(mid, db.versions + Following(current, n - 1));
        assert Applies(exec, db, migrations, current, n - 1, d);
        assert After(exec, db, migrations, current, n - 1) == Some(d);
        OneMigration(exec, db, d, migrations, current, n, after);
      }
    }
  }

  lemma {:induction false} UpToDate<S>(exec: (S, Statement) -> Option<S>, db: Db<S>, migrations: seq<Migration>,
                                       current: nat, n: nat)
    requires n <= |migrations| <= I32_MAX && n <= current
    ensures After(exec, db, migrations, current, n) == Some(db)
    ensures Statements(migrations, current, n) == [] && Following(current, n) == []
  {
    if n > 0 {
      UpToDate(exec, db, migrations, current, n - 1);
    }
  }

  /** A run succeeds with `after` exactly when the statements of the migrations beyond the highest recorded version
      form a chain of successes from the old schema to the new one; then exactly their versions are added, in order. */
  lemma RunExactly<S(!new)>(exec: (S, Statement) -> Option<S>, db: Db<S>, migrations: seq<Migration>, highest: nat,
                            after: Db<S>)
    requires |migrations| <= I32_MAX
    requires (forall v :: v in db.versions ==> v <= highest) && (highest == 0 || highest in db.versions)
    ensures RunMigrations(exec, db, migrations) == Some(after) <==>
              && Leads(exec, db.schema, Statements(migrations, highest, |migrations|), after.schema)
              && after.versions == db.versions + Following(highest, |migrations|)
  {
    CurrentIsHighest(db.versions);
    AfterApplies(exec, db, migrations, highest, |migrations|, after);
  }
}
