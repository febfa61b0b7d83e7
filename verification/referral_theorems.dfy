/** Who earns what from one claim. */
module ReferralTheorems {
  import opened Bytes
  import opened ReferralLedger

  /** The n-th referrer above a user. */
  function Ancestor(users: seq<User>, u: nat, n: nat): Option<nat>
    decreases n
  {
    if n == 0 then Some(u)
    else if u >= |users| || users[u].referrer.None? then None
    else Ancestor(users, users[u].referrer.value, n - 1)
  }

  /** Referral chains have no cycles: every step up goes to an earlier registrant. */
  lemma {:induction false} AncestorsAreEarlier(users: seq<User>, u: nat, n: nat)
    requires Ordered(users) && n >= 1 && Ancestor(users, u, n).Some?
    ensures Ancestor(users, u, n).value < u
  {
    if n > 1 {
      AncestorsAreEarlier(users, users[u].referrer.value, n - 1);
    }
  }

  function Earned(rows: seq<Row>, v: nat): real {
    if rows == [] then 0.0 else (if rows[0].referrer == v then rows[0].amount else 0.0) + Earned(rows[1..], v)
  }

  /** Rows go to ever earlier users, at ever higher levels. */
  predicate GoUp(rows: seq<Row>, parent: nat, level: nat) {
    && (forall i :: 0 <= i < |rows| ==> rows[i].referrer < parent && rows[i].level >= level)
    && (forall i, j :: 0 <= i < j < |rows| ==>
      rows[j].referrer < rows[i].referrer && rows[i].level < rows[j].level)
  }

  lemma FirstGoesUp(first: Row, rest: seq<Row>, parent: nat)
    requires first.referrer < parent && GoUp(rest, first.referrer, first.level + 1)
    ensures GoUp([first] + rest, parent, first.level)
  {
    var rows := [first] + rest;
    assert forall i :: 0 < i < |rows| ==> rows[i] == rest[i - 1];
  }

  lemma RestGoesUp(rest: seq<Row>, ref: nat, parent: nat, level: nat)
    requires ref < parent && GoUp(rest, ref, level + 1)
    ensures GoUp(rest, parent, level)
  {
  }

  lemma {:induction false} RowsGoUp(
    users: seq<User>, level: nat, parent: nat, claim: nat, reward: real, settings: map<nat, Level>)
    requires Ordered(users)
    ensures GoUp(Rows(users, level, parent, claim, reward, settings), parent, level)
    decreases LEVELS + 1 - level
  {
    hide Commission, GoUp;
    if level > LEVELS || parent >= |users| || users[parent].referrer.None? {
      NoneGoUp(parent, level);
    } else {
      var ref, c := users[parent].referrer.value, Commission(settings, level, reward);
      var rest := Rows(users, level + 1, ref, claim, reward, settings);
      RowsGoUp(users, level + 1, ref, claim, reward, settings);
      if c > 0.0 {
        FirstGoesUp(Row(ref, parent, claim, c, level), rest, parent);
      } else {
        assert [] + rest == rest;
        RestGoesUp(rest, ref, parent, level);
      }
    }
  }

  lemma NoneGoUp(parent: nat, level: nat)
    ensures GoUp([], parent, level)
  {
  }

  lemma {:induction false} NotAmongThem(rows: seq<Row>, v: nat)
    requires forall i :: 0 <= i < |rows| ==> rows[i].referrer != v
    ensures Earned(rows, v) == 0.0
  {
    if rows != [] {
      NotAmongThem(rows[1..], v);
    }
  }

  lemma RowsStep(
    users: seq<User>, level: nat, parent: nat, claim: nat, reward: real, settings: map<nat, Level>, v: nat)
    requires level <= LEVELS && parent < |users| && users[parent].referrer.Some?
    ensures var ref := users[parent].referrer.value;
      Earned(Rows(users, level, parent, claim, reward, settings), v) ==
      (if ref == v then Commission(settings, level, reward) else 0.0)
      + Earned(Rows(users, level + 1, ref, claim, reward, settings), v)
  {
    hide Commission;
    var ref, c := users[parent].referrer.value, Commission(settings, level, reward);
    var rest := Rows(users, level + 1, ref, claim, reward, settings);
    if c > 0.0 {
      assert ([Row(ref, parent, claim, c, level)] + rest)[1..] == rest;
    } else {
      assert [] + rest == rest;
    }
  }

  lemma CommissionIs(settings: map<nat, Level>, n: nat, reward: real)
    ensures Commission(settings, n, reward) ==
      if n in settings && settings[n].active && settings[n].percent > 0.0 && reward > 0.0
      then reward * settings[n].percent / 100.0 else 0.0
  {
    if n in settings {
      Signs(reward, settings[n].percent);
    }
  }

  lemma Signs(a: real, b: real)
    ensures b > 0.0 ==> (a * b / 100.0 > 0.0 <==> a > 0.0)
  {
    if b > 0.0 && a > 0.0 {
      assert a * b > 0.0;
    } else if b > 0.0 {
      assert -a * b >= 0.0;
    }
  }

  /** The n-th referrer earns the commission of its level, whether or not the levels below it are paid. */
  lemma {:induction false} AncestorEarns(users: seq<User>, level: nat, parent: nat, claim: nat, reward: real,
    settings: map<nat, Level>, n: nat, v: nat)
    requires Ordered(users) && n >= 1 && level + n - 1 <= LEVELS && Ancestor(users, parent, n) == Some(v)
    ensures Earned(Rows(users, level, parent, claim, reward, settings), v)
      == Commission(settings, level + n - 1, reward)
    decreases n
  {
    hide Commission, Rows, Earned;
    var ref := users[parent].referrer.value;
    RowsStep(users, level, parent, claim, reward, settings, v);
    if n == 1 {
      RowsGoUp(users, level + 1, ref, claim, reward, settings);
      NotAmongThem(Rows(users, level + 1, ref, claim, reward, settings), v);
    } else {
      AncestorsAreEarlier(users, ref, n - 1);
      AncestorEarns(users, level + 1, ref, claim, reward, settings, n - 1, v);
    }
  }

  lemma {:induction false} OthersEarnNothing(users: seq<User>, level: nat, parent: nat, claim: nat, reward: real,
    settings: map<nat, Level>, v: nat)
    requires Ordered(users)
    requires forall n :: 1 <= n <= LEVELS + 1 - level ==> Ancestor(users, parent, n) != Some(v)
    ensures Earned(Rows(users, level, parent, claim, reward, settings), v) == 0.0
    decreases LEVELS + 1 - level
  {
    hide Commission;
    if !(level > LEVELS || parent >= |users| || users[parent].referrer.None?) {
      var ref := users[parent].referrer.value;
      RowsStep(users, level, parent, claim, reward, settings, v);
      assert Ancestor(users, parent, 1) == Some(ref);
      forall n | 1 <= n <= LEVELS - level
        ensures Ancestor(users, ref, n) != Some(v)
      {
        assert Ancestor(users, parent, n + 1) == Ancestor(users, ref, n);
      }
      OthersEarnNothing(users, level + 1, ref, claim, reward, settings, v);
    }
  }

  lemma {:induction false} PayRowsPays(db: Db, rows: seq<Row>, v: nat)
    requires (forall r :: r in rows ==> r.referrer < |db.users|) && v < |db.users|
    ensures PayRows(db, rows).users[v].balance == db.users[v].balance + Earned(rows, v)
    decreases |rows|
  {
    if rows != [] {
      PayRowsPays(PayRow(db, rows[0]), rows[1..], v);
    }
  }

  lemma CreditIs(db: Db, claim: nat, settings: map<nat, Level>)
    requires Valid(db) && InFlight(db, claim)
    ensures var rows := ClaimRows(db, claim, settings);
      && (forall r :: r in rows ==> r.referrer < |db.users|) && |Reward(db, claim).users| == |db.users|
      && CreditClaim(db, claim, settings, true) == PayRows(Reward(db, claim), rows)
  {
    hide PayRows, Rows, Sum, RewardCount;
    RowsAreUsers(db.users, 1, db.claims[claim].user, claim, db.claims[claim].reward, settings);
  }

  /** A committed claim gives its reward to the claimer and nothing more. */
  lemma ClaimerEarnsTheReward(db: Db, claim: nat, settings: map<nat, Level>)
    requires Valid(db) && InFlight(db, claim)
    ensures var db', c := CreditClaim(db, claim, settings, true), db.claims[claim];
      |db'.users| == |db.users| && db'.users[c.user].balance == db.users[c.user].balance + c.reward
  {
    hide PayRows, Rows, Sum, RewardCount, CreditClaim;
    CreditIs(db, claim, settings);
    var c := db.claims[claim];
    RowsGoUp(db.users, 1, c.user, claim, c.reward, settings);
    NotAmongThem(ClaimRows(db, claim, settings), c.user);
    PayRowsPays(Reward(db, claim), ClaimRows(db, claim, settings), c.user);
  }

  /** The referrer n levels up earns exactly one commission, that of level n. */
  lemma ReferrerEarnsTheLevel(db: Db, claim: nat, settings: map<nat, Level>, n: nat, v: nat)
    requires Valid(db) && InFlight(db, claim) && 1 <= n <= LEVELS
    requires Ancestor(db.users, db.claims[claim].user, n) == Some(v)
    ensures var db', c := CreditClaim(db, claim, settings, true), db.claims[claim];
      && v < c.user && |db'.users| == |db.users|
      && db'.users[v].balance == db.users[v].balance +
        if n in settings && settings[n].active && settings[n].percent > 0.0 && c.reward > 0.0
        then c.reward * settings[n].percent / 100.0 else 0.0
  {
    hide PayRows, Rows, Sum, RewardCount, CreditClaim, Commission;
    CreditIs(db, claim, settings);
    var c := db.claims[claim];
    CommissionIs(settings, n, c.reward);
    AncestorsAreEarlier(db.users, c.user, n);
    AncestorEarns(db.users, 1, c.user, claim, c.reward, settings, n, v);
    PayRowsPays(Reward(db, claim), ClaimRows(db, claim, settings), v);
  }

  /** Everybody else keeps their balance. */
  lemma StrangersEarnNothing(db: Db, claim: nat, settings: map<nat, Level>, v: nat)
    requires Valid(db) && InFlight(db, claim) && v < |db.users| && v != db.claims[claim].user
    requires forall n :: 1 <= n <= LEVELS ==> Ancestor(db.users, db.claims[claim].user, n) != Some(v)
    ensures var db' := CreditClaim(db, claim, settings, true);
      |db'.users| == |db.users| && db'.users[v].balance == db.users[v].balance
  {
    hide PayRows, Rows, Sum, RewardCount, CreditClaim;
    CreditIs(db, claim, settings);
    OthersEarnNothing(db.users, 1, db.claims[claim].user, claim, db.claims[claim].reward, settings, v);
    PayRowsPays(Reward(db, claim), ClaimRows(db, claim, settings), v);
  }

  /** One claim writes at most one commission row for any user, and none for the claimer. */
  lemma OneCommissionEach(
    users: seq<User>, user: nat, claim: nat, reward: real, settings: map<nat, Level>)
    requires Ordered(users)
    ensures var rows := Rows(users, 1, user, claim, reward, settings);
      && |rows| <= LEVELS
      && (forall i :: 0 <= i < |rows| ==> rows[i].referrer != user)
      && (forall i, j :: 0 <= i < j < |rows| ==> rows[i].referrer != rows[j].referrer)
  {
    hide Rows;
    RowsGoUp(users, 1, user, claim, reward, settings);
    AtMostTen(users, 1, user, claim, reward, settings);
  }

  lemma {:induction false} AtMostTen(
    users: seq<User>, level: nat, parent: nat, claim: nat, reward: real, settings: map<nat, Level>)
    requires level <= LEVELS + 1
    ensures |Rows(users, level, parent, claim, reward, settings)| <= LEVELS + 1 - level
    decreases LEVELS + 1 - level
  {
    hide Commission;
    if !(level > LEVELS || parent >= |users| || users[parent].referrer.None?) {
      AtMostTen(users, level + 1, users[parent].referrer.value, claim, reward, settings);
    }
  }

  // ----- What a claim costs -----

  function Total(rows: seq<Row>): real {
    if rows == [] then 0.0 else rows[0].amount + Total(rows[1..])
  }

  function PercentFrom(settings: map<nat, Level>, level: nat): (p: real)
    ensures p >= 0.0
    decreases LEVELS + 1 - level
  {
    if level > LEVELS then 0.0 else Percent(settings, level) + PercentFrom(settings, level + 1)
  }

  function Share(reward: real, percent: real): real { reward * percent / 100.0 }

  /** All commissions of one claim together are at most the reward times the active percentages, and exactly that when
      the chain of referrers reaches through all the levels. */
  lemma {:induction false} CommissionsAreBounded(
    users: seq<User>, level: nat, parent: nat, claim: nat, reward: real, settings: map<nat, Level>)
    requires reward >= 0.0 && level <= LEVELS + 1
    ensures var total := Total(Rows(users, level, parent, claim, reward, settings));
      && 0.0 <= total <= Share(reward, PercentFrom(settings, level))
      && (Ancestor(users, parent, LEVELS + 1 - level).Some? ==> total == Share(reward, PercentFrom(settings, level)))
    decreases LEVELS + 1 - level
  {
    hide Percent, Commission, Rows, Total, Ancestor, Share;
    if level <= LEVELS {
      AncestorStep(users, level, parent);
    }
    if level > LEVELS || parent >= |users| || users[parent].referrer.None? {
      Scaled(reward, PercentFrom(settings, level));
      NoRows(users, level, parent, claim, reward, settings);
    } else {
      var ref := users[parent].referrer.value;
      CommissionsAreBounded(users, level + 1, ref, claim, reward, settings);
      TotalStep(users, level, parent, claim, reward, settings);
      CommissionIsShare(settings, level, reward);
      Distributes(reward, Percent(settings, level), PercentFrom(settings, level + 1));
    }
  }

  lemma AncestorStep(users: seq<User>, level: nat, parent: nat)
    requires level <= LEVELS
    ensures Ancestor(users, parent, LEVELS + 1 - level) ==
      if parent >= |users| || users[parent].referrer.None? then None
      else Ancestor(users, users[parent].referrer.value, LEVELS - level)
  {
  }

  lemma NoRows(users: seq<User>, level: nat, parent: nat, claim: nat, reward: real, settings: map<nat, Level>)
    requires level > LEVELS || parent >= |users| || users[parent].referrer.None?
    ensures Total(Rows(users, level, parent, claim, reward, settings)) == 0.0
  {
  }

  lemma TotalStep(users: seq<User>, level: nat, parent: nat, claim: nat, reward: real, settings: map<nat, Level>)
    requires level <= LEVELS && parent < |users| && users[parent].referrer.Some?
    ensures Total(Rows(users, level, parent, claim, reward, settings)) == Commission(settings, level, reward)
      + Total(Rows(users, level + 1, users[parent].referrer.value, claim, reward, settings))
  {
    hide Commission;
    var ref, c := users[parent].referrer.value, Commission(settings, level, reward);
    var rest := Rows(users, level + 1, ref, claim, reward, settings);
    if c > 0.0 {
      assert ([Row(ref, parent, claim, c, level)] + rest)[1..] == rest;
    } else {
      assert [] + rest == rest;
    }
  }

  lemma Scaled(reward: real, p: real)
    requires reward >= 0.0 && p >= 0.0
    ensures Share(reward, p) >= 0.0 && (p == 0.0 ==> Share(reward, p) == 0.0)
  {
  }

  lemma Distributes(reward: real, p: real, q: real)
    ensures Share(reward, p + q) == Share(reward, p) + Share(reward, q)
  {
  }

  lemma CommissionIsShare(settings: map<nat, Level>, level: nat, reward: real)
    requires reward >= 0.0
    ensures Commission(settings, level, reward) == Share(reward, Percent(settings, level))
  {
    Scaled(reward, Percent(settings, level));
  }
}
