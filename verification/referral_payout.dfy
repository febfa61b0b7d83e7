/** What registration and a committed claim write, row by row, and that a user who registered with a code pays its
    owner. */
module ReferralPayout {
  import opened Bytes
  import opened ReferralLedger
  import opened ReferralTheorems

  // ----- Registration -----

  /** An account as it is opened. */
  predicate IsNew(u: User, code: Bytes) {
    u.code == code && u.active && u.balance == 0.0 && u.today == 0.0 && u.total == 0.0
  }

  /** A valid code, or none, opens one account, whose referrer is an active user with that code; an invalid code changes
      nothing. */
  lemma RegistrationInserts(db: Db, code: Bytes, referral: Bytes)
    ensures var db' := Registered(db, code, referral);
      if referral != [] && forall i :: 0 <= i < |db.users| ==> !(db.users[i].active && db.users[i].code == referral)
      then db' == db
      else
        && db' == db.(users := db'.users)
        && |db'.users| == |db.users| + 1 && db'.users[..|db.users|] == db.users
        && IsNew(db'.users[|db.users|], code)
        && match db'.users[|db.users|].referrer
           case None => referral == []
           case Some(r) =>
             referral != [] && r < |db.users| && db.users[r].active && db.users[r].code == referral
  {
  }

  /** An accepted claim of a user is entered as being sent, with its reward, behind the others; a failed send marks it
      as not sent; and an administrator sets one account active or inactive.  Nothing else changes. */
  lemma OtherStepsWrite(db: Db, user: nat, reward: real, claim: nat, flag: bool)
    ensures Opened(db, user, reward, true) ==
      if user < |db.users| then db.(claims := db.claims + [Claim(user, reward, Sending)]) else db
    ensures Opened(db, user, reward, false) == db
    ensures claim < |db.claims| && db.claims[claim].status == Sending ==>
        var c := db.claims[claim];
        SendFailed(db, claim) == db.(claims := db.claims[claim := Claim(c.user, c.reward, NotSent)])
    ensures claim >= |db.claims| || db.claims[claim].status != Sending ==> SendFailed(db, claim) == db
    ensures user < |db.users| ==>
      SetActiveTo(db, user, flag) == db.(users := db.users[user := db.users[user].(active := flag)])
    ensures user >= |db.users| ==> SetActiveTo(db, user, flag) == db
  {
  }

  /** A claim is paid at most once: crediting it again, or after a failed send, or without a commit, changes nothing. */
  lemma NotPaidAgain(db: Db, claim: nat, settings: map<nat, Level>, later: map<nat, Level>)
    requires Valid(db)
    ensures CreditClaim(db, claim, settings, false) == db
    ensures claim >= |db.claims| || db.claims[claim].status != Sending ==> CreditClaim(db, claim, settings, true) == db
    ensures Valid(CreditClaim(db, claim, settings, true))
    ensures var paid := CreditClaim(db, claim, settings, true); CreditClaim(paid, claim, later, true) == paid
  {
    hide Valid, PayRows, Rows, Reward;
    CreditKeeps(db, claim, settings, true);
    if InFlight(db, claim) {
      PaidIsSent(db, claim, settings);
    }
  }

  lemma PaidIsSent(db: Db, claim: nat, settings: map<nat, Level>)
    requires Valid(db) && InFlight(db, claim)
    ensures !InFlight(CreditClaim(db, claim, settings, true), claim)
  {
    hide CreditClaim, Valid, ExactlyDue;
    var rows := CommittedClaimWrites(db, claim, settings);
  }

  // ----- The commissions of one claim -----

  /** The commission that level n of a claim is due: to the n-th referrer of the claimer, for the one below. */
  predicate Due(
    users: seq<User>, user: nat, claim: nat, reward: real, settings: map<nat, Level>, n: nat, row: Row)
    requires n >= 1
  {
    && n <= 10 && n in settings && settings[n].active && settings[n].percent > 0.0 && reward > 0.0
    && Ancestor(users, user, n) == Some(row.referrer) && Ancestor(users, user, n - 1) == Some(row.referred)
    && row.claim == claim && row.level == n && row.amount == reward * settings[n].percent / 100.0
  }

  lemma {:induction false} AncestorsAbove(users: seq<User>, user: nat, n: nat)
    ensures Ancestor(users, user, n + 1) ==
      match Ancestor(users, user, n)
      case None => None
      case Some(p) => if p >= |users| then None else users[p].referrer
    decreases n
  {
    if n == 0 {
      if user < |users| && users[user].referrer.Some? {
        assert Ancestor(users, users[user].referrer.value, 0) == users[user].referrer;
      }
    } else if user < |users| && users[user].referrer.Some? {
      AncestorsAbove(users, users[user].referrer.value, n - 1);
    }
  }

  lemma {:induction false} NoAncestorAbove(users: seq<User>, user: nat, n: nat, m: nat)
    requires n <= m && Ancestor(users, user, n).None?
    ensures Ancestor(users, user, m).None?
    decreases m
  {
    if n < m {
      NoAncestorAbove(users, user, n, m - 1);
      AncestorsAbove(users, user, m - 1);
    }
  }

  /** From level n on, the rows are exactly those that are due. */
  lemma {:induction false} RowsAreDueFrom(users: seq<User>, user: nat, parent: nat, claim: nat, reward: real,
    settings: map<nat, Level>, n: nat, row: Row)
    requires n >= 1 && Ancestor(users, user, n - 1) == Some(parent)
    ensures row in Rows(users, n, parent, claim, reward, settings) <==>
      exists k: nat :: k >= n && Due(users, user, claim, reward, settings, k, row)
    decreases LEVELS + 1 - n
  {
    hide Ancestor, Commission, Due;
    AncestorsAbove(users, user, n - 1);
    if n > LEVELS || parent >= |users| || users[parent].referrer.None? {
      forall k: nat | k >= n ensures !Due(users, user, claim, reward, settings, k, row) {
        if Ancestor(users, user, n).None? {
          NoAncestorAbove(users, user, n, k);
        }
        NotDue(users, user, claim, reward, settings, k, row);
      }
    } else {
      var ref := users[parent].referrer.value;
      RowsAreDueFrom(users, user, ref, claim, reward, settings, n + 1, row);
      CommissionIs(settings, n, reward);
      DueAt(users, user, parent, ref, claim, reward, settings, n, row);
      if exists k: nat :: k >= n && Due(users, user, claim, reward, settings, k, row) {
        var k: nat :| k >= n && Due(users, user, claim, reward, settings, k, row);
        assert k == n || k >= n + 1;
      }
    }
  }

  lemma NotDue(users: seq<User>, user: nat, claim: nat, reward: real, settings: map<nat, Level>, n: nat, row: Row)
    requires n >= 1 && (n > 10 || Ancestor(users, user, n).None?)
    ensures !Due(users, user, claim, reward, settings, n, row)
  {
  }

  lemma DueAt(users: seq<User>, user: nat, parent: nat, ref: nat, claim: nat, reward: real, settings: map<nat, Level>,
              n: nat, row: Row)
    requires 1 <= n <= 10
    requires Ancestor(users, user, n - 1) == Some(parent) && Ancestor(users, user, n) == Some(ref)
    ensures Due(users, user, claim, reward, settings, n, row) <==>
      Commission(settings, n, reward) > 0.0 && row == Row(ref, parent, claim, Commission(settings, n, reward), n)
  {
    hide Commission, Ancestor;
    CommissionIs(settings, n, reward);
    if n in settings {
      Signs(reward, settings[n].percent);
    }
  }

  /** These rows are exactly those that are due, in the order of their levels. */
  ghost predicate ExactlyDue(
    rows: seq<Row>, users: seq<User>, user: nat, claim: nat, reward: real, settings: map<nat, Level>)
  {
    && (forall row :: row in rows <==> exists n: nat :: n >= 1 && Due(users, user, claim, reward, settings, n, row))
    && (forall i, j :: 0 <= i < j < |rows| ==> rows[i].level < rows[j].level)
  }

  /** So are the commission rows of a claim. */
  lemma RowsAreDue(users: seq<User>, user: nat, claim: nat, reward: real, settings: map<nat, Level>)
    requires Ordered(users)
    ensures ExactlyDue(Rows(users, 1, user, claim, reward, settings), users, user, claim, reward, settings)
  {
    hide Rows, Due;
    RowsGoUp(users, 1, user, claim, reward, settings);
    forall row
      ensures row in Rows(users, 1, user, claim, reward, settings) <==>
        exists n: nat :: n >= 1 && Due(users, user, claim, reward, settings, n, row)
    {
      RowsAreDueFrom(users, user, user, claim, reward, settings, 1, row);
    }
  }

  // ----- Everything that a committed claim writes -----

  function EntriesOf(rows: seq<Row>): (es: seq<Entry>)
    ensures |es| == |rows|
    ensures forall i :: 0 <= i < |rows| ==>
      es[i] == Entry(rows[i].referrer, rows[i].claim, rows[i].amount, ReferralCommission(rows[i].level))
  {
    seq(|rows|, i requires 0 <= i < |rows| =>
      Entry(rows[i].referrer, rows[i].claim, rows[i].amount, ReferralCommission(rows[i].level)))
  }

  /** Nothing but the money of an account changes. */
  predicate SameAccount(u: User, u': User) { u'.code == u.code && u'.active == u.active && u'.referrer == u.referrer }

  lemma {:induction false} PayRowsWrites(db: Db, rows: seq<Row>)
    requires forall r :: r in rows ==> r.referrer < |db.users|
    ensures var db' := PayRows(db, rows);
      && db'.commissions == db.commissions + rows && db'.ledger == db.ledger + EntriesOf(rows)
      && db'.claims == db.claims && |db'.users| == |db.users|
      && forall v :: 0 <= v < |db.users| ==>
        && SameAccount(db.users[v], db'.users[v]) && db'.users[v].today == db.users[v].today
        && db'.users[v].total - db.users[v].total == Earned(rows, v)
    decreases |rows|
  {
    hide PayRow, EntriesOf, Earned;
    if rows == [] {
      NothingPaid(db);
    } else {
      PayRowWrites(db, rows[0]);
      PayRowsWrites(PayRow(db, rows[0]), rows[1..]);
      FirstAndRest(db, rows);
    }
  }

  lemma NothingPaid(db: Db)
    ensures db.commissions + [] == db.commissions && db.ledger + EntriesOf([]) == db.ledger
    ensures forall v :: Earned([], v) == 0.0
  {
  }

  lemma FirstAndRest(db: Db, rows: seq<Row>)
    requires rows != []
    ensures db.commissions + [rows[0]] + rows[1..] == db.commissions + rows
    ensures db.ledger + [EntryOf(rows[0])] + EntriesOf(rows[1..]) == db.ledger + EntriesOf(rows)
    ensures forall v ::
      Earned(rows, v) == (if rows[0].referrer == v then rows[0].amount else 0.0) + Earned(rows[1..], v)
  {
  }

  lemma PayRowWrites(db: Db, r: Row)
    requires r.referrer < |db.users|
    ensures var db' := PayRow(db, r);
      && db'.commissions == db.commissions + [r] && db'.ledger == db.ledger + [EntryOf(r)]
      && db'.claims == db.claims && |db'.users| == |db.users|
      && forall v :: 0 <= v < |db.users| ==>
        && SameAccount(db.users[v], db'.users[v]) && db'.users[v].today == db.users[v].today
        && db'.users[v].total - db.users[v].total == if r.referrer == v then r.amount else 0.0
  {
  }

  /** The commission rows are those that are due, one below the other; each has its row in the ledger, behind that of
      the reward; the claim is marked sent; and no account changes otherwise than by money, today's earnings only for
      the claimer. */
  lemma CommittedClaimWrites(db: Db, claim: nat, settings: map<nat, Level>) returns (rows: seq<Row>)
    requires Valid(db) && InFlight(db, claim)
    ensures var db', c := CreditClaim(db, claim, settings, true), db.claims[claim];
      && ExactlyDue(rows, db.users, c.user, claim, c.reward, settings)
      && db'.commissions == db.commissions + rows
      && db'.ledger == db.ledger + [Entry(c.user, claim, c.reward, TaskReward)] + EntriesOf(rows)
      && db'.claims == db.claims[claim := Claim(c.user, c.reward, Sent)]
      && |db'.users| == |db.users|
      && forall v :: 0 <= v < |db.users| ==>
        && SameAccount(db.users[v], db'.users[v])
        && db'.users[v].today == db.users[v].today + if v == c.user then c.reward else 0.0
  {
    hide PayRows, Rows, Sum, RewardCount, CreditClaim, ExactlyDue;
    CreditIs(db, claim, settings);
    var c := db.claims[claim];
    rows := ClaimRows(db, claim, settings);
    assert rows == Rows(db.users, 1, c.user, claim, c.reward, settings);
    RowsAreDue(db.users, c.user, claim, c.reward, settings);
    PayRowsWrites(Reward(db, claim), rows);
    RewardWrites(db, claim);
  }

  lemma RewardWrites(db: Db, claim: nat)
    requires Valid(db) && InFlight(db, claim)
    ensures var db', c := Reward(db, claim), db.claims[claim];
      && db'.commissions == db.commissions && db'.ledger == db.ledger + [Entry(c.user, claim, c.reward, TaskReward)]
      && db'.claims == db.claims[claim := Claim(c.user, c.reward, Sent)] && |db'.users| == |db.users|
      && forall v :: 0 <= v < |db.users| ==>
        && SameAccount(db.users[v], db'.users[v])
        && db'.users[v].today == db.users[v].today + if v == c.user then c.reward else 0.0
  {
    hide Sum, RewardCount;
  }

  // ----- Whole runs -----

  /** Accounts stay where they are, with their code and their referrer. */
  ghost predicate Persist(users: seq<User>, users': seq<User>) {
    && |users| <= |users'|
    && forall u :: 0 <= u < |users| ==> users'[u].code == users[u].code && users'[u].referrer == users[u].referrer
  }

  lemma StepPersists(db: Db, i: Input)
    requires Valid(db)
    ensures Persist(db.users, Advance(db, i).users)
  {
    hide Valid, PayRows, Rows, Reward;
    match i
    case Credit(claim, settings, commits) =>
      if InFlight(db, claim) && commits {
        CommittedPersists(db, claim, settings);
      }
    case _ =>
  }

  lemma CommittedPersists(db: Db, claim: nat, settings: map<nat, Level>)
    requires Valid(db) && InFlight(db, claim)
    ensures Persist(db.users, CreditClaim(db, claim, settings, true).users)
  {
    hide CreditClaim, ExactlyDue, Valid;
    var rows := CommittedClaimWrites(db, claim, settings);
  }

  lemma {:induction false} RunPersists(before: seq<Input>, after: seq<Input>)
    ensures Persist(Run(before).users, Run(before + after).users)
  {
    hide Valid, Advance;
    if after == [] {
      assert before + after == before;
    } else {
      var n := |after| - 1;
      assert (before + after)[..|before + after| - 1] == before + after[..n];
      RunPersists(before, after[..n]);
      StepPersists(Run(before + after[..n]), after[n]);
    }
  }

  /** Who registers with the code of an active user pays an owner of that code the commission of level 1 with every
      claim that is committed, however many other steps there are in between. */
  lemma ReferredUserPaysOwner(
    before: seq<Input>, code: Bytes, referral: Bytes, after: seq<Input>, claim: nat, settings: map<nat, Level>)
    returns (owner: nat)
    requires referral != []
    requires exists u ::
      0 <= u < |Run(before).users| && Run(before).users[u].active && Run(before).users[u].code == referral
    requires var db := Run(before + [Register(code, referral)] + after);
      InFlight(db, claim) && db.claims[claim].user == |Run(before).users|
    ensures owner < |Run(before).users| && Run(before).users[owner].active && Run(before).users[owner].code == referral
    ensures var db := Run(before + [Register(code, referral)] + after);
      var db', reward := Advance(db, Credit(claim, settings, true)), db.claims[claim].reward;
      && |db'.users| == |db.users| > owner
      && db'.users[owner].balance == db.users[owner].balance +
        if 1 in settings && settings[1].active && settings[1].percent > 0.0 && reward > 0.0
        then reward * settings[1].percent / 100.0 else 0.0
  {
    hide Valid, CreditClaim, Commission, Registered;
    var start, user := Run(before), |Run(before).users|;
    var registered := Run(before + [Register(code, referral)]);
    assert (before + [Register(code, referral)])[..|before|] == before;
    RegistrationInserts(start, code, referral);
    owner := registered.users[user].referrer.value;
    RunPersists(before + [Register(code, referral)], after);
    var db := Run(before + [Register(code, referral)] + after);
    assert Ancestor(db.users, owner, 0) == Some(owner);
    assert Ancestor(db.users, user, 1) == Some(owner);
    ReferrerEarnsTheLevel(db, claim, settings, 1, owner);
  }
}
