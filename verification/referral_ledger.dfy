/** The reward and referral ledger of `user_features.go` and `user_portal.go`: registration with a referral code, and
    the claim of a task, which is opened in one transaction, answered by a send, and credited to the user and up to
    ten levels of referrers in another.  Users and claims are numbered in the order in which their rows were inserted.
    */
module ReferralLedger {
  import opened Bytes

  datatype User = User(code: Bytes, active: bool, referrer: Option<nat>, balance: real, today: real, total: real)

  datatype Kind = TaskReward | ReferralCommission(level: nat)

  /** A row of earning_ledger. */
  datatype Entry = Entry(user: nat, claim: nat, amount: real, kind: Kind)

  /** A row of referral_commissions. */
  datatype Row = Row(referrer: nat, referred: nat, claim: nat, amount: real, level: nat)

  /** A row of mlm_settings. */
  datatype Level = Level(percent: real, active: bool)

  datatype Status = Sending | NotSent | Sent

  /** A row of task_claims. */
  datatype Claim = Claim(user: nat, reward: real, status: Status)

  datatype Db = Db(users: seq<User>, ledger: seq<Entry>, commissions: seq<Row>, claims: seq<Claim>)

  const LEVELS := 10

  const EMPTY: Db := Db([], [], [], [])

  /** The steps of the handlers.  Those of different claims interleave: a claim is opened, then either its send fails or
      its crediting transaction runs, with the settings of that moment. */
  datatype Input =
    | Register(code: Bytes, referral: Bytes)
    | SetActive(user: nat, active: bool)
    | Open(user: nat, reward: real, accepted: bool)
    | SendFails(claim: nat)
    | Credit(claim: nat, settings: map<nat, Level>, commits: bool)

  // ----- Registration -----

  function FindReferrer(users: seq<User>, code: Bytes): (u: Option<nat>)
    ensures u.Some? ==> u.value < |users| && users[u.value].code == code && users[u.value].active
    ensures u.None? ==> forall i :: 0 <= i < |users| ==> users[i].code != code || !users[i].active
  {
    if users == [] then None
    else
      var front := FindReferrer(users[..|users| - 1], code);
      if front.Some? then front
      else if users[|users| - 1].code == code && users[|users| - 1].active then Some(|users| - 1)
      else None
  }

  function Registered(db: Db, code: Bytes, referral: Bytes): Db {
    if referral == [] then db.(users := db.users + [User(code, true, None, 0.0, 0.0, 0.0)])
    else
      var r := FindReferrer(db.users, referral);
      if r.None? then db else db.(users := db.users + [User(code, true, r, 0.0, 0.0, 0.0)])
  }

  // ----- Crediting -----

  function Credited(u: User, amount: real, kind: Kind): User {
    u.(balance := u.balance + amount, total := u.total + amount,
       today := if kind.TaskReward? then u.today + amount else u.today)
  }

  /** One ledger row and the balance update that goes with it. */
  function Pay(db: Db, e: Entry): Db
    requires e.user < |db.users|
  {
    db.(users := db.users[e.user := Credited(db.users[e.user], e.amount, e.kind)], ledger := db.ledger + [e])
  }

  function Percent(settings: map<nat, Level>, level: nat): real {
    if level in settings && settings[level].active && settings[level].percent > 0.0 then settings[level].percent
    else 0.0
  }

  function Commission(settings: map<nat, Level>, level: nat, reward: real): (c: real)
    ensures c >= 0.0
  {
    var c := reward * Percent(settings, level) / 100.0;
    if c > 0.0 then c else 0.0
  }

  /** The referral loop from a level on: the commission rows it inserts. */
  function Rows(
    users: seq<User>, level: nat, parent: nat, claim: nat, reward: real, settings: map<nat, Level>): seq<Row>
    decreases LEVELS + 1 - level
  {
    if level > LEVELS || parent >= |users| || users[parent].referrer.None? then []
    else
      var ref, c := users[parent].referrer.value, Commission(settings, level, reward);
      (if c > 0.0 then [Row(ref, parent, claim, c, level)] else [])
      + Rows(users, level + 1, ref, claim, reward, settings)
  }

  /** The ledger row that belongs to a commission row. */
  function EntryOf(r: Row): Entry { Entry(r.referrer, r.claim, r.amount, ReferralCommission(r.level)) }

  function PayRow(db: Db, r: Row): Db
    requires r.referrer < |db.users|
  {
    Pay(db.(commissions := db.commissions + [r]), EntryOf(r))
  }

  function PayRows(db: Db, rows: seq<Row>): (db': Db)
    requires forall r :: r in rows ==> r.referrer < |db.users|
    ensures |db'.users| == |db.users| && db'.claims == db.claims
    decreases |rows|
  {
    if rows == [] then db else PayRows(PayRow(db, rows[0]), rows[1..])
  }

  /** Referrers are earlier registrants. */
  ghost predicate Ordered(users: seq<User>) {
    forall u :: 0 <= u < |users| && users[u].referrer.Some? ==> users[u].referrer.value < u
  }

  lemma {:induction false} RowsAreUsers(
    users: seq<User>, level: nat, parent: nat, claim: nat, reward: real, settings: map<nat, Level>)
    requires Ordered(users)
    ensures forall r :: r in Rows(users, level, parent, claim, reward, settings) ==>
      r.referrer < |users| && r.claim == claim
    decreases LEVELS + 1 - level
  {
    if !(level > LEVELS || parent >= |users| || users[parent].referrer.None?) {
      RowsAreUsers(users, level + 1, users[parent].referrer.value, claim, reward, settings);
    }
  }

  function SetStatus(db: Db, claim: nat, status: Status): Db
    requires claim < |db.claims|
  {
    db.(claims := db.claims[claim := db.claims[claim].(status := status)])
  }

  function Opened(db: Db, user: nat, reward: real, accepted: bool): Db {
    if user >= |db.users| || !accepted then db else db.(claims := db.claims + [Claim(user, reward, Sending)])
  }

  /** The claim's handler is still at work on it. */
  predicate InFlight(db: Db, claim: nat) { claim < |db.claims| && db.claims[claim].status.Sending? }

  function SendFailed(db: Db, claim: nat): Db {
    if InFlight(db, claim) then SetStatus(db, claim, NotSent) else db
  }

  function Reward(db: Db, claim: nat): Db
    requires claim < |db.claims| && db.claims[claim].user < |db.users|
  {
    var c := db.claims[claim];
    Pay(SetStatus(db, claim, Sent), Entry(c.user, claim, c.reward, TaskReward))
  }

  function ClaimRows(db: Db, claim: nat, settings: map<nat, Level>): seq<Row>
    requires claim < |db.claims|
  {
    Rows(db.users, 1, db.claims[claim].user, claim, db.claims[claim].reward, settings)
  }

  /** The crediting transaction; it does nothing for a claim that is in the ledger already. */
  ghost function CreditClaim(db: Db, claim: nat, settings: map<nat, Level>, commits: bool): Db
    requires Ordered(db.users) && forall c :: c in db.claims ==> c.user < |db.users|
  {
    if !InFlight(db, claim) || !commits || exists e :: e in db.ledger && e.claim == claim then db
    else
      RowsAreUsers(db.users, 1, db.claims[claim].user, claim, db.claims[claim].reward, settings);
      PayRows(Reward(db, claim), ClaimRows(db, claim, settings))
  }

  // ----- The invariant -----

  predicate Counts(e: Entry, u: nat, rewardsOnly: bool) {
    e.user == u && (rewardsOnly ==> e.kind.TaskReward?)
  }

  function Sum(ledger: seq<Entry>, u: nat, rewardsOnly: bool): real {
    if ledger == [] then 0.0
    else
      var e := ledger[|ledger| - 1];
      Sum(ledger[..|ledger| - 1], u, rewardsOnly) + if Counts(e, u, rewardsOnly) then e.amount else 0.0
  }

  /** The books of one user: what the account shows is what the ledger says. */
  ghost predicate Balanced(db: Db, u: nat)
    requires u < |db.users|
  {
    && db.users[u].balance == Sum(db.ledger, u, false)
    && db.users[u].total == Sum(db.ledger, u, false)
    && db.users[u].today == Sum(db.ledger, u, true)
  }

  function RewardCount(ledger: seq<Entry>, claim: nat): nat {
    if ledger == [] then 0
    else
      var e := ledger[|ledger| - 1];
      RewardCount(ledger[..|ledger| - 1], claim) + if e.claim == claim && e.kind.TaskReward? then 1 else 0
  }

  /** A claim is marked sent exactly when its reward is in the ledger, and it is there once. */
  ghost predicate PaidOnce(db: Db, claim: nat) {
    RewardCount(db.ledger, claim) == if claim < |db.claims| && db.claims[claim].status.Sent? then 1 else 0
  }

  ghost predicate Valid(db: Db) {
    && Ordered(db.users)
    && (forall u :: 0 <= u < |db.users| ==> Balanced(db, u))
    && (forall e :: e in db.ledger ==>
      e.user < |db.users| && e.claim < |db.claims| && db.claims[e.claim].status.Sent?)
    && (forall c :: c in db.claims ==> c.user < |db.users|)
    && (forall claim :: PaidOnce(db, claim))
  }

  lemma SumOne(ledger: seq<Entry>, e: Entry, u: nat, rewardsOnly: bool)
    ensures Sum(ledger + [e], u, rewardsOnly) ==
      Sum(ledger, u, rewardsOnly) + if Counts(e, u, rewardsOnly) then e.amount else 0.0
  {
    assert (ledger + [e])[..|ledger|] == ledger;
  }

  lemma PayBalances(db: Db, e: Entry, u: nat)
    requires e.user < |db.users| && u < |db.users| && Balanced(db, u)
    ensures Balanced(Pay(db, e), u)
  {
    hide Sum;
    SumOne(db.ledger, e, u, false);
    SumOne(db.ledger, e, u, true);
  }

  lemma RewardCountOne(ledger: seq<Entry>, e: Entry, claim: nat)
    ensures RewardCount(ledger + [e], claim) ==
      RewardCount(ledger, claim) + if e.claim == claim && e.kind.TaskReward? then 1 else 0
  {
    assert (ledger + [e])[..|ledger|] == ledger;
  }

  lemma {:induction false} NothingForStrangers(ledger: seq<Entry>, u: nat, rewardsOnly: bool)
    requires forall e :: e in ledger ==> e.user != u
    ensures Sum(ledger, u, rewardsOnly) == 0.0
  {
    if ledger != [] {
      NothingForStrangers(ledger[..|ledger| - 1], u, rewardsOnly);
    }
  }

  lemma {:induction false} NoRewardForNewClaims(ledger: seq<Entry>, claim: nat)
    requires forall e :: e in ledger ==> e.claim != claim
    ensures RewardCount(ledger, claim) == 0
  {
    if ledger != [] {
      NoRewardForNewClaims(ledger[..|ledger| - 1], claim);
    }
  }

  // ----- Every run -----

  lemma RegisterKeeps(db: Db, code: Bytes, referral: Bytes)
    requires Valid(db)
    ensures Valid(Registered(db, code, referral))
  {
    hide Sum, RewardCount;
    var db' := Registered(db, code, referral);
    NothingForStrangers(db.ledger, |db.users|, false);
    NothingForStrangers(db.ledger, |db.users|, true);
    forall u | 0 <= u < |db'.users| ensures Balanced(db', u) {
      assert u < |db.users| ==> Balanced(db, u);
    }
    forall claim: nat ensures PaidOnce(db', claim) {
      assert PaidOnce(db, claim);
    }
  }

  function SetActiveTo(db: Db, user: nat, active: bool): Db {
    if user >= |db.users| then db else db.(users := db.users[user := db.users[user].(active := active)])
  }

  lemma SetActiveKeeps(db: Db, user: nat, active: bool)
    requires Valid(db)
    ensures Valid(SetActiveTo(db, user, active))
  {
    hide Sum, RewardCount;
    var db' := SetActiveTo(db, user, active);
    forall u | 0 <= u < |db'.users| ensures Balanced(db', u) {
      assert Balanced(db, u);
    }
    forall claim: nat ensures PaidOnce(db', claim) {
      assert PaidOnce(db, claim);
    }
  }

  lemma OpenKeeps(db: Db, user: nat, reward: real, accepted: bool)
    requires Valid(db)
    ensures Valid(Opened(db, user, reward, accepted))
  {
    hide Sum, RewardCount;
    var db' := Opened(db, user, reward, accepted);
    NoRewardForNewClaims(db.ledger, |db.claims|);
    forall u | 0 <= u < |db'.users| ensures Balanced(db', u) {
      assert Balanced(db, u);
    }
    forall claim: nat ensures PaidOnce(db', claim) {
      assert PaidOnce(db, claim);
    }
  }

  lemma SendFailedKeeps(db: Db, claim: nat)
    requires Valid(db)
    ensures Valid(SendFailed(db, claim))
  {
    hide Sum, RewardCount;
    var db' := SendFailed(db, claim);
    forall u | 0 <= u < |db'.users| ensures Balanced(db', u) {
      assert Balanced(db, u);
    }
    forall c: nat ensures PaidOnce(db', c) {
      assert PaidOnce(db, c);
    }
  }

  lemma RewardKeeps(db: Db, claim: nat)
    requires Valid(db) && InFlight(db, claim)
    ensures Valid(Reward(db, claim))
  {
    hide Sum, RewardCount;
    var db' := Reward(db, claim);
    var e := Entry(db.claims[claim].user, claim, db.claims[claim].reward, TaskReward);
    forall u | 0 <= u < |db'.users| ensures Balanced(db', u) {
      assert Balanced(db, u);
      PayBalances(SetStatus(db, claim, Sent), e, u);
    }
    forall c: nat ensures PaidOnce(db', c) {
      assert PaidOnce(db, c);
      RewardCountOne(db.ledger, e, c);
    }
  }

  lemma PayRowKeeps(db: Db, r: Row)
    requires Valid(db) && r.referrer < |db.users| && r.claim < |db.claims| && db.claims[r.claim].status.Sent?
    ensures Valid(PayRow(db, r))
  {
    hide Sum, RewardCount;
    var db' := PayRow(db, r);
    forall u | 0 <= u < |db'.users| ensures Balanced(db', u) {
      assert Balanced(db, u);
      PayBalances(db.(commissions := db.commissions + [r]), EntryOf(r), u);
    }
    forall c: nat ensures PaidOnce(db', c) {
      assert PaidOnce(db, c);
      RewardCountOne(db.ledger, EntryOf(r), c);
    }
  }

  lemma {:induction false} PayRowsKeep(db: Db, rows: seq<Row>)
    requires Valid(db)
    requires forall r :: r in rows ==>
      r.referrer < |db.users| && r.claim < |db.claims| && db.claims[r.claim].status.Sent?
    ensures Valid(PayRows(db, rows))
    decreases |rows|
  {
    hide Valid;
    if rows != [] {
      PayRowKeeps(db, rows[0]);
      PayRowsKeep(PayRow(db, rows[0]), rows[1..]);
    }
  }

  lemma CreditKeeps(db: Db, claim: nat, settings: map<nat, Level>, commits: bool)
    requires Valid(db)
    ensures Valid(CreditClaim(db, claim, settings, commits))
  {
    hide Sum, RewardCount, PayRows, Rows, Reward;
    if InFlight(db, claim) {
      RewardKeeps(db, claim);
      RowsAreUsers(db.users, 1, db.claims[claim].user, claim, db.claims[claim].reward, settings);
      RewardShape(db, claim);
      PayRowsKeep(Reward(db, claim), ClaimRows(db, claim, settings));
    }
  }

  lemma RewardShape(db: Db, claim: nat)
    requires claim < |db.claims| && db.claims[claim].user < |db.users|
    ensures var db' := Reward(db, claim);
      |db'.users| == |db.users| && |db'.claims| == |db.claims| && db'.claims[claim].status.Sent?
  {
  }

  ghost function Advance(db: Db, i: Input): (db': Db)
    requires Valid(db)
    ensures Valid(db')
  {
    match i
    case Register(code, referral) => RegisterKeeps(db, code, referral); Registered(db, code, referral)
    case SetActive(user, active) => SetActiveKeeps(db, user, active); SetActiveTo(db, user, active)
    case Open(user, reward, accepted) => OpenKeeps(db, user, reward, accepted); Opened(db, user, reward, accepted)
    case SendFails(claim) => SendFailedKeeps(db, claim); SendFailed(db, claim)
    case Credit(claim, settings, commits) =>
      CreditKeeps(db, claim, settings, commits); CreditClaim(db, claim, settings, commits)
  }

  /** In every run of registrations, activations and interleaved claims, however they end, each account shows exactly
      the sum of its ledger rows, a claim is rewarded once exactly when it is marked sent, and referrers registered
      earlier. */
  ghost function Run(inputs: seq<Input>): (db: Db)
    ensures Valid(db)
  {
    if inputs == [] then EmptyIsValid(); EMPTY
    else Advance(Run(inputs[..|inputs| - 1]), inputs[|inputs| - 1])
  }

  lemma EmptyIsValid()
    ensures Valid(EMPTY)
  {
  }
}
