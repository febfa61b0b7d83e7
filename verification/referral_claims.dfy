/** The registration and claim handlers as they update the tables. */
module ReferralClaims {
  import opened Bytes
  import opened ReferralLedger
  import opened ReferralPayout

  class Database {
    var users: seq<User>
    var ledger: seq<Entry>
    var commissions: seq<Row>
    var claims: seq<Claim>

    constructor ()
      ensures View() == EMPTY && Valid(View())
    {
      users, ledger, commissions, claims := [], [], [], [];
    }

    ghost function View(): Db
      reads this
    {
      Db(users, ledger, commissions, claims)
    }

    method Register(code: Bytes, referral: Bytes) returns (ok: bool)
      requires Valid(View())
      modifies this
      ensures View() == Registered(old(View()), code, referral) && Valid(View())
      ensures ok <==>
        referral == [] || exists u :: 0 <= u < |old(users)| && old(users)[u].active && old(users)[u].code == referral
      ensures ledger == old(ledger) && commissions == old(commissions) && claims == old(claims)
      ensures !ok ==> users == old(users)
      ensures ok ==>
        && |users| == |old(users)| + 1 && users[..|old(users)|] == old(users) && IsNew(users[|old(users)|], code)
        && match users[|old(users)|].referrer
           case None => referral == []
           case Some(r) =>
             referral != [] && r < |old(users)| && old(users)[r].active && old(users)[r].code == referral
    {
      RegisterKeeps(View(), code, referral);
      var refID: Option<nat> := None;
      if referral != [] {
        var i := 0;
        while i < |users| && !(users[i].code == referral && users[i].active)
          invariant 0 <= i <= |users| && FindReferrer(users[..i], referral).None?
        {
          assert users[..i + 1][..i] == users[..i];
          i := i + 1;
        }
        if i == |users| {
          assert users[..i] == users;
          return false;
        }
        FirstMatch(users, referral, i);
        refID := Some(i);
      }
      users := users + [User(code, true, refID, 0.0, 0.0, 0.0)];
      return true;
    }

    method SetActive(user: nat, active: bool)
      requires Valid(View())
      modifies this
      ensures View() == SetActiveTo(old(View()), user, active) && Valid(View())
      ensures ledger == old(ledger) && commissions == old(commissions) && claims == old(claims)
      ensures |users| == |old(users)| && forall u :: 0 <= u < |users| ==>
        users[u] == if u == user then old(users)[u].(active := active) else old(users)[u]
    {
      SetActiveKeeps(View(), user, active);
      if user < |users| {
        users := users[user := users[user].(active := active)];
      }
    }

    /** The first transaction of the claim handler. */
    method OpenClaim(user: nat, reward: real, accepted: bool) returns (claim: Option<nat>)
      requires Valid(View())
      modifies this
      ensures View() == Opened(old(View()), user, reward, accepted) && Valid(View())
      ensures claim == if user < |old(users)| && accepted then Some(|old(claims)|) else None
      ensures users == old(users) && ledger == old(ledger) && commissions == old(commissions)
      ensures claims == old(claims) + if claim.Some? then [Claim(user, reward, Sending)] else []
    {
      OpenKeeps(View(), user, reward, accepted);
      if user >= |users| || !accepted {
        return None;
      }
      claims := claims + [Claim(user, reward, Sending)];
      return Some(|claims| - 1);
    }

    /** After a send that failed. */
    method MarkFailed(claim: nat)
      requires Valid(View()) && InFlight(View(), claim)
      modifies this
      ensures View() == SendFailed(old(View()), claim) && Valid(View())
      ensures users == old(users) && ledger == old(ledger) && commissions == old(commissions)
      ensures claims == old(claims)[claim := Claim(old(claims)[claim].user, old(claims)[claim].reward, NotSent)]
    {
      SendFailedKeeps(View(), claim);
      claims := claims[claim := claims[claim].(status := NotSent)];
    }

    /** After a send that succeeded: the crediting transaction.  Its statement number n fails when fault(n); then it is
        rolled back. */
    method CreditClaim(claim: nat, settings: map<nat, Level>, fault: nat -> bool) returns (committed: bool)
      requires Valid(View()) && InFlight(View(), claim)
      modifies this
      ensures View() == ReferralLedger.CreditClaim(old(View()), claim, settings, committed) && Valid(View())
      ensures (forall n :: !fault(n)) ==> committed
      ensures !committed ==> View() == old(View())
    {
      hide PayRows, Rows, Sum, RewardCount, Reward;
      CreditKeeps(View(), claim, settings, true);
      CreditKeeps(View(), claim, settings, false);
      RowsAreUsers(users, 1, claims[claim].user, claim, claims[claim].reward, settings);
      var begun := (users, ledger, commissions, claims);
      if exists e :: e in ledger && e.claim == claim {
        return true;
      }
      committed := RewardAndPay(claim, settings, fault);
      if !committed {
        users, ledger, commissions, claims := begun.0, begun.1, begun.2, begun.3;
      }
    }

    method RewardAndPay(claim: nat, settings: map<nat, Level>, fault: nat -> bool) returns (ok: bool)
      requires Ordered(users) && claim < |claims| && claims[claim].user < |users|
      modifies this
      ensures forall r :: r in ClaimRows(old(View()), claim, settings) ==> r.referrer < |old(users)|
      ensures |Reward(old(View()), claim).users| == |old(users)|
      ensures ok ==> View() == PayRows(Reward(old(View()), claim), ClaimRows(old(View()), claim, settings))
      ensures (forall n :: !fault(n)) ==> ok
    {
      hide PayRows, Rows;
      var c := claims[claim];
      RowsAreUsers(users, 1, c.user, claim, c.reward, settings);
      if fault(0) || fault(1) || fault(2) {
        return false;
      }
      claims := claims[claim := c.(status := Sent)];
      ledger := ledger + [Entry(c.user, claim, c.reward, TaskReward)];
      users := users[c.user := Credited(users[c.user], c.reward, TaskReward)];
      SameReferrersSameRows(old(users), users, 1, c.user, claim, c.reward, settings);
      ok := PayReferrers(claim, c.user, c.reward, settings, fault);
      ok := ok && !fault(40);
    }

    /** One level's three statements: the commission row, its ledger row and the balance update. */
    method InsertCommission(row: Row, fault: nat -> bool) returns (ok: bool)
      requires row.referrer < |users|
      modifies this
      ensures ok ==> View() == PayRow(old(View()), row)
      ensures (forall n :: !fault(n)) ==> ok
    {
      if fault(3 * row.level) {
        return false;
      }
      commissions := commissions + [row];
      if fault(3 * row.level + 1) {
        return false;
      }
      ledger := ledger + [Entry(row.referrer, row.claim, row.amount, ReferralCommission(row.level))];
      if fault(3 * row.level + 2) {
        return false;
      }
      users := users[row.referrer := Credited(users[row.referrer], row.amount, ReferralCommission(row.level))];
      return true;
    }

    /** The referral loop. */
    method PayReferrers(claim: nat, user: nat, reward: real, settings: map<nat, Level>, fault: nat -> bool)
      returns (ok: bool)
      requires Ordered(users) && user < |users|
      modifies this
      ensures forall r :: r in Rows(old(users), 1, user, claim, reward, settings) ==> r.referrer < |old(users)|
      ensures ok ==> View() == PayRows(old(View()), Rows(old(users), 1, user, claim, reward, settings))
      ensures (forall n :: !fault(n)) ==> ok
    {
      hide PayRows, Rows, PayRow;
      ghost var start := users;
      RowsAreUsers(users, 1, user, claim, reward, settings);
      ghost var target := PayRows(View(), Rows(users, 1, user, claim, reward, settings));
      var parent: nat, level: nat := user, 1;
      while level <= LEVELS
        invariant 1 <= level <= LEVELS + 1 && parent < |users| && SameReferrers(users, start)
        invariant forall r :: r in Rows(start, level, parent, claim, reward, settings) ==> r.referrer < |users|
        invariant PayRows(View(), Rows(start, level, parent, claim, reward, settings)) == target
      {
        if users[parent].referrer.None? {
          break;
        }
        var refID := users[parent].referrer.value;
        RowsUnfold(start, level, parent, claim, reward, settings);
        RowsAreUsers(start, level + 1, refID, claim, reward, settings);
        ghost var rest := Rows(start, level + 1, refID, claim, reward, settings);
        if level in settings && settings[level].active && settings[level].percent > 0.0 {
          var commission := reward * settings[level].percent / 100.0;
          if commission > 0.0 {
            var row := Row(refID, parent, claim, commission, level);
            assert Commission(settings, level, reward) == commission;
            PayRowsUnfold(View(), row, rest);
            PayRowKeepsReferrers(View(), row, start);
            var inserted := InsertCommission(row, fault);
            if !inserted {
              return false;
            }
          }
        }
        assert PayRows(View(), rest) == target;
        parent, level := refID, level + 1;
      }
      NoRowsLeft(View(), start, level, parent, claim, reward, settings);
      return true;
    }
  }

  ghost predicate SameReferrers(a: seq<User>, b: seq<User>) {
    |a| == |b| && forall u :: 0 <= u < |a| ==> a[u].referrer == b[u].referrer
  }

  lemma PayRowKeepsReferrers(db: Db, row: Row, start: seq<User>)
    requires row.referrer < |db.users| && SameReferrers(db.users, start)
    ensures SameReferrers(PayRow(db, row).users, start)
  {
  }

  lemma {:induction false} SameReferrersSameRows(a: seq<User>, b: seq<User>, level: nat, parent: nat, claim: nat,
    reward: real, settings: map<nat, Level>)
    requires SameReferrers(a, b)
    ensures Rows(a, level, parent, claim, reward, settings) == Rows(b, level, parent, claim, reward, settings)
    decreases LEVELS + 1 - level
  {
    hide Commission;
    if level <= LEVELS && parent < |a| && a[parent].referrer.Some? {
      SameReferrersSameRows(a, b, level + 1, a[parent].referrer.value, claim, reward, settings);
    }
  }

  lemma RowsUnfold(users: seq<User>, level: nat, parent: nat, claim: nat, reward: real, settings: map<nat, Level>)
    requires level <= LEVELS && parent < |users| && users[parent].referrer.Some?
    ensures var ref, c := users[parent].referrer.value, Commission(settings, level, reward);
      var rest := Rows(users, level + 1, ref, claim, reward, settings);
      Rows(users, level, parent, claim, reward, settings) ==
      if c > 0.0 then [Row(ref, parent, claim, c, level)] + rest else rest
  {
  }

  lemma PayRowsUnfold(db: Db, row: Row, rest: seq<Row>)
    requires row.referrer < |db.users| && forall r :: r in rest ==> r.referrer < |db.users|
    ensures PayRows(db, [row] + rest) == PayRows(PayRow(db, row), rest)
  {
    assert ([row] + rest)[1..] == rest;
  }

  lemma NoRowsLeft(
    db: Db, users: seq<User>, level: nat, parent: nat, claim: nat, reward: real, settings: map<nat, Level>)
    requires level > LEVELS || parent >= |users| || users[parent].referrer.None?
    ensures Rows(users, level, parent, claim, reward, settings) == []
    ensures PayRows(db, []) == db
  {
  }

  lemma {:induction false} FirstMatch(users: seq<User>, code: Bytes, i: nat)
    requires i < |users| && users[i].code == code && users[i].active && FindReferrer(users[..i], code).None?
    ensures FindReferrer(users, code) == Some(i)
    decreases |users|
  {
    var front := users[..|users| - 1];
    if i < |users| - 1 {
      assert front[..i] == users[..i];
      FirstMatch(front, code, i);
    }
  }
}
