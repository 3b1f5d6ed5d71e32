/** The lockout of a PROTECTED vault within one process: auth_verify_password
    (c_src/vault/vault_crypto.c:411-462), the operations that call it
    (c_src/vault/vault_catalog.c:602-754) and the alert system that also writes the status
    (c_src/vault/vault_monitor.c:371-387, 427-464). */
module Lockout {
  import opened VaultStatus

  const MAX_PASS_ATTEMPTS: nat := 3

  datatype Err = ERR_OK | ERR_PASS_REQUIRED | ERR_VAULT_LOCKED | ERR_AUTH_FAIL | ERR_CRYPTO | ERR_NAME | ERR_VAULT_NOT_FOUND

  /** A password as the checks see it: whether it is the empty string, whether a key can be
      derived from it, and whether that key is the stored one. */
  datatype Attempt = Attempt(empty: bool, derives: bool, matches: bool)

  datatype Event =
    | Verify(a: Attempt)
    | ChangePassword(a: Attempt)
    | Unlock(a: Attempt)
    | Rename(nameAccepted: bool, a: Attempt)
    | Delete(a: Attempt)
    | Resolve(a: Attempt)
    | Trigger

  datatype State = State(status: Status, failed: nat, gone: bool)

  const FRESH := State(OK, 0, false)

  /** Whether a comparison is made at all. */
  predicate Compares(s: State, a: Attempt) { s.status != LOCKED && a.derives }

  function AfterVerify(s: State, a: Attempt): State {
    if !Compares(s, a) then s
    else if a.matches then s.(failed := 0)
    else s.(failed := s.failed + 1, status := if s.failed + 1 >= MAX_PASS_ATTEMPTS then LOCKED else s.status)
  }

  function VerifyReply(s: State, a: Attempt): Err {
    if s.status == LOCKED then ERR_VAULT_LOCKED
    else if !a.derives then ERR_CRYPTO
    else if a.matches then ERR_OK else ERR_AUTH_FAIL
  }

  /** The password the event puts to auth_verify_password, if it comes to that. */
  predicate Asks(s: State, e: Event) {
    && !s.gone
    && match e
       case Verify(_) => true
       case ChangePassword(_) => true
       case Unlock(a) => s.status == LOCKED && !a.empty
       case Rename(nameAccepted, a) => nameAccepted && !a.empty
       case Delete(a) => !a.empty
       case Resolve(a) => !a.empty
       case Trigger => false
  }

  function Step(s: State, e: Event): State {
    if s.gone then s
    else if e.Trigger? then s.(status := ALERT)
    else if !Asks(s, e) then s
    else
      var t := AfterVerify(s, e.a);
      if VerifyReply(s, e.a) != ERR_OK then t
      else
        match e
        case Unlock(_) => State(OK, 0, false)
        case Delete(_) => t.(gone := true)
        case Resolve(_) => t.(status := OK)
        case _ => t
  }

  function Run(s: State, es: seq<Event>): State {
    if es == [] then s else Step(Run(s, es[..|es| - 1]), es[|es| - 1])
  }

  /** What becomes of the counter and the lock: a password that is put to the check counts only
      if the vault is not locked and a key can be derived; the third wrong one in a row locks. */
  predicate IsChecked(s: State, t: State, asked: bool, a: Attempt) {
    if asked && s.status != LOCKED && a.derives then
      && t.failed == (if a.matches then 0 else s.failed + 1)
      && t.status == if !a.matches && s.failed + 1 >= 3 then LOCKED else s.status
    else t.failed == s.failed && t.status == s.status
  }

  /** The vault fields involved, and the operations on them. */
  class Guard {
    var status: Status
    var failedAttempts: nat
    var gone: bool

    ghost function S(): State
      reads this
    {
      State(status, failedAttempts, gone)
    }

    constructor ()
      ensures S() == FRESH
    {
      status, failedAttempts, gone := OK, 0, false;
    }

    method VerifyPassword(a: Attempt) returns (err: Err)
      modifies this
      ensures S() == AfterVerify(old(S()), a) && err == VerifyReply(old(S()), a)
      ensures IsChecked(old(S()), S(), true, a) && gone == old(gone)
      ensures err == if old(status) == LOCKED then ERR_VAULT_LOCKED else if !a.derives then ERR_CRYPTO
                     else if a.matches then ERR_OK else ERR_AUTH_FAIL
    {
      if status == LOCKED {
        return ERR_VAULT_LOCKED;
      }
      if !a.derives {
        return ERR_CRYPTO;
      }
      if !a.matches {
        failedAttempts := failedAttempts + 1;
        if failedAttempts >= MAX_PASS_ATTEMPTS {
          status := LOCKED;
        }
        return ERR_AUTH_FAIL;
      }
      failedAttempts := 0;
      return ERR_OK;
    }

    /** vault_unlock. Its reset of the status and the counter (lines 690-691) is never reached. */
    method UnlockVault(a: Attempt) returns (err: Err)
      modifies this
      ensures S() == Step(old(S()), Unlock(a)) == old(S())
      ensures !old(gone) && old(status) == LOCKED && !a.empty ==> err == ERR_VAULT_LOCKED
      ensures err == ERR_OK <==> !old(gone) && old(status) != LOCKED
    {
      if gone {
        return ERR_VAULT_NOT_FOUND;
      }
      if status != LOCKED {
        return ERR_OK;
      }
      if a.empty {
        return ERR_PASS_REQUIRED;
      }
      err := VerifyPassword(a);
      if err == ERR_OK {
        assert false;
      }
    }

    /** vault_rename, as far as the name is not concerned. */
    method RenameVault(nameAccepted: bool, a: Attempt) returns (err: Err)
      modifies this
      ensures S() == Step(old(S()), Rename(nameAccepted, a))
      ensures IsChecked(old(S()), S(), !old(gone) && nameAccepted && !a.empty, a) && gone == old(gone)
      ensures err == ERR_OK <==>
              !old(gone) && nameAccepted && !a.empty && old(status) != LOCKED && a.derives && a.matches
    {
      if gone {
        return ERR_VAULT_NOT_FOUND;
      }
      if !nameAccepted {
        return ERR_NAME;
      }
      if a.empty {
        return ERR_PASS_REQUIRED;
      }
      err := VerifyPassword(a);
    }

    /** vault_delete. */
    method DeleteVault(a: Attempt) returns (err: Err)
      modifies this
      ensures S() == Step(old(S()), Delete(a))
      ensures IsChecked(old(S()), S(), !old(gone) && !a.empty, a)
      ensures err == ERR_OK <==> !old(gone) && !a.empty && old(status) != LOCKED && a.derives && a.matches
      ensures gone <==> old(gone) || err == ERR_OK
    {
      if gone {
        return ERR_VAULT_NOT_FOUND;
      }
      if a.empty {
        return ERR_PASS_REQUIRED;
      }
      err := VerifyPassword(a);
      if err != ERR_OK {
        return;
      }
      gone := true;
    }

    /** alert_trigger. */
    method TriggerAlert()
      modifies this
      ensures S() == Step(old(S()), Trigger)
      ensures gone == old(gone) && failedAttempts == old(failedAttempts)
      ensures status == if gone then old(status) else ALERT
    {
      if !gone {
        status := ALERT;
      }
    }

    /** alert_resolve. */
    method ResolveAlert(a: Attempt) returns (err: Err)
      modifies this
      ensures S() == Step(old(S()), Resolve(a))
      ensures err == ERR_OK <==> !old(gone) && !a.empty && old(status) != LOCKED && a.derives && a.matches
      ensures gone == old(gone) && (err == ERR_OK ==> status == OK && failedAttempts == 0)
      ensures err != ERR_OK ==> IsChecked(old(S()), S(), !old(gone) && !a.empty, a)
    {
      if gone {
        return ERR_VAULT_NOT_FOUND;
      }
      if a.empty {
        return ERR_PASS_REQUIRED;
      }
      err := VerifyPassword(a);
      if err != ERR_OK {
        return;
      }
      status := OK;
    }
  }

  // ---- Counting -------------------------------------------------------------------------

  predicate IsWrong(s: State, e: Event) { Asks(s, e) && Compares(s, e.a) && !e.a.matches }
  predicate IsRight(s: State, e: Event) { Asks(s, e) && Compares(s, e.a) && e.a.matches }
  predicate IsAlert(s: State, e: Event) { !s.gone && e.Trigger? }

  function Count(which: (State, Event) -> bool, s: State, es: seq<Event>): nat {
    if es == [] then 0
    else
      var front := es[..|es| - 1];
      Count(which, s, front) + if which(Run(s, front), es[|es| - 1]) then 1 else 0
  }

  /** Passwords compared and found wrong, found right, and alerts raised. */
  function Wrong(es: seq<Event>): nat { Count(IsWrong, FRESH, es) }
  function Right(es: seq<Event>): nat { Count(IsRight, FRESH, es) }
  function Alerts(es: seq<Event>): nat { Count(IsAlert, FRESH, es) }

  /** What the state says about the counts so far. */
  predicate Bounded(s: State, wrong: nat, right: nat, alerts: nat) {
    && (s.status == LOCKED ==> s.failed >= MAX_PASS_ATTEMPTS)
    && wrong <= 2 * right + alerts +
             if s.status == LOCKED then MAX_PASS_ATTEMPTS
             else if s.failed < MAX_PASS_ATTEMPTS then s.failed else MAX_PASS_ATTEMPTS - 1
  }

  lemma {:induction false} RunIsBounded(es: seq<Event>)
    ensures Bounded(Run(FRESH, es), Wrong(es), Right(es), Alerts(es))
  {
    if es != [] {
      RunIsBounded(es[..|es| - 1]);
    }
  }

  /** The guessing bound: two wrong guesses for every right one, one for every alert, and
      three. */
  lemma GuessesAreLimited(es: seq<Event>)
    ensures Wrong(es) <= 2 * Right(es) + Alerts(es) + 3
    ensures Wrong(es) <= 3 * (Right(es) + 1) + Alerts(es)
  {
    RunIsBounded(es);
  }

  const GUESS := Verify(Attempt(false, true, false))
  const LOGIN := Verify(Attempt(false, true, true))

  lemma OneMore(es: seq<Event>, e: Event)
    ensures Run(FRESH, es + [e]) == Step(Run(FRESH, es), e)
    ensures Wrong(es + [e]) == Wrong(es) + if IsWrong(Run(FRESH, es), e) then 1 else 0
    ensures Right(es + [e]) == Right(es) + if IsRight(Run(FRESH, es), e) then 1 else 0
    ensures Alerts(es + [e]) == Alerts(es) + if IsAlert(Run(FRESH, es), e) then 1 else 0
  {
    assert (es + [e])[..|es|] == es;
  }

  lemma {:induction false} TwoGuessesALogin(right: nat) returns (es: seq<Event>)
    ensures Run(FRESH, es) == FRESH && Wrong(es) == 2 * right && Right(es) == right && Alerts(es) == 0
  {
    if right == 0 {
      es := [];
    } else {
      es := TwoGuessesALogin(right - 1);
      OneMore(es, GUESS);
      OneMore(es + [GUESS], GUESS);
      OneMore(es + [GUESS] + [GUESS], LOGIN);
      es := es + [GUESS] + [GUESS] + [LOGIN];
    }
  }

  /** The bound is tight: for any number of logins and alerts some run reaches it. */
  lemma {:induction false} BoundIsReached(right: nat, alerts: nat) returns (es: seq<Event>)
    ensures Right(es) == right && Alerts(es) == alerts && Wrong(es) == 2 * right + alerts + 3
    ensures Run(FRESH, es).status == LOCKED && !Run(FRESH, es).gone && Run(FRESH, es).failed >= 3
  {
    if alerts == 0 {
      es := TwoGuessesALogin(right);
      OneMore(es, GUESS);
      OneMore(es + [GUESS], GUESS);
      OneMore(es + [GUESS] + [GUESS], GUESS);
      es := es + [GUESS] + [GUESS] + [GUESS];
    } else {
      es := BoundIsReached(right, alerts - 1);
      OneMore(es, Trigger);
      OneMore(es + [Trigger], GUESS);
      es := es + [Trigger] + [GUESS];
    }
  }

  // ---- The lock -------------------------------------------------------------------------

  /** Without alerts a vault is locked exactly when three guesses in a row were wrong. */
  lemma {:induction false} LockedIffThreeFailures(es: seq<Event>)
    requires Trigger !in es
    ensures Run(FRESH, es).status == LOCKED <==> Run(FRESH, es).failed >= MAX_PASS_ATTEMPTS
    ensures Run(FRESH, es).status != ALERT
  {
    if es != [] {
      LockedIffThreeFailures(es[..|es| - 1]);
    }
  }

  /** A locked vault stays exactly as it is whatever is tried, vault_unlock with the right
      password included, until an alert comes. */
  lemma {:induction false} LockIsAbsorbing(s: State, es: seq<Event>)
    requires s.status == LOCKED && Trigger !in es
    ensures Run(s, es) == s
  {
    if es != [] {
      LockIsAbsorbing(s, es[..|es| - 1]);
    }
  }

  /** vault_unlock changes nothing at all, in any state. */
  lemma UnlockNeverUnlocks(s: State, a: Attempt)
    ensures Step(s, Unlock(a)) == s
  {
    assert s.status == LOCKED ==> VerifyReply(s, a) == ERR_VAULT_LOCKED;
  }

  /** An alert lifts the lock: the right password then verifies again. */
  lemma AlertLiftsLock(s: State, a: Attempt)
    requires s.status == LOCKED && !s.gone && a.derives && a.matches
    ensures VerifyReply(s, a) == ERR_VAULT_LOCKED
    ensures VerifyReply(Step(s, Trigger), a) == ERR_OK
    ensures Run(s, [Trigger, Resolve(a.(empty := false))]) == State(OK, 0, false)
  {
    var es := [Trigger, Resolve(a.(empty := false))];
    assert es[..1] == [Trigger];
    assert Run(s, es[..1]) == Step(Run(s, []), Trigger) by {
      assert es[..1][..0] == [];
    }
  }
}
