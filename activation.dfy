/**
 * Account activation through a signed link. The link carries the user name
 * signed by the site's signer; unsigning either fails (a bad signature) or
 * yields the name. The signer is a parameter here: any partial function
 * from signed values to names.
 */
module Activation {
  import opened Wrappers

  /** A user account (`AdvUser`), reduced to the two flags activation sets. */
  datatype User = User(isActive: bool, isActivated: bool)

  /** The four ways the activation view can end. */
  datatype Outcome = BadSignature | NotFound | AlreadyActivated | ActivationDone {

    /** The page rendered for the outcome; a 404 renders none of the view's own. */
    function Template(): Option<string> {
      match this
      case BadSignature => Some("main/bad_signature.html")
      case NotFound => None
      case AlreadyActivated => Some("main/user_is_activated.html")
      case ActivationDone => Some("main/activation_done.html")
    }
  }

  /** An outcome with the user table it leaves behind. */
  datatype Step = Step(outcome: Outcome, users: map<string, User>)

  /**
   * One activation request, given the name its signature unsigns to: a bad
   * signature and an unknown name change nothing, an activated user is left
   * as they are, any other user becomes active and activated.
   */
  function Activate(users: map<string, User>, username: Option<string>): (r: Step)
    ensures username.None? ==> r == Step(BadSignature, users)
    ensures username.Some? && username.value !in users ==> r == Step(NotFound, users)
    ensures username.Some? && username.value in users && users[username.value].isActivated
      ==> r == Step(AlreadyActivated, users)
    ensures username.Some? && username.value in users && !users[username.value].isActivated
      ==> && r.outcome == ActivationDone
          && r.users.Keys == users.Keys
          && r.users[username.value] == User(true, true)
          && forall other :: other in users && other != username.value ==> r.users[other] == users[other]
  {
    match username
    case None => Step(BadSignature, users)
    case Some(name) =>
      if name !in users then Step(NotFound, users)
      else if users[name].isActivated then Step(AlreadyActivated, users)
      else Step(ActivationDone, users[name := users[name].(isActive := true, isActivated := true)])
  }

  /** The user table and the activation view over it. */
  class UserTable {
    var users: map<string, User>

    constructor (initial: map<string, User>)
      ensures users == initial
    {
      users := initial;
    }

    /** `user_activate`: unsign, look the user up, and activate a user not yet activated. */
    method UserActivate(sign: string, unsign: string -> Option<string>) returns (outcome: Outcome)
      modifies this
      ensures Step(outcome, users) == Activate(old(users), unsign(sign))
      ensures outcome.Template() == RenderedTemplate(old(users), unsign(sign))
    {
      var username := unsign(sign);
      if username.None? {
        return BadSignature;
      }
      var name := username.value;
      if name !in users {
        return NotFound;
      }
      var user := users[name];
      if user.isActivated {
        outcome := AlreadyActivated;
      } else {
        outcome := ActivationDone;
        user := user.(isActive := true, isActivated := true);
        users := users[name := user];
      }
    }
  }

  // ---------------------------------------------------------------------
  // Properties of activation

  /**
   * The page the view renders, read off the request directly: the bad
   * signature page, a 404, the already-activated page, or the activation
   * done page.
   */
  function RenderedTemplate(users: map<string, User>, username: Option<string>): Option<string> {
    if username.None? then Some("main/bad_signature.html")
    else if username.value !in users then None
    else if users[username.value].isActivated then Some("main/user_is_activated.html")
    else Some("main/activation_done.html")
  }

  /** Each outcome of an activation renders the page chosen for that case. */
  lemma ActivateTemplate(users: map<string, User>, username: Option<string>)
    ensures Activate(users, username).outcome.Template() == RenderedTemplate(users, username)
  {
  }

  /** Following the same link again changes nothing and reports the account as already activated. */
  lemma ActivateIdempotent(users: map<string, User>, username: Option<string>)
    requires username.Some? && username.value in users
    ensures var once := Activate(users, username);
      Activate(once.users, username) == Step(AlreadyActivated, once.users)
  {
  }

  /** Whatever the link, the table keeps the same users. */
  lemma ActivateKeepsUsers(users: map<string, User>, username: Option<string>)
    ensures Activate(users, username).users.Keys == users.Keys
  {
  }

  /** Activation never clears a flag. */
  lemma ActivateOnlyRaisesFlags(users: map<string, User>, username: Option<string>, name: string)
    requires name in users
    ensures users[name].isActive ==> Activate(users, username).users[name].isActive
    ensures users[name].isActivated ==> Activate(users, username).users[name].isActivated
  {
  }

  /** The tables left behind by a series of requests, one signed value after another. */
  function ActivateAll(users: map<string, User>, signs: seq<string>, unsign: string -> Option<string>): map<string, User>
  {
    if signs == [] then users
    else ActivateAll(Activate(users, unsign(signs[0])).users, signs[1..], unsign)
  }

  /**
   * Once activated, an account is never touched by activation again: in
   * particular an account an administrator has since deactivated cannot
   * reactivate itself through its old link.
   */
  lemma {:induction false} ActivatedUserUntouched(users: map<string, User>, signs: seq<string>,
                                                  unsign: string -> Option<string>, name: string)
    requires name in users && users[name].isActivated
    ensures var after := ActivateAll(users, signs, unsign); name in after && after[name] == users[name]
  {
    if signs != [] {
      var next := Activate(users, unsign(signs[0])).users;
      ActivatedUserUntouched(next, signs[1..], unsign, name);
    }
  }

  /** After a series of requests, every user named by a valid link in it is activated. */
  lemma {:induction false} LinkedUsersActivated(users: map<string, User>, signs: seq<string>,
                                                unsign: string -> Option<string>, i: nat)
    requires i < |signs| && unsign(signs[i]).Some? && unsign(signs[i]).value in users
    ensures var after := ActivateAll(users, signs, unsign);
      var name := unsign(signs[i]).value; name in after && after[name].isActivated
  {
    var next := Activate(users, unsign(signs[0])).users;
    if i == 0 {
      ActivatedUserUntouched(next, signs[1..], unsign, unsign(signs[0]).value);
    } else {
      LinkedUsersActivated(next, signs[1..], unsign, i - 1);
    }
  }

  /** Replaying a whole series of requests a second time changes nothing. */
  lemma {:induction false} ActivateAllIdempotent(users: map<string, User>, signs: seq<string>,
                                                 unsign: string -> Option<string>)
    ensures var once := ActivateAll(users, signs, unsign); ActivateAll(once, signs, unsign) == once
  {
    var once := ActivateAll(users, signs, unsign);
    forall i | 0 <= i < |signs|
      ensures NamesActivatedUser(once, unsign(signs[i]))
    {
      ActivateAllKeepsUsers(users, signs, unsign);
      if unsign(signs[i]).Some? && unsign(signs[i]).value in once {
        LinkedUsersActivated(users, signs, unsign, i);
      }
    }
    ActivatedReplayUnchanged(once, signs, unsign);
  }

  lemma {:induction false} ActivateAllKeepsUsers(users: map<string, User>, signs: seq<string>,
                                                 unsign: string -> Option<string>)
    ensures ActivateAll(users, signs, unsign).Keys == users.Keys
  {
    if signs != [] {
      ActivateAllKeepsUsers(Activate(users, unsign(signs[0])).users, signs[1..], unsign);
    }
  }

  /** The name is missing, unknown, or that of an activated user. */
  predicate NamesActivatedUser(users: map<string, User>, username: Option<string>) {
    username.Some? && username.value in users ==> users[username.value].isActivated
  }

  /** Requests that only name activated users (or nobody) change nothing. */
  lemma {:induction false} ActivatedReplayUnchanged(users: map<string, User>, signs: seq<string>,
                                                    unsign: string -> Option<string>)
    requires forall i :: 0 <= i < |signs| ==> NamesActivatedUser(users, unsign(signs[i]))
    ensures ActivateAll(users, signs, unsign) == users
  {
    if signs != [] {
      assert Activate(users, unsign(signs[0])).users == users;
      forall i | 0 <= i < |signs[1..]|
        ensures NamesActivatedUser(users, unsign(signs[1..][i]))
      {
        assert signs[1..][i] == signs[i + 1];
      }
      ActivatedReplayUnchanged(users, signs[1..], unsign);
    }
  }
}
