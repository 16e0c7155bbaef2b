/** The billing app's `user` slice: the signed-in account, set by
    `setSignedIn` and cleared by `setSignedOut`. The reducers assign the
    draft state in place; `UserStore` holds that state, and `Reduce` is the
    same step on values, the way Redux composes it. */
module UserSlice {
  import opened Wrappers
  import Json

  /** An account as the MSAL login reports it; `userClaims` are the
      token's claims, or `None` for `null`. */
  datatype AccountInfo = AccountInfo(userName: string, name: string, homeAccountId: string, userClaims: Option<Json.Obj>)

  /** `UserState`: the account, or `None` for `null`. */
  datatype UserState = UserState(account: Option<AccountInfo>)

  datatype Action = SetSignedIn(payload: AccountInfo) | SetSignedOut

  /** `initialState`: nobody is signed in. */
  function Initial(): (s: UserState)
    ensures s.account.None?
  {
    UserState(None)
  }

  /** One reducer step. */
  function Reduce(s: UserState, a: Action): UserState {
    match a
    case SetSignedIn(p) => s.(account := Some(p))
    case SetSignedOut => s.(account := None)
  }

  /** Dispatching a sequence of actions, first to last. */
  function Run(s: UserState, acts: seq<Action>): UserState
    decreases |acts|
  {
    if acts == [] then s else Run(Reduce(s, acts[0]), acts[1..])
  }

  /** Signing in stores exactly the payload, signing out clears the account
      from any state, and the step does not depend on the state before. */
  lemma ReduceEffect(s: UserState, t: UserState, a: Action)
    ensures a.SetSignedIn? ==> Reduce(s, a).account == Some(a.payload)
    ensures a.SetSignedOut? ==> Reduce(s, a).account.None?
    ensures Reduce(s, a) == Reduce(t, a)
  {
  }

  /** Signing out twice is signing out once. */
  lemma SignOutIdempotent(s: UserState)
    ensures Reduce(Reduce(s, SetSignedOut), SetSignedOut) == Reduce(s, SetSignedOut)
  {
  }

  /** Only the last action decides the state; with no action the state is
      the one started from. */
  lemma {:induction false} LastActionWins(s: UserState, acts: seq<Action>)
    ensures acts == [] ==> Run(s, acts) == s
    ensures acts != [] ==> Run(s, acts) == Reduce(Initial(), acts[|acts| - 1])
    decreases |acts|
  {
    if acts != [] {
      LastActionWins(Reduce(s, acts[0]), acts[1..]);
      if |acts| > 1 {
        assert acts[1..][|acts[1..]| - 1] == acts[|acts| - 1];
      }
    }
  }

  /** The slice's state, updated in place by the two reducers. */
  class UserStore {
    var account: Option<AccountInfo>

    function State(): UserState
      reads this
    {
      UserState(account)
    }

    /** The store starts from `initialState`. */
    constructor ()
      ensures State() == Initial()
    {
      account := None;
    }

    /** `setSignedIn(payload)`. */
    method SignedIn(payload: AccountInfo)
      modifies this
      ensures account == Some(payload)
      ensures State() == Reduce(old(State()), SetSignedIn(payload))
    {
      account := Some(payload);
    }

    /** `setSignedOut()`. */
    method SignedOut()
      modifies this
      ensures account.None?
      ensures State() == Reduce(old(State()), SetSignedOut)
    {
      account := None;
    }

    /** Dispatching an action to the slice. */
    method Dispatch(a: Action)
      modifies this
      ensures State() == Reduce(old(State()), a)
    {
      match a
      case SetSignedIn(p) => SignedIn(p);
      case SetSignedOut => SignedOut();
    }
  }
}
