/**
 * The frontend's authentication state: the token and current user held in
 * memory, mirrored in storage under `auth_token` and `user_id`.
 *
 * Calls to the backend (`/api/me/`, sign-in, subscription verification)
 * are inputs: each is a response or the error it threw.
 */
module UserStore {
  import opened Wrappers
  import opened LocalStorage
  import ApiClient

  const UserIdKey: string := "user_id"

  datatype User = User(id: string, isPremium: bool)

  datatype State = State(currentUser: Option<User>, authToken: Option<string>, storage: Storage)

  /** The response of the sign-in endpoint. */
  datatype SignInData = SignInData(token: string, user: User)

  /** An action's answer, the state after it, and whether it sent a request. */
  datatype Step<T> = Step(answer: ApiClient.Answer<T>, state: State, requestSent: bool)

  /** `isAuthenticated`: `!!authToken`. */
  predicate IsAuthenticated(st: State): (b: bool)
    ensures b <==> st.authToken.Some? && |st.authToken.value| > 0
  {
    Truthy(st.authToken)
  }

  /** `isPremium`: `currentUser?.is_premium || false`. */
  function IsPremium(st: State): (b: bool)
    ensures st.currentUser.None? ==> !b
    ensures b <==> st.currentUser.Some? && st.currentUser.value.isPremium
  {
    match st.currentUser
    case None => false
    case Some(u) => u.isPremium
  }

  /** `fetchMe`: without a token it fails before any request; on success it sets the current user. */
  function FetchMe(st: State, me: ApiClient.Net<User>): (r: Step<User>)
    ensures !IsAuthenticated(st) ==> !r.requestSent && r.answer.Thrown? && r.state == st
    ensures IsAuthenticated(st) ==> r.requestSent
    ensures r.answer.Returned? <==> IsAuthenticated(st) && me.Ok?
    ensures r.answer.Returned? ==> r.answer.data == me.data && r.state == st.(currentUser := Some(me.data))
    ensures r.answer.Thrown? ==> r.state == st
  {
    if !IsAuthenticated(st) then Step(ApiClient.Thrown("Not authenticated"), st, false)
    else match me
      case Err(e) => Step(ApiClient.Thrown(e), st, true)
      case Ok(u) => Step(ApiClient.Returned(u), st.(currentUser := Some(u)), true)
  }

  /** `logout`: forget the token and the user, in memory and in storage. */
  function Logout(st: State): (r: State)
    ensures !IsAuthenticated(r) && r.currentUser.None?
    ensures ApiClient.AuthTokenKey !in r.storage && UserIdKey !in r.storage
    ensures forall k :: k != ApiClient.AuthTokenKey && k != UserIdKey ==> GetItem(r.storage, k) == GetItem(st.storage, k)
  {
    State(None, None, RemoveItem(RemoveItem(st.storage, ApiClient.AuthTokenKey), UserIdKey))
  }

  lemma LogoutIdempotent(st: State)
    ensures Logout(Logout(st)) == Logout(st)
  {
    var once := Logout(st).storage;
    assert RemoveItem(RemoveItem(once, ApiClient.AuthTokenKey), UserIdKey) == once;
  }

  /**
   * `restoreAuth`: with no stored token nothing happens; otherwise the token
   * is adopted and the user fetched, and a failed fetch logs out.
   */
  function RestoreAuth(st: State, me: ApiClient.Net<User>): (r: (bool, State))
    ensures !Truthy(GetItem(st.storage, ApiClient.AuthTokenKey)) ==> r == (false, st)
    ensures Truthy(GetItem(st.storage, ApiClient.AuthTokenKey)) && me.Err? ==> !r.0 && r.1 == Logout(st)
    ensures Truthy(GetItem(st.storage, ApiClient.AuthTokenKey)) && me.Ok? ==>
      r.0 && r.1 == State(Some(me.data), GetItem(st.storage, ApiClient.AuthTokenKey), st.storage)
    ensures r.0 ==> IsAuthenticated(r.1) && r.1.currentUser.Some?
    ensures !r.0 && Truthy(GetItem(st.storage, ApiClient.AuthTokenKey)) ==> !IsAuthenticated(r.1)
  {
    var token := GetItem(st.storage, ApiClient.AuthTokenKey);
    if !Truthy(token) then (false, st)
    else
      var step := FetchMe(st.(authToken := token), me);
      if step.answer.Thrown? then (false, Logout(step.state)) else (true, step.state)
  }

  /** A successful sign-in sets the token and the user and stores `auth_token` and `user_id`. */
  function SignIn(st: State, response: ApiClient.Net<SignInData>): (r: (ApiClient.Answer<SignInData>, State))
    ensures response.Err? ==> r == (ApiClient.Thrown(response.error), st)
    ensures response.Ok? ==> r.0 == ApiClient.Returned(response.data)
    ensures response.Ok? ==> r.1.authToken == Some(response.data.token) && r.1.currentUser == Some(response.data.user)
    ensures response.Ok? ==> (GetItem(r.1.storage, ApiClient.AuthTokenKey) == Some(response.data.token)
      && GetItem(r.1.storage, UserIdKey) == Some(response.data.user.id))
    ensures forall k :: k != ApiClient.AuthTokenKey && k != UserIdKey ==> GetItem(r.1.storage, k) == GetItem(st.storage, k)
  {
    match response
    case Err(e) => (ApiClient.Thrown(e), st)
    case Ok(data) =>
      var storage := SetItem(SetItem(st.storage, ApiClient.AuthTokenKey, data.token), UserIdKey, data.user.id);
      (ApiClient.Returned(data), State(Some(data.user), Some(data.token), storage))
  }

  /**
   * `signInWithApple`: off the native platform it is the demo sign-in; on it,
   * a failed Apple authorization is rethrown before the backend is called.
   */
  function SignInWithApple(st: State, native: bool, authorization: ApiClient.Net<()>, response: ApiClient.Net<SignInData>)
    : (r: (ApiClient.Answer<SignInData>, State))
    ensures native && authorization.Err? ==> r == (ApiClient.Thrown(authorization.error), st)
    ensures !native || authorization.Ok? ==> r == SignIn(st, response)
  {
    if native && authorization.Err? then (ApiClient.Thrown(authorization.error), st)
    else SignIn(st, response)
  }

  /** After a sign-in, a fresh start that restores the session ends in the signed-in state. */
  lemma SignInThenRestore(st: State, data: SignInData)
    requires data.token != ""
    ensures var signedIn := SignIn(st, ApiClient.Ok(data)).1;
      RestoreAuth(State(None, None, signedIn.storage), ApiClient.Ok(data.user)) == (true, signedIn)
  {
    var signedIn := SignIn(st, ApiClient.Ok(data)).1;
    assert GetItem(signedIn.storage, ApiClient.AuthTokenKey) == Some(data.token);
  }

  /** After a logout, restoring finds no token and changes nothing. */
  lemma LogoutThenRestore(st: State, me: ApiClient.Net<User>)
    ensures RestoreAuth(Logout(st), me) == (false, Logout(st))
  {
  }

  /**
   * `verifySubscription` (frontend/src/stores/user.js:152-174): the same
   * token guard and the same answer handling as `fetchMe`, only with the
   * receipt posted to another endpoint, so the state machine is `FetchMe`'s.
   */
  function VerifySubscription(st: State, response: ApiClient.Net<User>): (r: Step<User>)
    ensures !IsAuthenticated(st) ==> !r.requestSent && r.answer.Thrown? && r.state == st
    ensures IsAuthenticated(st) ==> r.requestSent
    ensures r.answer.Returned? <==> IsAuthenticated(st) && response.Ok?
    ensures r.answer.Returned? ==> r.answer.data == response.data && r.state == st.(currentUser := Some(response.data))
    ensures r.answer.Thrown? ==> r.state == st
  {
    FetchMe(st, response)
  }
}
