/** The signed-in user's store: the user record and the token pair, how a
    sign-in response is adapted before it is stored (plain role and
    permission names become indexed records, a missing avatar becomes the
    logo), and sign-out, which always leaves the store empty. The sign-in
    and logout calls are parameters: their outcome is given, not computed. */
module UserStore {
  import opened Optional
  import opened Text
  import opened Seqs

  /** An element of the `roles` or `permissions` array as the server sends
      it: a string, or anything else (already an object). */
  datatype Elem = StrElem(s: string) | OtherElem

  /** The `roles` or `permissions` field of the server's user: an array, or
      anything that is not one (absent included). */
  datatype Listing = NotArray | Array(items: seq<Elem>)

  /** The `{ id, name, code }` record built from one element. */
  datatype Entity = Entity(id: string, name: Elem, code: Elem)

  /** The stored field: the adapted records, or the server's value as it
      came. */
  datatype Adapted = Records(entities: seq<Entity>) | Passed(original: Listing)

  /** The server's user: the two lists, the avatar, and every other field,
      which the store copies as it is. */
  datatype ServerUser = ServerUser(other: map<string, string>, roles: Listing, permissions: Listing, avatar: Option<string>)

  datatype UserInfo = UserInfo(other: map<string, string>, roles: Adapted, permissions: Adapted, avatar: string)

  datatype Token = Token(accessToken: Option<string>, refreshToken: Option<string>)

  /** `userInfo` is `None` for the empty object `{}`. */
  datatype Store = Store(userInfo: Option<UserInfo>, userToken: Token)

  const EmptyToken: Token := Token(None, None)

  const RolePrefix: string := "role-"
  const PermissionPrefix: string := "permission-"
  const DefaultAvatar: string := "/logo.svg"

  /** The test of `signIn`: an array with a first element that is a
      string. */
  predicate StringArray(l: Listing) {
    l.Array? && |l.items| > 0 && l.items[0].StrElem?
  }

  /** `xs.map((x, index) => ({ id: prefix + index, name: x, code: x }))` when
      the field is a non-empty array starting with a string; otherwise the
      field itself. */
  function Adapt(prefix: string, l: Listing): (r: Adapted)
    ensures r.Records? <==> StringArray(l)
    ensures r.Passed? ==> r.original == l
    ensures r.Records? ==>
      && |r.entities| == |l.items|
      && forall i :: 0 <= i < |r.entities| ==>
           r.entities[i] == Entity(prefix + NatToString(i), l.items[i], l.items[i])
  {
    if StringArray(l) then
      Records(seq(|l.items|, i requires 0 <= i < |l.items| => Entity(prefix + NatToString(i), l.items[i], l.items[i])))
    else Passed(l)
  }

  /** The names of the records, in order. */
  function Names(es: seq<Entity>): seq<Elem> {
    MapSeq(es, (e: Entity) => e.name)
  }

  /** Adapting loses nothing: the names of the records are the server's
      list, and the field is recovered from what is stored. */
  lemma AdaptRecoversList(prefix: string, l: Listing)
    ensures var r := Adapt(prefix, l);
      (r.Records? ==> Array(Names(r.entities)) == l) && (r.Passed? ==> r.original == l)
  {
    var r := Adapt(prefix, l);
    if r.Records? {
      assert Names(r.entities) == l.items;
    }
  }

  /** The records' ids are pairwise different, and each one is the prefix
      followed by the record's position. */
  lemma AdaptIdsDistinct(prefix: string, l: Listing)
    requires StringArray(l)
    ensures var es := Adapt(prefix, l).entities;
      forall i, j :: 0 <= i < j < |es| ==> es[i].id != es[j].id
  {
    var es := Adapt(prefix, l).entities;
    forall i, j | 0 <= i < j < |es| ensures es[i].id != es[j].id {
      NatToStringInjective(i, j);
      PrefixCancel(prefix, NatToString(i), NatToString(j));
    }
  }

  lemma PrefixCancel(p: string, a: string, b: string)
    ensures p + a == p + b ==> a == b
  {
    if p + a == p + b {
      assert a == (p + a)[|p|..];
    }
  }

  /** `user.avatar || "/logo.svg"`. */
  function Avatar(a: Option<string>): (r: string)
    ensures r != ""
    ensures a.Some? && a.value != "" ==> r == a.value
    ensures (a.None? || a.value == "") ==> r == DefaultAvatar
  {
    if a.Some? && a.value != "" then a.value else DefaultAvatar
  }

  /** A stored avatar is kept as it is by a later sign-in. */
  lemma AvatarStable(a: Option<string>)
    ensures Avatar(Some(Avatar(a))) == Avatar(a)
  {
  }

  /** `adaptedUser`. */
  function AdaptUser(u: ServerUser): (r: UserInfo)
    ensures r.other == u.other
    ensures r.roles == Adapt(RolePrefix, u.roles)
    ensures r.permissions == Adapt(PermissionPrefix, u.permissions)
    ensures r.avatar == Avatar(u.avatar)
  {
    UserInfo(u.other, Adapt(RolePrefix, u.roles), Adapt(PermissionPrefix, u.permissions), Avatar(u.avatar))
  }

  /** What the sign-in call answered: the user and tokens, or an error. */
  datatype SignInResponse = Signed(user: ServerUser, accessToken: string, refreshToken: string) | Rejected(message: string)

  /** `signIn`: on success both the token pair and the adapted user are
      stored; on failure the store is left alone and the error is passed
      on. */
  function SignIn(s: Store, res: SignInResponse): (r: Result<Store, string>)
    ensures res.Rejected? ==> r == Failure(res.message)
    ensures res.Signed? ==>
      && r.Success?
      && r.value.userToken == Token(Some(res.accessToken), Some(res.refreshToken))
      && r.value.userInfo == Some(AdaptUser(res.user))
  {
    match res
    case Rejected(m) => Failure(m)
    case Signed(u, a, t) => Success(Store(Some(AdaptUser(u)), Token(Some(a), Some(t))))
  }

  /** `clearUserInfoAndToken`: both halves back to `{}`. */
  function Clear(s: Store): (r: Store)
    ensures r.userInfo.None? && r.userToken == EmptyToken
  {
    Store(None, EmptyToken)
  }

  /** The logout call `signOut` makes, if any, and the store it leaves. */
  datatype SignOutResult = SignOutResult(store: Store, logoutCalledWith: Option<string>)

  /** `signOut`: the logout call is made with the refresh token the hook
      read when it was created, if that token is non-empty; whether that
      call succeeds or fails, the store is cleared. */
  function SignOut(s: Store, captured: Token, logoutFails: bool): (r: SignOutResult)
    ensures r.store == Clear(s)
    ensures r.logoutCalledWith.Some? <==> captured.refreshToken.Some? && captured.refreshToken.value != ""
    ensures r.logoutCalledWith.Some? ==> r.logoutCalledWith == captured.refreshToken
  {
    var called := if captured.refreshToken.Some? && captured.refreshToken.value != "" then captured.refreshToken else None;
    SignOutResult(Clear(s), called)
  }

  /** Whatever was stored and whatever the logout call does, signing out
      after a sign-in leaves no user and no token. */
  lemma SignInThenSignOut(s: Store, res: SignInResponse, captured: Token, logoutFails: bool)
    requires SignIn(s, res).Success?
    ensures var out := SignOut(SignIn(s, res).value, captured, logoutFails).store;
      out.userInfo.None? && out.userToken.accessToken.None? && out.userToken.refreshToken.None?
  {
  }
}
