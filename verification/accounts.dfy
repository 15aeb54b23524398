/** User accounts and the directed follow relation: sign-up, profile
    lookup by username, and the follow toggle, together with the user
    projections the serializers produce. */
module Accounts {
  import opened Types
  import opened Db

  /** The `{id, username}` projection of a user, used wherever a user is
      embedded in another response. */
  datatype UserSummary = UserSummary(id: UserId, username: string)

  /** The sign-up request body. `followings` is a read-only field: a client
      may send it, and it is ignored. */
  datatype SignupInput = SignupInput(
    username: Option<string>,
    password: Option<string>,
    followings: Option<set<UserId>>)

  /** The sign-up response: the serializer's fields minus the write-only
      password, so the type has no place for it. */
  datatype SignupView = SignupView(username: string, followings: set<UserId>)

  datatype ProfileView = ProfileView(
    id: UserId,
    username: string,
    followings: set<UserSummary>,
    followers: set<UserSummary>)

  function Summary(s: Store, id: UserId): (v: UserSummary)
    requires id in s.users
    ensures v.id == id && v.username == s.users[id].username
  {
    UserSummary(id, s.users[id].username)
  }

  predicate UsernameTaken(s: Store, name: string) {
    exists u :: u in s.users && s.users[u].username == name
  }

  /** The user with the given username, if any; there is at most one. */
  function UserByName(s: Store, name: string): (r: Option<UserId>)
    requires UsernamesUnique(s.users)
    ensures r.None? <==> !UsernameTaken(s, name)
    ensures r.Some? ==> r.value in s.users && s.users[r.value].username == name
  {
    if UsernameTaken(s, name) then
      var u :| u in s.users && s.users[u].username == name;
      Some(u)
    else
      None
  }

  /** The sign-up validation of the user-creation serializer: both fields
      present and non-blank, and the username not already in use. */
  predicate SignupAccepted(s: Store, body: SignupInput) {
    && body.username.Some? && !Blank(body.username.value)
    && body.password.Some? && !Blank(body.password.value)
    && !UsernameTaken(s, body.username.value)
  }

  /** POST /accounts/signup/. `hashed` is what the password hasher made of
      the raw password; hashing is outside the model. */
  function Signup(s: Store, body: SignupInput, hashed: Credential): (r: Step<SignupView>)
    requires Valid(s)
    ensures r.outcome.Created? || r.outcome.BadRequest?
    ensures r.outcome.Created? <==> SignupAccepted(s, body)
    ensures r.outcome.BadRequest? ==> r.store == s
    ensures r.outcome.Created? ==>
      && var id := s.nextUserId;
      && id !in s.users
      && r.store.users.Keys == s.users.Keys + {id}
      && r.store.users[id] == User(body.username.value, hashed)
      && (forall u :: u in s.users ==> r.store.users[u] == s.users[u])
      && r.outcome.value == SignupView(body.username.value, {})
      && (forall e :: e in r.store.follows ==> e.0 != id && e.1 != id)
      && r.store.follows == s.follows && r.store.books == s.books
      && r.store.threads == s.threads && r.store.comments == s.comments
    ensures Valid(r.store) && r.store.clock >= s.clock
  {
    if !SignupAccepted(s, body) then
      Step(BadRequest, s)
    else
      AddUserKeepsValid(s, body.username.value, hashed);
      Step(Created(SignupView(body.username.value, {})), AddUser(s, body.username.value, hashed))
  }

  /** The row `create_user` inserts, under the next primary key. */
  function AddUser(s: Store, name: string, hashed: Credential): Store {
    s.(users := s.users[s.nextUserId := User(name, hashed)], nextUserId := s.nextUserId + 1)
  }

  lemma AddUserKeepsValid(s: Store, name: string, hashed: Credential)
    requires Valid(s) && !UsernameTaken(s, name)
    ensures Valid(AddUser(s, name, hashed))
    ensures s.nextUserId !in s.users
  {
    var s' := AddUser(s, name, hashed);
    var id := s.nextUserId;
    forall a, b | a in s'.users && b in s'.users && s'.users[a].username == s'.users[b].username
      ensures a == b
    {
      if a != id && b != id {
        assert s.users[a].username == s.users[b].username;
      }
    }
    forall t | t in s'.threads
      ensures ThreadWellFormed(s', s'.threads[t])
    {
      assert ThreadWellFormed(s, s.threads[t]);
    }
    forall c | c in s'.comments
      ensures CommentWellFormed(s', s'.comments[c])
    {
      assert CommentWellFormed(s, s.comments[c]);
    }
  }

  /** The read-only `followings` field of the request has no effect, and
      the response does not depend on the password: two sign-ups that
      differ only in a (non-blank) password answer identically. */
  lemma SignupIgnoresFollowingsAndHidesPassword(
    s: Store, body: SignupInput, hashed: Credential,
    followings: Option<set<UserId>>, password: string)
    requires Valid(s)
    requires body.password.Some? && !Blank(body.password.value) && !Blank(password)
    ensures Signup(s, body.(followings := followings), hashed) == Signup(s, body, hashed)
    ensures Signup(s, body.(password := Some(password)), hashed).outcome == Signup(s, body, hashed).outcome
  {
  }

  /** The profile projection: the user's id and username, and the
      `{id, username}` summaries of exactly the users they follow and the
      users following them. */
  function ProfileOf(s: Store, id: UserId): (p: ProfileView)
    requires Valid(s) && id in s.users
    ensures p.id == id && p.username == s.users[id].username
    ensures forall v :: v in p.followers <==>
      v.id in s.users && (v.id, id) in s.follows && v == Summary(s, v.id)
    ensures forall v :: v in p.followings <==>
      v.id in s.users && (id, v.id) in s.follows && v == Summary(s, v.id)
  {
    ProfileView(
      id,
      s.users[id].username,
      set u | u in s.users && (id, u) in s.follows :: Summary(s, u),
      set u | u in s.users && (u, id) in s.follows :: Summary(s, u))
  }

  /** GET /accounts/profile/{username}/: authentication first, then the
      username lookup. */
  function Profile(s: Store, actor: Option<UserId>, name: string): (r: Outcome<ProfileView>)
    requires Valid(s)
    ensures r.Ok? || r.Unauthorized? || r.NotFound?
    ensures r.Unauthorized? <==> Actor(s, actor).None?
    ensures r.NotFound? <==> Actor(s, actor).Some? && !UsernameTaken(s, name)
    ensures r.Ok? ==> r.value.username == name && r.value.id in s.users && r.value == ProfileOf(s, r.value.id)
  {
    if Actor(s, actor).None? then
      Unauthorized
    else
      match UserByName(s, name)
      case None => NotFound
      case Some(id) => Ok(ProfileOf(s, id))
  }

  /** POST /accounts/follow/{user_id}/: authentication, then the target
      lookup, then the self-follow rejection, then the toggle of the edge
      (actor, target). The body reports whether the edge now exists. */
  function Follow(s: Store, actor: Option<UserId>, target: UserId): (r: Step<bool>)
    requires Valid(s)
    ensures r.outcome.Ok? || r.outcome.Unauthorized? || r.outcome.NotFound? || r.outcome.BadRequest?
    ensures r.outcome.Unauthorized? <==> Actor(s, actor).None?
    ensures r.outcome.NotFound? <==> Actor(s, actor).Some? && target !in s.users
    ensures r.outcome.BadRequest? <==> Actor(s, actor).Some? && target in s.users && target == actor.value
    ensures !r.outcome.Ok? ==> r.store == s
    ensures r.outcome.Ok? ==>
      && var edge := (actor.value, target);
      && (edge in r.store.follows <==> edge !in s.follows)
      && r.outcome.value == (edge in r.store.follows)
      && r.store.follows - {edge} == s.follows - {edge}
      && r.store == s.(follows := r.store.follows)
    ensures Valid(r.store) && r.store.clock >= s.clock
  {
    match Actor(s, actor)
    case None => Step(Unauthorized, s)
    case Some(me) =>
      if target !in s.users then
        Step(NotFound, s)
      else if target == me then
        Step(BadRequest, s)
      else
        var edge := (me, target);
        if edge in s.follows then
          Step(Ok(false), s.(follows := s.follows - {edge}))
        else
          Step(Ok(true), s.(follows := s.follows + {edge}))
  }

  /** Following is a toggle: a second identical request undoes the first,
      whatever the first answered, and the two answers are opposite when
      the first succeeded. */
  lemma FollowTwiceRestores(s: Store, actor: Option<UserId>, target: UserId)
    requires Valid(s)
    ensures Follow(Follow(s, actor, target).store, actor, target).store == s
    ensures Follow(s, actor, target).outcome.Ok? ==>
      Follow(Follow(s, actor, target).store, actor, target).outcome ==
        Ok(!Follow(s, actor, target).outcome.value)
  {
    var r1 := Follow(s, actor, target);
    var r2 := Follow(r1.store, actor, target);
    if r1.outcome.Ok? {
      var edge := (actor.value, target);
      if edge in s.follows {
        assert r2.store.follows == s.follows;
      } else {
        assert r2.store.follows == s.follows;
      }
    }
  }

  /** A self-follow is always refused and never touches the follow
      relation, so nobody can come to follow themself. */
  lemma SelfFollowRejected(s: Store, me: UserId)
    requires Valid(s) && me in s.users
    ensures Follow(s, Some(me), me) == Step(BadRequest, s)
    ensures (me, me) !in Follow(s, Some(me), me).store.follows
  {
  }

  /** A successful follow shows up in the followee's profile: the follower
      is listed as `{id, username}` among the followers exactly when the
      toggle answered `followed == true`. */
  lemma FollowShowsInProfile(s: Store, me: UserId, target: UserId)
    requires Valid(s) && me in s.users && target in s.users && me != target
    ensures
      var r := Follow(s, Some(me), target);
      var p := Profile(r.store, Some(me), s.users[target].username);
      && r.outcome.Ok?
      && p.Ok?
      && p.value.id == target
      && (Summary(s, me) in p.value.followers <==> r.outcome.value)
  {
    var r := Follow(s, Some(me), target);
    var p := Profile(r.store, Some(me), s.users[target].username);
    assert UsernameTaken(r.store, s.users[target].username);
    assert p.value.id == target;
  }
}
