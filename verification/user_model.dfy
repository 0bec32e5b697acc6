/**
 * The user record (models/user.js:5-16) and the queries the controllers run
 * against the user collection, modelled as a finite map from id to record.
 */
module UserModel {
  import opened Optional

  type UserId = nat

  /** The stored record: `password` holds a hash, the reset fields are optional and independent in the schema. */
  datatype User = User(
    email: string,
    password: string,
    resetToken: Option<string>,
    resetTokenExpiration: Option<int>)

  type Users = map<UserId, User>

  /** Where a user stands in the password-reset protocol. */
  datatype ResetState = NoReset | Pending(token: string, expiry: int) | Inconsistent

  function ResetStateOf(u: User): (s: ResetState)
    ensures s.NoReset? <==> u.resetToken.None? && u.resetTokenExpiration.None?
    ensures s.Pending? <==> u.resetToken.Some? && u.resetTokenExpiration.Some?
    ensures s.Pending? ==> u.resetToken == Some(s.token) && u.resetTokenExpiration == Some(s.expiry)
  {
    match (u.resetToken, u.resetTokenExpiration)
    case (None, None) => NoReset
    case (Some(t), Some(e)) => Pending(t, e)
    case _ => Inconsistent
  }

  /** The schema does not tie the two reset fields together; every controller write keeps them paired. */
  predicate TokenConsistent(u: User) {
    u.resetToken.Some? <==> u.resetTokenExpiration.Some?
  }

  predicate AllTokensConsistent(users: Users) {
    forall id :: id in users ==> TokenConsistent(users[id])
  }

  /** The schema declares no unique index on `email`; the signup validator is what keeps emails distinct. */
  predicate UniqueEmails(users: Users) {
    forall a, b :: a in users && b in users && users[a].email == users[b].email ==> a == b
  }

  predicate EmailInUse(users: Users, email: string) {
    exists id :: id in users && users[id].email == email
  }

  /**
   * A reset token is usable at time `now` when it equals the stored token
   * and the stored expiration is strictly later than `now`
   * (`resetTokenExpiration: { $gt: Date.now() }`).
   */
  predicate TokenValid(u: User, token: string, now: int) {
    u.resetToken == Some(token) && u.resetTokenExpiration.Some? && u.resetTokenExpiration.value > now
  }

  /**
   * The value a request field puts into a filter. A form field is a string,
   * compared for equality. A JSON body may carry the object `{"$ne": null}`
   * instead, which the query reads as an operator that matches every stored,
   * non-null value.
   */
  datatype FieldFilter<T> = Equals(value: T) | NotNull

  predicate FieldMatches<T(==)>(f: FieldFilter<T>, stored: Option<T>) {
    match f
    case Equals(v) => stored == Some(v)
    case NotNull => stored.Some?
  }

  /** The `findOne` filters the controllers issue against the user collection. */
  datatype Query =
    | EmailIs(email: string)
    | TokenValidAt(token: string, now: int)
      /** The completion filter: token, unexpired at `now`, and document id, the first and last taken from the request body. */
    | ResetFor(tokenField: FieldFilter<string>, now: int, idField: FieldFilter<UserId>)

  predicate Matches(q: Query, id: UserId, u: User) {
    match q
    case EmailIs(e) => u.email == e
    case TokenValidAt(t, now) => TokenValid(u, t, now)
    case ResetFor(t, now, want) =>
      FieldMatches(t, u.resetToken) && u.resetTokenExpiration.Some? && u.resetTokenExpiration.value > now
      && FieldMatches(want, Some(id))
  }

  predicate IsLeast(s: set<nat>, m: nat) {
    m in s && forall k :: k in s ==> m <= k
  }

  lemma {:induction false} LeastExists(s: set<nat>)
    requires s != {}
    ensures exists m :: IsLeast(s, m)
  {
    var x :| x in s;
    if s == {x} {
      assert IsLeast(s, x);
    } else {
      var rest := s - {x};
      LeastExists(rest);
      var m :| IsLeast(rest, m);
      var least := if x < m then x else m;
      forall k | k in s ensures least <= k {
        if k != x { assert k in rest; }
      }
      assert IsLeast(s, least);
    }
  }

  function Least(s: set<nat>): (m: nat)
    requires s != {}
    ensures IsLeast(s, m)
  {
    LeastExists(s);
    var m :| IsLeast(s, m); m
  }

  /**
   * `User.findOne(filter)`: some matching record, or nothing when none
   * matches. Of several matches the least id is taken, standing for the
   * collection's natural order.
   */
  function FindOne(users: Users, q: Query): (r: Option<UserId>)
    ensures r.Some? ==> r.value in users && Matches(q, r.value, users[r.value])
    ensures r.None? <==> forall id :: id in users ==> !Matches(q, id, users[id])
    ensures r.Some? ==> forall id :: id in users && Matches(q, id, users[id]) ==> r.value <= id
  {
    var hits := set id | id in users && Matches(q, id, users[id]);
    assert forall id :: id in users && Matches(q, id, users[id]) ==> id in hits;
    if hits == {} then None else Some(Least(hits))
  }

  /** With distinct emails an email lookup finds exactly the holder of that email. */
  lemma FindByUniqueEmail(users: Users, id: UserId)
    requires UniqueEmails(users) && id in users
    ensures FindOne(users, EmailIs(users[id].email)) == Some(id)
  {
  }

  /** The completion lookup with string fields finds the named id exactly when that user's token is valid. */
  lemma FindTokenForId(users: Users, token: string, now: int, id: UserId)
    ensures FindOne(users, ResetFor(Equals(token), now, Equals(id))).Some?
            <==> id in users && TokenValid(users[id], token, now)
    ensures FindOne(users, ResetFor(Equals(token), now, Equals(id))).Some?
            ==> FindOne(users, ResetFor(Equals(token), now, Equals(id))) == Some(id)
  {
    if id in users && TokenValid(users[id], token, now) {
      assert Matches(ResetFor(Equals(token), now, Equals(id)), id, users[id]);
    }
  }

  /**
   * With `{"$ne": null}` as the token, the completion lookup for a named id
   * finds that user whenever any reset of theirs is pending and unexpired,
   * whatever the token is.
   */
  lemma FindPendingWithoutToken(users: Users, now: int, id: UserId)
    ensures FindOne(users, ResetFor(NotNull, now, Equals(id))).Some?
            <==> id in users && users[id].resetToken.Some?
                 && users[id].resetTokenExpiration.Some? && users[id].resetTokenExpiration.value > now
    ensures FindOne(users, ResetFor(NotNull, now, Equals(id))).Some?
            ==> FindOne(users, ResetFor(NotNull, now, Equals(id))) == Some(id)
  {
    if id in users && users[id].resetToken.Some?
       && users[id].resetTokenExpiration.Some? && users[id].resetTokenExpiration.value > now {
      assert Matches(ResetFor(NotNull, now, Equals(id)), id, users[id]);
    }
  }

  /** Expiry is strict: a token stops matching at the very instant stored as its expiration. */
  lemma TokenExpiresAtInstant(u: User, token: string)
    requires u.resetTokenExpiration.Some?
    ensures !TokenValid(u, token, u.resetTokenExpiration.value)
  {
  }
}
