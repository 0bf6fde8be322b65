/** Invite and password-reset tokens: issued for one user, usable once, for a time. */
module Users {
  import opened Wrappers
  import opened Clock

  datatype Kind = Invite | Reset

  function TTL(k: Kind): int {
    match k
    case Invite => 7 * 24 * HOUR
    case Reset => HOUR
  }

  datatype Token = Token(text: string, expires: int)
  datatype User = User(role: string, passwordHash: Option<string>, invite: Option<Token>, reset: Option<Token>)

  /** The users table, by its unique email column. */
  type Table = map<string, User>

  function Slot(u: User, k: Kind): Option<Token> {
    match k
    case Invite => u.invite
    case Reset => u.reset
  }

  function WithSlot(u: User, k: Kind, slot: Option<Token>): User {
    match k
    case Invite => u.(invite := slot)
    case Reset => u.(reset := slot)
  }

  /** The row's token of this kind is this one. */
  predicate Has(u: User, k: Kind, text: string) {
    Slot(u, k).Some? && Slot(u, k).value.text == text
  }

  /** ... and has not expired. */
  predicate Usable(u: User, k: Kind, text: string, now: int) {
    Has(u, k, text) && Slot(u, k).value.expires > now
  }

  predicate Taken(t: Table, k: Kind, text: string, but: string) {
    exists e :: e in t && e != but && Has(t[e], k, text)
  }

  // ----- statements -----

  datatype Op =
    | CreateInvite(email: string, role: string, token: string)
    | CreateReset(email: string, token: string)
    | Consume(kind: Kind, token: string, hash: string)
    | Delete(email: string)
    | SetRole(email: string, role: string)
    | CreateAdmin(email: string, hash: string)

  /** Whether the statement changes a row: not if a UNIQUE constraint stops it or no row matches. */
  predicate Succeeds(t: Table, op: Op, now: int) {
    match op
    case CreateInvite(email, _, token) => email !in t && !Taken(t, Invite, token, email)
    case CreateReset(email, token) => email in t && !Taken(t, Reset, token, email)
    case Consume(k, token, _) => exists e :: e in t && Usable(t[e], k, token, now)
    case Delete(email) => email in t
    case SetRole(email, _) => email in t
    case CreateAdmin(email, _) => email !in t
  }

  /** The row after its token was used, if it is the one. */
  function Consumed(u: User, k: Kind, token: string, hash: string, now: int): User {
    if Usable(u, k, token, now) then WithSlot(u, k, None).(passwordHash := Some(hash)) else u
  }

  function After(t: Table, op: Op, now: int): Table {
    if !Succeeds(t, op, now) then t
    else match op
      case CreateInvite(email, role, token) => t[email := User(role, None, Some(Token(token, now + TTL(Invite))), None)]
      case CreateReset(email, token) => t[email := t[email].(reset := Some(Token(token, now + TTL(Reset))))]
      case Consume(k, token, hash) => map e | e in t :: Consumed(t[e], k, token, hash, now)
      case Delete(email) => t - {email}
      case SetRole(email, role) => t[email := t[email].(role := role)]
      case CreateAdmin(email, hash) => t[email := User("admin", Some(hash), None, None)]
  }

  /** The UNIQUE constraints on the token columns. */
  ghost predicate UniqueTokens(t: Table) {
    forall k: Kind, d, e :: d in t && e in t && d != e && Slot(t[d], k).Some? && Slot(t[e], k).Some? ==>
      Slot(t[d], k).value.text != Slot(t[e], k).value.text
  }

  /** A consumption changes one row: it sets its password and clears the token used, and nothing else. */
  lemma {:induction false} ConsumesOneRow(t: Table, k: Kind, token: string, hash: string, now: int, e: string)
    requires UniqueTokens(t) && e in t && Usable(t[e], k, token, now)
    ensures After(t, Consume(k, token, hash), now) == t[e := WithSlot(t[e], k, None).(passwordHash := Some(hash))]
  {
    forall d | d in t && d != e
      ensures !Usable(t[d], k, token, now)
    {
    }
  }

  /** Changing one row keeps tokens unique if what the row then holds, no other row does. */
  lemma {:induction false} RowKeepsUnique(t: Table, email: string, u: User)
    requires UniqueTokens(t)
    requires forall k: Kind :: Slot(u, k).Some? ==> !Taken(t, k, Slot(u, k).value.text, email)
    ensures UniqueTokens(t[email := u])
  {
    var after := t[email := u];
    forall k: Kind, d, e | d in after && e in after && d != e && Slot(after[d], k).Some? && Slot(after[e], k).Some?
      ensures Slot(after[d], k).value.text != Slot(after[e], k).value.text
    {
      if d == email {
        assert !Has(t[e], k, Slot(u, k).value.text);
      } else if e == email {
        assert !Has(t[d], k, Slot(u, k).value.text);
      }
    }
  }

  lemma {:induction false} OwnNotTaken(t: Table, email: string, k: Kind)
    requires UniqueTokens(t) && email in t
    ensures Slot(t[email], k).Some? ==> !Taken(t, k, Slot(t[email], k).value.text, email)
  {
  }

  lemma {:induction false} StepKeepsUnique(t: Table, op: Op, now: int)
    requires UniqueTokens(t)
    ensures UniqueTokens(After(t, op, now))
  {
    if Succeeds(t, op, now) {
      match op
      case CreateInvite(email, _, _) => RowKeepsUnique(t, email, After(t, op, now)[email]);
      case CreateReset(email, _) =>
        OwnNotTaken(t, email, Invite);
        RowKeepsUnique(t, email, After(t, op, now)[email]);
      case Consume(k, token, hash) =>
        var e :| e in t && Usable(t[e], k, token, now);
        ConsumesOneRow(t, k, token, hash, now, e);
        OwnNotTaken(t, e, Invite);
        OwnNotTaken(t, e, Reset);
        RowKeepsUnique(t, e, After(t, op, now)[e]);
      case Delete(_) =>
      case SetRole(email, _) =>
        OwnNotTaken(t, email, Invite);
        OwnNotTaken(t, email, Reset);
        RowKeepsUnique(t, email, After(t, op, now)[email]);
      case CreateAdmin(email, _) => RowKeepsUnique(t, email, After(t, op, now)[email]);
    }
  }

  // ----- runs -----

  datatype Event = Event(op: Op, at: int)

  ghost predicate IsRun(run: seq<Table>, events: seq<Event>) {
    && |run| == |events| + 1 && run[0] == map[]
    && forall i :: 0 <= i < |events| ==> run[i + 1] == After(run[i], events[i].op, events[i].at)
  }

  predicate Worked(run: seq<Table>, events: seq<Event>, i: nat)
    requires |run| == |events| + 1 && i < |events|
  {
    Succeeds(run[i], events[i].op, events[i].at)
  }

  /** Event `i` issued this token to this user. */
  predicate Issued(run: seq<Table>, events: seq<Event>, i: nat, k: Kind, email: string, token: string)
    requires |run| == |events| + 1 && i < |events|
  {
    && Worked(run, events, i)
    && match k
       case Invite => events[i].op.CreateInvite? && events[i].op.email == email && events[i].op.token == token
       case Reset => events[i].op == CreateReset(email, token)
  }

  /** Event `m` ends this token of this user: it is used, the user is deleted, or a newer reset token replaces it. */
  predicate Ended(run: seq<Table>, events: seq<Event>, m: nat, k: Kind, email: string, token: string)
    requires |run| == |events| + 1 && m < |events|
  {
    && Worked(run, events, m)
    && match events[m].op
       case Consume(kind, used, _) => kind == k && used == token
       case Delete(e) => e == email
       case CreateReset(e, _) => k == Reset && e == email
       case _ => false
  }

  /** Issued by event `i`, and not ended before event `j`. */
  ghost predicate Live(run: seq<Table>, events: seq<Event>, i: int, j: nat, k: Kind, email: string, token: string)
    requires |run| == |events| + 1 && j <= |events|
  {
    0 <= i < j && Issued(run, events, i, k, email, token)
    && forall m :: i < m < j ==> !Ended(run, events, m, k, email, token)
  }

  predicate Holds(t: Table, k: Kind, email: string, token: Token) {
    email in t && Slot(t[email], k) == Some(token)
  }

  lemma {:induction false} StepHolds(t: Table, op: Op, now: int, k: Kind, email: string, token: Token)
    requires UniqueTokens(t)
    ensures Holds(After(t, op, now), k, email, token) <==>
      if Succeeds(t, op, now) && ((k == Invite && op.CreateInvite?) || (k == Reset && op.CreateReset?))
          && op.email == email
      then token == Token(op.token, now + TTL(k))
      else Holds(t, k, email, token)
           && !(Succeeds(t, op, now) && ((op.Consume? && op.kind == k && op.token == token.text)
              || (op.Delete? && op.email == email)))
  {
    if op.Consume? && Succeeds(t, op, now) {
      var e :| e in t && Usable(t[e], op.kind, op.token, now);
      ConsumesOneRow(t, op.kind, op.token, op.hash, now, e);
    }
  }

  lemma {:induction false} RunUnique(run: seq<Table>, events: seq<Event>, j: nat)
    requires IsRun(run, events) && j <= |events|
    ensures UniqueTokens(run[j])
  {
    if j > 0 {
      RunUnique(run, events, j - 1);
      StepKeepsUnique(run[j - 1], events[j - 1].op, events[j - 1].at);
    }
  }

  lemma {:induction false} LiveHolds(run: seq<Table>, events: seq<Event>, i: nat, j: nat, k: Kind, email: string,
                                     token: string)
    requires IsRun(run, events) && j <= |events| && Live(run, events, i, j, k, email, token)
    ensures Holds(run[j], k, email, Token(token, events[i].at + TTL(k)))
  {
    var n := j - 1;
    RunUnique(run, events, n);
    StepHolds(run[n], events[n].op, events[n].at, k, email, Token(token, events[i].at + TTL(k)));
    if i < n {
      LiveHolds(run, events, i, n, k, email, token);
      assert !Ended(run, events, n, k, email, token);
    }
  }

  lemma {:induction false} HoldsLive(run: seq<Table>, events: seq<Event>, j: nat, k: Kind, email: string, token: Token)
      returns (i: nat)
    requires IsRun(run, events) && j <= |events| && Holds(run[j], k, email, token)
    ensures Live(run, events, i, j, k, email, token.text) && token.expires == events[i].at + TTL(k)
  {
    var n := j - 1;
    RunUnique(run, events, n);
    StepHolds(run[n], events[n].op, events[n].at, k, email, token);
    if Issued(run, events, n, k, email, token.text) {
      i := n;
    } else {
      i := HoldsLive(run, events, n, k, email, token);
    }
  }

  /** A row holds a token exactly while it is live: issued to that user, and since then not ended. */
  lemma {:induction false} HoldsExactly(run: seq<Table>, events: seq<Event>, j: nat, k: Kind, email: string,
                                        token: Token)
    requires IsRun(run, events) && j <= |events|
    ensures Holds(run[j], k, email, token)
       <==> exists i :: Live(run, events, i, j, k, email, token.text) && token.expires == events[i].at + TTL(k)
  {
    if Holds(run[j], k, email, token) {
      var i := HoldsLive(run, events, j, k, email, token);
    }
    if i: nat :| Live(run, events, i, j, k, email, token.text) && token.expires == events[i].at + TTL(k) {
      LiveHolds(run, events, i, j, k, email, token.text);
    }
  }

  /**
   * A consumption succeeds exactly if its token was issued to some user, at less than the lifetime ago, and that
   * user was not deleted since, nor the token used, nor (for a reset) replaced by a newer one; then it changes that
   * user's row. What happens to the user's token of the other kind plays no part.
   */
  lemma {:induction false} ConsumeExactly(run: seq<Table>, events: seq<Event>, j: nat, k: Kind, token: string,
                                          hash: string)
    requires IsRun(run, events) && j < |events| && events[j].op == Consume(k, token, hash)
    ensures Worked(run, events, j)
       <==> exists i, email :: Live(run, events, i, j, k, email, token) && events[j].at < events[i].at + TTL(k)
    ensures forall i, email :: Live(run, events, i, j, k, email, token) && events[j].at < events[i].at + TTL(k) ==>
              && email in run[j]
              && run[j + 1] == run[j][email := WithSlot(run[j][email], k, None).(passwordHash := Some(hash))]
  {
    var now := events[j].at;
    if Worked(run, events, j) {
      var e :| e in run[j] && Usable(run[j][e], k, token, now);
      var held := Slot(run[j][e], k).value;
      HoldsExactly(run, events, j, k, e, held);
      var i :| Live(run, events, i, j, k, e, held.text) && held.expires == events[i].at + TTL(k);
      assert Live(run, events, i, j, k, e, token);
    }
    forall i, email | Live(run, events, i, j, k, email, token) && now < events[i].at + TTL(k)
      ensures email in run[j] && Usable(run[j][email], k, token, now)
      ensures run[j + 1] == run[j][email := WithSlot(run[j][email], k, None).(passwordHash := Some(hash))]
    {
      LiveHolds(run, events, i, j, k, email, token);
      RunUnique(run, events, j);
      ConsumesOneRow(run[j], k, token, hash, now, email);
    }
  }

  /**
   * An invite works exactly if it was issued less than seven days ago to a user not deleted since, and was not used;
   * it then sets that user's password and clears the invite.
   */
  lemma {:induction false} InviteWorks(run: seq<Table>, events: seq<Event>, j: nat, token: string, hash: string)
    requires IsRun(run, events) && j < |events| && events[j].op == Consume(Invite, token, hash)
    ensures Worked(run, events, j)
       <==> exists i, email ::
              Live(run, events, i, j, Invite, email, token) && events[j].at < events[i].at + 604_800 * SECOND
    ensures forall i, email ::
              Live(run, events, i, j, Invite, email, token) && events[j].at < events[i].at + 604_800 * SECOND ==>
                && email in run[j]
                && run[j + 1] == run[j][email := run[j][email].(invite := None, passwordHash := Some(hash))]
  {
    ConsumeExactly(run, events, j, Invite, token, hash);
  }

  /**
   * A reset token works exactly if it was issued less than an hour ago to a user not deleted since, was not used and
   * is the newest; it then sets that user's password and clears the token.
   */
  lemma {:induction false} ResetWorks(run: seq<Table>, events: seq<Event>, j: nat, token: string, hash: string)
    requires IsRun(run, events) && j < |events| && events[j].op == Consume(Reset, token, hash)
    ensures Worked(run, events, j)
       <==> exists i, email ::
              Live(run, events, i, j, Reset, email, token) && events[j].at < events[i].at + 3_600 * SECOND
    ensures forall i, email ::
              Live(run, events, i, j, Reset, email, token) && events[j].at < events[i].at + 3_600 * SECOND ==>
                && email in run[j]
                && run[j + 1] == run[j][email := run[j][email].(reset := None, passwordHash := Some(hash))]
  {
    ConsumeExactly(run, events, j, Reset, token, hash);
  }

  function TokenOf(op: Op): Option<string> {
    match op
    case CreateInvite(_, _, token) => Some(token)
    case CreateReset(_, token) => Some(token)
    case _ => None
  }

  /** No token is generated twice. */
  ghost predicate FreshTokens(events: seq<Event>) {
    forall i, m :: 0 <= i < m < |events| && TokenOf(events[i].op).Some? ==>
        TokenOf(events[i].op) != TokenOf(events[m].op)
  }

  /** Each token works at most once. */
  lemma {:induction false} AtMostOnce(run: seq<Table>, events: seq<Event>, j: nat, m: nat, k: Kind, token: string,
                                      hash: string, again: string)
    requires IsRun(run, events) && FreshTokens(events) && j < m < |events|
    requires events[j].op == Consume(k, token, hash) && events[m].op == Consume(k, token, again)
    ensures !(Worked(run, events, j) && Worked(run, events, m))
  {
    if Worked(run, events, j) && Worked(run, events, m) {
      ConsumeExactly(run, events, j, k, token, hash);
      ConsumeExactly(run, events, m, k, token, again);
      var a, e :| Live(run, events, a, j, k, e, token) && events[j].at < events[a].at + TTL(k);
      var b, f :| Live(run, events, b, m, k, f, token) && events[m].at < events[b].at + TTL(k);
      assert TokenOf(events[a].op) == Some(token) == TokenOf(events[b].op);
      assert Ended(run, events, j, k, f, token);
      assert false;
    }
  }

  /** Once a newer reset token is issued to the same user, the older never works again. */
  lemma {:induction false} NewerInvalidates(run: seq<Table>, events: seq<Event>, a: nat, b: nat, j: nat, email: string,
                                            older: string, hash: string)
    requires IsRun(run, events) && FreshTokens(events) && a < b < j < |events|
    requires Issued(run, events, a, Reset, email, older)
    requires events[b].op.CreateReset? && events[b].op.email == email && Worked(run, events, b)
    requires events[j].op == Consume(Reset, older, hash)
    ensures !Worked(run, events, j)
  {
    ConsumeExactly(run, events, j, Reset, older, hash);
    if i, e :| Live(run, events, i, j, Reset, e, older) && events[j].at < events[i].at + TTL(Reset) {
      assert TokenOf(events[i].op) == Some(older) == TokenOf(events[a].op);
      assert Ended(run, events, b, Reset, email, older);
      assert false;
    }
  }

  /** A reset token for a pending user works beside the invite: neither kind's use touches the other's token. */
  lemma {:induction false} KindsIndependent(t: Table, k: Kind, token: string, hash: string, now: int, e: string,
                                            other: Kind)
    requires UniqueTokens(t) && e in t && other != k
    ensures e in After(t, Consume(k, token, hash), now)
    ensures Slot(After(t, Consume(k, token, hash), now)[e], other) == Slot(t[e], other)
  {
    if d :| d in t && Usable(t[d], k, token, now) {
      ConsumesOneRow(t, k, token, hash, now, d);
    }
  }

  // ----- the table as an object -----

  class UserDB {
    var users: Table

    constructor ()
      ensures users == map[] && UniqueTokens(users)
    {
      users := map[];
    }

    method CreateInvite(email: string, role: string, token: string, now: int) returns (r: Result<()>)
      requires UniqueTokens(users)
      modifies this
      ensures users == After(old(users), Op.CreateInvite(email, role, token), now)
      ensures r.Ok? <==> old(Succeeds(users, Op.CreateInvite(email, role, token), now))
      ensures r.Ok? <==> email !in old(users)
                         && forall e :: e in old(users) && old(users)[e].invite.Some? ==>
                              old(users)[e].invite.value.text != token
      ensures r.Ok? ==>
                users == old(users)[email := User(role, None, Some(Token(token, now + 604_800 * SECOND)), None)]
      ensures r.Err? ==> users == old(users)
      ensures UniqueTokens(users)
    {
      StepKeepsUnique(users, Op.CreateInvite(email, role, token), now);
      if email in users || exists e :: e in users && Has(users[e], Invite, token) {
        r := Err("create invite");
      } else {
        users := users[email := User(role, None, Some(Token(token, now + 7 * 24 * HOUR)), None)];
        r := Ok(());
      }
    }

    method AcceptInvite(token: string, passwordHash: string, now: int) returns (r: Result<()>)
      requires UniqueTokens(users)
      modifies this
      ensures users == After(old(users), Consume(Invite, token, passwordHash), now)
      ensures r.Ok? <==> old(Succeeds(users, Consume(Invite, token, passwordHash), now))
      ensures r.Ok? ==> exists e :: e in old(users) && old(users)[e].invite.Some?
                          && old(users)[e].invite.value.text == token && old(users)[e].invite.value.expires > now
                          && users
                          == old(users)[e := old(users)[e].(passwordHash := Some(passwordHash), invite := None)]
      ensures r.Err? ==> users == old(users)
                         && forall e :: e in users && users[e].invite.Some? && users[e].invite.value.text == token ==>
                              users[e].invite.value.expires <= now
      ensures UniqueTokens(users)
    {
      StepKeepsUnique(users, Consume(Invite, token, passwordHash), now);
      if e :|
        && e in users && users[e].invite.Some?
        && users[e].invite.value.text == token && users[e].invite.value.expires > now
      {
        assert Usable(users[e], Invite, token, now);
        ConsumesOneRow(users, Invite, token, passwordHash, now, e);
        users := users[e := users[e].(passwordHash := Some(passwordHash), invite := None)];
        r := Ok(());
      } else {
        r := Err("not found or expired");
      }
    }

    /** `ok` is false for an unknown email, which is no error. */
    method CreateResetToken(email: string, token: string, now: int) returns (r: Result<bool>)
      requires UniqueTokens(users)
      modifies this
      ensures users == After(old(users), CreateReset(email, token), now)
      ensures r == Ok(true) <==> old(Succeeds(users, CreateReset(email, token), now))
      ensures r == Ok(false) <==> email !in old(users)
      ensures r == Ok(true) ==>
                email in old(users)
                && users == old(users)[email := old(users)[email].(reset := Some(Token(token, now + 3_600 * SECOND)))]
      ensures r != Ok(true) ==> users == old(users)
      ensures r.Err? <==> email in old(users)
                          && exists e :: e in old(users) && e != email && old(users)[e].reset.Some?
                               && old(users)[e].reset.value.text == token
      ensures UniqueTokens(users)
    {
      StepKeepsUnique(users, CreateReset(email, token), now);
      if email !in users {
        r := Ok(false);
      } else if exists e :: e in users && e != email && Has(users[e], Reset, token) {
        r := Err("reset token");
      } else {
        users := users[email := users[email].(reset := Some(Token(token, now + HOUR)))];
        r := Ok(true);
      }
    }

    method ResetPassword(token: string, passwordHash: string, now: int) returns (r: Result<()>)
      requires UniqueTokens(users)
      modifies this
      ensures users == After(old(users), Consume(Reset, token, passwordHash), now)
      ensures r.Ok? <==> old(Succeeds(users, Consume(Reset, token, passwordHash), now))
      ensures r.Ok? ==> exists e :: e in old(users) && old(users)[e].reset.Some?
                          && old(users)[e].reset.value.text == token && old(users)[e].reset.value.expires > now
                          && users
                          == old(users)[e := old(users)[e].(passwordHash := Some(passwordHash), reset := None)]
      ensures r.Err? ==> users == old(users)
                         && forall e :: e in users && users[e].reset.Some? && users[e].reset.value.text == token ==>
                              users[e].reset.value.expires <= now
      ensures UniqueTokens(users)
    {
      StepKeepsUnique(users, Consume(Reset, token, passwordHash), now);
      if e :|
        && e in users && users[e].reset.Some?
        && users[e].reset.value.text == token && users[e].reset.value.expires > now
      {
        assert Usable(users[e], Reset, token, now);
        ConsumesOneRow(users, Reset, token, passwordHash, now, e);
        users := users[e := users[e].(passwordHash := Some(passwordHash), reset := None)];
        r := Ok(());
      } else {
        r := Err("not found or expired");
      }
    }

    method DeleteUser(email: string) returns (r: Result<()>)
      requires UniqueTokens(users)
      modifies this
      ensures users == old(users) - {email}
      ensures r.Ok? <==> email in old(users)
      ensures UniqueTokens(users)
    {
      r := if email in users then Ok(()) else Err("not found");
      users := users - {email};
    }
  }
}
