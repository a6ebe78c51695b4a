/**
 Refresh-token sessions. A rotation is two statements, a SELECT and an UPDATE by row id, with no
 transaction around them; runs interleave the statements of any number of requests.
 */
module RefreshTokens {
  import opened Prelude

  /** SHA-256 read as an injective function of the raw token. */
  datatype Digest = Digest(token: string)

  datatype Row = Row(userID: string, digest: Digest, expires: int, revoked: bool)

  /** Rows are never deleted, so a row's id is its position. */
  type Table = seq<Row>

  const TTL := 7 * 24 * 60 * 60

  predicate LiveAt(row: Row, now: int) { !row.revoked && now <= row.expires }

  /** `WHERE token_hash = $1 LIMIT 1`: the first match, or |t|. */
  function RowOf(t: Table, token: string): (i: nat)
    ensures i <= |t|
    ensures i < |t| ==> t[i].digest == Digest(token)
    ensures forall j | 0 <= j < i :: t[j].digest != Digest(token)
  {
    if t == [] || t[0].digest == Digest(token) then 0 else 1 + RowOf(t[1..], token)
  }

  lemma RowOfIs(t: Table, token: string, i: nat)
    requires i < |t| && t[i].digest == Digest(token)
    requires forall j | 0 <= j < i :: t[j].digest != Digest(token)
    ensures RowOf(t, token) == i
  {
  }

  predicate Accepts(t: Table, token: string, now: int) {
    var i := RowOf(t, token);
    i < |t| && LiveAt(t[i], now)
  }

  function Revoked(t: Table, token: string): Table {
    if token == "" then t
    else seq(|t|, i requires 0 <= i < |t| => if t[i].digest == Digest(token) then t[i].(revoked := true) else t[i])
  }

  function Renewed(row: Row, next: string, now: int): Row {
    Row(row.userID, Digest(next), now + TTL, false)
  }

  /** A rotation between its two statements: the row it read and the token it was asked to rotate. */
  datatype Claim = Claim(row: nat, token: string)

  datatype State = State(table: Table, claims: map<nat, Claim>)

  const EMPTY := State([], map[])

  datatype Event =
    | Login(userID: string, token: string, now: int)
    | Select(req: nat, token: string, now: int)
    | Update(req: nat, next: string, now: int)
    | Logout(token: string)

  /** The claim an UPDATE acts on, if its request's SELECT succeeded. */
  function Acting(st: State, e: Event): Option<Claim> {
    if e.Update? && e.req in st.claims && st.claims[e.req].row < |st.table| then Some(st.claims[e.req]) else None
  }

  function Step(st: State, e: Event): State {
    match e
    case Login(u, tok, now) =>
      st.(table := st.table + [Row(u, Digest(tok), now + TTL, false)])
    case Select(req, tok, now) =>
      if Accepts(st.table, tok, now) then st.(claims := st.claims[req := Claim(RowOf(st.table, tok), tok)])
      else st.(claims := st.claims - {req})
    case Update(req, next, now) =>
      var claim := Acting(st, e);
      if claim.None? then st
      else State(st.table[claim.value.row := Renewed(st.table[claim.value.row], next, now)], st.claims - {req})
    case Logout(tok) =>
      st.(table := Revoked(st.table, tok))
  }

  function Run(st: State, es: seq<Event>): State {
    if es == [] then st else Step(Run(st, Init(es)), Last(es))
  }

  /** Tokens drawn by logins and rotations. */
  function Drawn(e: Event): set<string> {
    match e
    case Login(_, tok, _) => {tok}
    case Update(_, next, _) => {next}
    case _ => {}
  }

  function Issued(es: seq<Event>): set<string> {
    if es == [] then {} else Issued(Init(es)) + Drawn(Last(es))
  }

  /** Random tokens do not repeat. */
  ghost predicate FreshDraws(es: seq<Event>) {
    es == [] || (FreshDraws(Init(es)) && Drawn(Last(es)) !! Issued(Init(es)))
  }

  // ------------------------------------------------------- what every interleaving preserves

  ghost predicate DistinctDigests(t: Table) {
    forall i, j | 0 <= i < j < |t| :: t[i].digest != t[j].digest
  }

  ghost predicate Sound(st: State, issued: set<string>) {
    && DistinctDigests(st.table)
    && (forall i | 0 <= i < |st.table| :: st.table[i].digest.token in issued)
    && (forall r | r in st.claims :: st.claims[r].row < |st.table| && st.claims[r].token in issued)
  }

  lemma StepSound(st: State, e: Event, issued: set<string>)
    requires Sound(st, issued) && Drawn(e) !! issued
    ensures Sound(Step(st, e), issued + Drawn(e))
  {
  }

  /** Token hashes stay pairwise distinct in every interleaving, though no constraint enforces it. */
  lemma {:induction false} HashesStayDistinct(es: seq<Event>)
    requires FreshDraws(es)
    ensures Sound(Run(EMPTY, es), Issued(es))
  {
    if es != [] {
      hide Step, Sound, Drawn;
      HashesStayDistinct(Init(es));
      StepSound(Run(EMPTY, Init(es)), Last(es), Issued(Init(es)));
    } else {
      assert Sound(EMPTY, {});
    }
  }

  /** `token` reaches back, rotation by rotation, to a login of `userID`. */
  ghost predicate Traces(es: seq<Event>, token: string, userID: string) {
    && es != []
    && var e, before := Last(es), Init(es);
       || Traces(before, token, userID)
       || (e.Login? && e.token == token && e.userID == userID)
       || (e.Update? && e.next == token && Acting(Run(EMPTY, before), e).Some?
           && Traces(before, Acting(Run(EMPTY, before), e).value.token, userID))
  }

  ghost predicate AllTraced(es: seq<Event>, st: State) {
    && (forall i | 0 <= i < |st.table| :: Traces(es, st.table[i].digest.token, st.table[i].userID))
    && (forall r | r in st.claims ::
          st.claims[r].row < |st.table| && Traces(es, st.claims[r].token, st.table[st.claims[r].row].userID))
  }

  /** Token lineage: whatever a row accepts, or a request has read from it, was issued to that row's user. */
  lemma {:induction false} EveryAcceptedTokenTraces(es: seq<Event>)
    ensures AllTraced(es, Run(EMPTY, es))
  {
    if es != [] {
      EveryAcceptedTokenTraces(Init(es));
      TraceStep(es, Run(EMPTY, Init(es)));
    }
  }

  lemma TraceStep(es: seq<Event>, before: State)
    requires es != [] && before == Run(EMPTY, Init(es)) && AllTraced(Init(es), before)
    ensures AllTraced(es, Step(before, Last(es)))
  {
    var st := Step(before, Last(es));
    forall i | 0 <= i < |st.table|
      ensures Traces(es, st.table[i].digest.token, st.table[i].userID)
    {
      assert i < |before.table| ==> Traces(Init(es), before.table[i].digest.token, before.table[i].userID);
    }
    forall r | r in st.claims
      ensures st.claims[r].row < |st.table|
      ensures Traces(es, st.claims[r].token, st.table[st.claims[r].row].userID)
    {
      var row := st.claims[r].row;
      assert row < |before.table| && st.table[row].userID == before.table[row].userID;
      assert Traces(Init(es), before.table[row].digest.token, before.table[row].userID);
    }
  }

  // ------------------------------------------------------------------------------ single use

  /** The token was spent: some rotation of it went through. */
  ghost predicate Spent(es: seq<Event>, token: string) {
    && es != []
    && var claim := Acting(Run(EMPTY, Init(es)), Last(es));
       (claim.Some? && claim.value.token == token) || Spent(Init(es), token)
  }

  /** No token is rotated twice. */
  ghost predicate SingleUse(es: seq<Event>) {
    || es == []
    || (&& SingleUse(Init(es))
        && var claim := Acting(Run(EMPTY, Init(es)), Last(es));
           claim.Some? ==> !Spent(Init(es), claim.value.token))
  }

  /** The row still carries the hash that was selected when the update reaches it. */
  ghost predicate OnTime(st: State, e: Event) {
    var claim := Acting(st, e);
    claim.Some? ==> st.table[claim.value.row].digest == Digest(claim.value.token)
  }

  ghost predicate Serial(es: seq<Event>) {
    es == [] || (Serial(Init(es)) && OnTime(Run(EMPTY, Init(es)), Last(es)))
  }

  lemma {:induction false} SpentWasIssued(es: seq<Event>, token: string)
    requires FreshDraws(es) && Spent(es, token)
    ensures token in Issued(es)
  {
    HashesStayDistinct(Init(es));
    if Spent(Init(es), token) {
      SpentWasIssued(Init(es), token);
    }
  }

  /** The token names no row, so nothing accepts it. */
  ghost predicate Gone(t: Table, token: string) {
    forall i | 0 <= i < |t| :: t[i].digest != Digest(token)
  }

  /** An issued token that names no row never comes back, however it left the table. */
  lemma {:induction false} GoneStaysGone(before: seq<Event>, later: seq<Event>, token: string)
    requires FreshDraws(before + later) && token in Issued(before)
    requires Gone(Run(EMPTY, before).table, token)
    ensures Gone(Run(EMPTY, before + later).table, token) && token in Issued(before + later)
    ensures forall now :: !Accepts(Run(EMPTY, before + later).table, token, now)
  {
    if later == [] {
      assert before + later == before;
    } else {
      assert Init(before + later) == before + Init(later);
      GoneStaysGone(before, Init(later), token);
      GoneStep(Run(EMPTY, before + Init(later)), Last(later), token);
    }
  }

  lemma GoneStep(st: State, e: Event, token: string)
    requires Gone(st.table, token) && token !in Drawn(e)
    ensures Gone(Step(st, e).table, token)
  {
  }

  /** A request's token is on the row it read or on none. */
  ghost predicate ClaimsOwnTheirToken(st: State) {
    forall r, i | r in st.claims && 0 <= i < |st.table| && i != st.claims[r].row ::
      st.table[i].digest != Digest(st.claims[r].token)
  }

  lemma ClaimsStep(st: State, e: Event, issued: set<string>)
    requires Sound(st, issued) && ClaimsOwnTheirToken(st) && Drawn(e) !! issued
    ensures ClaimsOwnTheirToken(Step(st, e))
  {
  }

  lemma {:induction false} ClaimsKeepTheirToken(es: seq<Event>)
    requires FreshDraws(es)
    ensures ClaimsOwnTheirToken(Run(EMPTY, es))
  {
    if es != [] {
      hide Step, Sound;
      ClaimsKeepTheirToken(Init(es));
      HashesStayDistinct(Init(es));
      ClaimsStep(Run(EMPTY, Init(es)), Last(es), Issued(Init(es)));
    }
  }

  /** A superseded token is rejected in every later state, in every interleaving. */
  lemma {:induction false} SpentIsGone(es: seq<Event>, token: string)
    requires FreshDraws(es) && Spent(es, token)
    ensures Gone(Run(EMPTY, es).table, token)
    ensures forall now :: !Accepts(Run(EMPTY, es).table, token, now)
  {
    var before := Run(EMPTY, Init(es));
    HashesStayDistinct(Init(es));
    ClaimsKeepTheirToken(Init(es));
    if Spent(Init(es), token) {
      SpentIsGone(Init(es), token);
      SpentWasIssued(Init(es), token);
      GoneStep(before, Last(es), token);
    }
  }

  /** A request between its statements holds a current token, or one already spent by another. */
  lemma {:induction false} ClaimsAreCurrentOrSpent(es: seq<Event>, r: nat)
    requires FreshDraws(es) && Serial(es) && r in Run(EMPTY, es).claims
    ensures var claim := Run(EMPTY, es).claims[r];
            && claim.row < |Run(EMPTY, es).table|
            && (Run(EMPTY, es).table[claim.row].digest == Digest(claim.token) || Spent(es, claim.token))
  {
    if es != [] {
      HashesStayDistinct(Init(es));
      if r in Run(EMPTY, Init(es)).claims {
        ClaimsAreCurrentOrSpent(Init(es), r);
      }
    }
  }

  /**
   Single use, exactly: every token rotates at most once if and only if every UPDATE finds the
   hash its own SELECT read.
   */
  lemma {:induction false} SingleUseExactly(es: seq<Event>)
    requires FreshDraws(es)
    ensures SingleUse(es) <==> Serial(es)
  {
    if es != [] {
      SingleUseExactly(Init(es));
      var claim := Acting(Run(EMPTY, Init(es)), Last(es));
      if Serial(Init(es)) && claim.Some? {
        ClaimsAreCurrentOrSpent(Init(es), Last(es).req);
        if Spent(Init(es), claim.value.token) {
          SpentIsGone(Init(es), claim.value.token);
        }
      }
    }
  }

  /** Each UPDATE directly follows the SELECT of its request. */
  ghost predicate AtomicRotations(es: seq<Event>) {
    forall k | 0 <= k < |es| && es[k].Update? ::
      k > 0 && es[k - 1].Select? && es[k - 1].req == es[k].req
  }

  /** With rotation atomic the condition always holds, so tokens are single use. */
  lemma {:induction false} AtomicRotationIsSerial(es: seq<Event>)
    requires FreshDraws(es) && AtomicRotations(es)
    ensures Serial(es) && SingleUse(es)
  {
    if es != [] {
      AtomicRotationIsSerial(Init(es));
      if Last(es).Update? {
        assert es[|es| - 2] == Last(Init(es));
      }
    }
    SingleUseExactly(es);
  }

  /** Two requests that read the same token before either writes both succeed. */
  lemma RacingRotationsBothSucceed(user: string, t0: string, t1: string, t2: string)
    requires t0 != t1 && t0 != t2 && t1 != t2
    ensures var es := [Login(user, t0, 0), Select(1, t0, 0), Select(2, t0, 0), Update(1, t1, 0), Update(2, t2, 0)];
            FreshDraws(es) && !SingleUse(es) && Accepts(Run(EMPTY, es).table, t2, 0)
  {
    var es := [Login(user, t0, 0), Select(1, t0, 0), Select(2, t0, 0), Update(1, t1, 0), Update(2, t2, 0)];
    assert Init(es) == es[..4] && Init(es[..4]) == es[..3] && Init(es[..3]) == es[..2];
    assert Init(es[..2]) == es[..1] && Init(es[..1]) == [];
    var row := Row(user, Digest(t0), TTL, false);
    assert Run(EMPTY, es[..1]).table == [row];
    assert Run(EMPTY, es[..2]) == State([row], map[1 := Claim(0, t0)]);
    assert Run(EMPTY, es[..3]) == State([row], map[1 := Claim(0, t0), 2 := Claim(0, t0)]);
    assert Run(EMPTY, es[..4]) == State([Renewed(row, t1, 0)], map[2 := Claim(0, t0)]);
    assert Run(EMPTY, es).table == [Renewed(row, t2, 0)];
    assert Issued(es[..1]) == {t0};
    assert Issued(es[..2]) == {t0};
    assert Issued(es[..3]) == {t0};
    assert Issued(es[..4]) == {t0, t1};
    assert FreshDraws(es[..2]);
    assert FreshDraws(es[..4]);
    assert Spent(es[..4], t0);
  }

  // ------------------------------------------------------------------------------- revocation

  ghost predicate Claimed(st: State, row: nat) {
    exists r | r in st.claims :: st.claims[r].row == row
  }

  lemma {:induction false} UnclaimedRevokedRowIsFrozen(st: State, es: seq<Event>, row: nat)
    requires row < |st.table| && st.table[row].revoked && !Claimed(st, row)
    ensures var now := Run(st, es);
            row < |now.table| && now.table[row] == st.table[row] && !Claimed(now, row)
  {
    if es != [] {
      UnclaimedRevokedRowIsFrozen(st, Init(es), row);
    }
  }

  lemma {:induction false} RunConcat(st: State, a: seq<Event>, b: seq<Event>)
    ensures Run(st, a + b) == Run(Run(st, a), b)
  {
    hide Step;
    if b == [] {
      assert a + b == a;
    } else {
      assert Init(a + b) == a + Init(b);
      RunConcat(st, a, Init(b));
    }
  }

  /**
   Finality of revocation, exactly: in a state some run reaches, a revoked row stays revoked through
   every continuation with fresh tokens if and only if no request has read it and not yet written.
   */
  lemma RevocationFinalExactly(es: seq<Event>, row: nat, next: string)
    requires FreshDraws(es) && next !in Issued(es)
    requires row < |Run(EMPTY, es).table| && Run(EMPTY, es).table[row].revoked
    ensures (forall later | FreshDraws(es + later) :: RevokedAfter(es + later, row)) <==> !Claimed(Run(EMPTY, es), row)
  {
    var st := Run(EMPTY, es);
    if Claimed(st, row) {
      var r :| r in st.claims && st.claims[r].row == row;
      var e := Update(r, next, 0);
      assert Init(es + [e]) == es;
      assert FreshDraws(es + [e]) && !RevokedAfter(es + [e], row);
    } else {
      forall later | FreshDraws(es + later)
        ensures RevokedAfter(es + later, row)
      {
        RunConcat(EMPTY, es, later);
        UnclaimedRevokedRowIsFrozen(st, later, row);
      }
    }
  }

  ghost predicate RevokedAfter(es: seq<Event>, row: nat) {
    row < |Run(EMPTY, es).table| && Run(EMPTY, es).table[row].revoked
  }

  /** The same at a logout: it is final exactly when no request holds the row it revokes. */
  lemma LogoutFinalExactly(es: seq<Event>, row: nat, token: string, next: string)
    requires FreshDraws(es) && next !in Issued(es) && token != ""
    requires row < |Run(EMPTY, es).table| && Run(EMPTY, es).table[row].digest == Digest(token)
    ensures (forall later | FreshDraws(es + [Logout(token)] + later) :: RevokedAfter(es + [Logout(token)] + later, row))
       <==> !Claimed(Run(EMPTY, es), row)
  {
    var all := es + [Logout(token)];
    assert Init(all) == es;
    RevocationFinalExactly(all, row, next);
  }

  /** A logout between the two statements of a rotation: the session is refused, then lives on. */
  lemma LogoutUndone(user: string, t0: string, t1: string)
    requires t0 != t1 && t0 != ""
    ensures var es := [Login(user, t0, 0), Select(1, t0, 0), Logout(t0), Update(1, t1, 0)];
            && FreshDraws(es)
            && (forall now :: !Accepts(Run(EMPTY, es[..3]).table, t0, now))
            && Accepts(Run(EMPTY, es).table, t1, 0)
  {
    var es := [Login(user, t0, 0), Select(1, t0, 0), Logout(t0), Update(1, t1, 0)];
    assert Init(es) == es[..3] && Init(es[..3]) == es[..2] && Init(es[..2]) == es[..1] && Init(es[..1]) == [];
    var row := Row(user, Digest(t0), TTL, false);
    assert Run(EMPTY, es[..1]) == State([row], map[]);
    assert Run(EMPTY, es[..2]) == State([row], map[1 := Claim(0, t0)]);
    assert Run(EMPTY, es[..3]) == State([row.(revoked := true)], map[1 := Claim(0, t0)]);
    assert Run(EMPTY, es).table == [Renewed(row, t1, 0)];
    assert Issued(es[..1]) == {t0};
    assert Issued(es[..2]) == {t0};
    assert Issued(es[..3]) == {t0};
    assert FreshDraws(es[..2]);
  }

  lemma OtherStepsSpareRevoked(st: State, e: Event, row: nat)
    requires row < |st.table| && st.table[row].revoked && !e.Update?
    ensures row < |Step(st, e).table| && Step(st, e).table[row] == st.table[row]
  {
  }

  lemma AtomicRotationSparesRevoked(st: State, select: Event, update: Event, row: nat)
    requires row < |st.table| && st.table[row].revoked
    requires select.Select? && update.Update? && select.req == update.req
    ensures row < |Step(Step(st, select), update).table|
    ensures Step(Step(st, select), update).table[row] == st.table[row]
  {
  }

  lemma AtomicPrefix(es: seq<Event>)
    requires AtomicRotations(es) && es != []
    ensures AtomicRotations(Init(es))
    ensures Last(es).Update? ==> Init(es) != [] && Last(Init(es)).Select? && Last(Init(es)).req == Last(es).req
  {
  }

  /** With rotation atomic a revoked row is never written again. */
  lemma {:induction false} AtomicRunsLeaveRevokedRows(es: seq<Event>, k: nat, row: nat)
    requires AtomicRotations(es) && k < |es| && es[k].Logout?
    requires row < |Run(EMPTY, es[..k + 1]).table| && Run(EMPTY, es[..k + 1]).table[row].revoked
    ensures row < |Run(EMPTY, es).table| && Run(EMPTY, es).table[row] == Run(EMPTY, es[..k + 1]).table[row]
    decreases |es|
  {
    hide Step, AtomicRotations;
    if |es| == k + 1 {
      assert es[..k + 1] == es;
    } else {
      var before := Init(es);
      AtomicPrefix(es);
      assert before[..k + 1] == es[..k + 1] && before[k] == es[k];
      if Last(es).Update? {
        var earlier := Init(before);
        AtomicPrefix(before);
        assert before[|before| - 1] == Last(before) && |before| != k + 1;
        assert earlier[..k + 1] == es[..k + 1] && earlier[k] == es[k];
        AtomicRunsLeaveRevokedRows(earlier, k, row);
        AtomicRotationSparesRevoked(Run(EMPTY, earlier), Last(before), Last(es), row);
        assert Run(EMPTY, before) == Step(Run(EMPTY, earlier), Last(before));
      } else {
        AtomicRunsLeaveRevokedRows(before, k, row);
        OtherStepsSpareRevoked(Run(EMPTY, before), Last(es), row);
      }
    }
  }

  /**
   Finality for atomic rotation: once a logout revokes a row through its current token, the row
   stays as the logout left it for the rest of the run, whatever requests had read it and gone.
   */
  lemma AtomicLogoutIsFinal(es: seq<Event>, k: nat, row: nat)
    requires AtomicRotations(es) && k < |es| && es[k].Logout? && es[k].token != ""
    requires row < |Run(EMPTY, es[..k]).table| && Run(EMPTY, es[..k]).table[row].digest == Digest(es[k].token)
    ensures row < |Run(EMPTY, es).table|
    ensures Run(EMPTY, es).table[row] == Run(EMPTY, es[..k]).table[row].(revoked := true)
    ensures forall now :: !LiveAt(Run(EMPTY, es).table[row], now)
  {
    assert Init(es[..k + 1]) == es[..k] && Last(es[..k + 1]) == es[k];
    var revoked := Run(EMPTY, es[..k]).table[row].(revoked := true);
    assert Run(EMPTY, es[..k + 1]).table[row] == revoked;
    AtomicRunsLeaveRevokedRows(es, k, row);
  }

  // ------------------------------------------------------------------------------- the table

  class TokenStore {
    var rows: Table

    ghost predicate Valid()
      reads this
    {
      DistinctDigests(rows)
    }

    constructor ()
      ensures Valid() && rows == []
    {
      rows := [];
    }

    method CreateRefreshToken(userID: string, token: string, now: int)
      requires Valid()
      requires forall i | 0 <= i < |rows| :: rows[i].digest != Digest(token)
      modifies this
      ensures Valid()
      ensures rows == Step(State(old(rows), map[]), Login(userID, token, now)).table
      ensures forall t :: Accepts(rows, token, t) <==> t <= now + 604800
    {
      rows := rows + [Row(userID, Digest(token), now + TTL, false)];
      RowOfIs(rows, token, |rows| - 1);
    }

    /** SELECT, check, UPDATE, with nothing in between. Returns the owner of the rotated session. */
    method RotateRefreshToken(oldToken: string, next: string, now: int) returns (owner: Option<string>)
      requires Valid()
      requires forall i | 0 <= i < |rows| :: rows[i].digest != Digest(next)
      modifies this
      ensures Valid()
      ensures rows == Run(State(old(rows), map[]), [Select(0, oldToken, now), Update(0, next, now)]).table
      ensures owner == if Accepts(old(rows), oldToken, now) then Some(old(rows)[RowOf(old(rows), oldToken)].userID)
                       else None
      ensures owner.None? ==> rows == old(rows)
      ensures owner.Some? ==>
                var row := RowOf(old(rows), oldToken);
                && rows == old(rows)[row := Renewed(old(rows)[row], next, now)]
                && (oldToken != next ==> forall t :: !Accepts(rows, oldToken, t))
                && (forall t :: Accepts(rows, next, t) <==> t <= now + 604800)
    {
      ghost var es := [Select(0, oldToken, now), Update(0, next, now)];
      assert Init(es) == [Select(0, oldToken, now)] && Init(Init(es)) == [];
      ghost var st := State(rows, map[]);
      assert Run(st, Init(Init(es))) == st;
      assert !Accepts(rows, oldToken, now) ==> Run(st, Init(es)) == st;
      var id := 0;
      while id < |rows| && rows[id].digest != Digest(oldToken)
        invariant id <= RowOf(rows, oldToken)
      {
        id := id + 1;
      }
      if id == |rows| || rows[id].revoked || now > rows[id].expires {
        return None;
      }
      owner := Some(rows[id].userID);
      rows := rows[id := Row(rows[id].userID, Digest(next), now + TTL, false)];
      RowOfIs(rows, next, id);
    }

    method RevokeRefreshToken(token: string)
      requires Valid()
      modifies this
      ensures Valid()
      ensures |rows| == |old(rows)|
      ensures rows == Revoked(old(rows), token)
      ensures forall i | 0 <= i < |rows| && old(rows)[i].digest != Digest(token) :: rows[i] == old(rows)[i]
      ensures token != "" ==> forall now :: !Accepts(rows, token, now)
    {
      if token == "" {
        return;
      }
      var i := 0;
      while i < |rows|
        invariant i <= |rows| == |old(rows)|
        invariant forall j | 0 <= j < i :: rows[j] == Revoked(old(rows), token)[j]
        invariant forall j | i <= j < |rows| :: rows[j] == old(rows)[j]
      {
        if rows[i].digest == Digest(token) {
          rows := rows[i := rows[i].(revoked := true)];
        }
        i := i + 1;
      }
    }
  }
}
