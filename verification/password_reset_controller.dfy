/** Password reset: one token per e-mail address, consumed by a reset. */
module PasswordResetController {
  import opened Tables
  import opened Schema

  /** Token rows holding `token`. */
  function WithToken(token: string): ResetToken -> bool
  {
    (t: ResetToken) => t.token == token
  }

  /** The `updateOrInsert` keyed on e-mail: the address's row gets the new
      token, or a row is added when there is none. */
  function Upsert(tokens: Table<ResetToken>, email: string, token: string): Table<ResetToken>
    requires tokens.Valid()
  {
    match tokens.First(TokenFor(email))
    case Some(k) => tokens.Put(k, ResetToken(email, token))
    case None => tokens.Insert(ResetToken(email, token))
  }

  /** After the upsert there is exactly one row for the address, holding the
      new token; rows of other addresses are untouched, and there is still
      at most one row per address. */
  lemma {:induction false} UpsertSpec(tokens: Table<ResetToken>, email: string, token: string)
    requires tokens.Valid() && OneTokenPerEmail(tokens)
    ensures var t := Upsert(tokens, email, token);
            t.Valid() && OneTokenPerEmail(t) &&
            (exists k :: k in t.rows && t.rows[k] == ResetToken(email, token)) &&
            (forall k :: k in t.rows && t.rows[k].email == email ==> t.rows[k].token == token) &&
            (forall k :: k in tokens.rows && tokens.rows[k].email != email ==> k in t.rows && t.rows[k] == tokens.rows[k])
  {
    var t := Upsert(tokens, email, token);
    match tokens.First(TokenFor(email))
    case Some(j) =>
      assert t.rows[j] == ResetToken(email, token);
      forall k | k in t.rows && t.rows[k].email == email ensures k == j {
      }
    case None =>
      assert t.rows[tokens.next] == ResetToken(email, token);
      forall k | k in t.rows && t.rows[k].email == email ensures k == tokens.next {
      }
  }

  /** `generateToken`: 404 for an unknown e-mail, with no token stored;
      otherwise the token (the `Str::random` draw, as the parameter
      `token`) is upserted for the address and returned. */
  method GenerateToken(db: Database, email: string, token: string) returns (out: Outcome, issued: Option<string>)
    requires db.Valid() && OneTokenPerEmail(db.resetTokens)
    modifies db`resetTokens
    ensures db.Valid() && OneTokenPerEmail(db.resetTokens)
    ensures out == if db.users.Any(WithEmail(email)) then Code(200) else Code(404)
    ensures out == Code(200) ==> issued == Some(token) && db.resetTokens == Upsert(old(db.resetTokens), email, token)
    ensures out != Code(200) ==> issued == None && db.resetTokens == old(db.resetTokens)
  {
    if !db.users.Any(WithEmail(email)) {
      return Code(404), None;
    }
    UpsertSpec(db.resetTokens, email, token);
    db.SetResetTokens(Upsert(db.resetTokens, email, token));
    out, issued := Code(200), Some(token);
  }

  /** `sendResetLinkEmail`: the e-mail validator (`emailOk`) answers 400, an
      unknown address 404; otherwise a token is generated for it (and mailed,
      which is not modelled). */
  method SendResetLinkEmail(db: Database, email: string, emailOk: bool, token: string) returns (out: Outcome)
    requires db.Valid() && OneTokenPerEmail(db.resetTokens)
    modifies db`resetTokens
    ensures db.Valid() && OneTokenPerEmail(db.resetTokens)
    ensures out == if email == "" || !emailOk then Code(400)
                   else if db.users.Any(WithEmail(email)) then Code(200) else Code(404)
    ensures out == Code(200) ==> db.resetTokens == Upsert(old(db.resetTokens), email, token)
    ensures out != Code(200) ==> db.resetTokens == old(db.resetTokens)
  {
    if email == "" || !emailOk {
      return Code(400);
    }
    var issued;
    out, issued := GenerateToken(db, email, token);
  }

  /** The address of the first token row holding `token`, if any. */
  function MatchedEmail(tokens: Table<ResetToken>, token: string): (e: Option<string>)
    requires tokens.Valid()
    ensures e.None? <==> forall k :: k in tokens.rows ==> tokens.rows[k].token != token
    ensures e.Some? ==> exists k :: k in tokens.rows && tokens.rows[k] == ResetToken(e.value, token)
  {
    match tokens.First(WithToken(token))
    case None =>
      assert forall k :: k in tokens.rows ==> !WithToken(token)(tokens.rows[k]);
      None
    case Some(k) => Some(tokens.rows[k].email)
  }

  /** `reset`: a missing token or a password shorter than 8 characters is
      400 (a weaker rule than registration's); an unknown token is 400 and an
      address without an account 404.  Otherwise the account's password hash
      is replaced and every token row of the address is deleted. */
  method Reset(db: Database, token: string, password: string, make: string -> string) returns (out: Outcome)
    requires db.Valid()
    modifies db`users, db`resetTokens
    ensures db.Valid()
    ensures var e := old(MatchedEmail(db.resetTokens, token));
            out == if token == "" || |password| < 8 then Code(400)
                   else if e.None? then Code(400)
                   else if !old(db.users.Any(WithEmail(e.value))) then Code(404)
                   else Code(200)
    ensures out == Code(200) ==>
              var email := old(MatchedEmail(db.resetTokens, token)).value;
              var u := old(db.users.First(WithEmail(email))).value;
              db.users == old(db.users).Put(u, old(db.users.rows[u]).(password := make(password))) &&
              db.resetTokens == old(db.resetTokens).DeleteWhere(TokenFor(email))
    ensures out != Code(200) ==> db.users == old(db.users) && db.resetTokens == old(db.resetTokens)
  {
    if token == "" || |password| < 8 {
      return Code(400);
    }
    var e := MatchedEmail(db.resetTokens, token);
    if e.None? {
      return Code(400);
    }
    var u := db.users.First(WithEmail(e.value));
    if u.None? {
      return Code(404);
    }
    db.SetUsers(db.users.Put(u.value, db.users.rows[u.value].(password := make(password))));
    db.SetResetTokens(db.resetTokens.DeleteWhere(TokenFor(e.value)));
    out := Code(200);
  }

  /** A reset deletes every row of the address the token belonged to; the
      token can only be found again if a row of another address held the
      same token. */
  lemma {:induction false} ResetConsumesToken(tokens: Table<ResetToken>, token: string)
    requires tokens.Valid() && MatchedEmail(tokens, token).Some?
    ensures var email := MatchedEmail(tokens, token).value;
            var after := tokens.DeleteWhere(TokenFor(email));
            (forall k :: k in after.rows ==> after.rows[k].email != email) &&
            (MatchedEmail(after, token).Some? ==>
               exists k :: k in tokens.rows && tokens.rows[k].token == token && tokens.rows[k].email != email)
  {
    var email := MatchedEmail(tokens, token).value;
    var after := tokens.DeleteWhere(TokenFor(email));
    forall k | k in after.rows ensures after.rows[k].email != email {
      assert !TokenFor(email)(tokens.rows[k]);
    }
    if MatchedEmail(after, token).Some? {
      var k :| k in after.rows && after.rows[k] == ResetToken(MatchedEmail(after, token).value, token);
      assert tokens.rows[k] == after.rows[k];
    }
  }

  /** `checkToken`: 200 exactly when a token is given and some row holds it;
      nothing changes. */
  function CheckToken(tokens: Table<ResetToken>, token: string): (out: Outcome)
    requires tokens.Valid()
    ensures out == Code(200) <==> token != "" && exists k :: k in tokens.rows && tokens.rows[k].token == token
    ensures out != Code(200) ==> out == Code(400)
  {
    if token == "" || MatchedEmail(tokens, token).None? then Code(400) else Code(200)
  }
}
