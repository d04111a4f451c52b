/**
 * The credential store: user records, login-attempt records, the password
 * hasher, and the queries the platform runs on them (user lookup by e-mail,
 * the failed-attempt count, the recent-login history).
 */
module Accounts {

  import opened Wrappers
  import Seqs
  import opened Validators

  /** A document of the `users` collection; `passwordHash` is the bcrypt digest as text. */
  datatype User = User(username: string, email: string, passwordHash: string)

  /** A document of the `logins` collection; `loginTime` is the clock reading at the attempt. */
  datatype LoginAttempt = LoginAttempt(email: string, success: bool, loginTime: nat)

  /**
   * bcrypt as an uninterpreted pair: `hash(password, salt)` is `hashpw` with the salt
   * that `gensalt` drew, `check(password, digest)` is `checkpw`.
   */
  datatype Hasher = Hasher(hash: (string, nat) -> string, check: (string, string) -> bool)

  /** The one property relied on: a password checks against any digest made from it. */
  ghost predicate Sound(h: Hasher) {
    forall password, salt :: h.check(password, h.hash(password, salt))
  }

  // ---------------------------------------------------------------------------
  // Users

  predicate HasEmail(u: User, email: string) {
    u.email == email
  }

  /** `users_collection.find_one({"email": email})`: the earliest user registered with that e-mail. */
  function FindUser(users: seq<User>, email: string): (r: Option<User>)
    ensures r.None? <==> forall i :: 0 <= i < |users| ==> users[i].email != email
    ensures r.Some? ==> exists k :: 0 <= k < |users| && users[k] == r.value && r.value.email == email
                                    && forall j :: 0 <= j < k ==> users[j].email != email
  {
    var k := Seqs.FirstIndex(users, u => HasEmail(u, email));
    if k < |users| then Some(users[k]) else None
  }

  /** Registering again under an e-mail that is already taken changes nothing the lookup sees. */
  lemma DuplicateRegistrationShadowed(users: seq<User>, u: User, email: string)
    requires FindUser(users, email).Some?
    ensures FindUser(users + [u], email) == FindUser(users, email)
  {
    var p := (x: User) => HasEmail(x, email);
    assert Seqs.FirstIndex(users, p) < |users|;
    Seqs.FirstIndexAppend(users, [u], p);
    assert (users + [u])[Seqs.FirstIndex(users, p)] == users[Seqs.FirstIndex(users, p)];
  }

  /** The first registration under an e-mail is the one the lookup finds. */
  lemma FirstRegistrationFound(users: seq<User>, u: User)
    requires FindUser(users, u.email).None?
    ensures FindUser(users + [u], u.email) == Some(u)
  {
    var p := (x: User) => HasEmail(x, u.email);
    assert Seqs.FirstIndex(users, p) == |users|;
    Seqs.FirstIndexAfterNoMatch(users, [u], p);
    assert (users + [u])[|users|] == u;
  }

  // ---------------------------------------------------------------------------
  // Login decision

  datatype LoginOutcome = MalformedEmail | UnknownEmail | WrongPassword | LoggedIn

  /**
   * The branch the login handler takes: the e-mail shape first, then the lookup,
   * then the password check against the stored digest. Past failed attempts are
   * not an input: no lockout exists.
   */
  function DecideLogin(users: seq<User>, email: string, password: string, h: Hasher): (o: LoginOutcome)
    ensures o == MalformedEmail <==> !ValidateEmail(email)
    ensures o == UnknownEmail <==> ValidateEmail(email) && forall i :: 0 <= i < |users| ==> users[i].email != email
    ensures o == LoggedIn <==>
      && ValidateEmail(email)
      && (exists k :: 0 <= k < |users| && users[k].email == email && h.check(password, users[k].passwordHash)
                      && forall j :: 0 <= j < k ==> users[j].email != email)
  {
    if !ValidateEmail(email) then MalformedEmail
    else
      match FindUser(users, email)
      case None => UnknownEmail
      case Some(u) => if h.check(password, u.passwordHash) then LoggedIn else WrongPassword
  }

  // ---------------------------------------------------------------------------
  // Registration decision

  datatype RegistrationOutcome = InvalidEmail | WeakPassword(message: string) | PasswordMismatch | Registered

  /**
   * The checks of the registration handler, in the order e-mail shape, password
   * strength (reporting the first failed rule), confirmation.
   */
  function CheckRegistration(email: string, password: string, confirmation: string): (o: RegistrationOutcome)
    ensures o == Registered <==> ValidateEmail(email) && ValidatePassword(password).ok && password == confirmation
    ensures o == InvalidEmail <==> !ValidateEmail(email)
    ensures ValidateEmail(email) && !ValidatePassword(password).ok ==> o == WeakPassword(ValidatePassword(password).message)
    ensures o == PasswordMismatch <==> ValidateEmail(email) && ValidatePassword(password).ok && password != confirmation
  {
    if !ValidateEmail(email) then InvalidEmail
    else
      var verdict := ValidatePassword(password);
      if !verdict.ok then WeakPassword(verdict.message)
      else if password != confirmation then PasswordMismatch
      else Registered
  }

  /** Whoever registers under a fresh e-mail can then log in with the same password. */
  lemma RegisteredUserCanLogIn(users: seq<User>, username: string, email: string, password: string, h: Hasher, salt: nat)
    requires Sound(h)
    requires CheckRegistration(email, password, password) == Registered
    requires forall i :: 0 <= i < |users| ==> users[i].email != email
    ensures DecideLogin(users + [User(username, email, h.hash(password, salt))], email, password, h) == LoggedIn
  {
    var u := User(username, email, h.hash(password, salt));
    FirstRegistrationFound(users, u);
  }

  /**
   * A second registration under a taken e-mail never decides a login: the outcome
   * is the one the earlier record alone gives.
   */
  lemma LoginIgnoresLaterDuplicate(users: seq<User>, u: User, password: string, h: Hasher)
    requires FindUser(users, u.email).Some?
    ensures DecideLogin(users + [u], u.email, password, h) == DecideLogin(users, u.email, password, h)
  {
    DuplicateRegistrationShadowed(users, u, u.email);
  }

  // ---------------------------------------------------------------------------
  // Failed attempts

  /** `check_login_attempts`: the number of attempt records for `email` with `success` false. */
  function FailedAttempts(logins: seq<LoginAttempt>, email: string): (n: nat)
    ensures n <= |logins|
  {
    if logins == [] then 0
    else
      var last := logins[|logins| - 1];
      FailedAttempts(logins[..|logins| - 1], email) + (if last.email == email && !last.success then 1 else 0)
  }

  ghost function FailedIndices(logins: seq<LoginAttempt>, email: string): set<int> {
    set i | 0 <= i < |logins| && logins[i].email == email && !logins[i].success
  }

  /** The count is that of the matching documents, `count_documents({"email": e, "success": False})`. */
  lemma {:induction false} FailedAttemptsCountsRecords(logins: seq<LoginAttempt>, email: string)
    ensures FailedAttempts(logins, email) == |FailedIndices(logins, email)|
  {
    if logins != [] {
      var n := |logins| - 1;
      var init := logins[..n];
      FailedAttemptsCountsRecords(init, email);
      var last := logins[n];
      if last.email == email && !last.success {
        assert FailedIndices(logins, email) == FailedIndices(init, email) + {n};
        assert n !in FailedIndices(init, email);
      } else {
        assert FailedIndices(logins, email) == FailedIndices(init, email);
      }
    }
  }

  /**
   * Recording one attempt adds one matching failed record for its e-mail when it
   * failed, and none for any other e-mail or when it succeeded.
   */
  lemma FailedAttemptsAppend(logins: seq<LoginAttempt>, a: LoginAttempt, email: string)
    ensures |FailedIndices(logins + [a], email)| ==
            |FailedIndices(logins, email)| + (if a.email == email && !a.success then 1 else 0)
  {
    FailedAttemptsCountsRecords(logins + [a], email);
    FailedAttemptsCountsRecords(logins, email);
    assert (logins + [a])[..|logins|] == logins;
  }

  // ---------------------------------------------------------------------------
  // Login history

  const HistoryLimit := 10

  ghost predicate NewestFirst(s: seq<LoginAttempt>) {
    forall i, j :: 0 <= i < j < |s| ==> s[i].loginTime >= s[j].loginTime
  }

  predicate Succeeded(a: LoginAttempt) {
    a.success
  }

  /** Inserts `a` into a newest-first sequence after every attempt at least as recent. */
  function InsertByTime(a: LoginAttempt, s: seq<LoginAttempt>): (r: seq<LoginAttempt>)
    ensures multiset(r) == multiset(s) + multiset{a}
  {
    if s == [] || a.loginTime >= s[0].loginTime then [a] + s
    else
      assert s == [s[0]] + s[1..];
      [s[0]] + InsertByTime(a, s[1..])
  }

  lemma {:induction false} InsertKeepsNewestFirst(a: LoginAttempt, s: seq<LoginAttempt>)
    requires NewestFirst(s)
    ensures NewestFirst(InsertByTime(a, s))
  {
    if s == [] || a.loginTime >= s[0].loginTime {
    } else {
      var rest := InsertByTime(a, s[1..]);
      InsertKeepsNewestFirst(a, s[1..]);
      forall j | 0 <= j < |rest| ensures rest[j].loginTime <= s[0].loginTime {
        assert rest[j] in multiset(rest);
        if rest[j] != a {
          assert rest[j] in multiset(s[1..]);
          var i :| 0 <= i < |s[1..]| && s[1..][i] == rest[j];
          assert s[i + 1] == rest[j];
        }
      }
      assert InsertByTime(a, s) == [s[0]] + rest;
    }
  }

  /** `.sort("login_time", -1)`: a newest-first permutation. */
  function SortNewestFirst(s: seq<LoginAttempt>): (r: seq<LoginAttempt>)
    ensures multiset(r) == multiset(s)
    ensures NewestFirst(r)
  {
    if s == [] then []
    else
      assert s == [s[0]] + s[1..];
      var sortedTail := SortNewestFirst(s[1..]);
      InsertKeepsNewestFirst(s[0], sortedTail);
      InsertByTime(s[0], sortedTail)
  }

  /** `logins_collection.find({"success": True}).sort("login_time", -1).limit(10)`. */
  function RecentSuccessfulLogins(logins: seq<LoginAttempt>): (h: seq<LoginAttempt>)
    ensures |h| <= HistoryLimit
    ensures var successes := Seqs.Filter(logins, Succeeded);
      |h| == if |successes| < HistoryLimit then |successes| else HistoryLimit
    ensures multiset(h) <= multiset(Seqs.Filter(logins, Succeeded))
    ensures forall a :: a in h ==> a in logins && a.success
    ensures NewestFirst(h)
  {
    var successes := Seqs.Filter(logins, Succeeded);
    var sorted := SortNewestFirst(successes);
    var n := if |sorted| < HistoryLimit then |sorted| else HistoryLimit;
    SortedSuccessesPrefix(logins, sorted, n);
    sorted[..n]
  }

  /** A prefix of the sorted successes: newest first, and drawn from the log's successes without repeats. */
  lemma SortedSuccessesPrefix(logins: seq<LoginAttempt>, sorted: seq<LoginAttempt>, n: nat)
    requires multiset(sorted) == multiset(Seqs.Filter(logins, Succeeded))
    requires NewestFirst(sorted)
    requires n <= |sorted|
    ensures |sorted| == |Seqs.Filter(logins, Succeeded)|
    ensures multiset(sorted[..n]) <= multiset(Seqs.Filter(logins, Succeeded))
    ensures forall a :: a in sorted[..n] ==> a in logins && a.success
    ensures NewestFirst(sorted[..n])
  {
    var successes := Seqs.Filter(logins, Succeeded);
    Seqs.FilterCounts(logins, Succeeded);
    assert |sorted| == |successes| by {
      assert |multiset(sorted)| == |multiset(successes)|;
    }
    Seqs.PrefixSubMultiset(sorted, n);
    forall a | a in sorted[..n] ensures a in logins && a.success {
      var i :| 0 <= i < n && sorted[..n][i] == a;
      assert sorted[i] in multiset(sorted);
      assert a in Seqs.Filter(logins, Succeeded);
    }
  }

  /**
   * The history holds the latest successful attempts: it is full when ten or more
   * exist, holds every success when fewer do, and any success it leaves out, even
   * one copy of a record it shows, is no more recent than anything it shows.
   */
  lemma {:induction false} HistoryHoldsLatest(logins: seq<LoginAttempt>)
    ensures var h := RecentSuccessfulLogins(logins);
      && (|h| == HistoryLimit || forall a :: a in logins && a.success ==> a in h)
      && forall a, b :: a in logins && a.success && a !in h && b in h ==> a.loginTime <= b.loginTime
    ensures var h := RecentSuccessfulLogins(logins);
      forall a, b :: a in multiset(Seqs.Filter(logins, Succeeded)) - multiset(h) && b in h ==>
        a.loginTime <= b.loginTime
  {
    var successes := Seqs.Filter(logins, Succeeded);
    var sorted := SortNewestFirst(successes);
    var h := RecentSuccessfulLogins(logins);
    var n := |h|;
    assert h == sorted[..n];
    Seqs.FilterCounts(logins, Succeeded);
    OmittedCopiesAreOlder(sorted, n);
    forall a | a in logins && a.success && a !in h
      ensures n == HistoryLimit
      ensures forall b :: b in h ==> a.loginTime <= b.loginTime
    {
      assert a in successes;
      assert a in multiset(sorted);
      OmittedIsOlder(sorted, n, a);
    }
  }

  /** An element of a newest-first sequence that its first `n` leave out lies beyond them and is no newer. */
  lemma OmittedIsOlder(sorted: seq<LoginAttempt>, n: nat, a: LoginAttempt)
    requires NewestFirst(sorted) && n <= |sorted|
    requires a in sorted && a !in sorted[..n]
    ensures n < |sorted|
    ensures forall b :: b in sorted[..n] ==> a.loginTime <= b.loginTime
  {
    var k :| 0 <= k < |sorted| && sorted[k] == a;
    assert forall i :: 0 <= i < n ==> sorted[..n][i] == sorted[i];
    assert n <= k;
    forall b | b in sorted[..n] ensures a.loginTime <= b.loginTime {
      var i :| 0 <= i < n && sorted[..n][i] == b;
    }
  }

  /** What the first `n` of a newest-first sequence leave out, counted with repeats, is its rest, and no newer. */
  lemma OmittedCopiesAreOlder(sorted: seq<LoginAttempt>, n: nat)
    requires NewestFirst(sorted) && n <= |sorted|
    ensures multiset(sorted) - multiset(sorted[..n]) == multiset(sorted[n..])
    ensures forall a, b :: a in multiset(sorted[n..]) && b in sorted[..n] ==> a.loginTime <= b.loginTime
  {
    assert sorted == sorted[..n] + sorted[n..];
    forall a, b | a in multiset(sorted[n..]) && b in sorted[..n] ensures a.loginTime <= b.loginTime {
      var k :| 0 <= k < |sorted[n..]| && sorted[n..][k] == a;
      var i :| 0 <= i < n && sorted[..n][i] == b;
      assert sorted[n + k] == a && sorted[i] == b;
    }
  }

  /** A log holding one failed attempt counts one failure for its e-mail and has an empty history. */
  lemma SingleFailedAttempt(a: LoginAttempt)
    requires !a.success
    ensures FailedAttempts([a], a.email) == 1
    ensures RecentSuccessfulLogins([a]) == []
  {
    assert [a][..0] == [];
    FailedAttemptNotInHistory([a], a);
    var h := RecentSuccessfulLogins([a]);
    assert forall b :: b in h ==> b == a;
  }

  /** A failed attempt, whatever its time, never appears in the history. */
  lemma FailedAttemptNotInHistory(logins: seq<LoginAttempt>, a: LoginAttempt)
    requires !a.success
    ensures a !in RecentSuccessfulLogins(logins)
  {
  }
}
