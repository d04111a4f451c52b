/**
 * The platform's handlers over one browser session and the store: the four
 * collections (`users`, `logins`, `images`, `csv_files`) and the session fields
 * (`logged_in`, `user_email`, `current_page`), each updated in place the way the
 * button handlers do.
 */
module Platform {

  import opened Wrappers
  import opened Validators
  import opened Accounts
  import opened Imports

  datatype Supplier = MdElektronik | Rosenberger

  /** The values of `current_page`; `Home` is the initial "Accueil". */
  datatype Page = Home | RegisterPage | LoginPage | OptionsPage | HistoryPage | SupplierPage(supplier: Supplier)

  /** What the image import shows: an error for a missing folder, a crash of the listing, or the count and the failures. */
  datatype ImageImportReport = FolderMissing | ListingFailed | ImagesImported(count: nat, failures: seq<string>)

  /** What the CSV import shows. */
  datatype CsvImportOutcome = InvalidCsv(message: string) | ParseFailed | NoRows | RowsImported(count: nat)

  /** A session holds an e-mail exactly when it is logged in, and that e-mail is well-formed and registered. */
  predicate SessionInvariant(loggedIn: bool, userEmail: Option<string>, users: seq<User>) {
    && (loggedIn <==> userEmail.Some?)
    && (userEmail.Some? ==> ValidateEmail(userEmail.value) && FindUser(users, userEmail.value).Some?)
  }

  class App {
    var users: seq<User>
    var logins: seq<LoginAttempt>
    var images: seq<ImageRecord>
    var csvRecords: seq<CsvRecord>

    var loggedIn: bool
    var userEmail: Option<string>
    var currentPage: Page

    /** A session is logged in exactly when it holds an e-mail, and that e-mail is a registered, well-formed one. */
    ghost predicate Valid()
      reads this
    {
      SessionInvariant(loggedIn, userEmail, users)
    }

    /** A new session over the store's current collections. */
    constructor (users: seq<User>, logins: seq<LoginAttempt>, images: seq<ImageRecord>, csvRecords: seq<CsvRecord>)
      ensures Valid()
      ensures this.users == users && this.logins == logins && this.images == images && this.csvRecords == csvRecords
      ensures !loggedIn && userEmail == None && currentPage == Home
    {
      this.users, this.logins, this.images, this.csvRecords := users, logins, images, csvRecords;
      loggedIn, userEmail, currentPage := false, None, Home;
    }

    /** `navigate_to`. */
    method Navigate(page: Page)
      requires Valid()
      modifies this
      ensures Valid()
      ensures currentPage == page
      ensures loggedIn == old(loggedIn) && userEmail == old(userEmail)
      ensures users == old(users) && logins == old(logins) && images == old(images) && csvRecords == old(csvRecords)
    {
      currentPage := page;
    }

    /** The sidebar of a logged-out session: the select box sets the page to Register or Login. */
    method ChooseAuthPage(register: bool)
      requires Valid() && !loggedIn
      modifies this
      ensures Valid()
      ensures currentPage == if register then RegisterPage else LoginPage
      ensures loggedIn == old(loggedIn) && userEmail == old(userEmail)
      ensures users == old(users) && logins == old(logins) && images == old(images) && csvRecords == old(csvRecords)
    {
      currentPage := if register then RegisterPage else LoginPage;
    }

    /**
     * The Register button: one user record, holding the digest and never the
     * password, is appended exactly when the checks pass; the page then moves to
     * Login. Any rejection leaves the store and the session as they were.
     */
    method Register(username: string, email: string, password: string, confirmation: string, h: Hasher, salt: nat)
      returns (outcome: RegistrationOutcome)
      requires Valid() && currentPage == RegisterPage
      modifies this
      ensures Valid()
      ensures outcome == CheckRegistration(email, password, confirmation)
      ensures outcome == Registered ==>
        users == old(users) + [User(username, email, h.hash(password, salt))] && currentPage == LoginPage
      ensures outcome != Registered ==> users == old(users) && currentPage == old(currentPage)
      ensures loggedIn == old(loggedIn) && userEmail == old(userEmail)
      ensures logins == old(logins) && images == old(images) && csvRecords == old(csvRecords)
    {
      if !ValidateEmail(email) {
        outcome := InvalidEmail;
      } else {
        var verdict := ValidatePassword(password);
        if !verdict.ok {
          outcome := WeakPassword(verdict.message);
        } else if password != confirmation {
          outcome := PasswordMismatch;
        } else {
          var user := User(username, email, h.hash(password, salt));
          if userEmail.Some? {
            DuplicateRegistrationShadowed(users, user, userEmail.value);
          }
          users := users + [user];
          currentPage := LoginPage;
          outcome := Registered;
        }
      }
    }

    /**
     * The Login button: a malformed e-mail records nothing; otherwise exactly one
     * attempt is appended, successful exactly when the first user with that e-mail
     * exists and the password checks, and only then does the session log in.
     */
    method Login(email: string, password: string, h: Hasher, now: nat) returns (outcome: LoginOutcome)
      requires Valid() && currentPage == LoginPage && !loggedIn
      modifies this
      ensures Valid()
      ensures outcome == DecideLogin(old(users), email, password, h)
      ensures outcome == MalformedEmail ==> logins == old(logins)
      ensures outcome != MalformedEmail ==> logins == old(logins) + [LoginAttempt(email, outcome == LoggedIn, now)]
      ensures outcome == LoggedIn ==> loggedIn && userEmail == Some(email) && currentPage == OptionsPage
      ensures outcome != LoggedIn ==> !loggedIn && userEmail == None && currentPage == LoginPage
      ensures users == old(users) && images == old(images) && csvRecords == old(csvRecords)
    {
      if !ValidateEmail(email) {
        outcome := MalformedEmail;
        return;
      }
      var user := FindUser(users, email);
      if user.None? {
        logins := logins + [LoginAttempt(email, false, now)];
        outcome := UnknownEmail;
        return;
      }
      if !h.check(password, user.value.passwordHash) {
        logins := logins + [LoginAttempt(email, false, now)];
        outcome := WrongPassword;
        return;
      }
      loggedIn := true;
      userEmail := Some(email);
      logins := logins + [LoginAttempt(email, true, now)];
      currentPage := OptionsPage;
      outcome := LoggedIn;
    }

    /** The Logout button resets the three session fields. */
    method Logout()
      requires Valid() && loggedIn
      modifies this
      ensures Valid()
      ensures !loggedIn && userEmail == None && currentPage == LoginPage
      ensures users == old(users) && logins == old(logins) && images == old(images) && csvRecords == old(csvRecords)
    {
      loggedIn := false;
      userEmail := None;
      currentPage := LoginPage;
    }

    /** The check at the end of every run of the script: a logged-out session is sent to Login. */
    method AuthGate()
      requires Valid()
      modifies this
      ensures Valid()
      ensures !loggedIn ==> currentPage == LoginPage
      ensures loggedIn ==> currentPage == old(currentPage)
      ensures loggedIn == old(loggedIn) && userEmail == old(userEmail)
      ensures users == old(users) && logins == old(logins) && images == old(images) && csvRecords == old(csvRecords)
    {
      if !loggedIn {
        currentPage := LoginPage;
      }
    }

    /**
     * The Import Images button: for an existing folder, every prior record is
     * deleted, then each listed name with an image extension is read and inserted
     * in listing order, counting the inserts; a read that fails is reported and
     * skipped. A missing folder leaves the collection alone.
     */
    method ImportImages(folder: Folder) returns (report: ImageImportReport)
      requires Valid() && loggedIn && currentPage.SupplierPage?
      modifies this
      ensures Valid()
      ensures folder == Missing ==> report == FolderMissing && images == old(images)
      ensures folder == Unlistable ==> report == ListingFailed && images == []
      ensures folder.Listing? ==>
        && images == ImportedImages(folder.entries)
        && report == ImagesImported(|images|, FailedImports(folder.entries))
        && report.count == |ImportableIndices(folder.entries)|
      ensures users == old(users) && logins == old(logins) && csvRecords == old(csvRecords)
      ensures loggedIn == old(loggedIn) && userEmail == old(userEmail) && currentPage == old(currentPage)
    {
      match folder
      case Missing =>
        report := FolderMissing;
      case Unlistable =>
        images := [];
        report := ListingFailed;
      case Listing(entries) =>
        images := [];
        var importedCount := 0;
        var failures := [];
        for i := 0 to |entries|
          invariant images == ImportedImages(entries[..i])
          invariant importedCount == |images|
          invariant failures == FailedImports(entries[..i])
          invariant users == old(users) && logins == old(logins) && csvRecords == old(csvRecords)
          invariant loggedIn == old(loggedIn) && userEmail == old(userEmail) && currentPage == old(currentPage)
        {
          var entry := entries[i];
          assert entries[..i + 1][..i] == entries[..i];
          if HasImageExtension(entry.name) {
            match entry.content
            case Some(data) =>
              images := images + [ImageRecord(entry.name, data)];
              importedCount := importedCount + 1;
            case None =>
              failures := failures + [entry.name];
          }
        }
        assert entries[..|entries|] == entries;
        ImportedImagesCount(entries);
        report := ImagesImported(importedCount, failures);
    }

    /** The Clear Images button: deletes every record and reports how many there were. */
    method ClearImages() returns (deleted: nat)
      requires Valid() && loggedIn && currentPage.SupplierPage?
      modifies this
      ensures Valid()
      ensures images == [] && deleted == |old(images)|
      ensures users == old(users) && logins == old(logins) && csvRecords == old(csvRecords)
      ensures loggedIn == old(loggedIn) && userEmail == old(userEmail) && currentPage == old(currentPage)
    {
      deleted := |images|;
      images := [];
    }

    /**
     * The Import CSV button. `parsed` is what pandas produced from the file after
     * its fallback, or `None` when parsing raised. A file the validator
     * rejects leaves the collection untouched; otherwise the collection is emptied
     * first and then receives the rows that are not entirely missing.
     */
    method ImportCsv(file: CsvFile, parsed: Option<seq<CsvRecord>>) returns (outcome: CsvImportOutcome)
      requires Valid() && loggedIn && currentPage.SupplierPage?
      modifies this
      ensures Valid()
      ensures outcome.InvalidCsv? <==> !ValidateCsvFile(file).ok
      ensures outcome.InvalidCsv? ==> outcome.message == ValidateCsvFile(file).message && csvRecords == old(csvRecords)
      ensures !outcome.InvalidCsv? ==> csvRecords == (if parsed.Some? then KeepNonBlankRows(parsed.value) else [])
      ensures outcome == ParseFailed <==> ValidateCsvFile(file).ok && parsed == None
      ensures outcome.RowsImported? ==> outcome.count == |csvRecords| > 0
      ensures outcome == NoRows ==> csvRecords == []
      ensures users == old(users) && logins == old(logins) && images == old(images)
      ensures loggedIn == old(loggedIn) && userEmail == old(userEmail) && currentPage == old(currentPage)
    {
      var verdict := ValidateCsvFile(file);
      if !verdict.ok {
        outcome := InvalidCsv(verdict.message);
        return;
      }
      csvRecords := [];
      match parsed
      case None =>
        outcome := ParseFailed;
      case Some(rows) =>
        var kept := KeepNonBlankRows(rows);
        if |kept| > 0 {
          csvRecords := kept;
          outcome := RowsImported(|kept|);
        } else {
          outcome := NoRows;
        }
    }

    /** The Clear CSV Data button: deletes every row and reports how many there were. */
    method ClearCsv() returns (deleted: nat)
      requires Valid() && loggedIn && currentPage.SupplierPage?
      modifies this
      ensures Valid()
      ensures csvRecords == [] && deleted == |old(csvRecords)|
      ensures users == old(users) && logins == old(logins) && images == old(images)
      ensures loggedIn == old(loggedIn) && userEmail == old(userEmail) && currentPage == old(currentPage)
    {
      deleted := |csvRecords|;
      csvRecords := [];
    }
  }

  /**
   * Registering with an accepted e-mail and password, then logging in with a
   * password that does not check against the stored digest: the store ends with
   * the one user and one failed attempt, the failed-attempt query over it counts
   * one, and the login history built from it is empty.
   */
  method MistypedPasswordScenario(username: string, email: string, password: string, typed: string,
                                  h: Hasher, salt: nat, now: nat)
    returns (outcome: LoginOutcome, users: seq<User>, logins: seq<LoginAttempt>,
             failed: nat, history: seq<LoginAttempt>)
    requires ValidateEmail(email) && ValidatePassword(password).ok
    requires !h.check(typed, h.hash(password, salt))
    ensures outcome == WrongPassword
    ensures users == [User(username, email, h.hash(password, salt))]
    ensures logins == [LoginAttempt(email, false, now)]
    ensures failed == FailedAttempts(logins, email) == 1
    ensures history == RecentSuccessfulLogins(logins) == []
  {
    var app := new App([], [], [], []);
    app.ChooseAuthPage(true);
    var registered := app.Register(username, email, password, password, h, salt);
    var user := User(username, email, h.hash(password, salt));
    assert app.users == [user];
    FirstRegistrationFound([], user);
    outcome := app.Login(email, typed, h, now);
    var attempt := LoginAttempt(email, false, now);
    assert app.logins == [] + [attempt];
    users, logins := app.users, app.logins;
    SingleFailedAttempt(attempt);
    failed := FailedAttempts(logins, email);
    history := RecentSuccessfulLogins(logins);
  }
}
