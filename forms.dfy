/** blog/forms.py: what each form takes from a submission and the checks it
    adds. Each input datatype holds exactly the fields its form lists, so a
    submission cannot set anything else (an author, a post, a staff flag).
    Every text field is a form `CharField`: it strips the submitted text, and
    its cleaned value is the stripped text. */
module Forms {
  import opened Tables
  import opened Models
  import opened PyStr

  /** The fields of the four forms. */
  datatype Field =
    | Username | FirstName | LastName | Email | Password | Password2
    | Title | Text | PubDate | LocationChoice | CategoryChoice

  datatype FieldError =
    | Required(field: Field)
    | TooLong(field: Field)
    | NullCharacter(field: Field)
    | InvalidChoice(field: Field)
    | PasswordMismatch
    | DuplicateEmail
    | DuplicateUsername

  /** A bound form after `is_valid()`: its cleaned data, or its errors. */
  datatype Cleaned<T> = Clean(value: T) | Invalid(errors: set<FieldError>)

  const Nul: char := 0 as char

  /** The errors of one text field: the `CharField` a form declares, or the
      one a model form builds from a `CharField`, `TextField` or `EmailField`
      column. The submitted text is stripped first. A required field refuses
      an empty result; the validators (the length limit, and no NUL
      character) see only a non-empty one, and an empty one could not fail
      them anyway. */
  function TextErrors(name: Field, value: string, required: bool, maxLength: Option<nat>): (es: set<FieldError>)
    ensures Required(name) in es <==> required && Strip(value) == ""
    ensures TooLong(name) in es <==> maxLength.Some? && |Strip(value)| > maxLength.value
    ensures NullCharacter(name) in es <==> Nul in Strip(value)
    ensures PasswordMismatch !in es && DuplicateEmail !in es && DuplicateUsername !in es
    ensures es == {} <==>
              && (required ==> !AllSpace(value))
              && (maxLength.Some? ==> |Strip(value)| <= maxLength.value)
              && Nul !in value
  {
    var v := Strip(value);
    NulSurvivesStrip(value);
    FieldErrors(name, required && v == "", maxLength.Some? && |v| > maxLength.value, Nul in v)
  }

  /** The errors a text field reports, given which of its checks fail. */
  function FieldErrors(name: Field, blank: bool, tooLong: bool, nul: bool): (es: set<FieldError>)
    ensures Required(name) in es <==> blank
    ensures TooLong(name) in es <==> tooLong
    ensures NullCharacter(name) in es <==> nul
    ensures PasswordMismatch !in es && DuplicateEmail !in es && DuplicateUsername !in es
    ensures es == {} <==> !blank && !tooLong && !nul
  {
    (if blank then {Required(name)} else {})
    + (if tooLong then {TooLong(name)} else {})
    + (if nul then {NullCharacter(name)} else {})
  }

  /** A NUL character is not whitespace, so stripping never removes one. */
  lemma NulSurvivesStrip(s: string)
    ensures Nul in Strip(s) <==> Nul in s
  {
    StripKeeps(IsSpace, s, Nul);
  }

  /** What a required text field without a length limit accepts: something
      besides whitespace, and no NUL character. */
  predicate Filled(s: string)
  {
    !AllSpace(s) && Nul !in s
  }

  // ---------------------------------------------------------------------
  // AbstractUser.clean()

  /** A model form of the user model runs `User.full_clean()` after its own
      fields, and `AbstractUser.clean()` then rewrites two fields of the user,
      before the username's uniqueness is checked and before anything is
      saved: `normalize_username` puts the username in Unicode normal form
      NFKC, and `normalize_email` lowercases the domain of the address with
      `str.lower`. The Unicode tables behind the two are not part of this
      model: `nfkc` and `lower` stand for them. */
  datatype Unicode = Unicode(nfkc: string -> string, lower: string -> string)

  /** The index of the last `@` among the first `j` characters of `s`. */
  function LastAt(s: string, j: nat): (r: Option<nat>)
    requires j <= |s|
    ensures r.None? <==> forall i :: 0 <= i < j ==> s[i] != '@'
    ensures r.Some? ==> r.value < j && s[r.value] == '@' && forall i :: r.value < i < j ==> s[i] != '@'
    decreases j
  {
    if j == 0 then None else if s[j - 1] == '@' then Some(j - 1) else LastAt(s, j - 1)
  }

  /** `normalize_email`: an address with an `@` is stripped, split at its last
      `@` (`rsplit('@', 1)`) and put together again with the domain
      lowercased; an address without one is given back as it is. */
  function NormalizeEmail(lower: string -> string, email: string): (r: string)
    ensures (forall i :: 0 <= i < |Strip(email)| ==> Strip(email)[i] != '@') ==> r == email
    ensures (exists i :: 0 <= i < |Strip(email)| && Strip(email)[i] == '@') ==> '@' in r
  {
    var t := Strip(email);
    match LastAt(t, |t|)
    case None => email
    case Some(k) =>
      var r := t[..k] + "@" + lower(t[k + 1..]);
      assert r[k] == '@';
      r
  }

  /** A stripped address `local@domain` whose domain holds no `@` keeps its
      local part and has its domain lowercased. */
  lemma NormalizedAddress(lower: string -> string, local: string, domain: string)
    requires '@' !in domain
    requires Strip(local + "@" + domain) == local + "@" + domain
    ensures NormalizeEmail(lower, local + "@" + domain) == local + "@" + lower(domain)
  {
    var t := local + "@" + domain;
    assert t[|local|] == '@';
    var k := LastAt(t, |t|).value;
    assert k == |local|;
    assert t[..k] == local && t[k + 1..] == domain;
  }

  // ---------------------------------------------------------------------
  // UserRegistrationForm

  /** `Meta.fields` (`username`, `first_name`, `email`) and the two password fields. */
  datatype RegistrationInput = RegistrationInput(username: string, firstName: string, email: string,
                                                 password: string, password2: string)

  /** The outcome of one field's `clean_<field>` hook. */
  datatype Hook<T> = Accepted(value: T) | Rejected(error: FieldError) | Crashed

  function HasEmail(email: string): User -> bool { (u: User) => u.email == email }

  /** `clean_email`: refuse an address some existing user already has,
      otherwise hand it back unchanged. */
  function CleanEmail(users: seq<User>, email: string): (r: Hook<string>)
    ensures r.Rejected? <==> exists u :: u in users && u.email == email
    ensures r.Rejected? ==> r.error == DuplicateEmail
    ensures r.Accepted? ==> r.value == email
    ensures !r.Crashed?
  {
    if Find(users, HasEmail(email)).Some? then Rejected(DuplicateEmail) else Accepted(email)
  }

  /** `clean_password2` as written: it reads `cleaned_data['password']`, which
      is absent (`None` here) when the first password failed its own field
      checks, and the lookup then raises `KeyError`. */
  function CleanPassword2AsWritten(password: Option<string>, password2: string): (r: Hook<string>)
    ensures r.Crashed? <==> password.None?
    ensures r.Rejected? <==> password.Some? && password.value != password2
    ensures r.Accepted? ==> r.value == password2
  {
    match password
    case None => Crashed
    case Some(p) => if p != password2 then Rejected(PasswordMismatch) else Accepted(password2)
  }

  /** `clean_password2` as evidently intended: with no first password there is
      nothing to compare, and the first field's own error stands alone. */
  function CleanPassword2(password: Option<string>, password2: string): (r: Hook<string>)
    ensures !r.Crashed?
    ensures r.Rejected? <==> password.Some? && password.value != password2
    ensures r.Accepted? ==> r.value == password2
  {
    match password
    case None => Accepted(password2)
    case Some(p) => if p != password2 then Rejected(PasswordMismatch) else Accepted(password2)
  }

  /** What a successful registration stores: the form's fields and the password. */
  datatype Registration = Registration(username: string, firstName: string, email: string, password: string)

  function HasUsername(name: string): User -> bool { (u: User) => u.username == name }

  predicate UsernameTaken(users: seq<User>, name: string)
  {
    Find(users, HasUsername(name)).Some?
  }

  /** `username`: required, and unique on the user model (checked on the
      cleaned value once `AbstractUser.clean()` has normalised it, and only
      when the field itself is valid). */
  function UsernameErrors(users: seq<User>, uc: Unicode, username: string): (es: set<FieldError>)
    ensures es == {} <==> Filled(username) && !UsernameTaken(users, uc.nfkc(Strip(username)))
    ensures DuplicateUsername in es <==> Filled(username) && UsernameTaken(users, uc.nfkc(Strip(username)))
    ensures PasswordMismatch !in es && DuplicateEmail !in es
  {
    var es := TextErrors(Username, username, true, None);
    if es == {} && UsernameTaken(users, uc.nfkc(Strip(username))) then {DuplicateUsername} else es
  }

  /** `email`: optional, then `clean_email` on the cleaned value. */
  function EmailErrors(users: seq<User>, email: string): (es: set<FieldError>)
    ensures es == {} <==> Nul !in email && forall u :: u in users ==> u.email != Strip(email)
    ensures DuplicateEmail in es <==> Nul !in email && exists u :: u in users && u.email == Strip(email)
    ensures PasswordMismatch !in es
  {
    var es := TextErrors(Email, email, false, None);
    if es == {} && CleanEmail(users, Strip(email)).Rejected? then {DuplicateEmail} else es
  }

  /** The errors of the fields cleaned before `password2`, in declaration
      order: `username`, `first_name`, `email` and `password`. */
  function LeadingErrors(users: seq<User>, uc: Unicode, f: RegistrationInput): (es: set<FieldError>)
    ensures es == {} <==>
              && Filled(f.username) && !UsernameTaken(users, uc.nfkc(Strip(f.username)))
              && Nul !in f.firstName && Nul !in f.email
              && (forall u :: u in users ==> u.email != Strip(f.email))
              && Filled(f.password)
    ensures DuplicateEmail in es <==> Nul !in f.email && exists u :: u in users && u.email == Strip(f.email)
    ensures DuplicateUsername in es <==> Filled(f.username) && UsernameTaken(users, uc.nfkc(Strip(f.username)))
    ensures PasswordMismatch !in es
    ensures AllSpace(f.password) ==> Required(Password) in es
  {
    var name := UsernameErrors(users, uc, f.username);
    var first := TextErrors(FirstName, f.firstName, false, None);
    var email := EmailErrors(users, f.email);
    var password := TextErrors(Password, f.password, true, None);
    name + first + email + password
  }

  /** `cleaned_data['password']` when `clean_password2` runs: the stripped
      password, or nothing when the field failed. */
  function CleanedPassword(f: RegistrationInput): (r: Option<string>)
    ensures r.Some? <==> Filled(f.password)
    ensures r.Some? ==> r.value == Strip(f.password)
  {
    if TextErrors(Password, f.password, true, None) == {} then Some(Strip(f.password)) else None
  }

  /** What the whole registration form does with a submission: fields in
      declaration order, each hook after its field, `clean_password2` only
      once `password2` itself is valid. */
  datatype RegistrationOutcome = Registered(value: Registration) | Refused(errors: set<FieldError>) | ServerError

  /** The user a valid registration form saves: the cleaned fields, with the
      username and the email normalised by `AbstractUser.clean()`. */
  function SavedRegistration(uc: Unicode, f: RegistrationInput): Registration
  {
    Registration(uc.nfkc(Strip(f.username)), Strip(f.firstName), NormalizeEmail(uc.lower, Strip(f.email)),
                 Strip(f.password))
  }

  /** `UserRegistrationForm(data).is_valid()` as written. */
  function CleanRegistrationAsWritten(users: seq<User>, uc: Unicode, f: RegistrationInput): (r: RegistrationOutcome)
    ensures r.ServerError? <==> !Filled(f.password) && Filled(f.password2)
  {
    var lead := LeadingErrors(users, uc, f);
    var second := TextErrors(Password2, f.password2, true, None);
    if second != {} then Refused(lead + second)
    else match CleanPassword2AsWritten(CleanedPassword(f), Strip(f.password2))
      case Crashed => ServerError
      case Rejected(e) => Refused(lead + {e})
      case Accepted(p2) => if lead == {} then Registered(SavedRegistration(uc, f)) else Refused(lead)
  }

  /** `UserRegistrationForm(data).is_valid()` with the corrected `clean_password2`. */
  function CleanRegistration(users: seq<User>, uc: Unicode, f: RegistrationInput): (r: RegistrationOutcome)
    ensures !r.ServerError?
    ensures r.Refused? ==>
              (PasswordMismatch in r.errors <==>
                 Filled(f.password) && Filled(f.password2) && Strip(f.password) != Strip(f.password2))
    ensures r.Refused? ==>
              (DuplicateEmail in r.errors <==>
                 Nul !in f.email && exists u :: u in users && u.email == Strip(f.email))
    ensures r.Refused? ==>
              (DuplicateUsername in r.errors <==>
                 Filled(f.username) && UsernameTaken(users, uc.nfkc(Strip(f.username))))
    ensures r.Registered? <==>
              && Filled(f.username) && !UsernameTaken(users, uc.nfkc(Strip(f.username)))
              && Nul !in f.firstName && Nul !in f.email
              && (forall u :: u in users ==> u.email != Strip(f.email))
              && Filled(f.password) && Strip(f.password) == Strip(f.password2)
    ensures r.Registered? ==>
              r.value == Registration(uc.nfkc(Strip(f.username)), Strip(f.firstName),
                                      NormalizeEmail(uc.lower, Strip(f.email)), Strip(f.password2))
    ensures r.Refused? && AllSpace(f.password) ==> Required(Password) in r.errors
  {
    var lead := LeadingErrors(users, uc, f);
    var second := TextErrors(Password2, f.password2, true, None);
    if second != {} then
      assert !Filled(f.password2) && PasswordMismatch !in lead + second && DuplicateEmail !in second;
      assert DuplicateUsername !in second;
      Refused(lead + second)
    else match CleanPassword2(CleanedPassword(f), Strip(f.password2))
      case Crashed => assert false; ServerError
      case Rejected(e) => Refused(lead + {e})
      case Accepted(p2) => if lead == {} then Registered(SavedRegistration(uc, f)) else Refused(lead)
  }

  /** The form as written fails with a server error when the first password
      is empty, or only whitespace, and the second is not, where the
      corrected form reports the missing field. */
  lemma RegistrationKeyError(users: seq<User>, uc: Unicode)
    ensures CleanRegistrationAsWritten(users, uc, RegistrationInput("ann", "", "ann@example.org", "", "secret"))
            == ServerError
    ensures CleanRegistrationAsWritten(users, uc, RegistrationInput("ann", "", "ann@example.org", "  ", "secret"))
            == ServerError
    ensures var r := CleanRegistration(users, uc, RegistrationInput("ann", "", "ann@example.org", "  ", "secret"));
            r.Refused? && Required(Password) in r.errors && PasswordMismatch !in r.errors
  {
    assert AllSpace("  ") by { assert IsSpace(' '); }
    assert Filled("secret") by { assert !IsSpace("secret"[0]); }
  }

  /** Apart from that case the corrected form agrees with the form as written. */
  lemma RegistrationAgrees(users: seq<User>, uc: Unicode, f: RegistrationInput)
    requires !(!Filled(f.password) && Filled(f.password2))
    ensures CleanRegistration(users, uc, f) == CleanRegistrationAsWritten(users, uc, f)
  {
  }

  /** A username that differs from a stored one only before NFKC is refused
      as taken: the ligature `ﬁ` (U+FB01) where `fi` is stored. */
  lemma RegistrationFoldsUsername(users: seq<User>, uc: Unicode, u: User)
    requires u in users && u.username == "fi" && uc.nfkc([0xFB01 as char]) == "fi"
    ensures var r := CleanRegistration(users, uc, RegistrationInput([0xFB01 as char], "", "ann@example.org", "pw", "pw"));
            r.Refused? && DuplicateUsername in r.errors
  {
    var name := [0xFB01 as char];
    StripStripped(IsSpace, name);
    assert Filled(name);
    assert HasUsername("fi")(u);
    assert UsernameTaken(users, uc.nfkc(Strip(name)));
  }

  // ---------------------------------------------------------------------
  // EditProfileForm

  /** `Meta.fields`: `username`, `first_name`, `last_name`, `email`. */
  datatype ProfileInput = ProfileInput(username: string, firstName: string, lastName: string, email: string)

  function OtherWithName(self: nat, name: string): User -> bool
  {
    (u: User) => u.id != self && u.username == name
  }

  /** `EditProfileForm(data, instance=user).is_valid()`: the username is required
      and may not belong to another user; the names and the email are optional,
      and the email is not checked against other users at all. */
  function CleanProfile(users: seq<User>, uc: Unicode, self: nat, f: ProfileInput): (r: Cleaned<ProfileInput>)
    ensures r.Clean? <==>
              && Filled(f.username)
              && (forall u :: u in users && u.id != self ==> u.username != uc.nfkc(Strip(f.username)))
              && Nul !in f.firstName && Nul !in f.lastName && Nul !in f.email
    ensures r.Clean? ==>
              r.value == ProfileInput(uc.nfkc(Strip(f.username)), Strip(f.firstName), Strip(f.lastName),
                                      NormalizeEmail(uc.lower, Strip(f.email)))
  {
    var errors := ProfileNameErrors(users, uc, self, f.username) + TextErrors(FirstName, f.firstName, false, None)
                  + TextErrors(LastName, f.lastName, false, None) + TextErrors(Email, f.email, false, None);
    if errors == {} then
      Clean(ProfileInput(uc.nfkc(Strip(f.username)), Strip(f.firstName), Strip(f.lastName),
                         NormalizeEmail(uc.lower, Strip(f.email))))
    else Invalid(errors)
  }

  /** The profile's `username`: required, and, once normalised, not another
      user's (the instance being edited is left out of the uniqueness check). */
  function ProfileNameErrors(users: seq<User>, uc: Unicode, self: nat, username: string): (es: set<FieldError>)
    ensures es == {} <==>
              Filled(username) && forall u :: u in users && u.id != self ==> u.username != uc.nfkc(Strip(username))
  {
    var es := TextErrors(Username, username, true, None);
    if es == {} && Find(users, OtherWithName(self, uc.nfkc(Strip(username)))).Some? then {DuplicateUsername} else es
  }

  /** Profile editing accepts an email that another user already has. */
  lemma ProfileAcceptsTakenEmail(users: seq<User>, uc: Unicode, self: nat, other: User, f: ProfileInput)
    requires other in users && other.id != self && other.email == Strip(f.email)
    requires Filled(f.username) && forall u :: u in users && u.id != self ==> u.username != uc.nfkc(Strip(f.username))
    requires Nul !in f.firstName && Nul !in f.lastName && Nul !in f.email
    ensures CleanProfile(users, uc, self, f).Clean?
    ensures CleanEmail(users, Strip(f.email)).Rejected?
  {
  }

  // ---------------------------------------------------------------------
  // PostForm

  /** `Meta.fields`: `title`, `text`, `pub_date`, `location`, `category`,
      `is_published` (and `image`, which is not part of this model); a
      missing `pub_date` or an empty choice is `None`. */
  datatype PostInput = PostInput(title: string, text: string, pubDate: Option<Time>,
                                 location: Option<nat>, category: Option<nat>, isPublished: bool)

  /** `PostForm(data).is_valid()`: title and text required, title at most 256
      characters once stripped, publication time required, a category
      required, and both choices must name stored rows (any row, published or
      not). */
  function CleanPost(db: Db, f: PostInput): (r: Cleaned<PostInput>)
    ensures r.Clean? <==>
              && Filled(f.title) && |Strip(f.title)| <= MaxTitleLength && Filled(f.text) && f.pubDate.Some?
              && f.category.Some? && f.category.value in CategoryIds(db)
              && RefersTo(f.location, LocationIds(db))
    ensures r.Clean? ==> r.value == f.(title := Strip(f.title), text := Strip(f.text))
  {
    var title := TextErrors(Title, f.title, true, Some(MaxTitleLength));
    var text := TextErrors(Text, f.text, true, None);
    var choices := ChoiceErrors(db, f);
    if title == {} && text == {} && choices == {} then Clean(f.(title := Strip(f.title), text := Strip(f.text)))
    else Invalid(title + text + choices)
  }

  /** The errors of `pub_date`, `category` and `location`: the time and the
      category are required, and a choice must name a stored row. */
  function ChoiceErrors(db: Db, f: PostInput): (es: set<FieldError>)
    ensures es == {} <==>
              f.pubDate.Some? && f.category.Some? && f.category.value in CategoryIds(db)
              && RefersTo(f.location, LocationIds(db))
  {
    var category := f.category.Some? && f.category.value in CategoryIds(db);
    var location := RefersTo(f.location, LocationIds(db));
    (if f.pubDate.None? then {Required(PubDate)} else {})
    + (if f.category.None? then {Required(CategoryChoice)}
       else if !category then {InvalidChoice(CategoryChoice)} else {})
    + (if location then {} else {InvalidChoice(LocationChoice)})
  }

  /** Saving the form into a post: the listed fields are replaced and nothing
      else; the id, author and creation time stay. */
  function ApplyPostForm(p: Post, f: PostInput): (q: Post)
    requires f.pubDate.Some?
    ensures q.id == p.id && q.author == p.author && q.createdAt == p.createdAt
    ensures q.title == f.title && q.text == f.text && q.pubDate == f.pubDate.value
            && q.location == f.location && q.category == f.category && q.isPublished == f.isPublished
  {
    p.(title := f.title, text := f.text, pubDate := f.pubDate.value,
       location := f.location, category := f.category, isPublished := f.isPublished)
  }

  // ---------------------------------------------------------------------
  // CommentForm

  /** `Meta.fields`: `text` only. */
  datatype CommentInput = CommentInput(text: string)

  function CleanComment(f: CommentInput): (r: Cleaned<CommentInput>)
    ensures r.Clean? <==> Filled(f.text)
    ensures r.Clean? ==> r.value == CommentInput(Strip(f.text))
    ensures r.Invalid? ==> (Required(Text) in r.errors <==> AllSpace(f.text))
  {
    var errors := TextErrors(Text, f.text, true, None);
    if errors == {} then Clean(CommentInput(Strip(f.text))) else Invalid(errors)
  }

  /** A cleaned comment, submitted again, is accepted unchanged: what the
      edit page shows is what it stores back. */
  lemma CommentCleanedStable(f: CommentInput)
    requires CleanComment(f).Clean?
    ensures CleanComment(CleanComment(f).value) == CleanComment(f)
  {
    StripTwice(IsSpace, f.text);
    NulSurvivesStrip(f.text);
    NulSurvivesStrip(Strip(f.text));
  }

  /** Saving the form into a comment replaces its text and nothing else. */
  function ApplyCommentForm(c: Comment, f: CommentInput): (d: Comment)
    ensures d.id == c.id && d.post == c.post && d.author == c.author && d.createdAt == c.createdAt
    ensures d.text == f.text
  {
    c.(text := f.text)
  }
}
