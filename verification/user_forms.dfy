/** The validators of the user registration and profile forms: the banned-name
    check, the phone number check, the avatar check and the profile image check. */
module UserForms {
  import opened Wrappers
  import opened Text
  import opened ContentForms

  /** The registration form's `cleaned_data` fields that its validators read. */
  datatype RegisterData = RegisterData(
    username: Option<string>,
    firstName: Option<string>,
    password: Option<string>,
    passwordConfirmation: Option<string>)

  datatype RegisterOutcome =
    /** `.lower()` called on a missing value: an uncaught `AttributeError`. */
    | NameCheckCrashed
    /** The form fields the check attached an error to. */
    | Checked(errorFields: seq<string>)

  /** The fields the banned-name check marks. */
  const NameErrorFields: seq<string> := ["username", "first_name"]

  /** `RegisterUserCreationForm.clean`, the second definition, the one Python keeps.
      `username.lower() and first_name.lower() in [...]` parses as
      `username.lower() and (first_name.lower() in [...])`: the list is consulted
      only for a non-empty username, and only `first_name` is compared, exactly. */
  function RegisterClean(d: RegisterData): (r: RegisterOutcome)
    ensures r == NameCheckCrashed <==> d.username.None? || (|d.username.value| > 0 && d.firstName.None?)
    ensures r == Checked(NameErrorFields) <==>
      d.username.Some? && |d.username.value| > 0 && d.firstName.Some? && IsBanned(d.firstName.value)
    ensures r.Checked? ==> r.errorFields == [] || r.errorFields == NameErrorFields
  {
    match d.username
    case None => NameCheckCrashed
    case Some(u) =>
      if |LowerString(u)| == 0 then Checked([])
      else
        match d.firstName
        case None => NameCheckCrashed
        case Some(f) => if IsBanned(f) then Checked(NameErrorFields) else Checked([])
  }

  datatype PasswordError = PasswordsDiffer

  /** The first `clean` definition (users/forms.py, lines 13-19), which the second
      one replaces in the class body: Python keeps only the last binding. */
  function ShadowedPasswordCheck(d: RegisterData): (r: Result<RegisterData, PasswordError>)
    ensures r.Failure? <==>
      d.password.Some? && d.passwordConfirmation.Some? && |d.password.value| > 0 &&
      |d.passwordConfirmation.value| > 0 && d.password.value != d.passwordConfirmation.value
  {
    match (d.password, d.passwordConfirmation)
    case (Some(p), Some(c)) => if |p| > 0 && |c| > 0 && p != c then Failure(PasswordsDiffer) else Success(d)
    case _ => Success(d)
  }

  /** The effective `clean` never looks at the passwords: a registration whose
      passwords differ gets through, although the shadowed check would refuse it. */
  lemma MismatchedPasswordsAccepted(d: RegisterData, p: string, c: string)
    requires d.username.Some? && d.firstName.Some? && !IsBanned(d.firstName.value)
    requires |p| > 0 && |c| > 0 && p != c
    ensures RegisterClean(d.(password := Some(p), passwordConfirmation := Some(c))) == Checked([])
    ensures ShadowedPasswordCheck(d.(password := Some(p), passwordConfirmation := Some(c))).Failure?
  {
  }

  /** Only an exact (case-insensitive) match of the first name counts, and an empty
      username switches the check off. */
  lemma BannedNameExamples()
    ensures RegisterClean(RegisterData(Some("ivan"), Some("Радар"), None, None)) == Checked(NameErrorFields)
    ensures RegisterClean(RegisterData(Some("ivan"), Some("радары"), None, None)) == Checked([])
    ensures RegisterClean(RegisterData(Some(""), Some("радар"), None, None)) == Checked([])
    ensures RegisterClean(RegisterData(Some(""), None, None, None)) == Checked([])
  {
    assert LowerString("Радар") == "радар";
    assert LowerString("радары") == "радары";
    assert "радар" in BannedWords;
  }

  datatype PhoneError = NotDigits

  /** `clean_phone_number`: an empty or absent number passes; any other must be all digits. */
  function CleanPhoneNumber(phone: Option<string>): (r: Result<Option<string>, PhoneError>)
    ensures r.Success? <==> phone.None? || |phone.value| == 0 || AllDigits(phone.value)
    ensures r.Success? ==> r.value == phone
  {
    match phone
    case None => Success(phone)
    case Some(p) => if |p| > 0 && !AllDigits(p) then Failure(NotDigits) else Success(phone)
  }

  /** A leading "+" or a separator is refused; a plain digit string passes. */
  lemma PhoneExamples()
    ensures CleanPhoneNumber(Some("89001234567")).Success?
    ensures CleanPhoneNumber(Some("+79001234567")) == Failure(NotDigits)
    ensures CleanPhoneNumber(Some("900 123")) == Failure(NotDigits)
    ensures CleanPhoneNumber(Some("")).Success?
  {
    assert !IsDigit("+79001234567"[0]);
    assert !IsDigit("900 123"[3]);
  }

  /** The fields of `RegisterUserCreationForm`: the only keys its `cleaned_data` can hold. */
  const RegisterFields: set<string> :=
    {"email", "username", "avatar", "first_name", "phone_number", "password", "password_confirmation", "country"}

  /** The avatar suffixes, `endswith(("jpg", "jpeg", "png"))`. */
  predicate HasAvatarSuffix(name: string) {
    EndsWith(name, "jpg") || EndsWith(name, "jpeg") || EndsWith(name, "png")
  }

  /** `clean_avatar`: it looks the file up under the key "image", not "avatar". */
  function CleanAvatar(cleaned: map<string, Upload>): (r: Result<Option<Upload>, ImageError>)
    ensures "image" !in cleaned ==> r == Success(None)
    ensures "image" in cleaned ==>
      (r.Success? <==> cleaned["image"].size <= MaxImageSize && HasAvatarSuffix(cleaned["image"].name))
    ensures r.Success? && r.value.Some? ==> "image" in cleaned && r.value.value == cleaned["image"]
  {
    if "image" !in cleaned then Success(None)
    else
      var avatar := cleaned["image"];
      if avatar.size > MaxImageSize then Failure(TooLarge)
      else if !HasAvatarSuffix(avatar.name) then Failure(BadFormat)
      else Success(Some(avatar))
  }

  /** No field of the form is called "image", so the avatar checks never run and the
      cleaned avatar is always `None`, whatever was uploaded. */
  lemma AvatarNeverChecked(cleaned: map<string, Upload>)
    requires cleaned.Keys <= RegisterFields
    ensures CleanAvatar(cleaned) == Success(None)
  {
    assert "image" !in RegisterFields;
  }

  /** How `UserUpdateForm.clean_image` fails. Both refusals raise the
      `ValidationError` of the REST framework, imported at users/forms.py line 4,
      which is not the error Django's field cleaning catches: like the missing-file
      crash, each ends the request with an uncaught exception, never a field error. */
  datatype ProfileImageError =
    /** `image.size` read on a missing file: an uncaught `AttributeError`. */
    | MissingFileCrash
    /** The size test raised the REST framework's `ValidationError`, uncaught. */
    | UncaughtOversize
    /** The extension test raised the REST framework's `ValidationError`, uncaught. */
    | UncaughtFormat

  /** `UserUpdateForm.clean_image`: `size` and `name` are read with no guard, so a
      missing file crashes; a present one gets the size and then the extension test,
      and a failed test escapes the form as an exception. */
  function CleanProfileImage(image: Option<Upload>): (r: Result<Option<Upload>, ProfileImageError>)
    ensures image.None? <==> r == Failure(MissingFileCrash)
    ensures image.Some? ==> (r.Success? <==> image.value.size <= MaxImageSize && HasImageSuffix(image.value.name))
    ensures image.Some? && image.value.size > MaxImageSize ==> r == Failure(UncaughtOversize)
    ensures image.Some? && image.value.size <= MaxImageSize && !HasImageSuffix(image.value.name) ==>
      r == Failure(UncaughtFormat)
    ensures r.Success? ==> r.value == image
  {
    match image
    case None => Failure(MissingFileCrash)
    case Some(u) =>
      if u.size > MaxImageSize then Failure(UncaughtOversize)
      else if !HasImageSuffix(u.name) then Failure(UncaughtFormat)
      else Success(image)
  }

  /** The profile check accepts the same files as the restaurant forms' check, but
      where those report a field error the profile form raises an uncaught exception. */
  lemma ProfileImageRaisesWhereFormsRefuse(u: Upload)
    ensures CleanProfileImage(Some(u)).Success? <==> CleanImageUnguarded(Some(u)).Success?
    ensures CleanImageUnguarded(Some(u)) == Failure(TooLarge) <==> CleanProfileImage(Some(u)) == Failure(UncaughtOversize)
    ensures CleanImageUnguarded(Some(u)) == Failure(BadFormat) <==> CleanProfileImage(Some(u)) == Failure(UncaughtFormat)
  {
  }

  /** The profile image raises on "jpeg", which the avatar check would accept. */
  lemma JpegAvatarButNotProfileImage()
    ensures HasAvatarSuffix("me.jpeg")
    ensures CleanProfileImage(Some(Upload("me.jpeg", 10))) == Failure(UncaughtFormat)
  {
    assert "me.jpeg"[3..] == "jpeg";
    assert "me.jpeg"[4..] != "jpg" && "me.jpeg"[4..] != "png";
  }
}
