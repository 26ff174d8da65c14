/** The field validators of the restaurant content forms: the banned-word check on
    a restaurant description and the `clean_image` size and extension checks. */
module ContentForms {
  import opened Wrappers
  import opened Text

  /** `BANNED_WORDS`, all lower case. */
  const BannedWords: seq<string> :=
    ["казино", "криптовалюта", "крипта", "биржа", "дешево", "бесплатно", "обман", "полиция", "радар"]

  /** The upload limit, 5 MiB. */
  const MaxImageSize: int := 5 * 1024 * 1024

  predicate IsBanned(word: string) {
    LowerString(word) in BannedWords
  }

  datatype DescriptionError = BannedWord(word: string)

  /** `RestaurantForm.clean_description`. The `return` sits inside the loop, so
      only the first word is ever looked at, and a description without any word
      leaves the loop without returning: its cleaned value becomes `None`. */
  function CleanDescription(description: string): (r: Result<Option<string>, DescriptionError>)
    ensures r.Failure? <==> |Words(description)| > 0 && IsBanned(Words(description)[0])
    ensures r.Failure? ==> r.error.word == Words(description)[0]
    ensures r == Success(None) <==> AllSpace(description)
    ensures r.Success? && r.value.Some? ==> r.value.value == description
  {
    var words := Words(description);
    if |words| == 0 then Success(None)
    else if IsBanned(words[0]) then Failure(BannedWord(words[0]))
    else Success(Some(description))
  }

  /** Some word of the description is banned: what the error message promises. */
  predicate ContainsBannedWord(description: string) {
    exists i :: 0 <= i < |Words(description)| && IsBanned(Words(description)[i])
  }

  /** The check is sound with respect to its promise: it rejects only
      descriptions that hold a banned word. */
  lemma DescriptionRejectionIsSound(d: string)
    ensures CleanDescription(d).Failure? ==> ContainsBannedWord(d)
  {
  }

  /** A banned word in any position but the first passes: a harmless first word
      followed by a banned one is accepted unchanged. */
  lemma BannedSecondWordPasses(w0: string, w1: string)
    requires |w0| > 0 && NoSpace(w0) && !IsBanned(w0)
    requires |w1| > 0 && NoSpace(w1) && IsBanned(w1)
    ensures CleanDescription(w0 + " " + w1) == Success(Some(w0 + " " + w1))
    ensures ContainsBannedWord(w0 + " " + w1)
  {
    var d := w0 + " " + w1;
    WordsOfTwo(w0, w1);
    assert IsBanned(Words(d)[1]);
  }

  /** For instance "хорошо казино" ("fine casino") is accepted. */
  lemma BannedSecondWordExample()
    ensures CleanDescription("хорошо " + "казино").Success?
    ensures ContainsBannedWord("хорошо " + "казино")
  {
    var w0, w1 := "хорошо", "казино";
    assert NoSpace(w0) && NoSpace(w1);
    assert LowerString(w1) == w1 && LowerString(w0) == w0;
    assert w0 + " " + w1 == "хорошо " + "казино";
    BannedSecondWordPasses(w0, w1);
  }

  /** A file as the form field hands it over: name and size in bytes. */
  datatype Upload = Upload(name: string, size: nat)

  datatype ImageError =
    | TooLarge
    | BadFormat
    /** `image.size` read on a missing file: an uncaught `AttributeError`. */
    | Crashed

  /** The extension test `endswith("png") or endswith("jpg")`: case-sensitive, and
      "jpeg" is not among the suffixes. */
  predicate HasImageSuffix(name: string) {
    EndsWith(name, "png") || EndsWith(name, "jpg")
  }

  /** The size test, then the extension test. */
  function CheckImage(u: Upload): (r: Result<Upload, ImageError>)
    ensures r.Success? <==> u.size <= MaxImageSize && HasImageSuffix(u.name)
    ensures r.Success? ==> r.value == u
    ensures r == Failure(TooLarge) <==> u.size > MaxImageSize
    ensures r == Failure(BadFormat) <==> u.size <= MaxImageSize && !HasImageSuffix(u.name)
  {
    if u.size > MaxImageSize then Failure(TooLarge)
    else if !HasImageSuffix(u.name) then Failure(BadFormat)
    else Success(u)
  }

  /** `clean_image` of `RestaurantForm` and `EmployeeForm`: `size` and `name` are
      read before the `if image:` guard, so a missing file crashes. */
  function CleanImageUnguarded(image: Option<Upload>): (r: Result<Option<Upload>, ImageError>)
    ensures image.None? <==> r == Failure(Crashed)
    ensures r.Success? ==> r.value == image
    ensures image.Some? ==> r.Success? == CheckImage(image.value).Success?
  {
    match image
    case None => Failure(Crashed)
    case Some(u) =>
      match CheckImage(u)
      case Success(_) => Success(image)
      case Failure(e) => Failure(e)
  }

  /** `RestaurantServiceForm.clean_image`: the guard comes first, so a missing file
      passes. */
  function CleanImageGuarded(image: Option<Upload>): (r: Result<Option<Upload>, ImageError>)
    ensures image.None? ==> r == Success(None)
    ensures r != Failure(Crashed)
    ensures r.Success? ==> r.value == image
    ensures image.Some? ==> r.Success? == CheckImage(image.value).Success?
  {
    match image
    case None => Success(None)
    case Some(u) =>
      match CheckImage(u)
      case Success(_) => Success(image)
      case Failure(e) => Failure(e)
  }

  /** The two variants agree on every present file. */
  lemma ImageVariantsAgreeOnFiles(u: Upload)
    ensures CleanImageUnguarded(Some(u)) == CleanImageGuarded(Some(u))
  {
  }

  /** The boundaries of the checks: exactly 5 MiB passes, one byte more does not;
      "jpeg" and upper-case extensions are refused. */
  lemma ImageBoundaries()
    ensures CheckImage(Upload("a.png", MaxImageSize)).Success?
    ensures CheckImage(Upload("a.png", MaxImageSize + 1)) == Failure(TooLarge)
    ensures CheckImage(Upload("a.jpeg", 1)) == Failure(BadFormat)
    ensures CheckImage(Upload("a.PNG", 1)) == Failure(BadFormat)
    ensures CheckImage(Upload("png", 1)).Success?
  {
    assert "a.png"[2..] == "png";
    assert "a.jpeg"[3..] != "jpg" && "a.jpeg"[3..] != "png";
    assert "a.PNG"[2..] != "png" && "a.PNG"[2..] != "jpg";
    assert "png"[0..] == "png";
  }
}
