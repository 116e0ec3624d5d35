/**
 * `ImageService.validate_image`: an uploaded file is checked for its
 * extension, then its size, then whether the image library can open and
 * verify it; the first failing check decides the message.
 */
module ImageService {
  import opened Text
  import opened Wrappers

  /** Five mebibytes. */
  const MaxSize: int := 5 * 1024 * 1024

  const Extensions: seq<string> := [".jpg", ".jpeg", ".png"]

  const TypeMessage: string := "Invalid file type. Please upload a JPG or PNG image."
  const SizeMessage: string := "File size too large. Maximum size is 5MB."
  const ImageMessage: string := "Invalid image file. Please upload a valid image."

  /**
   * An uploaded file as the validator sees it: its name, its `size`
   * attribute when it has one, and whether the image library opens and
   * verifies its bytes.
   */
  datatype Upload = Upload(name: string, size: Option<int>, decodes: bool)

  /** The `(ok, message)` pair the validator returns. */
  datatype Verdict = Verdict(ok: bool, message: Option<string>)

  /** The lower-cased name ends in one of the accepted extensions. */
  predicate AllowedName(name: string) {
    exists k :: 0 <= k < |Extensions| && EndsWith(ToLower(name), Extensions[k])
  }

  predicate SizeOk(size: Option<int>) {
    size.None? || size.value <= MaxSize
  }

  /** `validate_image` */
  function ValidateImage(f: Upload): (r: Verdict)
    ensures r.ok <==> AllowedName(f.name) && SizeOk(f.size) && f.decodes
    ensures r.ok <==> r.message.None?
    ensures !AllowedName(f.name) ==> r.message == Some(TypeMessage)
    ensures AllowedName(f.name) && !SizeOk(f.size) ==> r.message == Some(SizeMessage)
    ensures AllowedName(f.name) && SizeOk(f.size) && !f.decodes ==> r.message == Some(ImageMessage)
  {
    if !AllowedName(f.name) then Verdict(false, Some(TypeMessage))
    else if f.size.Some? && f.size.value > MaxSize then Verdict(false, Some(SizeMessage))
    else if !f.decodes then Verdict(false, Some(ImageMessage))
    else Verdict(true, None)
  }

  /** The extension test ignores case: an upper-case `.JPG`, `.JPEG` or `.PNG` is accepted. */
  lemma UpperCaseExtensionsAllowed(stem: string)
    ensures AllowedName(stem + ".JPG") && AllowedName(stem + ".JPEG") && AllowedName(stem + ".PNG")
  {
    var a, b, c := stem + ".JPG", stem + ".JPEG", stem + ".PNG";
    assert ToLower(a)[|a| - 4..] == ".jpg";
    assert EndsWith(ToLower(a), Extensions[0]);
    assert ToLower(b)[|b| - 5..] == ".jpeg";
    assert EndsWith(ToLower(b), Extensions[1]);
    assert ToLower(c)[|c| - 4..] == ".png";
    assert EndsWith(ToLower(c), Extensions[2]);
  }

  /** A file of exactly five mebibytes passes the size check; one byte more does not. */
  lemma SizeBoundary(name: string)
    requires AllowedName(name)
    ensures ValidateImage(Upload(name, Some(MaxSize), true)) == Verdict(true, None)
    ensures ValidateImage(Upload(name, Some(MaxSize + 1), true)) == Verdict(false, Some(SizeMessage))
  {
  }

  /** A file without a `size` attribute is judged as if it were small enough. */
  lemma MissingSizeSkipsCheck(name: string, decodes: bool)
    ensures ValidateImage(Upload(name, None, decodes)) == ValidateImage(Upload(name, Some(0), decodes))
  {
  }
}
