/** MIME type tests of src/util.ts: `isImageType` and `imageTypeToExtension`. */
module MimeTypes {

  const ImagePrefix: string := "image/"
  const Jpeg: string := "image/jpeg"
  const Png: string := "image/png"

  /** The characters JavaScript's `.` does not match in a regular expression. */
  predicate IsLineTerminator(c: char)
  {
    c == '\n' || c == '\r' || c == '\U{2028}' || c == '\U{2029}'
  }

  /** `/^image\/.+$/`: the prefix "image/" followed by at least one character,
      none of them a line terminator. */
  predicate IsImageType(t: string)
  {
    && |t| > |ImagePrefix|
    && t[..|ImagePrefix|] == ImagePrefix
    && forall k | |ImagePrefix| <= k < |t| :: !IsLineTerminator(t[k])
  }

  /** The subtype after "image/", or "" for anything else, with "jpeg"
      shortened to "jpg", behind a dot. */
  function ImageTypeToExtension(t: string): (ext: string)
    ensures |ext| >= 1 && ext[0] == '.'
    ensures !IsImageType(t) ==> ext == "."
    ensures t == Jpeg ==> ext == ".jpg"
    ensures IsImageType(t) && t != Jpeg ==> ext == "." + t[|ImagePrefix|..]
  {
    var extension := if IsImageType(t) then t[|ImagePrefix|..] else "";
    if extension == "jpeg" then ".jpg" else "." + extension
  }

  /** Apart from JPEG, the extension names the subtype exactly: putting
      "image/" back in front of it gives the MIME type again. */
  lemma ExtensionRecoversImageType(t: string)
    requires IsImageType(t) && t != Jpeg
    ensures ImagePrefix + ImageTypeToExtension(t)[1..] == t
  {
    var ext := ImageTypeToExtension(t);
    assert ext[1..] == t[|ImagePrefix|..];
    assert t == t[..|ImagePrefix|] + t[|ImagePrefix|..];
  }

  /** The default output type 'auto' is not an image type, while the types the
      defaults mention are. */
  lemma DefaultTypesClassified()
    ensures !IsImageType("auto") && !IsImageType("") && !IsImageType(ImagePrefix)
    ensures IsImageType(Jpeg) && IsImageType(Png)
  {
    assert Jpeg[..|ImagePrefix|] == ImagePrefix;
    assert Png[..|ImagePrefix|] == ImagePrefix;
  }
}
