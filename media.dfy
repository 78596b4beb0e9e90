/**
 * The inline-image checks shared by the profile update and the message send,
 * and the outcome of the media host's upload call.
 */
module Media {
  import opened Wrappers
  import opened Records

  /** The prefix an inline base64 image payload must start with. */
  const ImagePrefix: string := "data:image/"

  /** The longest payload whose estimated decoded size is at most 9.5 MB. */
  const MaxImageLength: nat := 13281962

  /** The detail both handlers give when the prefix is missing. */
  const FormatDetails: string := "Image must be in base64 format starting with 'data:image/'"

  /**
   * The size ceiling: length * 3/4 bytes, in MB, above 9.5. Every quantity in
   * the computation is exact in binary floating point, so exact reals give the
   * same answer; the contract states it as a bound on the length.
   */
  function ExceedsSizeLimit(length: nat): (r: bool)
    ensures r <==> length > MaxImageLength
  {
    (length as real) * (3.0 / 4.0) / (1024.0 * 1024.0) > 9.5
  }

  datatype ImageRejection = BadFormat | TooLarge

  /** The two checks in their order: prefix first, then size. None means the payload may be uploaded. */
  function CheckImage(payload: string): (r: Option<ImageRejection>)
    ensures r == Some(BadFormat) <==> !(ImagePrefix <= payload)
    ensures r == Some(TooLarge) <==> ImagePrefix <= payload && |payload| > MaxImageLength
    ensures r == None <==> ImagePrefix <= payload && |payload| <= MaxImageLength
  {
    if !(ImagePrefix <= payload) then Some(BadFormat)
    else if ExceedsSizeLimit(|payload|) then Some(TooLarge)
    else None
  }

  /** Whether a handler hands the image to the media host: present, prefixed and small enough. */
  predicate UploadAttempted(image: Option<string>)
  {
    !Falsy(image) && CheckImage(image.value).None?
  }

  /** What the media host's upload call gives back: the durable URL, or an error with an optional message. */
  datatype UploadOutcome = Uploaded(secureUrl: string) | UploadFailed(message: Option<string>)

  /** String.prototype.includes. */
  function Contains(s: string, t: string): (r: bool)
    ensures r <==> exists i :: 0 <= i <= |s| - |t| && t <= s[i..]
    decreases |s|
  {
    if |s| < |t| then false
    else if t <= s then assert s[0..] == s; true
    else if s == [] then false
    else
      var r := Contains(s[1..], t);
      assert forall i :: 1 <= i <= |s| - |t| ==> s[i..] == s[1..][i - 1..];
      if r then
        var j :| 0 <= j <= |s| - 1 - |t| && t <= s[1..][j..];
        assert s[j + 1..] == s[1..][j..];
        true
      else false
  }

  /** The profile handler's test for a misconfigured upload preset: a message that mentions "preset". */
  predicate MentionsPreset(message: Option<string>)
    ensures MentionsPreset(message) <==>
              message.Some? && exists i :: 0 <= i <= |message.value| - 6 && "preset" <= message.value[i..]
  {
    message.Some? && message.value != "" && Contains(message.value, "preset")
  }
}
