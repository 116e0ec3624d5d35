/**
 * The picture-URL helper of the profile component: Google-hosted pictures
 * have every size token replaced by the 96-pixel cropped size; anything
 * else is returned as given.
 */
module UserProfile {
  import opened Text
  import opened SizeTokens

  const GoogleHost: string := "googleusercontent.com"

  /** `getProfilePictureUrl` of the profile component. */
  function ProfilePictureUrl(url: string): (r: string)
    ensures url == "" ==> r == url
    ensures !Contains(url, GoogleHost) ==> r == url
    ensures url != "" && Contains(url, GoogleHost) ==> r == Replace(url, Size96)
  {
    if url == "" then url
    else if Contains(url, GoogleHost) then Replace(url, Size96)
    else url
  }

  /** A Google URL without a size token comes back unchanged. */
  lemma UntokenedUrlUnchanged(url: string)
    requires !HasToken(url)
    ensures ProfilePictureUrl(url) == url
  {
    NoTokenUnchanged(url, Size96);
  }

  /** Rewriting a rewritten URL changes nothing more. */
  lemma ProfilePictureUrlIdempotent(url: string)
    ensures ProfilePictureUrl(ProfilePictureUrl(url)) == ProfilePictureUrl(url)
  {
    if url != "" && Contains(url, GoogleHost) {
      ReplacedIsFixed(url);
    }
  }
}
