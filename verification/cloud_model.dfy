/** The Cloud URL record of the branding extension point and the cloud
    version enumeration it carries. */
module CloudModel {
  import opened Base

  /** The CloudVersion enumeration: the API generation a Cloud Foundry
      endpoint speaks. */
  datatype CloudVersion = V1 | V2

  /** Enum.name(). */
  function VersionName(v: CloudVersion): string {
    match v
    case V1 => "V1"
    case V2 => "V2"
  }

  /** CloudVersion.valueOf: the constant with that exact name, or the
      IllegalArgumentException that Enum.valueOf throws for any other text. */
  function ParseVersion(text: string): (r: Result<CloudVersion>)
    ensures r.Success? ==> VersionName(r.value) == text
    ensures r.Failure? ==> r.error == IllegalArgument(text) && forall v :: VersionName(v) != text
  {
    if text == "V1" then Success(V1)
    else if text == "V2" then Success(V2)
    else Failure(IllegalArgument(text))
  }

  /** valueOf inverts name(). */
  lemma ParseVersionName(v: CloudVersion)
    ensures ParseVersion(VersionName(v)) == Success(v)
  {
  }

  /** A named Cloud Foundry endpoint. Name and URL may be null (a malformed
      stored entry produces both null); the version may be null. */
  datatype CloudURL = CloudURL(
    name: Option<string>,
    url: Option<string>,
    userDefined: bool,
    version: Option<CloudVersion>)
}
