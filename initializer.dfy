/**
 * The prompt validators of `ahkpm init`: each takes the typed answer and
 * returns whether it is accepted and, when it is not, the message shown.
 * Also the default issue tracker derived from the repository URL.
 */
module Initializers {
  import opened Strs
  import opened Utils
  import opened Dependencies

  /** `Validator`: (is valid, message). */
  type Validator = string -> (bool, string)

  const RequiredMessage: string := "Value is required"
  const SemverMessage: string := "This is not a valid semantic version. Please see https://semver.org/"
  const GitHubMessage: string := "Please enter a valid GitHub repository URL. Other git hosts will be supported in the future."
  const YesNoMessage: string := "Please enter either \"y\" or \"n\""
  const OptionMessage: string := "That is not a valid option"

  /** A verdict accepts with an empty message, or rejects with `message`. */
  predicate Verdict(r: (bool, string), accepted: bool, message: string) {
    r.0 == accepted && r.1 == (if accepted then "" else message)
  }

  /** `validateNothing`: accepts every answer. */
  function ValidateNothing(value: string): (r: (bool, string))
    ensures Verdict(r, true, "")
  {
    (true, "")
  }

  /** `validateRequired`: rejects exactly the empty answer. */
  function ValidateRequired(value: string): (r: (bool, string))
    ensures Verdict(r, value != "", RequiredMessage)
  {
    if value == "" then (false, RequiredMessage) else (true, "")
  }

  /** `validateSemver`: accepts exactly the semantic versions `IsSemVer` recognises. */
  function ValidateSemver(value: string): (r: (bool, string))
    ensures Verdict(r, IsSemVer(value), SemverMessage)
  {
    if IsSemVer(value) then (true, "") else (false, SemverMessage)
  }

  const GitHubPrefix: string := "https://github.com/"

  /** `validateGitHub`: `^https:\/\/github\.com\/[\w-\.]+\/[\w-\.]+$`. */
  function ValidateGitHub(value: string): (r: (bool, string))
    ensures r.0 ==> HasPrefix(value, GitHubPrefix)
    ensures Verdict(r, r.0, GitHubMessage)
  {
    if HasPrefix(value, GitHubPrefix) && IsOwnerAndRepo(value[|GitHubPrefix|..]) then (true, "")
    else (false, GitHubMessage)
  }

  /** `validateYesNo`: accepts exactly "y" and "n". */
  function ValidateYesNo(value: string): (r: (bool, string))
    ensures Verdict(r, value == "y" || value == "n", YesNoMessage)
  {
    if value != "y" && value != "n" then (false, YesNoMessage) else (true, "")
  }

  /** `buildValidatorFromList`: accepts exactly the listed options. */
  function BuildValidatorFromList(options: seq<string>): (v: Validator)
    ensures forall value :: Verdict(v(value), value in options, OptionMessage)
  {
    value => if value in options then (true, "") else (false, OptionMessage)
  }

  /** `makeOptional`: accepts the empty answer and otherwise defers to `validator`. */
  function MakeOptional(validator: Validator): (v: Validator)
    ensures v("") == (true, "")
    ensures forall value :: value != "" ==> v(value) == validator(value)
  {
    value => if value == "" then (true, "") else validator(value)
  }

  /** `getDefaultIssueTracker`: the repository's issues page, or nothing without a repository. */
  function GetDefaultIssueTracker(repository: string): (tracker: string)
    ensures repository == "" <==> tracker == ""
    ensures repository != "" ==> HasSuffix(tracker, "/issues") && TrimSuffix(tracker, "/issues") == repository
  {
    if repository == "" then "" else repository + "/issues"
  }

  /** Accepted repository URLs are exactly "https://github.com/" + owner + "/" + repo. */
  lemma GitHubCharacterisation(value: string)
    ensures ValidateGitHub(value).0
        <==> exists o, r :: IsSegment(o) && IsSegment(r) && value == GitHubPrefix + o + "/" + r
  {
    OwnerAndRepoAfter(GitHubPrefix, value);
  }

  /** A repository URL is accepted exactly when the package name after "https://" is a valid one. */
  lemma GitHubUrlOfPackage(name: string)
    ensures ValidateGitHub("https://" + name).0 <==> IsValidDependencyName(name)
  {
    var url := "https://" + name;
    if |name| >= |"github.com/"| {
      assert url[..|GitHubPrefix|] == "https://" + name[..|"github.com/"|];
      assert url[|GitHubPrefix|..] == name[|"github.com/"|..];
      assert GitHubPrefix == "https://" + "github.com/";
      assert ("https://" + name[..|"github.com/"|])[|"https://"|..] == name[..|"github.com/"|];
    }
  }

  /** An optional validator rejects exactly what the validator rejects, except the empty answer. */
  lemma OptionalRejects(validator: Validator, value: string)
    ensures !MakeOptional(validator)(value).0 <==> value != "" && !validator(value).0
  {
  }

  /** Making a validator optional twice changes nothing more. */
  lemma OptionalIdempotent(validator: Validator, value: string)
    ensures MakeOptional(MakeOptional(validator))(value) == MakeOptional(validator)(value)
  {
  }

  /** The semantic-version prompt accepts the renderings of well-formed version parts and nothing else. */
  lemma SemverPromptAccepts(value: string)
    ensures ValidateSemver(value).0 <==> exists p :: ValidParts(p) && Render(p) == value
  {
    SemVerCharacterisation(value);
  }
}
